/** RTP packets: the value, its wire image, and the parser. */
module RtpPackets {
  import opened ByteIo
  import opened SeqComparison
  import opened SeqLemmas

  const FIXED_LENGTH := 12
  const VERSION := 2

  datatype Option<+T> = None | Some(value: T)

  /** `length` counts 32-bit words; `content` is the buffer allocated for them. */
  datatype Extension = Extension(name: seq<byte>, length: U16, content: seq<byte>)

  datatype RtpPacket = RtpPacket(
    octet: byte, seqNum: Seq16, timestamp: U32, ssrc: U32, csrcs: seq<U32>,
    extension: Option<Extension>, payload: Option<seq<byte>>, padSize: byte)
  {
    function Marker(): int { octet / 0x80 }

    function PayloadType(): byte { octet % 0x80 }

    function PayloadBytes(): seq<byte> { if payload.Some? then payload.value else [] }

    predicate WellFormed() {
      extension.Some? ==> |extension.value.name| == 2 && |extension.value.content| == 4 * extension.value.length
    }
  }

  // ---------- the wire image ----------

  /** Version, padding and extension bits; the parser reads them the other way round. */
  function FlagsWithoutCount(hasExtension: bool, hasPadding: bool): byte {
    var v := if hasExtension then Or(0x80, 0x20) else 0x80;
    if hasPadding then Or(v, 0x10) else v
  }

  function Flags(p: RtpPacket): byte {
    Or(FlagsWithoutCount(p.extension.Some?, p.padSize > 0), |p.csrcs| % 0x100)
  }

  function FixedHeader(p: RtpPacket): (h: seq<byte>)
    ensures |h| == FIXED_LENGTH
  {
    [Flags(p), p.octet] + Image16(p.seqNum) + Image32(p.timestamp) + Image32(p.ssrc)
  }

  function CsrcImage(csrcs: seq<U32>): (r: seq<byte>)
    ensures |r| == 4 * |csrcs|
  {
    if csrcs == [] then [] else CsrcImage(csrcs[..|csrcs| - 1]) + Image32(csrcs[|csrcs| - 1])
  }

  function ExtensionImage(x: Option<Extension>): seq<byte> {
    if x.None? then [] else x.value.name + Image16(x.value.length) + x.value.content
  }

  /** Zeros, and the size in the last byte. */
  function PaddingImage(padSize: byte): (r: seq<byte>)
    ensures |r| == padSize && forall k :: 0 <= k < padSize - 1 ==> r[k] == 0
  {
    if padSize == 0 then [] else seq(padSize - 1, _ => 0) + [padSize]
  }

  function Serialized(p: RtpPacket): (bytes: seq<byte>)
    ensures |bytes| >= FIXED_LENGTH
  {
    FixedHeader(p) + CsrcImage(p.csrcs) + ExtensionImage(p.extension) + p.PayloadBytes() + PaddingImage(p.padSize)
  }

  method LoadFixedHeader(p: RtpPacket, buffer: array<byte>)
    requires buffer.Length >= FIXED_LENGTH
    modifies buffer
    ensures buffer[..FIXED_LENGTH] == FixedHeader(p)
  {
    var first: byte := 0x80;
    if p.extension.Some? { first := Or(first, 0x20); }
    if p.padSize > 0 { first := Or(first, 0x10); }
    first := Or(first, |p.csrcs| % 0x100);
    Write16(buffer, 2, p.seqNum);
    Write32(buffer, 4, p.timestamp);
    Write32(buffer, 8, p.ssrc);
    buffer[0], buffer[1] := first, p.octet;
  }

  method LoadCsrcs(csrcs: seq<U32>, buffer: array<byte>, start: nat)
    requires start + 4 * |csrcs| <= buffer.Length
    modifies buffer
    ensures buffer[..start + 4 * |csrcs|] == old(buffer[..start]) + CsrcImage(csrcs)
  {
    var pos := start;
    var i := 0;
    while i < |csrcs|
      invariant 0 <= i <= |csrcs|
      invariant pos == start + 4 * i
      invariant buffer[..pos] == old(buffer[..start]) + CsrcImage(csrcs[..i])
    {
      Write32(buffer, pos, csrcs[i]);
      assert csrcs[..i + 1][..i] == csrcs[..i];
      assert buffer[..pos + 4] == buffer[..pos] + Image32(csrcs[i]);
      pos := pos + 4;
      i := i + 1;
    }
    assert csrcs[..i] == csrcs;
  }

  method LoadExtension(x: Option<Extension>, buffer: array<byte>, start: nat) returns (pos: nat)
    requires x.Some? ==> |x.value.name| == 2
    requires start + |ExtensionImage(x)| <= buffer.Length
    modifies buffer
    ensures pos == start + |ExtensionImage(x)|
    ensures buffer[..pos] == old(buffer[..start]) + ExtensionImage(x)
  {
    hide Image16, Spliced;
    pos := start;
    if x.Some? {
      SplicedThree(buffer[..], pos, x.value.name, Image16(x.value.length), x.value.content);
      Assoc(x.value.name, Image16(x.value.length), x.value.content);
      SplicedPrefix(buffer[..], pos, ExtensionImage(x));
      CopyInto(buffer, pos, x.value.name);
      Write16(buffer, pos + 2, x.value.length);
      CopyInto(buffer, pos + 4, x.value.content);
      pos := pos + 4 + |x.value.content|;
    }
  }

  method LoadPayload(payload: Option<seq<byte>>, buffer: array<byte>, start: nat) returns (pos: nat)
    requires start + (if payload.Some? then |payload.value| else 0) <= buffer.Length
    modifies buffer
    ensures pos == start + (if payload.Some? then |payload.value| else 0)
    ensures buffer[..pos] == old(buffer[..start]) + (if payload.Some? then payload.value else [])
  {
    pos := start;
    if payload.Some? {
      CopyInto(buffer, pos, payload.value);
      pos := pos + |payload.value|;
    }
  }

  method LoadPadding(padSize: byte, buffer: array<byte>, pos: nat)
    requires pos + padSize == buffer.Length
    modifies buffer
    ensures buffer[..] == old(buffer[..pos]) + PaddingImage(padSize)
  {
    if padSize > 0 {
      CopyInto(buffer, pos, seq(padSize - 1, _ => 0));
      buffer[pos + padSize - 1] := padSize;
    }
  }

  method LoadPacket(p: RtpPacket) returns (buffer: array<byte>)
    requires p.WellFormed()
    ensures fresh(buffer) && buffer[..] == Serialized(p)
  {
    hide FixedHeader, CsrcImage, PaddingImage;
    var length := FIXED_LENGTH + 4 * |p.csrcs|;
    if p.extension.Some? { length := length + 4 + p.extension.value.length * 4; }
    if p.payload.Some? { length := length + |p.payload.value|; }
    length := length + p.padSize;
    buffer := new byte[length];
    LoadFixedHeader(p, buffer);
    LoadCsrcs(p.csrcs, buffer, FIXED_LENGTH);
    var pos := LoadExtension(p.extension, buffer, FIXED_LENGTH + 4 * |p.csrcs|);
    pos := LoadPayload(p.payload, buffer, pos);
    LoadPadding(p.padSize, buffer, pos);
  }

  // ---------- the parser ----------

  /** A CSRC is read in host (little-endian) order. */
  function HostCsrc(bytes: seq<byte>): U32
    requires |bytes| == 4
  {
    Value32([bytes[3], bytes[2], bytes[1], bytes[0]])
  }

  function HostCsrcs(bytes: seq<byte>): (r: seq<U32>)
    requires |bytes| % 4 == 0
    ensures |r| == |bytes| / 4
  {
    if bytes == [] then []
    else HostCsrcs(bytes[..|bytes| - 4]) + [HostCsrc(bytes[|bytes| - 4..])]
  }

  /** The header extension at `at`, or nothing when it does not fit. */
  function ParsedExtension(bytes: seq<byte>, at: nat): Option<Extension>
    requires at <= |bytes|
  {
    if at + 4 > |bytes| then None
    else
      var words := Value16(bytes[at + 2..at + 4]);
      if at + 4 + 4 * words > |bytes| then None
      else Some(Extension(bytes[at..at + 2], words, bytes[at + 4..at + 4 + 4 * words]))
  }

  /** The padding size when the header parsed so far ends at `at`. */
  function ParsedPadding(bytes: seq<byte>, at: nat): Option<byte>
    requires FIXED_LENGTH <= at <= |bytes|
  {
    if bytes[0] / 0x20 % 2 == 0 then Some(0)
    else if at + 1 > |bytes| then None
    else
      var pad := bytes[|bytes| - 1];
      if pad == 0 || at + pad > |bytes| then None else Some(pad)
  }

  function Assembled(bytes: seq<byte>, csrcs: seq<U32>, extension: Option<Extension>, at: nat, pad: byte): RtpPacket
    requires FIXED_LENGTH <= at && at + pad <= |bytes|
  {
    var end := |bytes| - pad;
    var payload := if end > at then Some(bytes[at..end]) else None;
    RtpPacket(bytes[1], Value16(bytes[2..4]), Value32(bytes[4..8]), Value32(bytes[8..12]),
              csrcs, extension, payload, if payload.Some? then pad else 0)
  }

  function ParsedRest(bytes: seq<byte>, csrcs: seq<U32>, extension: Option<Extension>, at: nat): Option<RtpPacket>
    requires FIXED_LENGTH <= at <= |bytes|
  {
    var pad := ParsedPadding(bytes, at);
    if pad.None? then None else Some(Assembled(bytes, csrcs, extension, at, pad.value))
  }

  function AfterExtension(at: nat, extension: Option<Extension>): nat {
    if extension.None? then at else at + 4 + 4 * extension.value.length
  }

  /** The packet read from a buffer by a freshly created packet object, `None`
      when it is rejected. The padding size is kept only when there is a payload. */
  function Parsed(bytes: seq<byte>): Option<RtpPacket> {
    if |bytes| < FIXED_LENGTH || bytes[0] / 0x40 != VERSION then None
    else
      var cc := bytes[0] % 0x10;
      var at := FIXED_LENGTH + 4 * cc;
      if cc > 0 && at > |bytes| then None
      else
        var csrcs := HostCsrcs(bytes[FIXED_LENGTH..at]);
        if bytes[0] / 0x10 % 2 == 0 then ParsedRest(bytes, csrcs, None, at)
        else
          var extension := ParsedExtension(bytes, at);
          if extension.None? then None
          else ParsedRest(bytes, csrcs, extension, AfterExtension(at, extension))
  }

  method StoreCsrcs(bytes: seq<byte>, cc: nat) returns (csrcs: seq<U32>)
    requires FIXED_LENGTH + 4 * cc <= |bytes|
    ensures csrcs == HostCsrcs(bytes[FIXED_LENGTH..FIXED_LENGTH + 4 * cc])
  {
    hide HostCsrcs, HostCsrc;
    csrcs := [];
    NoHostCsrcs(bytes, FIXED_LENGTH);
    var i := 0;
    while i < cc
      invariant 0 <= i <= cc
      invariant csrcs == HostCsrcs(bytes[FIXED_LENGTH..FIXED_LENGTH + 4 * i])
    {
      var at := FIXED_LENGTH + 4 * i;
      HostCsrcsGrow(bytes, FIXED_LENGTH, at);
      csrcs := csrcs + [HostCsrc(bytes[at..at + 4])];
      i := i + 1;
    }
  }

  lemma NoHostCsrcs(bytes: seq<byte>, at: nat)
    requires at <= |bytes|
    ensures HostCsrcs(bytes[at..at]) == []
  {
  }

  lemma HostCsrcsGrow(bytes: seq<byte>, from: nat, at: nat)
    requires from <= at && at + 4 <= |bytes| && (at - from) % 4 == 0
    ensures HostCsrcs(bytes[from..at + 4]) == HostCsrcs(bytes[from..at]) + [HostCsrc(bytes[at..at + 4])]
  {
    hide HostCsrc;
    var upto := bytes[from..at + 4];
    assert upto[..|upto| - 4] == bytes[from..at];
    assert upto[|upto| - 4..] == bytes[at..at + 4];
  }

  method StoreExtension(bytes: seq<byte>, at: nat) returns (extension: Option<Extension>)
    requires at <= |bytes|
    ensures extension == ParsedExtension(bytes, at)
  {
    if at + 4 > |bytes| { return None; }
    var words: U16 := Read16(bytes, at + 2);
    var size := words * 4;
    if at + 4 + size > |bytes| { return None; }
    extension := Some(Extension(bytes[at..at + 2], words, bytes[at + 4..at + 4 + size]));
  }

  method StoreRest(bytes: seq<byte>, csrcs: seq<U32>, extension: Option<Extension>, at: nat)
    returns (r: Option<RtpPacket>)
    requires FIXED_LENGTH <= at <= |bytes|
    ensures r == ParsedRest(bytes, csrcs, extension, at)
  {
    var pad: byte := 0;
    if bytes[0] / 0x20 % 2 == 1 {
      if at + 1 > |bytes| { return None; }
      pad := bytes[|bytes| - 1];
      if pad == 0 { return None; }
      if at + pad > |bytes| { return None; }
    }
    var payload: Option<seq<byte>> := None;
    var padSize: byte := 0;
    if |bytes| - (at + pad) > 0 {
      payload := Some(bytes[at..|bytes| - pad]);
      padSize := pad;
    }
    var seqNum := Read16(bytes, 2);
    var timestamp := Read32(bytes, 4);
    var ssrc := Read32(bytes, 8);
    r := Some(RtpPacket(bytes[1], seqNum, timestamp, ssrc, csrcs, extension, payload, padSize));
  }

  method StorePacket(bytes: seq<byte>) returns (r: Option<RtpPacket>)
    ensures r == Parsed(bytes)
  {
    if |bytes| < FIXED_LENGTH { return None; }
    if bytes[0] / 0x40 != VERSION { return None; }
    var cc := bytes[0] % 0x10;
    var parsed := FIXED_LENGTH;
    if cc > 0 {
      if parsed + 4 * cc > |bytes| { return None; }
      parsed := parsed + 4 * cc;
    }
    var extension: Option<Extension> := None;
    var csrcs := StoreCsrcs(bytes, cc);
    if bytes[0] / 0x10 % 2 == 1 {
      extension := StoreExtension(bytes, parsed);
      if extension.None? { return None; }
      parsed := AfterExtension(parsed, extension);
    }
    r := StoreRest(bytes, csrcs, extension, parsed);
  }

  // ---------- when the image reads back ----------

  function SwappedCsrcs(csrcs: seq<U32>): (r: seq<U32>)
    ensures |r| == |csrcs|
  {
    seq(|csrcs|, i requires 0 <= i < |csrcs| => HostCsrc(Image32(csrcs[i])))
  }

  /** Exactly the packets whose image the parser reads back unchanged: the
      extension and padding flags are written swapped, so both or neither must
      be set, and CSRCs change byte order on the way. */
  predicate Transparent(p: RtpPacket) {
    && |p.csrcs| <= 15
    && SwappedCsrcs(p.csrcs) == p.csrcs
    && (p.extension.Some? <==> p.padSize > 0)
    && (p.padSize > 0 ==> p.payload.Some?)
    && p.payload != Some([])
  }

  lemma {:induction false} CsrcsReadBack(csrcs: seq<U32>)
    ensures HostCsrcs(CsrcImage(csrcs)) == SwappedCsrcs(csrcs)
  {
    hide HostCsrc, HostCsrcs, Image32, SwappedCsrcs;
    if csrcs != [] {
      var init, last := csrcs[..|csrcs| - 1], csrcs[|csrcs| - 1];
      CsrcsReadBack(init);
      HostCsrcsAppend(CsrcImage(init), Image32(last));
      SwappedAppend(init, last);
      assert csrcs == init + [last];
    } else {
      NoHostCsrcs([], 0);
    }
  }

  lemma HostCsrcsAppend(bytes: seq<byte>, last: seq<byte>)
    requires |bytes| % 4 == 0 && |last| == 4
    ensures HostCsrcs(bytes + last) == HostCsrcs(bytes) + [HostCsrc(last)]
  {
    hide HostCsrc;
    JoinSlices(bytes, last);
    assert (bytes + last)[..|bytes|] == bytes && (bytes + last)[|bytes|..] == last;
  }

  lemma SwappedAppend(csrcs: seq<U32>, last: U32)
    ensures SwappedCsrcs(csrcs + [last]) == SwappedCsrcs(csrcs) + [HostCsrc(Image32(last))]
  {
    hide HostCsrc, Image32;
  }

  lemma OrNibble(high: nat, low: nat)
    requires high < 16 && low < 16
    ensures Or(high * 16, low) == high * 16 + low
  {
    assert Pow2(8) == 256 && Pow2(4) == 16;
    OrDisjoint(high, low, 4, 8);
  }

  lemma FlagsHigh(x: bool, p: bool)
    ensures FlagsWithoutCount(x, p) == (8 + (if x then 2 else 0) + (if p then 1 else 0)) * 16
  {
    assert Pow2(8) == 256 && Pow2(6) == 64 && Pow2(5) == 32;
    if x {
      OrDisjoint(2, 0x20, 6, 8);
      if p { OrDisjoint(5, 0x10, 5, 8); }
    } else {
      if p { OrDisjoint(4, 0x10, 5, 8); }
    }
  }

  lemma NibbleArithmetic(x: bool, p: bool, n: nat, v: int)
    requires n < 16 && v == (8 + (if x then 2 else 0) + (if p then 1 else 0)) * 16 + n
    ensures v / 0x40 == VERSION
    ensures v / 0x20 % 2 == 1 <==> x
    ensures v / 0x10 % 2 == 1 <==> p
    ensures v % 0x10 == n
  {
  }

  /** What the parser reads in the first octet of an image with at most 15 CSRCs. */
  lemma FlagBits(p: RtpPacket)
    requires |p.csrcs| <= 15
    ensures Flags(p) / 0x40 == VERSION
    ensures Flags(p) / 0x20 % 2 == 1 <==> p.extension.Some?
    ensures Flags(p) / 0x10 % 2 == 1 <==> p.padSize > 0
    ensures Flags(p) % 0x10 == |p.csrcs|
  {
    var x, q, n := p.extension.Some?, p.padSize > 0, |p.csrcs|;
    var high := 8 + (if x then 2 else 0) + (if q then 1 else 0);
    assert Flags(p) == high * 16 + n by {
      var v: byte := FlagsWithoutCount(x, q);
      assert v == high * 16 by { FlagsHigh(x, q); }
      assert Flags(p) == Or(v, n) by { assert n % 0x100 == n; }
      assert Or(v, n) == v + n by { OrNibble(high, n); }
    }
    NibbleArithmetic(x, q, n, Flags(p));
  }

  lemma FivePieces(a: seq<byte>, b: seq<byte>, c: seq<byte>, d: seq<byte>, e: seq<byte>, s: seq<byte>)
    requires s == a + b + c + d + e
    ensures |s| == |a| + |b| + |c| + |d| + |e|
    ensures s[..|a|] == a
    ensures s[|a|..|a| + |b|] == b
    ensures s[|a| + |b|..|a| + |b| + |c|] == c
    ensures s[|a| + |b| + |c|..|a| + |b| + |c| + |d|] == d
    ensures s[|a| + |b| + |c| + |d|..] == e
  {
  }

  /** Where each part of the image lies. */
  lemma ImageLayout(p: RtpPacket, bytes: seq<byte>, at: nat, end: nat)
    requires bytes == Serialized(p)
    requires at == FIXED_LENGTH + 4 * |p.csrcs| && end == at + |ExtensionImage(p.extension)|
    ensures |bytes| == end + |p.PayloadBytes()| + p.padSize
    ensures bytes[..FIXED_LENGTH] == FixedHeader(p)
    ensures bytes[FIXED_LENGTH..at] == CsrcImage(p.csrcs)
    ensures bytes[at..end] == ExtensionImage(p.extension)
    ensures bytes[end..|bytes| - p.padSize] == p.PayloadBytes()
    ensures p.padSize > 0 ==> bytes[|bytes| - 1] == p.padSize
  {
    FivePieces(FixedHeader(p), CsrcImage(p.csrcs), ExtensionImage(p.extension), p.PayloadBytes(), PaddingImage(p.padSize), bytes);
    if p.padSize > 0 {
      assert bytes[|bytes| - p.padSize..][p.padSize - 1] == PaddingImage(p.padSize)[p.padSize - 1];
    }
  }

  lemma HeaderFields(p: RtpPacket, bytes: seq<byte>)
    requires |bytes| >= FIXED_LENGTH && bytes[..FIXED_LENGTH] == FixedHeader(p)
    ensures bytes[0] == Flags(p) && bytes[1] == p.octet
    ensures Value16(bytes[2..4]) == p.seqNum && Value32(bytes[4..8]) == p.timestamp && Value32(bytes[8..12]) == p.ssrc
  {
    var h := bytes[..FIXED_LENGTH];
    assert bytes[0] == h[0] && bytes[1] == h[1];
    assert bytes[2..4] == h[2..4] == Image16(p.seqNum);
    assert bytes[4..8] == h[4..8] == Image32(p.timestamp);
    assert bytes[8..12] == h[8..12] == Image32(p.ssrc);
    RoundTrip32(p.timestamp);
    RoundTrip32(p.ssrc);
  }

  lemma ExtensionReadsBack(p: RtpPacket, bytes: seq<byte>, at: nat)
    requires p.WellFormed() && p.extension.Some?
    requires at + |ExtensionImage(p.extension)| <= |bytes|
    requires bytes[at..at + |ExtensionImage(p.extension)|] == ExtensionImage(p.extension)
    ensures ParsedExtension(bytes, at) == p.extension
  {
    var x := p.extension.value;
    var image := bytes[at..at + |ExtensionImage(p.extension)|];
    var end := at + |image|;
    SubSlice(bytes, at, end, 0, 2);
    SubSlice(bytes, at, end, 2, 4);
    SubSlice(bytes, at, end, 4, |image|);
    assert image[0..2] == x.name && image[2..4] == Image16(x.length) && image[4..|image|] == x.content;
  }

  /** How the parser branches on an image with at most 15 CSRCs: it takes the
      padding flag for the extension flag and the other way round. */
  lemma ParsedShape(p: RtpPacket, bytes: seq<byte>, at: nat)
    requires |p.csrcs| <= 15 && bytes == Serialized(p) && at == FIXED_LENGTH + 4 * |p.csrcs|
    ensures at <= |bytes|
    ensures bytes[0] / 0x20 % 2 == 1 <==> p.extension.Some?
    ensures var csrcs := SwappedCsrcs(p.csrcs); var x := ParsedExtension(bytes, at);
            Parsed(bytes) ==
            if p.padSize == 0 then ParsedRest(bytes, csrcs, None, at)
            else if x.None? then None
            else ParsedRest(bytes, csrcs, x, AfterExtension(at, x))
  {
    hide Flags, ParsedExtension, ParsedRest, Value16, Value32, CsrcImage, FixedHeader, Serialized;
    ImageLayout(p, bytes, at, at + |ExtensionImage(p.extension)|);
    HeaderFields(p, bytes);
    FlagBits(p);
    CsrcsReadBack(p.csrcs);
  }

  /** What follows the header reads back. */
  lemma RestReadsBack(p: RtpPacket, bytes: seq<byte>, end: nat)
    requires FIXED_LENGTH <= end && |bytes| == end + |p.PayloadBytes()| + p.padSize && bytes[1] == p.octet
    requires Value16(bytes[2..4]) == p.seqNum && Value32(bytes[4..8]) == p.timestamp && Value32(bytes[8..12]) == p.ssrc
    requires bytes[end..|bytes| - p.padSize] == p.PayloadBytes()
    requires bytes[0] / 0x20 % 2 == 1 <==> p.padSize > 0
    requires p.padSize > 0 ==> bytes[|bytes| - 1] == p.padSize && p.payload.Some?
    requires p.payload != Some([])
    ensures ParsedRest(bytes, p.csrcs, p.extension, end) == Some(p)
  {
    hide Value16, Value32;
    assert ParsedPadding(bytes, end) == Some(p.padSize);
    assert Assembled(bytes, p.csrcs, p.extension, end, p.padSize) == p;
  }

  lemma TransparentReadsBack(p: RtpPacket)
    requires p.WellFormed() && Transparent(p)
    ensures Parsed(Serialized(p)) == Some(p)
  {
    hide Parsed, Serialized, ParsedExtension, ParsedRest, SwappedCsrcs, Value16, Value32, FixedHeader, CsrcImage, PaddingImage, Flags;
    var bytes := Serialized(p);
    var at := FIXED_LENGTH + 4 * |p.csrcs|;
    var end := at + |ExtensionImage(p.extension)|;
    ImageLayout(p, bytes, at, end);
    HeaderFields(p, bytes);
    ParsedShape(p, bytes, at);
    if p.extension.Some? {
      ExtensionReadsBack(p, bytes, at);
    }
    assert end == AfterExtension(at, p.extension);
    RestReadsBack(p, bytes, end);
  }

  lemma ParsedCsrcCount(bytes: seq<byte>)
    requires Parsed(bytes).Some?
    ensures |Parsed(bytes).value.csrcs| <= 15
    ensures Parsed(bytes).value.payload != Some([])
    ensures Parsed(bytes).value.padSize > 0 ==> Parsed(bytes).value.payload.Some?
  {
  }

  lemma ReadBackIsTransparent(p: RtpPacket)
    requires p.WellFormed() && Parsed(Serialized(p)) == Some(p)
    ensures Transparent(p)
  {
    ParsedCsrcCount(Serialized(p));
    ParsedShape(p, Serialized(p), FIXED_LENGTH + 4 * |p.csrcs|);
  }

  /** Printing and parsing is the identity exactly on transparent packets. */
  lemma RoundTripExactly(p: RtpPacket)
    requires p.WellFormed()
    ensures Parsed(Serialized(p)) == Some(p) <==> Transparent(p)
  {
    if Transparent(p) {
      TransparentReadsBack(p);
    } else if Parsed(Serialized(p)) == Some(p) {
      ReadBackIsTransparent(p);
    }
  }

  // ---------- what is accepted ----------

  /** The packet of section 5.1 of RFC 3550 with these fields and `pad` bytes of padding,
      except that CSRCs are in host order. The padding is remembered only with a payload. */
  predicate Shows(bytes: seq<byte>, p: RtpPacket, pad: byte) {
    var at := FIXED_LENGTH + 4 * |p.csrcs|;
    var end := at + |ExtensionImage(p.extension)|;
    && |p.csrcs| <= 15 && |bytes| == end + |p.PayloadBytes()| + pad
    && bytes[0] == 0x80 + (if pad > 0 then 0x20 else 0) + (if p.extension.Some? then 0x10 else 0) + |p.csrcs|
    && bytes[1] == p.octet && bytes[2..4] == Image16(p.seqNum)
    && bytes[4..8] == Image32(p.timestamp) && bytes[8..12] == Image32(p.ssrc)
    && bytes[FIXED_LENGTH..at] == HostImage(p.csrcs)
    && bytes[at..end] == ExtensionImage(p.extension)
    && bytes[end..|bytes| - pad] == p.PayloadBytes()
    && (pad > 0 ==> bytes[|bytes| - 1] == pad)
    && p.payload != Some([]) && p.padSize == if p.payload.Some? then pad else 0
  }

  /** CSRCs with the least significant byte first. */
  function HostImage(csrcs: seq<U32>): (r: seq<byte>)
    ensures |r| == 4 * |csrcs|
  {
    if csrcs == [] then [] else HostImage(csrcs[..|csrcs| - 1]) + Host32(csrcs[|csrcs| - 1])
  }

  lemma HostCsrcShown(bytes: seq<byte>, v: U32)
    requires |bytes| == 4
    ensures HostCsrc(bytes) == v <==> bytes == Host32(v)
  {
    Shown32([bytes[3], bytes[2], bytes[1], bytes[0]], v);
  }

  lemma {:induction false} HostCsrcsShown(bytes: seq<byte>, csrcs: seq<U32>)
    requires |bytes| == 4 * |csrcs|
    ensures HostCsrcs(bytes) == csrcs <==> bytes == HostImage(csrcs)
  {
    hide HostCsrc, Host32;
    if csrcs != [] {
      var n, m := |bytes| - 4, |csrcs| - 1;
      HostCsrcsShown(bytes[..n], csrcs[..m]);
      HostCsrcShown(bytes[n..], csrcs[m]);
      SplitAt(bytes, n);
      SameParts(bytes[..n], bytes[n..], HostImage(csrcs[..m]), Host32(csrcs[m]));
      SameParts(HostCsrcs(bytes[..n]), [HostCsrc(bytes[n..])], csrcs[..m], [csrcs[m]]);
      assert csrcs == csrcs[..m] + [csrcs[m]];
    }
  }

  /** The first octet, bit by bit. */
  lemma FirstOctet(v: byte, hasPadding: bool, hasExtension: bool, cc: nat)
    requires cc <= 15
    ensures v == 0x80 + (if hasPadding then 0x20 else 0) + (if hasExtension then 0x10 else 0) + cc <==>
            && v / 0x40 == VERSION && v % 0x10 == cc
            && (v / 0x20 % 2 == 1 <==> hasPadding) && (v / 0x10 % 2 == 1 <==> hasExtension)
  {
  }

  lemma ExtensionShown(bytes: seq<byte>, at: nat, x: Extension)
    requires at <= |bytes| && |x.name| == 2 && |x.content| == 4 * x.length
    ensures ParsedExtension(bytes, at) == Some(x) <==>
            at + 4 + 4 * x.length <= |bytes| && bytes[at..at + 4 + 4 * x.length] == ExtensionImage(Some(x))
  {
    hide Value16, Image16;
    if at + 4 <= |bytes| {
      Shown16(bytes[at + 2..at + 4], x.length);
      if at + 4 + 4 * x.length <= |bytes| {
        var end := at + 4 + 4 * x.length;
        var image := bytes[at..end];
        assert image == bytes[at..at + 2] + bytes[at + 2..at + 4] + bytes[at + 4..end];
        SubSlice(bytes, at, end, 0, 2);
        SubSlice(bytes, at, end, 2, 4);
        SubSlice(bytes, at, end, 4, 4 + 4 * x.length);
        var e := ExtensionImage(Some(x));
        assert e[0..2] == x.name && e[2..4] == Image16(x.length) && e[4..4 + 4 * x.length] == x.content;
      }
    }
  }

  /** What ends a packet, once its header is read. */
  lemma RestShown(bytes: seq<byte>, csrcs: seq<U32>, x: Option<Extension>, end: nat, p: RtpPacket)
    requires FIXED_LENGTH <= end <= |bytes|
    ensures ParsedRest(bytes, csrcs, x, end) == Some(p) <==>
            && p.csrcs == csrcs && p.extension == x && bytes[1] == p.octet
            && Value16(bytes[2..4]) == p.seqNum && Value32(bytes[4..8]) == p.timestamp && Value32(bytes[8..12]) == p.ssrc
            && p.payload != Some([])
            && exists pad: byte :: EndsWith(bytes, p, end, pad)
  {
    hide Value16, Value32;
    if ParsedRest(bytes, csrcs, x, end) == Some(p) {
      assert EndsWith(bytes, p, end, ParsedPadding(bytes, end).value);
    }
    if pad: byte :| EndsWith(bytes, p, end, pad) {
      assert ParsedPadding(bytes, end) == Some(pad);
    }
  }

  predicate EndsWith(bytes: seq<byte>, p: RtpPacket, end: nat, pad: byte) {
    && |bytes| == end + |p.PayloadBytes()| + pad && bytes != []
    && bytes[end..|bytes| - pad] == p.PayloadBytes()
    && (bytes[0] / 0x20 % 2 == 1 <==> pad > 0) && (pad > 0 ==> bytes[|bytes| - 1] == pad)
    && p.padSize == if p.payload.Some? then pad else 0
  }

  lemma FieldsShown(bytes: seq<byte>, p: RtpPacket)
    requires |bytes| >= FIXED_LENGTH
    ensures Value16(bytes[2..4]) == p.seqNum && Value32(bytes[4..8]) == p.timestamp && Value32(bytes[8..12]) == p.ssrc <==>
            bytes[2..4] == Image16(p.seqNum) && bytes[4..8] == Image32(p.timestamp) && bytes[8..12] == Image32(p.ssrc)
  {
    hide Value16, Value32, Image16, Image32;
    Shown16(bytes[2..4], p.seqNum);
    Shown32(bytes[4..8], p.timestamp);
    Shown32(bytes[8..12], p.ssrc);
  }

  lemma ShownParses(bytes: seq<byte>, p: RtpPacket, pad: byte)
    requires p.WellFormed() && Shows(bytes, p, pad)
    ensures Parsed(bytes) == Some(p)
  {
    hide Value16, Value32, Image16, Image32, ParsedExtension, ParsedRest, ExtensionImage, HostCsrcs, HostImage;
    var at := FIXED_LENGTH + 4 * |p.csrcs|;
    var end := at + |ExtensionImage(p.extension)|;
    FirstOctet(bytes[0], pad > 0, p.extension.Some?, |p.csrcs|);
    FieldsShown(bytes, p);
    HostCsrcsShown(bytes[FIXED_LENGTH..at], p.csrcs);
    ExtensionSize(p);
    if p.extension.Some? {
      ExtensionShown(bytes, at, p.extension.value);
    }
    assert EndsWith(bytes, p, end, pad);
    RestShown(bytes, p.csrcs, p.extension, end, p);
  }

  lemma ExtensionSize(p: RtpPacket)
    requires p.WellFormed()
    ensures |ExtensionImage(p.extension)| == if p.extension.None? then 0 else 4 + 4 * p.extension.value.length
  {
  }

  /** The way the parser took. */
  lemma ParsedHead(bytes: seq<byte>, p: RtpPacket) returns (x: Option<Extension>)
    requires Parsed(bytes) == Some(p)
    ensures |bytes| >= FIXED_LENGTH && bytes[0] / 0x40 == VERSION
    ensures var at := FIXED_LENGTH + 4 * (bytes[0] % 0x10);
            && at <= |bytes| && (x.Some? <==> bytes[0] / 0x10 % 2 == 1) && (x.Some? ==> x == ParsedExtension(bytes, at))
            && AfterExtension(at, x) <= |bytes|
            && ParsedRest(bytes, HostCsrcs(bytes[FIXED_LENGTH..at]), x, AfterExtension(at, x)) == Some(p)
  {
    hide ParsedRest, HostCsrcs, Value16;
    x := if bytes[0] / 0x10 % 2 == 0 then None else ParsedExtension(bytes, FIXED_LENGTH + 4 * (bytes[0] % 0x10));
  }

  lemma HeadShown(bytes: seq<byte>, p: RtpPacket, pad: byte, at: nat, end: nat)
    requires FIXED_LENGTH <= at <= end <= |bytes| && EndsWith(bytes, p, end, pad) && p.payload != Some([])
    requires at == FIXED_LENGTH + 4 * |p.csrcs| && end == at + |ExtensionImage(p.extension)|
    requires bytes[0] / 0x40 == VERSION && bytes[0] % 0x10 == |p.csrcs| && (bytes[0] / 0x10 % 2 == 1 <==> p.extension.Some?)
    requires bytes[1] == p.octet && bytes[2..4] == Image16(p.seqNum)
    requires bytes[4..8] == Image32(p.timestamp) && bytes[8..12] == Image32(p.ssrc)
    requires bytes[FIXED_LENGTH..at] == HostImage(p.csrcs) && bytes[at..end] == ExtensionImage(p.extension)
    ensures Shows(bytes, p, pad)
  {
    hide Image16, Image32, HostImage, ExtensionImage;
    FirstOctet(bytes[0], pad > 0, p.extension.Some?, |p.csrcs|);
  }

  lemma ParsedShown(bytes: seq<byte>, p: RtpPacket) returns (pad: byte)
    requires Parsed(bytes) == Some(p)
    ensures p.WellFormed() && Shows(bytes, p, pad)
  {
    hide Parsed, Value16, Value32, Image16, Image32, ParsedRest, ParsedExtension, ExtensionImage, HostCsrcs, HostImage, Shows;
    var x := ParsedHead(bytes, p);
    var at := FIXED_LENGTH + 4 * (bytes[0] % 0x10);
    var end := AfterExtension(at, x);
    RestShown(bytes, HostCsrcs(bytes[FIXED_LENGTH..at]), x, end, p);
    pad :| EndsWith(bytes, p, end, pad);
    if x.Some? {
      ExtensionFound(bytes, at);
      ExtensionShown(bytes, at, x.value);
    } else {
      NoExtension(bytes, at);
    }
    ExtensionSize(p);
    FieldsShown(bytes, p);
    HostCsrcsShown(bytes[FIXED_LENGTH..at], p.csrcs);
    HeadShown(bytes, p, pad, at, end);
  }

  lemma ExtensionFound(bytes: seq<byte>, at: nat)
    requires at <= |bytes| && ParsedExtension(bytes, at).Some?
    ensures var x := ParsedExtension(bytes, at).value; |x.name| == 2 && |x.content| == 4 * x.length
  {
  }

  lemma NoExtension(bytes: seq<byte>, at: nat)
    requires at <= |bytes|
    ensures bytes[at..at] == ExtensionImage(None)
  {
  }

  /** What the parser accepts, and as what: exactly the images of section 5.1 of RFC
      3550, with whatever bytes before the last one of the padding. */
  lemma ParsedExactly(bytes: seq<byte>, p: RtpPacket)
    ensures Parsed(bytes) == Some(p) <==> p.WellFormed() && exists pad: byte :: Shows(bytes, p, pad)
  {
    hide Parsed, Shows;
    if Parsed(bytes) == Some(p) {
      var pad := ParsedShown(bytes, p);
    }
    if p.WellFormed() && exists pad: byte :: Shows(bytes, p, pad) {
      var pad: byte :| Shows(bytes, p, pad);
      ShownParses(bytes, p, pad);
    }
  }

  // ---------- copies ----------

  /** The copy made from another packet object: CSRCs pass through one octet. */
  function Copied(p: RtpPacket): RtpPacket {
    p.(csrcs := seq(|p.csrcs| % 0x100, i requires 0 <= i < |p.csrcs| => p.csrcs[i] % 0x100))
  }

  lemma CopyIsExact(p: RtpPacket)
    ensures Copied(p) == p <==> |p.csrcs| < 0x100 && forall i :: 0 <= i < |p.csrcs| ==> p.csrcs[i] < 0x100
  {
    if |p.csrcs| < 0x100 && forall i :: 0 <= i < |p.csrcs| ==> p.csrcs[i] < 0x100 {
      assert Copied(p).csrcs == p.csrcs;
    } else {
      var c := Copied(p).csrcs;
      assert |c| == |p.csrcs| % 0x100;
      assert forall i :: 0 <= i < |c| ==> c[i] < 0x100;
    }
  }
}
