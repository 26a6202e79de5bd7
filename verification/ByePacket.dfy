/** BYE packets (section 6.6 of RFC 3550). */
module ByePacket {
  import opened ByteIo
  import opened RtpPackets
  import opened SeqLemmas
  import opened RtcpHeader
  import opened SdesPacket

  const BYE_TYPE := 203
  const MAX_CSRCS := 30

  datatype ByeBlock = ByeBlock(senderSsrc: U32, csrcs: seq<U32>, reason: seq<byte>)
  {
    predicate Valid() {
      |csrcs| <= MAX_CSRCS && |reason| <= 0xff
    }
  }

  /** The words a reason takes, its length byte included. */
  function ReasonWords(length: nat): nat {
    if length == 0 then 0 else length / 4 + 1
  }

  function ReasonImage(reason: seq<byte>): (bytes: seq<byte>)
    requires |reason| <= 0xff
    ensures |bytes| == 4 * ReasonWords(|reason|)
  {
    if reason == [] then [] else [|reason|] + reason + Zeros(3 - |reason| % 4)
  }

  function SourcesImage(b: ByeBlock): (bytes: seq<byte>)
    ensures |bytes| == 4 * (1 + |b.csrcs|)
  {
    Image32(b.senderSsrc) + CsrcImage(b.csrcs)
  }

  function ByePayload(b: ByeBlock): (bytes: seq<byte>)
    requires b.Valid()
    ensures |bytes| == 4 * (1 + |b.csrcs| + ReasonWords(|b.reason|))
  {
    SourcesImage(b) + ReasonImage(b.reason)
  }

  function ByeLength(b: ByeBlock): nat {
    HEADER_LENGTH + 4 * (1 + |b.csrcs| + ReasonWords(|b.reason|))
  }

  function ByeImage(b: ByeBlock): (bytes: seq<byte>)
    requires b.Valid()
    ensures |bytes| == ByeLength(b)
  {
    HeaderImage(1 + |b.csrcs|, BYE_TYPE, |ByePayload(b)| / 4) + ByePayload(b)
  }

  // ---------- parsing ----------

  /** The first `count` sources. */
  function SourcesOf(bytes: seq<byte>, count: nat): (r: seq<U32>)
    requires 4 * count <= |bytes|
    ensures |r| == count
  {
    if count == 0 then [] else SourcesOf(bytes, count - 1) + [Value32(bytes[4 * count - 4..4 * count])]
  }

  function ReasonOf(h: CommonHeader): Option<seq<byte>>
    requires 4 * h.count <= |h.payload|
  {
    var at := 4 * h.count;
    if |h.payload| == at then Some([])
    else if |h.payload| - at - 1 < h.payload[at] then None
    else Some(h.payload[at + 1..at + 1 + h.payload[at]])
  }

  function ParsedBye(h: CommonHeader): (r: Option<ByeBlock>)
    ensures r.Some? && h.count <= MAX_COUNT ==> r.value.Valid()
  {
    if h.packetType != BYE_TYPE || |h.payload| < 4 * h.count then None
    else
      var reason := ReasonOf(h);
      if reason.None? then None
      else if h.count == 0 then Some(ByeBlock(0, [], reason.value))
      else
        var sources := SourcesOf(h.payload, h.count);
        Some(ByeBlock(sources[0], sources[1..], reason.value))
  }

  // ---------- the round trip ----------

  lemma {:induction false} SourcesReadBack(csrcs: seq<U32>, rest: seq<byte>)
    ensures SourcesOf(CsrcImage(csrcs) + rest, |csrcs|) == csrcs
  {
    if csrcs != [] {
      var n := |csrcs| - 1;
      var before, last := CsrcImage(csrcs[..n]), Image32(csrcs[n]);
      Assoc(before, last, rest);
      SourcesReadBack(csrcs[..n], last + rest);
      var all := before + (last + rest);
      assert all[4 * n..4 * n + 4] == last;
      RoundTrip32(csrcs[n]);
    }
  }

  lemma {:induction false} CsrcImageCons(x: U32, csrcs: seq<U32>)
    ensures CsrcImage([x] + csrcs) == Image32(x) + CsrcImage(csrcs)
  {
    if csrcs == [] {
      EmptyRight([x]);
      EmptyRight(Image32(x));
      EmptyLeft(Image32(x));
      assert [x][..0] == [];
    } else {
      var n := |csrcs| - 1;
      assert ([x] + csrcs)[..n + 1] == [x] + csrcs[..n];
      CsrcImageCons(x, csrcs[..n]);
      Assoc(Image32(x), CsrcImage(csrcs[..n]), Image32(csrcs[n]));
    }
  }

  lemma ReasonReadsBack(h: CommonHeader, b: ByeBlock)
    requires b.Valid() && h.payload == ByePayload(b) && h.count == 1 + |b.csrcs|
    ensures ReasonOf(h) == Some(b.reason)
  {
    var at, n := 4 * h.count, |b.reason|;
    JoinSlices(SourcesImage(b), ReasonImage(b.reason));
    if n > 0 {
      var image := ReasonImage(b.reason);
      assert image[0] == n && image[1..1 + n] == b.reason;
      assert h.payload[at..at + |image|] == image;
      SubSlice(h.payload, at, at + |image|, 1, 1 + n);
      assert h.payload[at] == h.payload[at..at + |image|][0];
    }
  }

  /** Parsing what was printed gives the same packet. */
  lemma ByePayloadReadsBack(b: ByeBlock)
    requires b.Valid()
    ensures ParsedBye(CommonHeader(BYE_TYPE, 1 + |b.csrcs|, ByePayload(b))) == Some(b)
  {
    var h := CommonHeader(BYE_TYPE, 1 + |b.csrcs|, ByePayload(b));
    ReasonReadsBack(h, b);
    CsrcImageCons(b.senderSsrc, b.csrcs);
    SourcesReadBack([b.senderSsrc] + b.csrcs, ReasonImage(b.reason));
    assert ([b.senderSsrc] + b.csrcs)[1..] == b.csrcs;
  }

  lemma {:induction false} SourcesShown(bytes: seq<byte>, csrcs: seq<U32>)
    requires 4 * |csrcs| <= |bytes|
    ensures SourcesOf(bytes, |csrcs|) == csrcs <==> bytes[..4 * |csrcs|] == CsrcImage(csrcs)
  {
    hide Value32, Image32;
    if csrcs != [] {
      var n := |csrcs| - 1;
      SourcesShown(bytes, csrcs[..n]);
      Shown32(bytes[4 * n..4 * n + 4], csrcs[n]);
      assert bytes[..4 * |csrcs|] == bytes[..4 * n] + bytes[4 * n..4 * n + 4];
      SameParts(bytes[..4 * n], bytes[4 * n..4 * n + 4], CsrcImage(csrcs[..n]), Image32(csrcs[n]));
      SameParts(SourcesOf(bytes, n), [Value32(bytes[4 * n..4 * n + 4])], csrcs[..n], [csrcs[n]]);
      assert csrcs == csrcs[..n] + [csrcs[n]];
    }
  }

  /** A packet of BYE type with these sources, the sender's first; behind them nothing, or
      the length of a reason, the reason and whatever follows it. */
  predicate SaysBye(h: CommonHeader, b: ByeBlock) {
    var at := 4 * h.count;
    && h.packetType == 203 && at <= |h.payload|
    && (if h.count == 0 then b.senderSsrc == 0 && b.csrcs == []
        else |b.csrcs| == h.count - 1 && h.payload[..at] == SourcesImage(b))
    && if |h.payload| == at then b.reason == []
       else h.payload[at] == |b.reason| && [h.payload[at]] + b.reason <= h.payload[at..]
  }

  lemma ReasonShown(h: CommonHeader, reason: seq<byte>)
    requires 4 * h.count < |h.payload|
    ensures var at := 4 * h.count;
            ReasonOf(h) == Some(reason) <==> h.payload[at] == |reason| && [h.payload[at]] + reason <= h.payload[at..]
  {
    var at, n := 4 * h.count, |reason|;
    var tail := h.payload[at..];
    if n < |tail| {
      assert tail[..1 + n] == [tail[0]] + tail[1..1 + n];
      assert tail[1..1 + n] == h.payload[at + 1..at + 1 + n];
      SameParts([tail[0]], tail[1..1 + n], [h.payload[at]], reason);
    }
  }

  /** What the parser accepts, and as what. */
  lemma ByeExactly(h: CommonHeader, b: ByeBlock)
    ensures ParsedBye(h) == Some(b) <==> SaysBye(h, b)
  {
    hide SourcesOf, CsrcImage, ReasonOf;
    var at := 4 * h.count;
    if at <= |h.payload| {
      if at < |h.payload| {
        ReasonShown(h, b.reason);
      } else {
        NoReason(h);
      }
      var all := [b.senderSsrc] + b.csrcs;
      if h.count > 0 && |all| == h.count {
        SourcesShown(h.payload, all);
        CsrcImageCons(b.senderSsrc, b.csrcs);
        var sources := SourcesOf(h.payload, h.count);
        assert sources == [sources[0]] + sources[1..];
      }
    }
  }

  lemma NoReason(h: CommonHeader)
    requires 4 * h.count == |h.payload|
    ensures ReasonOf(h) == Some([])
  {
  }

  lemma ByeReadsBack(b: ByeBlock, rest: seq<byte>)
    requires b.Valid()
    ensures ParsedHeader(ByeImage(b) + rest) == Some(CommonHeader(BYE_TYPE, 1 + |b.csrcs|, ByePayload(b)))
    ensures ParsedBye(CommonHeader(BYE_TYPE, 1 + |b.csrcs|, ByePayload(b))) == Some(b)
  {
    HeaderReadsBack(1 + |b.csrcs|, BYE_TYPE, ByePayload(b), rest);
    ByePayloadReadsBack(b);
  }

  /** The image in the order in which it is written. */
  lemma ByePieces(b: ByeBlock, s0: seq<byte>, s1: seq<byte>, s2: seq<byte>, s3: seq<byte>, start: nat)
    requires b.Valid() && start + ByeLength(b) <= |s0|
    requires s1 == Spliced(s0, start, HeaderImage(1 + |b.csrcs|, BYE_TYPE, (ByeLength(b) - HEADER_LENGTH) / 4))
    requires s2 == Spliced(s1, start + HEADER_LENGTH, SourcesImage(b))
    requires s3 == Spliced(s2, start + HEADER_LENGTH + 4 * (1 + |b.csrcs|), ReasonImage(b.reason))
    ensures s3 == Spliced(s0, start, ByeImage(b))
  {
    SplicedThree(s0, start, HeaderImage(1 + |b.csrcs|, BYE_TYPE, |ByePayload(b)| / 4), SourcesImage(b), ReasonImage(b.reason));
  }

  // ---------- the packet object ----------

  class Bye {
    var senderSsrc: U32
    var csrcs: seq<U32>
    var reason: seq<byte>

    function Block(): ByeBlock
      reads this
    {
      ByeBlock(senderSsrc, csrcs, reason)
    }

    constructor (senderSsrc: U32)
      ensures Block() == ByeBlock(senderSsrc, [], [])
    {
      this.senderSsrc := senderSsrc;
      csrcs, reason := [], [];
    }

    method SetReason(reason: seq<byte>) returns (ok: bool)
      modifies this
      ensures ok <==> |reason| <= 0xff
      ensures Block() == if ok then old(Block()).(reason := reason) else old(Block())
    {
      if |reason| > 0xff { return false; }
      this.reason := reason;
      return true;
    }

    method SetCsrcs(csrcs: seq<U32>) returns (ok: bool)
      modifies this
      ensures ok <==> |csrcs| <= MAX_CSRCS
      ensures Block() == if ok then old(Block()).(csrcs := csrcs) else old(Block())
    {
      if |csrcs| > MAX_CSRCS { return false; }
      this.csrcs := csrcs;
      return true;
    }

    /** Refused when there is no room; otherwise writes exactly the length announced. */
    method LoadPacket(buffer: array<byte>, start: nat, maxLength: nat) returns (ok: bool, pos: nat)
      requires Block().Valid() && maxLength <= buffer.Length
      modifies buffer
      ensures ok <==> start + ByeLength(Block()) <= maxLength
      ensures !ok ==> pos == start && buffer[..] == old(buffer[..])
      ensures ok ==> pos == start + ByeLength(Block()) && buffer[..] == Spliced(old(buffer[..]), start, ByeImage(Block()))
    {
      hide Spliced, ReasonImage, HeaderImage, CsrcImage;
      pos := start;
      if start + ByeLength(Block()) > maxLength { return false, pos; }
      ghost var b, s0 := Block(), buffer[..];
      pos := CreateHeader(buffer, start, 1 + |csrcs|, BYE_TYPE, (ByeLength(Block()) - HEADER_LENGTH) / 4);
      ghost var s1 := buffer[..];
      pos := LoadSources(buffer, pos);
      ghost var s2 := buffer[..];
      pos := LoadReason(buffer, pos);
      ByePieces(b, s0, s1, s2, buffer[..], start);
      return true, pos;
    }

    method LoadSources(buffer: array<byte>, start: nat) returns (pos: nat)
      requires start + 4 * (1 + |csrcs|) <= buffer.Length
      modifies buffer
      ensures pos == start + 4 * (1 + |csrcs|) && buffer[..] == Spliced(old(buffer[..]), start, SourcesImage(Block()))
    {
      hide Spliced, Image32;
      Write32(buffer, start, senderSsrc);
      pos := start + 4;
      ghost var before := buffer[..];
      SplicedNothing(before, pos);
      for k := 0 to |csrcs|
        invariant pos == start + 4 + 4 * k && buffer[..] == Spliced(before, start + 4, CsrcImage(csrcs[..k]))
      {
        assert csrcs[..k + 1][..k] == csrcs[..k];
        Write32(buffer, pos, csrcs[k]);
        SplicedAppend(before, start + 4, CsrcImage(csrcs[..k]), Image32(csrcs[k]));
        pos := pos + 4;
      }
      assert csrcs[..|csrcs|] == csrcs;
      SplicedAppend(old(buffer[..]), start, Image32(senderSsrc), CsrcImage(csrcs));
    }

    method LoadReason(buffer: array<byte>, start: nat) returns (pos: nat)
      requires |reason| <= 0xff && start + 4 * ReasonWords(|reason|) <= buffer.Length
      modifies buffer
      ensures pos == start + 4 * ReasonWords(|reason|) && buffer[..] == Spliced(old(buffer[..]), start, ReasonImage(reason))
    {
      hide Spliced, Zeros;
      pos := start;
      SplicedNothing(buffer[..], start);
      if reason == [] { return; }
      CopyInto(buffer, start, [|reason|]);
      CopyInto(buffer, start + 1, reason);
      SplicedAppend(old(buffer[..]), start, [|reason|], reason);
      pos := start + 1 + |reason|;
      var bytesToPad := start + 4 * ReasonWords(|reason|) - pos;
      CopyInto(buffer, pos, Zeros(bytesToPad));
      SplicedAppend(old(buffer[..]), start, [|reason|] + reason, Zeros(bytesToPad));
      pos := pos + bytesToPad;
    }

    /** Takes over a parsed packet, or leaves the object as it is. */
    method StorePacket(h: CommonHeader) returns (ok: bool)
      requires h.count <= MAX_COUNT
      modifies this
      ensures ok <==> ParsedBye(h).Some?
      ensures Block() == if ok then ParsedBye(h).value else old(Block())
    {
      if h.packetType != BYE_TYPE { return false; }
      if |h.payload| < 4 * h.count { return false; }
      var hasReason := |h.payload| > 4 * h.count;
      var reasonLength := 0;
      if hasReason {
        reasonLength := h.payload[4 * h.count];
        if |h.payload| - 4 * h.count - 1 < reasonLength { return false; }
      }
      var text := if hasReason then h.payload[4 * h.count + 1..4 * h.count + 1 + reasonLength] else [];
      if h.count == 0 {
        senderSsrc, csrcs := 0, [];
      } else {
        var first := Read32(h.payload, 0);
        var others := StoreCsrcs(h);
        senderSsrc, csrcs := first, others;
      }
      reason := text;
      return true;
    }

    method StoreCsrcs(h: CommonHeader) returns (others: seq<U32>)
      requires h.count > 0 && 4 * h.count <= |h.payload|
      ensures SourcesOf(h.payload, h.count) == [Value32(h.payload[..4])] + others
    {
      others := [];
      ghost var first := Value32(h.payload[0..4]);
      assert SourcesOf(h.payload, 0) == [];
      EmptyRight([first]);
      EmptyLeft([first]);
      for i: int := 1 to h.count
        invariant SourcesOf(h.payload, i) == [first] + others
      {
        var csrc := Read32(h.payload, 4 * i);
        Assoc([first], others, [csrc]);
        others := others + [csrc];
      }
    }
  }
}
