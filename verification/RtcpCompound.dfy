/** Compound RTCP packets (section 6.1 of RFC 3550): printing several packets into one
    buffer and walking the buffer again. Report bodies are opaque bytes. */
module RtcpCompound {
  import opened ByteIo
  import opened RtpPackets
  import opened SeqLemmas
  import opened RtcpHeader
  import opened SdesPacket
  import opened ByePacket
  import opened NackPacket

  const SENDER_REPORT_TYPE := 200
  const RECEIVER_REPORT_TYPE := 201

  datatype Packet =
    | Report(packetType: byte, count: byte, body: seq<byte>)
    | SdesPart(chunks: seq<Chunk>)
    | ByePart(bye: ByeBlock)
    | NackPart(nack: NackBlock)
  {
    /** What the packet objects guarantee. */
    predicate Valid() {
      match this
      case Report(t, count, body) =>
        (t == SENDER_REPORT_TYPE || t == RECEIVER_REPORT_TYPE) && count <= MAX_COUNT && |body| % 4 == 0
      case SdesPart(chunks) => AllNamed(chunks) && |chunks| <= MAX_CHUNKS
      case ByePart(bye) => bye.Valid()
      case NackPart(nack) => true
    }

    function Type(): byte {
      match this
      case Report(t, _, _) => t
      case SdesPart(_) => SDES_TYPE
      case ByePart(_) => BYE_TYPE
      case NackPart(_) => RTPFB_TYPE
    }

    function Count(): byte
      requires Valid()
    {
      match this
      case Report(_, count, _) => count
      case SdesPart(chunks) => |chunks|
      case ByePart(bye) => 1 + |bye.csrcs|
      case NackPart(_) => NACK_FORMAT
    }

    function Payload(): seq<byte>
      requires Valid()
    {
      match this
      case Report(_, _, body) => body
      case SdesPart(chunks) => ChunksImage(chunks)
      case ByePart(bye) => ByePayload(bye)
      case NackPart(nack) => NackPayload(nack)
    }

    function Image(): (bytes: seq<byte>)
      requires Valid()
      ensures |bytes| == HEADER_LENGTH + |Payload()|
    {
      HeaderImage(Count(), Type(), |Payload()| / 4) + Payload()
    }
  }

  type Slot = Option<Packet>

  predicate ValidSlot(slot: Slot) {
    slot.Some? ==> slot.value.Valid()
  }

  predicate AllValid(slots: seq<Slot>) {
    forall k :: 0 <= k < |slots| ==> ValidSlot(slots[k])
  }

  function SlotImage(slot: Slot): seq<byte>
    requires ValidSlot(slot)
  {
    if slot.None? then [] else slot.value.Image()
  }

  function CompoundImage(slots: seq<Slot>): seq<byte>
    requires AllValid(slots)
  {
    if slots == [] then [] else CompoundImage(slots[..|slots| - 1]) + SlotImage(slots[|slots| - 1])
  }

  /** A NACK with nothing to request cannot be printed. */
  predicate Printable(slot: Slot) {
    slot.Some? && slot.value.NackPart? ==> slot.value.nack.packed != []
  }

  lemma PrefixLength(slots: seq<Slot>, k: nat)
    requires AllValid(slots) && k <= |slots|
    ensures |CompoundImage(slots[..k])| <= |CompoundImage(slots)|
    decreases |slots|
  {
    if k < |slots| {
      assert slots[..|slots| - 1][..k] == slots[..k];
      PrefixLength(slots[..|slots| - 1], k);
    } else {
      assert slots[..k] == slots;
    }
  }

  lemma CompoundStep(slots: seq<Slot>, k: nat)
    requires AllValid(slots) && k < |slots|
    ensures CompoundImage(slots[..k + 1]) == CompoundImage(slots[..k]) + SlotImage(slots[k])
    ensures |CompoundImage(slots[..k + 1])| <= |CompoundImage(slots)|
  {
    assert slots[..k + 1][..k] == slots[..k];
    PrefixLength(slots, k + 1);
  }

  /** BlockLength: the size each packet announces. */
  method BlockLength(p: Packet) returns (length: nat)
    requires p.Valid()
    ensures length == |p.Image()|
  {
    match p {
      case Report(_, _, body) => length := HEADER_LENGTH + |body|;
      case SdesPart(chunks) => length := HEADER_LENGTH + |ChunksImage(chunks)|;
      case ByePart(bye) => length := ByeLength(bye);
      case NackPart(nack) => length := NackLength(nack);
    }
  }

  /** LoadPacket of any packet: room and content permitting, it writes exactly its
      image and moves the position by exactly its length. */
  method LoadPart(buffer: array<byte>, start: nat, maxLength: nat, p: Packet) returns (ok: bool, pos: nat)
    requires p.Valid() && maxLength <= buffer.Length
    modifies buffer
    ensures ok <==> Printable(Some(p)) && start + |p.Image()| <= maxLength
    ensures ok ==> pos == start + |p.Image()| && buffer[..] == Spliced(old(buffer[..]), start, p.Image())
  {
    hide Spliced, HeaderImage;
    match p {
      case Report(t, count, body) =>
        pos := start;
        if start + HEADER_LENGTH + |body| > maxLength { return false, pos; }
        pos := CreateHeader(buffer, start, count, t, |body| / 4);
        CopyInto(buffer, pos, body);
        SplicedAppend(old(buffer[..]), start, HeaderImage(count, t, |body| / 4), body);
        return true, pos + |body|;
      case SdesPart(chunks) =>
        var sdes := new Sdes();
        sdes.chunks, sdes.chunksBufferLength := chunks, |ChunksImage(chunks)|;
        ok, pos := sdes.LoadPacket(buffer, start, maxLength);
      case ByePart(bye) =>
        var packet := new Bye(bye.senderSsrc);
        packet.csrcs, packet.reason := bye.csrcs, bye.reason;
        ok, pos := packet.LoadPacket(buffer, start, maxLength);
      case NackPart(nack) =>
        var packet := new Nack(nack.senderSsrc, nack.mediaSsrc);
        packet.packed := nack.packed;
        ok, pos := packet.LoadPacket(buffer, start, maxLength);
    }
  }

  method LoadSlot(buffer: array<byte>, start: nat, slot: Slot) returns (ok: bool, pos: nat)
    requires ValidSlot(slot) && start + |SlotImage(slot)| <= buffer.Length
    modifies buffer
    ensures ok <==> Printable(slot)
    ensures ok ==> pos == start + |SlotImage(slot)| && buffer[..] == Spliced(old(buffer[..]), start, SlotImage(slot))
  {
    ok, pos := true, start;
    if slot.Some? {
      ok, pos := LoadPart(buffer, start, buffer.Length, slot.value);
    } else {
      SplicedNothing(buffer[..], start);
    }
  }

  /** The first `k` slots are printed, up to position `pos`. */
  ghost predicate Loaded(bytes: seq<byte>, slots: seq<Slot>, k: nat, pos: nat)
    requires AllValid(slots) && k <= |slots|
  {
    pos == |CompoundImage(slots[..k])| && pos <= |bytes| && bytes[..pos] == CompoundImage(slots[..k])
  }

  predicate AllPrintable(slots: seq<Slot>, k: nat) {
    forall j :: 0 <= j < k && j < |slots| ==> Printable(slots[j])
  }

  /** The packet in slot `k`, after those before it. */
  method LoadNext(buffer: array<byte>, slots: seq<Slot>, k: nat, start: nat) returns (ok: bool, pos: nat)
    requires AllValid(slots) && buffer.Length == |CompoundImage(slots)| && k < |slots|
    requires Loaded(buffer[..], slots, k, start)
    modifies buffer
    ensures ok <==> Printable(slots[k])
    ensures ok ==> Loaded(buffer[..], slots, k + 1, pos)
  {
    CompoundStep(slots, k);
    SplicedPrefix(buffer[..], start, SlotImage(slots[k]));
    ok, pos := LoadSlot(buffer, start, slots[k]);
  }

  lemma NothingLoaded(bytes: seq<byte>, slots: seq<Slot>)
    requires AllValid(slots)
    ensures Loaded(bytes, slots, 0, 0)
  {
    assert slots[..0] == [] && bytes[..0] == [];
  }

  lemma AllLoaded(bytes: seq<byte>, slots: seq<Slot>, pos: nat)
    requires AllValid(slots) && |bytes| == |CompoundImage(slots)| && Loaded(bytes, slots, |slots|, pos)
    ensures pos == |bytes| && bytes == CompoundImage(slots)
  {
    assert slots[..|slots|] == slots;
    assert bytes[..pos] == bytes;
  }

  method LoadSlots(buffer: array<byte>, slots: seq<Slot>) returns (ok: bool, pos: nat)
    requires AllValid(slots) && buffer.Length == |CompoundImage(slots)|
    modifies buffer
    ensures ok <==> AllPrintable(slots, |slots|)
    ensures ok ==> pos == buffer.Length && buffer[..] == CompoundImage(slots)
  {
    ok, pos := true, 0;
    NothingLoaded(buffer[..], slots);
    for k := 0 to |slots|
      invariant ok && AllPrintable(slots, k) && Loaded(buffer[..], slots, k, pos)
    {
      ok, pos := LoadNext(buffer, slots, k, pos);
      if !ok { return; }
    }
    AllLoaded(buffer[..], slots, pos);
  }

  /** The compound printer. Empty slots are skipped; the check of the written size
      against the announced one never fails. */
  method SendRtcp(slots: seq<Slot>) returns (sent: Option<seq<byte>>)
    requires AllValid(slots)
    ensures sent ==
            if CompoundImage(slots) == [] || exists k :: 0 <= k < |slots| && !Printable(slots[k]) then None
            else Some(CompoundImage(slots))
  {
    var size := 0;
    for k := 0 to |slots|
      invariant size == |CompoundImage(slots[..k])|
    {
      assert slots[..k + 1][..k] == slots[..k];
      if slots[k].Some? {
        var length := BlockLength(slots[k].value);
        size := size + length;
      }
    }
    assert slots[..|slots|] == slots;
    if size == 0 { return None; }
    var buffer := new byte[size](_ => 0);
    var ok, writePos := LoadSlots(buffer, slots);
    if !ok { return None; }
    if writePos != size { return None; }
    return Some(buffer[..]);
  }

  // ---------- walking a compound packet ----------

  /** The headers found one after the other; `None` when one of them is refused. */
  function Walked(bytes: seq<byte>): (r: Option<seq<CommonHeader>>)
    decreases |bytes|
  {
    if bytes == [] then Some([])
    else
      var h := ParsedHeader(bytes);
      if h.None? then None
      else
        var rest := Walked(bytes[HEADER_LENGTH + |h.value.payload|..]);
        if rest.None? then None else Some([h.value] + rest.value)
  }

  function Found(sofar: seq<CommonHeader>, rest: Option<seq<CommonHeader>>): Option<seq<CommonHeader>> {
    if rest.None? then None else Some(sofar + rest.value)
  }

  lemma FoundStep(sofar: seq<CommonHeader>, h: CommonHeader, rest: Option<seq<CommonHeader>>)
    ensures Found(sofar + [h], rest) == Found(sofar, if rest.None? then None else Some([h] + rest.value))
  {
    if rest.Some? {
      Assoc(sofar, [h], rest.value);
    }
  }

  /** The receiver's loop: what remains shrinks by at least a header each time. */
  method Parse(bytes: seq<byte>) returns (headers: Option<seq<CommonHeader>>)
    ensures headers == Walked(bytes)
  {
    hide ParsedHeader;
    var found: seq<CommonHeader> := [];
    var next := 0;
    assert bytes[0..] == bytes;
    if Walked(bytes).Some? { EmptyLeft(Walked(bytes).value); }
    while |bytes| - next != 0
      invariant 0 <= next <= |bytes| && Found(found, Walked(bytes[next..])) == Walked(bytes)
      decreases |bytes| - next
    {
      var h := StoreHeader(bytes[next..]);
      if h.None? { return None; }
      ghost var size := HEADER_LENGTH + |h.value.payload|;
      assert bytes[next..][size..] == bytes[next + size..];
      FoundStep(found, h.value, Walked(bytes[next + size..]));
      found := found + [h.value];
      next := next + HEADER_LENGTH + |h.value.payload|;
    }
    assert bytes[next..] == [];
    EmptyRight(found);
    return Some(found);
  }

  /** What a found header stands for. */
  function Understood(h: CommonHeader): Option<Packet> {
    if h.packetType == SENDER_REPORT_TYPE || h.packetType == RECEIVER_REPORT_TYPE then
      Some(Report(h.packetType, h.count, h.payload))
    else if h.packetType == SDES_TYPE then
      var chunks := ParsedSdes(h);
      if chunks.None? then None else Some(SdesPart(chunks.value))
    else if h.packetType == BYE_TYPE then
      var bye := ParsedBye(h);
      if bye.None? then None else Some(ByePart(bye.value))
    else
      var nack := ParsedNack(h);
      if nack.None? then None else Some(NackPart(nack.value))
  }

  // ---------- what is accepted ----------

  predicate AllCarried(headers: seq<CommonHeader>) {
    forall k :: 0 <= k < |headers| ==> Carried(headers[k])
  }

  function HeadedImages(headers: seq<CommonHeader>): seq<byte>
    requires AllCarried(headers)
  {
    if headers == [] then [] else HeadedImage(headers[0]) + HeadedImages(headers[1..])
  }

  lemma WalkedFirst(bytes: seq<byte>, headers: seq<CommonHeader>)
    requires bytes != []
    ensures Walked(bytes) == Some(headers) <==>
            && headers != [] && Carried(headers[0]) && HeadedImage(headers[0]) <= bytes
            && Walked(bytes[|HeadedImage(headers[0])|..]) == Some(headers[1..])
  {
    hide ParsedHeader, Carried, HeadedImage;
    if headers != [] {
      HeaderExactly(bytes, headers[0]);
      assert headers == [headers[0]] + headers[1..];
    }
  }

  /** The walk finds headers exactly in the bytes that are their images one after the
      other, with nothing between or behind them. */
  lemma {:induction false} WalkedExactly(bytes: seq<byte>, headers: seq<CommonHeader>)
    ensures Walked(bytes) == Some(headers) <==> AllCarried(headers) && bytes == HeadedImages(headers)
    decreases |headers|
  {
    hide Carried, HeadedImage;
    if bytes != [] {
      WalkedFirst(bytes, headers);
      if headers != [] && Carried(headers[0]) {
        var image := HeadedImage(headers[0]);
        if image <= bytes {
          WalkedExactly(bytes[|image|..], headers[1..]);
          assert bytes == image + bytes[|image|..];
        }
        if AllCarried(headers) && bytes == HeadedImages(headers) {
          assert (image + HeadedImages(headers[1..]))[|image|..] == HeadedImages(headers[1..]);
        }
      }
    }
  }

  // ---------- the round trip ----------

  /** Packets as the program sends them: with something in them, and not too long for
      the length field. */
  predicate Sendable(p: Packet) {
    p.Valid() && 0 < |p.Payload()| <= 4 * MAX_WORDS && Printable(Some(p))
  }

  function HeaderOf(p: Packet): CommonHeader
    requires p.Valid()
  {
    CommonHeader(p.Type(), p.Count(), p.Payload())
  }

  lemma ContentsReadBack(p: Packet)
    requires Sendable(p)
    ensures Understood(HeaderOf(p)) == Some(p)
  {
    match p {
      case Report(_, _, _) =>
      case SdesPart(chunks) => SdesPayloadReadsBack(chunks);
      case ByePart(bye) => ByePayloadReadsBack(bye);
      case NackPart(nack) => PayloadReadsBack(nack);
    }
  }

  lemma PacketReadsBack(p: Packet, rest: seq<byte>)
    requires Sendable(p)
    ensures ParsedHeader(p.Image() + rest) == Some(HeaderOf(p)) && Understood(HeaderOf(p)) == Some(p)
  {
    PayloadWhole(p);
    HeaderReadsBack(p.Count(), p.Type(), p.Payload(), rest);
    ContentsReadBack(p);
  }

  lemma PayloadWhole(p: Packet)
    requires p.Valid()
    ensures |p.Payload()| % 4 == 0 && p.Count() <= MAX_COUNT
  {
    if p.SdesPart? {
      ChunksLength(p.chunks);
    }
  }

  predicate AllSendable(packets: seq<Packet>) {
    forall k :: 0 <= k < |packets| ==> Sendable(packets[k])
  }

  function Slots(packets: seq<Packet>): (slots: seq<Slot>)
    requires AllSendable(packets)
    ensures |slots| == |packets| && AllValid(slots)
    ensures forall k :: 0 <= k < |slots| ==> slots[k] == Some(packets[k])
  {
    seq(|packets|, k requires 0 <= k < |packets| => Some(packets[k]))
  }

  lemma {:induction false} CompoundCons(slot: Slot, slots: seq<Slot>)
    requires ValidSlot(slot) && AllValid(slots)
    ensures AllValid([slot] + slots) && CompoundImage([slot] + slots) == SlotImage(slot) + CompoundImage(slots)
    decreases |slots|
  {
    hide SlotImage, ValidSlot;
    var all := [slot] + slots;
    if slots == [] {
      assert all[..0] == [];
      EmptyRight(SlotImage(slot));
      EmptyLeft(SlotImage(slot));
    } else {
      var n := |slots| - 1;
      assert all[..|all| - 1] == [slot] + slots[..n];
      CompoundCons(slot, slots[..n]);
      Assoc(SlotImage(slot), CompoundImage(slots[..n]), SlotImage(slots[n]));
    }
  }

  lemma SlotsCons(packets: seq<Packet>)
    requires AllSendable(packets) && packets != []
    ensures CompoundImage(Slots(packets)) == packets[0].Image() + CompoundImage(Slots(packets[1..]))
  {
    var first: Slot := Some(packets[0]);
    assert Slots(packets) == [first] + Slots(packets[1..]);
    CompoundCons(first, Slots(packets[1..]));
  }

  function HeadersOf(packets: seq<Packet>): (headers: seq<CommonHeader>)
    requires AllSendable(packets)
    ensures |headers| == |packets| && forall k :: 0 <= k < |headers| ==> headers[k] == HeaderOf(packets[k])
  {
    seq(|packets|, k requires 0 <= k < |packets| => HeaderOf(packets[k]))
  }

  lemma WalkedStep(bytes: seq<byte>, h: CommonHeader, rest: seq<byte>, found: seq<CommonHeader>)
    requires bytes != [] && ParsedHeader(bytes) == Some(h) && bytes[HEADER_LENGTH + |h.payload|..] == rest
    requires Walked(rest) == Some(found)
    ensures Walked(bytes) == Some([h] + found)
  {
  }

  lemma NothingWalked()
    ensures Walked(CompoundImage(Slots([]))) == Some(HeadersOf([]))
  {
  }

  lemma PacketWalked(p: Packet, rest: seq<byte>, found: seq<CommonHeader>)
    requires Sendable(p) && Walked(rest) == Some(found)
    ensures Walked(p.Image() + rest) == Some([HeaderOf(p)] + found)
  {
    PacketReadsBack(p, rest);
    JoinSlices(p.Image(), rest);
    WalkedStep(p.Image() + rest, HeaderOf(p), rest, found);
  }

  lemma HeadersCons(packets: seq<Packet>)
    requires AllSendable(packets) && packets != []
    ensures HeadersOf(packets) == [HeaderOf(packets[0])] + HeadersOf(packets[1..])
  {
  }

  lemma {:induction false} CompoundWalked(packets: seq<Packet>)
    requires AllSendable(packets)
    ensures Walked(CompoundImage(Slots(packets))) == Some(HeadersOf(packets))
    decreases |packets|
  {
    hide Walked, CompoundImage, Slots, HeaderOf, HeadersOf, Sendable;
    if packets == [] {
      NothingWalked();
    } else {
      CompoundWalked(packets[1..]);
      PacketWalked(packets[0], CompoundImage(Slots(packets[1..])), HeadersOf(packets[1..]));
      SlotsCons(packets);
      HeadersCons(packets);
    }
  }

  /** Walking what was printed finds exactly the packets that were printed, in order,
      each with its type and its contents. */
  lemma CompoundReadsBack(packets: seq<Packet>)
    requires AllSendable(packets)
    ensures Walked(CompoundImage(Slots(packets))) == Some(HeadersOf(packets))
    ensures forall k :: 0 <= k < |packets| ==> Understood(HeadersOf(packets)[k]) == Some(packets[k])
  {
    CompoundWalked(packets);
    forall k | 0 <= k < |packets| ensures Understood(HeadersOf(packets)[k]) == Some(packets[k]) {
      PacketReadsBack(packets[k], []);
    }
  }
}
