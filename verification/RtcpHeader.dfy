/** The common header of RTCP packets (section 6.1 of RFC 3550), written and parsed. */
module RtcpHeader {
  import opened ByteIo
  import opened RtpPackets

  const HEADER_LENGTH := 4
  const MAX_COUNT := 0x1f
  const MAX_WORDS := 0xffff

  /** The parsed header and the payload it announces. */
  datatype CommonHeader = CommonHeader(packetType: byte, count: byte, payload: seq<byte>)

  function HeaderImage(count: byte, packetType: byte, words: nat): (bytes: seq<byte>)
    ensures |bytes| == HEADER_LENGTH
  {
    [Or(0x80, count), packetType] + Image16(words % 0x1_0000)
  }

  /** Writes a header and moves the position past it, unless the count is too big. */
  method CreateHeader(buffer: array<byte>, start: nat, count: nat, packetType: byte, words: nat) returns (pos: nat)
    requires start + HEADER_LENGTH <= buffer.Length
    modifies buffer
    ensures count > MAX_COUNT ==> pos == start && buffer[..] == old(buffer[..])
    ensures count <= MAX_COUNT ==>
              pos == start + HEADER_LENGTH && buffer[..] == Spliced(old(buffer[..]), start, HeaderImage(count, packetType, words))
  {
    pos := start;
    if count > MAX_COUNT { return; }
    CopyInto(buffer, start, [Or(0x80, count), packetType] + Image16(words % 0x1_0000));
    pos := start + HEADER_LENGTH;
  }

  /** `None` where the header is refused. A padding bit, which makes the parser read
      through a pointer it has not set yet, and an empty payload, whose position it
      loses, are taken to be refused. */
  function ParsedHeader(bytes: seq<byte>): (h: Option<CommonHeader>)
    ensures h.Some? ==> 0 < |h.value.payload| && HEADER_LENGTH + |h.value.payload| <= |bytes| && |h.value.payload| % 4 == 0
  {
    if |bytes| < HEADER_LENGTH || bytes[0] / 0x40 != VERSION then None
    else
      var size := Value16(bytes[2..4]) * 4;
      if |bytes| < HEADER_LENGTH + size || bytes[0] / 0x20 % 2 == 1 || size == 0 then None
      else Some(CommonHeader(bytes[1], bytes[0] % 0x20, bytes[HEADER_LENGTH..HEADER_LENGTH + size]))
  }

  method StoreHeader(bytes: seq<byte>) returns (h: Option<CommonHeader>)
    ensures h == ParsedHeader(bytes)
  {
    if |bytes| < HEADER_LENGTH { return None; }
    if bytes[0] / 0x40 != VERSION { return None; }
    var hasPadding := bytes[0] / 0x20 % 2 == 1;
    var words := Read16(bytes, 2);
    var payloadSize: nat := words as int * 4;
    if |bytes| < HEADER_LENGTH + payloadSize { return None; }
    if hasPadding { return None; }
    if payloadSize == 0 { return None; }
    return Some(CommonHeader(bytes[1], bytes[0] % 0x20, bytes[HEADER_LENGTH..HEADER_LENGTH + payloadSize]));
  }

  lemma CountKept(count: byte)
    requires count <= MAX_COUNT
    ensures Or(0x80, count) == 0x80 + count
  {
    assert Pow2(5) == 0x20 && Pow2(8) == 0x100;
    OrDisjoint(4, count, 5, 8);
  }

  /** A printed packet is found again whatever follows it. */
  lemma HeaderReadsBack(count: byte, packetType: byte, payload: seq<byte>, rest: seq<byte>)
    requires count <= MAX_COUNT && 0 < |payload| <= 4 * MAX_WORDS && |payload| % 4 == 0
    ensures ParsedHeader(HeaderImage(count, packetType, |payload| / 4) + payload + rest) ==
            Some(CommonHeader(packetType, count, payload))
  {
    hide Or, Value16;
    var head := HeaderImage(count, packetType, |payload| / 4);
    var bytes := head + payload + rest;
    CountKept(count);
    assert bytes[2..4] == Image16(|payload| / 4);
    RoundTrip16(|payload| / 4);
    assert bytes[HEADER_LENGTH..HEADER_LENGTH + |payload|] == payload;
  }

  // ---------- what is accepted ----------

  /** A header as it can be carried: a count of five bits, and a payload of whole words. */
  predicate Carried(h: CommonHeader) {
    h.count <= 31 && 0 < |h.payload| <= 4 * 65535 && |h.payload| % 4 == 0
  }

  /** Version 2 and the count, the type, the number of words, the payload. */
  function HeadedImage(h: CommonHeader): (bytes: seq<byte>)
    requires Carried(h)
    ensures |bytes| == HEADER_LENGTH + |h.payload|
  {
    [0x80 + h.count, h.packetType] + Image16(|h.payload| / 4) + h.payload
  }

  lemma HeadedParts(h: CommonHeader, bytes: seq<byte>)
    requires Carried(h)
    ensures HeadedImage(h) <= bytes <==>
            && HEADER_LENGTH + |h.payload| <= |bytes|
            && bytes[0] == 0x80 + h.count && bytes[1] == h.packetType && bytes[2..4] == Image16(|h.payload| / 4)
            && bytes[HEADER_LENGTH..HEADER_LENGTH + |h.payload|] == h.payload
  {
    hide Image16;
    var image := HeadedImage(h);
    var n := |image|;
    assert image[0] == 0x80 + h.count && image[1] == h.packetType;
    assert image[2..4] == Image16(|h.payload| / 4) && image[4..n] == h.payload;
    if n <= |bytes| {
      assert bytes[..n] == [bytes[0], bytes[1]] + bytes[2..4] + bytes[4..n];
      if image == bytes[..n] {
        assert bytes[..n][2..4] == bytes[2..4] && bytes[..n][4..n] == bytes[4..n];
        assert bytes[..n][0] == bytes[0] && bytes[..n][1] == bytes[1];
      }
    }
  }

  /** The parser finds a header exactly where its image is, and nothing anywhere else. */
  lemma HeaderExactly(bytes: seq<byte>, h: CommonHeader)
    ensures ParsedHeader(bytes) == Some(h) <==> Carried(h) && HeadedImage(h) <= bytes
  {
    hide Value16, Image16, HeadedImage;
    if Carried(h) {
      HeadedParts(h, bytes);
    }
    if |bytes| >= HEADER_LENGTH && |h.payload| <= 4 * 65535 {
      Shown16(bytes[2..4], |h.payload| / 4);
    }
  }
}
