/** The RTCP packet that carries packed NACK items (sections 6.1 and 6.2.1 of RFC 4585). */
module NackPacket {
  import opened ByteIo
  import opened SeqComparison
  import opened RtpPackets
  import opened SeqLemmas
  import opened RtcpHeader
  import opened NackItems

  const RTPFB_TYPE := 205
  const NACK_FORMAT := 1
  const FEEDBACK_LENGTH := 8
  const ITEM_LENGTH := 4

  datatype NackBlock = NackBlock(senderSsrc: U32, mediaSsrc: U32, packed: seq<Item>)

  // ---------- the image ----------

  function ItemImage(item: Item): (bytes: seq<byte>)
    ensures |bytes| == ITEM_LENGTH
  {
    Image16(item.firstPid) + Image16(item.bitmask)
  }

  function ItemsImage(items: seq<Item>): (bytes: seq<byte>)
    ensures |bytes| == ITEM_LENGTH * |items|
  {
    if items == [] then [] else ItemsImage(items[..|items| - 1]) + ItemImage(items[|items| - 1])
  }

  function NackPayload(b: NackBlock): (bytes: seq<byte>)
    ensures |bytes| == FEEDBACK_LENGTH + ITEM_LENGTH * |b.packed|
  {
    Image32(b.senderSsrc) + Image32(b.mediaSsrc) + ItemsImage(b.packed)
  }

  function NackLength(b: NackBlock): nat {
    HEADER_LENGTH + FEEDBACK_LENGTH + ITEM_LENGTH * |b.packed|
  }

  function NackImage(b: NackBlock): (bytes: seq<byte>)
    ensures |bytes| == NackLength(b)
  {
    HeaderImage(NACK_FORMAT, RTPFB_TYPE, |NackPayload(b)| / 4) + NackPayload(b)
  }

  // ---------- parsing ----------

  function ItemAt(bytes: seq<byte>, at: nat): Item
    requires at + ITEM_LENGTH <= |bytes|
  {
    Item(Value16(bytes[at..at + 2]), Value16(bytes[at + 2..at + 4]))
  }

  /** The first `count` items. */
  function ItemsOf(bytes: seq<byte>, count: nat): (items: seq<Item>)
    requires ITEM_LENGTH * count <= |bytes|
    ensures |items| == count
  {
    if count == 0 then [] else ItemsOf(bytes, count - 1) + [ItemAt(bytes, ITEM_LENGTH * (count - 1))]
  }

  function ParsedNack(h: CommonHeader): Option<NackBlock> {
    if h.packetType != RTPFB_TYPE || h.count != NACK_FORMAT then None
    else if |h.payload| < FEEDBACK_LENGTH + ITEM_LENGTH then None
    else
      var items := h.payload[FEEDBACK_LENGTH..];
      Some(NackBlock(Value32(h.payload[..4]), Value32(h.payload[4..8]), ItemsOf(items, |items| / ITEM_LENGTH)))
  }

  lemma {:induction false} ItemsPrefix(bytes: seq<byte>, more: seq<byte>, count: nat)
    requires ITEM_LENGTH * count <= |bytes|
    ensures ItemsOf(bytes + more, count) == ItemsOf(bytes, count)
  {
    if count > 0 {
      ItemsPrefix(bytes, more, count - 1);
      var at := ITEM_LENGTH * (count - 1);
      var all := bytes + more;
      assert all[at..at + 2] == bytes[at..at + 2] && all[at + 2..at + 4] == bytes[at + 2..at + 4];
    }
  }

  lemma LastReadsBack(before: seq<byte>, item: Item)
    ensures ItemAt(before + ItemImage(item), |before|) == item
  {
    hide Value16, Image16;
    var all, n := before + ItemImage(item), |before|;
    assert all[n..n + 2] == Image16(item.firstPid);
    assert all[n + 2..n + 4] == Image16(item.bitmask);
    RoundTrip16(item.firstPid);
    RoundTrip16(item.bitmask);
  }

  lemma {:induction false} ItemsReadBack(items: seq<Item>)
    ensures ItemsOf(ItemsImage(items), |items|) == items
  {
    hide ItemAt, ItemImage;
    if items != [] {
      var n := |items| - 1;
      var before, last := ItemsImage(items[..n]), ItemImage(items[n]);
      ItemsReadBack(items[..n]);
      ItemsPrefix(before, last, n);
      LastReadsBack(before, items[n]);
    }
  }

  lemma PayloadReadsBack(b: NackBlock)
    requires b.packed != []
    ensures ParsedNack(CommonHeader(RTPFB_TYPE, NACK_FORMAT, NackPayload(b))) == Some(b)
  {
    hide Value32, Image32, ItemsImage;
    var payload := NackPayload(b);
    assert payload[..4] == Image32(b.senderSsrc) && payload[4..8] == Image32(b.mediaSsrc);
    assert payload[FEEDBACK_LENGTH..] == ItemsImage(b.packed);
    RoundTrip32(b.senderSsrc);
    RoundTrip32(b.mediaSsrc);
    ItemsReadBack(b.packed);
  }

  lemma ItemShown(bytes: seq<byte>, at: nat, item: Item)
    requires at + ITEM_LENGTH <= |bytes|
    ensures ItemAt(bytes, at) == item <==> bytes[at..at + ITEM_LENGTH] == ItemImage(item)
  {
    hide Value16, Image16;
    Shown16(bytes[at..at + 2], item.firstPid);
    Shown16(bytes[at + 2..at + 4], item.bitmask);
    assert bytes[at..at + 4] == bytes[at..at + 2] + bytes[at + 2..at + 4];
    SameParts(bytes[at..at + 2], bytes[at + 2..at + 4], Image16(item.firstPid), Image16(item.bitmask));
  }

  lemma {:induction false} ItemsShown(bytes: seq<byte>, items: seq<Item>)
    requires |bytes| == ITEM_LENGTH * |items|
    ensures ItemsOf(bytes, |items|) == items <==> bytes == ItemsImage(items)
  {
    hide ItemAt, ItemImage;
    if items != [] {
      var n, m := |items| - 1, |bytes| - ITEM_LENGTH;
      ItemsShown(bytes[..m], items[..n]);
      SplitAt(bytes, m);
      ItemsPrefix(bytes[..m], bytes[m..], n);
      ItemShown(bytes, m, items[n]);
      SameParts(bytes[..m], bytes[m..], ItemsImage(items[..n]), ItemImage(items[n]));
      SameParts(ItemsOf(bytes, n), [ItemAt(bytes, m)], items[..n], [items[n]]);
      assert items == items[..n] + [items[n]];
    }
  }

  /** The parser takes exactly the payloads that are images of blocks with at least one
      item. */
  lemma NackExactly(h: CommonHeader, b: NackBlock)
    requires |h.payload| % 4 == 0
    ensures ParsedNack(h) == Some(b) <==>
            h.packetType == 205 && h.count == 1 && b.packed != [] && h.payload == NackPayload(b)
  {
    hide Value32, Image32, ItemsOf, ItemsImage;
    var p := h.payload;
    if |p| >= FEEDBACK_LENGTH + ITEM_LENGTH {
      Shown32(p[..4], b.senderSsrc);
      Shown32(p[4..8], b.mediaSsrc);
      if |p| == FEEDBACK_LENGTH + ITEM_LENGTH * |b.packed| {
        ItemsShown(p[FEEDBACK_LENGTH..], b.packed);
      }
      assert p == p[..4] + p[4..8] + p[FEEDBACK_LENGTH..];
      if h.payload == NackPayload(b) {
        assert NackPayload(b)[..4] == Image32(b.senderSsrc) && NackPayload(b)[4..8] == Image32(b.mediaSsrc);
        assert NackPayload(b)[FEEDBACK_LENGTH..] == ItemsImage(b.packed);
      }
    }
  }

  /** A printed NACK packet parses to itself, whatever follows it. */
  lemma NackReadsBack(b: NackBlock, rest: seq<byte>)
    requires 0 < |b.packed| <= MAX_WORDS - 2
    ensures ParsedHeader(NackImage(b) + rest) == Some(CommonHeader(RTPFB_TYPE, NACK_FORMAT, NackPayload(b)))
    ensures ParsedNack(CommonHeader(RTPFB_TYPE, NACK_FORMAT, NackPayload(b))) == Some(b)
  {
    HeaderReadsBack(NACK_FORMAT, RTPFB_TYPE, NackPayload(b), rest);
    PayloadReadsBack(b);
  }

  /** Over the wire, the numbers requested are the numbers received. */
  lemma RequestsReadBack(sender: U32, media: U32, list: seq<Seq16>, rest: seq<byte>)
    requires Circular(list) && 0 < |Packed(list)| <= MAX_WORDS - 2
    ensures var h := ParsedHeader(NackImage(NackBlock(sender, media, Packed(list))) + rest);
            && h.Some? && ParsedNack(h.value).Some?
            && ParsedNack(h.value).value.senderSsrc == sender
            && Unpacked(ParsedNack(h.value).value.packed) == list
  {
    NackReadsBack(NackBlock(sender, media, Packed(list)), rest);
    PackRoundTrip(list);
  }

  lemma ItemBehind(payload: seq<byte>, at: nat)
    requires FEEDBACK_LENGTH + at + ITEM_LENGTH <= |payload|
    ensures ItemAt(payload[FEEDBACK_LENGTH..], at) == ItemAt(payload, FEEDBACK_LENGTH + at)
  {
    hide Value16;
    var items := payload[FEEDBACK_LENGTH..];
    assert items[at..at + 2] == payload[FEEDBACK_LENGTH + at..FEEDBACK_LENGTH + at + 2];
    assert items[at + 2..at + 4] == payload[FEEDBACK_LENGTH + at + 2..FEEDBACK_LENGTH + at + 4];
  }

  /** The first item of what is left to pack. */
  lemma PackedAt(list: seq<Seq16>, it: nat, next: nat)
    requires it < |list| && next == it + 1 + Taken(list[it], list[it + 1..])
    ensures AllFit(list[it], list[it + 1..next])
    ensures Packed(list[it..]) == [Item(list[it], MaskOf(list[it], list[it + 1..next]))] + Packed(list[next..])
  {
    var rest := list[it..];
    assert rest[1..] == list[it + 1..];
    assert rest[1..next - it] == list[it + 1..next];
    assert rest[next - it..] == list[next..];
  }

  // ---------- the packet object ----------

  class Nack {
    var senderSsrc: U32
    var mediaSsrc: U32
    var packed: seq<Item>
    var packetIds: seq<Seq16>

    function Block(): NackBlock
      reads this
    {
      NackBlock(senderSsrc, mediaSsrc, packed)
    }

    constructor (senderSsrc: U32, mediaSsrc: U32)
      ensures Block() == NackBlock(senderSsrc, mediaSsrc, []) && packetIds == []
    {
      this.senderSsrc := senderSsrc;
      this.mediaSsrc := mediaSsrc;
      packed, packetIds := [], [];
    }

    /** Items are added to what is packed already. */
    method SetPacketIds(list: seq<Seq16>)
      modifies this
      ensures packetIds == list && Block() == old(Block()).(packed := old(packed) + Packed(list))
    {
      packetIds := list;
      Pack();
    }

    method Pack()
      modifies `packed
      ensures packed == old(packed) + Packed(packetIds)
    {
      var it := 0;
      assert packetIds[0..] == packetIds;
      while it < |packetIds|
        invariant it <= |packetIds|
        invariant packed + Packed(packetIds[it..]) == old(packed) + Packed(packetIds)
      {
        var item, next := PackItem(it);
        PackedAt(packetIds, it, next);
        Assoc(packed, [item], Packed(packetIds[next..]));
        packed := packed + [item];
        it := next;
      }
      assert packetIds[it..] == [];
      EmptyRight(packed);
    }

    /** One item, from the number at `start` on. */
    method PackItem(start: nat) returns (item: Item, it: nat)
      requires start < |packetIds|
      ensures it == start + 1 + Taken(packetIds[start], packetIds[start + 1..])
      ensures item == Item(packetIds[start], MaskOf(packetIds[start], packetIds[start + 1..it]))
    {
      hide SetBit;
      var firstPid := packetIds[start];
      var bitmask := 0;
      it := start + 1;
      while it < |packetIds|
        invariant start < it <= |packetIds|
        invariant AllFit(firstPid, packetIds[start + 1..it])
        invariant bitmask == MaskOf(firstPid, packetIds[start + 1..it])
        invariant Taken(firstPid, packetIds[start + 1..]) == it - start - 1 + Taken(firstPid, packetIds[it..])
      {
        if packetIds[it] < firstPid { break; }
        var shift := Shift(firstPid, packetIds[it]);
        if shift > 15 { break; }
        assert packetIds[it..][1..] == packetIds[it + 1..];
        assert packetIds[start + 1..it + 1] == packetIds[start + 1..it] + [packetIds[it]];
        bitmask := SetBit(bitmask, shift);
        it := it + 1;
      }
      return Item(firstPid, bitmask), it;
    }

    method Unpack()
      modifies `packetIds
      ensures packetIds == old(packetIds) + Unpacked(packed)
    {
      EmptyRight(packetIds);
      for k := 0 to |packed|
        invariant packetIds == old(packetIds) + Unpacked(packed[..k])
      {
        assert packed[..k + 1][..k] == packed[..k];
        Assoc(old(packetIds), Unpacked(packed[..k]), UnpackedItem(packed[k]));
        UnpackItem(packed[k]);
      }
      assert packed[..|packed|] == packed;
    }

    method UnpackItem(item: Item)
      modifies `packetIds
      ensures packetIds == old(packetIds) + UnpackedItem(item)
    {
      ghost var given := packetIds;
      packetIds := packetIds + [item.firstPid];
      var pid: Seq16, bitmask: U16 := Wrap(item.firstPid + 1), item.bitmask;
      Assoc(given, [item.firstPid], BitsFrom(pid, bitmask));
      while bitmask != 0
        invariant packetIds + BitsFrom(pid, bitmask) == given + UnpackedItem(item)
        decreases bitmask
      {
        ghost var more := BitsFrom(Wrap(pid + 1), bitmask / 2);
        if bitmask % 2 == 1 {
          Assoc(packetIds, [pid], more);
          packetIds := packetIds + [pid];
        } else {
          EmptyLeft(more);
        }
        pid, bitmask := Wrap(pid + 1), bitmask / 2;
      }
      EmptyRight(packetIds);
    }

    /** Refused when there is nothing to request or no room. */
    method LoadPacket(buffer: array<byte>, start: nat, maxLength: nat) returns (ok: bool, pos: nat)
      requires maxLength <= buffer.Length
      modifies buffer
      ensures ok <==> packed != [] && start + NackLength(Block()) <= maxLength
      ensures !ok ==> pos == start && buffer[..] == old(buffer[..])
      ensures ok ==> pos == start + NackLength(Block()) && buffer[..] == Spliced(old(buffer[..]), start, NackImage(Block()))
    {
      hide Spliced, Image32, ItemsImage, HeaderImage;
      pos := start;
      if packed == [] || start + NackLength(Block()) > maxLength { return false, pos; }
      pos := CreateHeader(buffer, start, NACK_FORMAT, RTPFB_TYPE, (NackLength(Block()) - HEADER_LENGTH) / 4);
      LoadFeedback(buffer, pos);
      pos := LoadItems(buffer, pos + FEEDBACK_LENGTH);
      SplicedThree(old(buffer[..]), start, HeaderImage(NACK_FORMAT, RTPFB_TYPE, |NackPayload(Block())| / 4),
                   Image32(senderSsrc) + Image32(mediaSsrc), ItemsImage(packed));
      return true, pos;
    }

    method LoadFeedback(buffer: array<byte>, at: nat)
      requires at + FEEDBACK_LENGTH <= buffer.Length
      modifies buffer
      ensures buffer[..] == Spliced(old(buffer[..]), at, Image32(senderSsrc) + Image32(mediaSsrc))
    {
      Write32(buffer, at, senderSsrc);
      Write32(buffer, at + 4, mediaSsrc);
      SplicedAppend(old(buffer[..]), at, Image32(senderSsrc), Image32(mediaSsrc));
    }

    method LoadItem(buffer: array<byte>, at: nat, item: Item)
      requires at + ITEM_LENGTH <= buffer.Length
      modifies buffer
      ensures buffer[..] == Spliced(old(buffer[..]), at, ItemImage(item))
    {
      Write16(buffer, at, item.firstPid);
      Write16(buffer, at + 2, item.bitmask);
      SplicedAppend(old(buffer[..]), at, Image16(item.firstPid), Image16(item.bitmask));
    }

    method LoadItems(buffer: array<byte>, start: nat) returns (pos: nat)
      requires start + ITEM_LENGTH * |packed| <= buffer.Length
      modifies buffer
      ensures pos == start + ITEM_LENGTH * |packed| && buffer[..] == Spliced(old(buffer[..]), start, ItemsImage(packed))
    {
      hide Spliced, ItemImage;
      pos := start;
      SplicedNothing(buffer[..], start);
      for k := 0 to |packed|
        invariant pos == start + ITEM_LENGTH * k
        invariant buffer[..] == Spliced(old(buffer[..]), start, ItemsImage(packed[..k]))
      {
        assert packed[..k + 1][..k] == packed[..k];
        LoadItem(buffer, pos, packed[k]);
        SplicedAppend(old(buffer[..]), start, ItemsImage(packed[..k]), ItemImage(packed[k]));
        pos := pos + ITEM_LENGTH;
      }
      assert packed[..|packed|] == packed;
    }

    /** Takes over a parsed packet, or leaves the object as it is. */
    method StorePacket(h: CommonHeader) returns (ok: bool)
      modifies this
      ensures ok <==> ParsedNack(h).Some?
      ensures ok ==> Block() == ParsedNack(h).value && packetIds == Unpacked(packed)
      ensures !ok ==> Block() == old(Block()) && packetIds == old(packetIds)
    {
      hide Value16, Value32, Unpacked;
      if h.packetType != RTPFB_TYPE || h.count != NACK_FORMAT { return false; }
      if |h.payload| < FEEDBACK_LENGTH + ITEM_LENGTH { return false; }
      var nackItems := (|h.payload| - FEEDBACK_LENGTH) / ITEM_LENGTH;
      senderSsrc := Read32(h.payload, 0);
      mediaSsrc := Read32(h.payload, 4);
      packetIds, packed := [], [];
      ghost var items := h.payload[FEEDBACK_LENGTH..];
      for k := 0 to nackItems
        invariant packed == ItemsOf(items, k) && packetIds == []
        invariant senderSsrc == Value32(h.payload[..4]) && mediaSsrc == Value32(h.payload[4..8])
      {
        var firstPid := Read16(h.payload, FEEDBACK_LENGTH + ITEM_LENGTH * k);
        var bitmask := Read16(h.payload, FEEDBACK_LENGTH + ITEM_LENGTH * k + 2);
        ItemBehind(h.payload, ITEM_LENGTH * k);
        packed := packed + [Item(firstPid, bitmask)];
      }
      Unpack();
      EmptyLeft(Unpacked(packed));
      return true;
    }
  }
}
