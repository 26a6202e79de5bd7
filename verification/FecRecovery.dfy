/** What a FEC payload is good for: it identifies its group exactly, and gives back
    any one member from the others. */
module FecRecovery {
  import opened ByteIo
  import opened SeqComparison
  import opened FecXor
  import opened FecCodec

  // ---------- reconstruction ----------

  /** A serialized version-2 packet of the stream `ssrc` that carries its number. */
  predicate Carries(buffer: Buffer, seqNum: Seq16, ssrc: U32) {
    && |buffer| >= RTP_HEADER
    && buffer[0] / 0x40 == 2
    && buffer[2..4] == Image16(seqNum)
    && buffer[8..12] == Image32(ssrc)
  }

  lemma LowSix(a: byte, b: byte)
    ensures Xor(a, b) % 0x40 == Xor(a % 0x40, b) % 0x40
  {
    var c := a % 0x40;
    SmallMod(a);
    LowSixBits(a);
    LowSixBits(c);
    LowSixBits(Xor(a, b));
    LowSixBits(Xor(c, b));
    XorLowBits(a, c, b, 6, 8);
  }

  lemma LowSixBits(v: nat)
    ensures LowBits(v, 6) == v % 0x40
  {
    LowBitsMod(v, 6);
    assert Pow2(6) == 0x40;
  }

  lemma SmallMod(v: nat)
    ensures v % 0x40 % 0x40 == v % 0x40
  {
  }

  lemma FlagShift(v: byte, l: bool)
    ensures (v % 0x40 + (if l then 0x40 else 0)) % 0x40 == v % 0x40
    ensures (v % 0x40 + (if l then 0x40 else 0)) / 0x40 % 2 == 1 <==> l
  {
  }

  lemma PayloadShape(group: seq<Member>, protection: U16)
    requires Buildable(group, protection)
    ensures var p := FecPayload(group, protection);
            && Readable(p) && Recoverable(p)
            && HasLongMask(p) == LongMask(group)
            && ProtectionOf(p) == protection
            && BaseOf(p) == group[0].seqNum
            && (RecoveryRefused(p) <==> protection == 0)
  {
    var p := FecPayload(group, protection);
    var l := LongMask(group);
    FlagShift(RawByte(group, group[0].seqNum, MaskSize(l), protection, 0), l);
    assert p[0] == FecByte(group, protection, 0);
    assert p[10..12] == Image16(protection) by {
      assert p[10] == FecByte(group, protection, 10) && p[11] == FecByte(group, protection, 11);
    }
    assert p[2..4] == Image16(group[0].seqNum) by {
      assert p[2] == FecByte(group, protection, 2) && p[3] == FecByte(group, protection, 3);
    }
    RoundTrip16(protection);
    RoundTrip16(group[0].seqNum);
  }

  /** One byte of the recovered packet. */
  lemma ByteRecovered(group: seq<Member>, protection: U16, k: nat, others: seq<Buffer>, ssrc: U32, i: int)
    requires Buildable(group, protection) && k < |group|
    requires multiset(BuffersOf(group)) == multiset(others) + multiset{group[k].buffer}
    requires Carries(group[k].buffer, group[k].seqNum, ssrc)
    requires 0 <= i < |group[k].buffer|
    ensures var p := FecPayload(group, protection);
            Recoverable(p) && i < RTP_HEADER + ProtectionOf(p) &&
            RecoveredByte(p, others, group[k].seqNum, ssrc, i) == group[k].buffer[i]
  {
    var p := FecPayload(group, protection);
    var buffer := group[k].buffer;
    var maskSize := MaskSize(LongMask(group));
    PayloadShape(group, protection);
    if i == 2 || i == 3 {
      assert buffer[2..4][i - 2] == buffer[i];
    } else if 8 <= i < 12 {
      assert buffer[8..12][i - 8] == buffer[i];
    } else {
      XorCancels(BuffersOf(group), others, buffer, i);
      if i == 0 {
        var column := XorColumn(BuffersOf(group), 0);
        LowSix(p[0], XorColumn(others, 0));
        LowSix(column, XorColumn(others, 0));
        FlagShift(column, LongMask(group));
        assert p[0] == FecByte(group, protection, 0);
      } else if i < 8 {
        assert p[i] == FecByte(group, protection, i);
      } else {
        assert p[i + maskSize] == FecByte(group, protection, i + maskSize);
      }
    }
  }

  lemma LengthRecovered(group: seq<Member>, protection: U16, k: nat, others: seq<Buffer>)
    requires Buildable(group, protection) && k < |group|
    requires multiset(BuffersOf(group)) == multiset(others) + multiset{group[k].buffer}
    ensures Recoverable(FecPayload(group, protection))
    ensures RecoveredLength(FecPayload(group, protection), others) == |group[k].buffer| - RTP_HEADER
  {
    var p := FecPayload(group, protection);
    var buffer := group[k].buffer;
    PayloadShape(group, protection);
    assert p[8] == FecByte(group, protection, 8) && p[9] == FecByte(group, protection, 9);
    XorCancels(BuffersOf(group), others, buffer, LENGTH_HIGH);
    XorCancels(BuffersOf(group), others, buffer, LENGTH_LOW);
    LengthEntries(buffer);
    RoundTrip16(|buffer| - RTP_HEADER);
  }

  /** For packets of any lengths, any one member is given back exactly, to the byte
      and to the length, from the payload and the other members in any order. */
  lemma MemberRecovered(group: seq<Member>, protection: U16, k: nat, others: seq<Buffer>, ssrc: U32)
    requires Buildable(group, protection) && k < |group|
    requires multiset(BuffersOf(group)) == multiset(others) + multiset{group[k].buffer}
    requires Carries(group[k].buffer, group[k].seqNum, ssrc)
    ensures Recoverable(FecPayload(group, protection))
    ensures RecoveredBuffer(FecPayload(group, protection), others, group[k].seqNum, ssrc) == group[k].buffer
  {
    PayloadShape(group, protection);
    LengthRecovered(group, protection, k, others);
    forall i | 0 <= i < |group[k].buffer|
      ensures RecoveredByte(FecPayload(group, protection), others, group[k].seqNum, ssrc, i) == group[k].buffer[i]
    {
      ByteRecovered(group, protection, k, others, ssrc, i);
    }
  }

  // ---------- group identity ----------

  lemma MaskStepBit(v: byte, position: byte, index: nat, b: nat)
    requires b < 8
    ensures BitOf(MaskStep(v, position, index), 7 - b) == 1 <==> BitOf(v, 7 - b) == 1 || position == 8 * index + b
  {
    if position / 8 == index {
      assert Pow2(8) == 256;
      WeightPower(position % 8);
      OrBit(v, Weight(position % 8), 8, 7 - b);
      PowerBit(7 - position % 8, 7 - b);
    }
  }

  /** A mask bit is set exactly when some member has that position. */
  lemma {:induction false} MaskByteBit(group: seq<Member>, base: Seq16, index: nat, b: nat)
    requires b < 8
    ensures BitOf(MaskByte(group, base, index), 7 - b) == 1 <==>
            exists k :: 0 <= k < |group| && Position(base, group[k]) == 8 * index + b
  {
    if group == [] {
      ZeroBit(7 - b);
    } else {
      var n := |group| - 1;
      var init := group[..n];
      MaskByteBit(init, base, index, b);
      MaskStepBit(MaskByte(init, base, index), Position(base, group[n]), index, b);
      assert forall k :: 0 <= k < n ==> init[k] == group[k];
    }
  }

  /** A group whose members carry strictly increasing unwrapped numbers, spanning at
      most 48. */
  ghost predicate Numbered(group: seq<Member>, ns: seq<int>) {
    && |group| == |ns| && group != []
    && (forall a, b :: 0 <= a < b < |ns| ==> ns[a] < ns[b])
    && ns[|ns| - 1] - ns[0] < MAX_MEDIA
    && (forall k :: 0 <= k < |ns| ==> group[k].seqNum == Wrap(ns[k]))
  }

  lemma PositionOf(group: seq<Member>, ns: seq<int>, k: nat)
    requires Numbered(group, ns) && k < |ns|
    ensures Position(group[0].seqNum, group[k]) == ns[k] - ns[0]
    ensures 0 <= ns[k] - ns[0] < MAX_MEDIA
    ensures LongMask(group) <==> ns[|ns| - 1] - ns[0] >= 16
    ensures ns[k] - ns[0] < 8 * MaskSize(LongMask(group))
  {
    DiffBridge(ns[0], ns[k]);
    DiffBridge(ns[0], ns[|ns| - 1]);
    assert ns[0] <= ns[k] <= ns[|ns| - 1];
  }

  lemma MaskBitOf(group: seq<Member>, ns: seq<int>, protection: U16, position: nat)
    requires Numbered(group, ns) && Buildable(group, protection)
    requires position < 8 * MaskSize(LongMask(group))
    ensures Readable(FecPayload(group, protection))
    ensures position < 8 * |MaskOf(FecPayload(group, protection))|
    ensures MaskBit(MaskOf(FecPayload(group, protection)), position) <==> ns[0] + position in ns
  {
    hide MaskByte, Position, BitOf, Wrap, BaseOf, ProtectionOf;
    var p := FecPayload(group, protection);
    PayloadShape(group, protection);
    var index, b := position / 8, position % 8;
    assert MaskOf(p)[index] == p[MASK_AT + index] == FecByte(group, protection, MASK_AT + index);
    MaskByteBit(group, group[0].seqNum, index, b);
    forall k | 0 <= k < |ns| ensures Position(group[0].seqNum, group[k]) == position <==> ns[k] == ns[0] + position {
      PositionOf(group, ns, k);
    }
  }

  lemma {:induction false} ProtectedRest(mask: seq<byte>, ns: seq<int>, base: Seq16, from: nat, k: nat)
    requires from <= 8 * |mask| && k <= |ns| && |ns| > 0
    requires base == Wrap(ns[0])
    requires forall a, b :: 0 <= a < b < |ns| ==> ns[a] < ns[b]
    requires forall p :: 0 <= p < 8 * |mask| ==> (MaskBit(mask, p) <==> ns[0] + p in ns)
    requires ns[|ns| - 1] - ns[0] < 8 * |mask|
    requires forall a :: 0 <= a < |ns| ==> (ns[a] - ns[0] >= from <==> a >= k)
    ensures ProtectedFrom(mask, base, from) == WrapAll(ns[k..])
    decreases 8 * |mask| - from
  {
    hide MaskBit, BitOf, Wrap;
    if from == 8 * |mask| {
      assert ns[|ns| - 1] - ns[0] < from;
    } else if MaskBit(mask, from) {
      var a :| 0 <= a < |ns| && ns[a] == ns[0] + from;
      assert ns[k] - ns[0] >= from;
      assert a == k;
      forall c | 0 <= c < |ns| ensures ns[c] - ns[0] >= from + 1 <==> c >= k + 1 {
        assert c < k ==> ns[c] < ns[k];
        assert c > k ==> ns[c] > ns[k];
      }
      ProtectedRest(mask, ns, base, from + 1, k + 1);
      WrapSum(ns[0], from);
      assert ns[k..][1..] == ns[k + 1..];
    } else {
      forall c | 0 <= c < |ns| ensures ns[c] - ns[0] >= from + 1 <==> c >= k {
        assert ns[c] in ns;
      }
      ProtectedRest(mask, ns, base, from + 1, k);
    }
  }

  lemma WrapSum(x: int, d: int)
    ensures Wrap(Wrap(x) + d) == Wrap(x + d)
  {
  }

  /** The numbers the decoder reads from a built payload are exactly the group's,
      also when they wrap; the long mask is used exactly for spans above 16. */
  lemma GroupIdentified(group: seq<Member>, ns: seq<int>, protection: U16)
    requires Numbered(group, ns) && Buildable(group, protection)
    ensures Readable(FecPayload(group, protection))
    ensures ProtectedSeqs(FecPayload(group, protection)) == WrapAll(ns)
    ensures HasLongMask(FecPayload(group, protection)) <==> ns[|ns| - 1] - ns[0] + 1 > 16
  {
    var p := FecPayload(group, protection);
    PayloadShape(group, protection);
    PositionOf(group, ns, |ns| - 1);
    forall q | 0 <= q < 8 * |MaskOf(p)| ensures MaskBit(MaskOf(p), q) <==> ns[0] + q in ns {
      MaskBitOf(group, ns, protection, q);
    }
    assert forall a :: 0 <= a < |ns| ==> ns[a] >= ns[0];
    ProtectedRest(MaskOf(p), ns, BaseOf(p), 0, 0);
    assert ns[0..] == ns;
  }
}