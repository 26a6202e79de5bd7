/** ULP FEC payloads (sections 7.3, 7.4 and 8.1 of RFC 5109): building one from a group of
    packet buffers, reading which packets it protects, and recovering a member. */
module FecCodec {
  import opened ByteIo
  import opened SeqComparison
  import opened FecXor

  const LEVEL0_LENGTH := 10
  const MASK_AT := 12
  const MASK_SIZE_CLEAR := 2
  const MASK_SIZE_SET := 6
  const MAX_MEDIA := 48

  /** A media packet of a group: its number and its serialized bytes. */
  datatype Member = Member(seqNum: Seq16, buffer: Buffer)

  function BuffersOf(group: seq<Member>): (r: seq<Buffer>)
    ensures |r| == |group|
    ensures forall k :: 0 <= k < |r| ==> r[k] == group[k].buffer
  {
    seq(|group|, k requires 0 <= k < |group| => group[k].buffer)
  }

  // ---------- the payload ----------

  /** The mask bit 0x80 >> k. */
  function Weight(k: nat): byte
    requires k < 8
  {
    if k == 0 then 0x80 else Weight(k - 1) / 2
  }

  lemma {:induction false} WeightPower(k: nat)
    requires k < 8
    ensures Weight(k) == Pow2(7 - k)
  {
    if k == 0 {
      assert Pow2(7) == 128;
    } else {
      WeightPower(k - 1);
      assert Pow2(8 - k) == 2 * Pow2(7 - k);
    }
  }

  /** A member's position in the mask, kept in one octet. */
  function Position(base: Seq16, m: Member): byte {
    DiffSeq(base, m.seqNum) % 0x100
  }

  function MaskSize(longMask: bool): nat {
    if longMask then MASK_SIZE_SET else MASK_SIZE_CLEAR
  }

  function LongMask(group: seq<Member>): bool
    requires group != []
  {
    MASK_SIZE_CLEAR * 8 < Position(group[0].seqNum, group[|group| - 1]) + 1
  }

  function MaskStep(v: byte, position: byte, index: int): byte {
    if position / 8 == index then Or(v, Weight(position % 8)) else v
  }

  function MaskByte(group: seq<Member>, base: Seq16, index: int): byte {
    if group == [] then 0
    else MaskStep(MaskByte(group[..|group| - 1], base, index), Position(base, group[|group| - 1]), index)
  }

  /** Which column of the packet buffers lands at position `i` of the payload;
      -3 where none does. */
  function ColumnAt(i: int, maskSize: nat): int {
    if 0 <= i < 2 || 4 <= i < 8 then i
    else if i == 8 then LENGTH_HIGH
    else if i == 9 then LENGTH_LOW
    else if i >= MASK_AT + maskSize then i - maskSize
    else -3
  }

  predicate InMask(i: int, maskSize: nat) {
    MASK_AT <= i < MASK_AT + maskSize
  }

  /** Payload bytes before the base number and the flags are put in. */
  function RawByte(group: seq<Member>, base: Seq16, maskSize: nat, protection: U16, i: int): byte {
    if InMask(i, maskSize) then MaskByte(group, base, i - MASK_AT)
    else if i == 10 || i == 11 then Image16(protection)[i - 10]
    else XorColumn(BuffersOf(group), ColumnAt(i, maskSize))
  }

  function FecByte(group: seq<Member>, protection: U16, i: int): byte
    requires group != []
  {
    var base := group[0].seqNum;
    var l := LongMask(group);
    var raw := RawByte(group, base, MaskSize(l), protection, i);
    if i == 0 then raw % 0x40 + (if l then 0x40 else 0)
    else if i == 2 || i == 3 then Image16(base)[i - 2]
    else raw
  }

  function FecPayload(group: seq<Member>, protection: U16): (r: seq<byte>)
    requires group != []
    ensures |r| == MASK_AT + MaskSize(LongMask(group)) + protection
    ensures forall i :: 0 <= i < |r| ==> r[i] == FecByte(group, protection, i)
  {
    seq(MASK_AT + MaskSize(LongMask(group)) + protection, i => FecByte(group, protection, i))
  }

  /** What building a payload relies on: serialized packets no longer than the
      protected length, payloads the 16-bit signed loop index can walk, and
      positions the mask has room for. */
  predicate Buildable(group: seq<Member>, protection: U16) {
    && group != []
    && forall k :: 0 <= k < |group| ==>
         && RTP_HEADER <= |group[k].buffer| <= RTP_HEADER + protection
         && |group[k].buffer| <= RTP_HEADER + 0x7fff
         && Position(group[0].seqNum, group[k]) < 8 * MaskSize(LongMask(group))
  }

  /** What one member does to a payload byte. */
  function MemberStep(v: byte, m: Member, base: Seq16, maskSize: nat, i: int): byte {
    if InMask(i, maskSize) then MaskStep(v, Position(base, m), i - MASK_AT)
    else Xor(v, Entry(m.buffer, ColumnAt(i, maskSize)))
  }

  lemma StepRaw(group: seq<Member>, m: nat, base: Seq16, maskSize: nat, protection: U16, i: int)
    requires m < |group| && maskSize <= MASK_SIZE_SET
    ensures RawByte(group[..m + 1], base, maskSize, protection, i) ==
            MemberStep(RawByte(group[..m], base, maskSize, protection, i), group[m], base, maskSize, i)
  {
    var upto := group[..m + 1];
    assert upto[..m] == group[..m];
    assert BuffersOf(upto)[..m] == BuffersOf(group[..m]);
    XorLaws(Image16(protection)[0], 0, 0);
    XorLaws(Image16(protection)[1], 0, 0);
  }

  lemma XorZero(v: byte)
    ensures Xor(v, 0) == v
  {
    XorLaws(v, 0, 0);
  }

  method XorPayload(payload: array<byte>, at: nat, buffer: Buffer)
    requires RTP_HEADER <= |buffer| <= RTP_HEADER + 0x7fff
    requires at + |buffer| - RTP_HEADER <= payload.Length
    modifies payload
    ensures forall i :: 0 <= i < payload.Length ==>
              payload[i] == if i >= at then Xor(old(payload[i]), Entry(buffer, RTP_HEADER + i - at)) else old(payload[i])
  {
    var length := |buffer| - RTP_HEADER;
    var pos := 0;
    while pos < length
      invariant 0 <= pos <= length
      invariant forall i :: 0 <= i < payload.Length ==>
                  payload[i] == if at <= i < at + pos then Xor(old(payload[i]), Entry(buffer, RTP_HEADER + i - at)) else old(payload[i])
    {
      payload[at + pos] := Xor(payload[at + pos], buffer[RTP_HEADER + pos]);
      pos := pos + 1;
    }
    forall i | at + length <= i < payload.Length ensures payload[i] == Xor(old(payload[i]), Entry(buffer, RTP_HEADER + i - at)) {
      XorZero(payload[i]);
    }
  }

  lemma LengthEntries(buffer: Buffer)
    requires RTP_HEADER <= |buffer| < RTP_HEADER + 0x1_0000
    ensures Entry(buffer, LENGTH_HIGH) == Image16(|buffer| - RTP_HEADER)[0]
    ensures Entry(buffer, LENGTH_LOW) == Image16(|buffer| - RTP_HEADER)[1]
  {
  }

  method XorFlagsAndLength(payload: array<byte>, buffer: Buffer)
    requires RTP_HEADER <= |buffer| <= RTP_HEADER + 0x7fff
    requires payload.Length >= LEVEL0_LENGTH
    modifies payload
    ensures forall i :: 0 <= i < payload.Length && i !in {0, 1, 8, 9} ==> payload[i] == old(payload[i])
    ensures payload[0] == Xor(old(payload[0]), Entry(buffer, 0)) && payload[1] == Xor(old(payload[1]), Entry(buffer, 1))
    ensures payload[8] == Xor(old(payload[8]), Entry(buffer, LENGTH_HIGH))
    ensures payload[9] == Xor(old(payload[9]), Entry(buffer, LENGTH_LOW))
  {
    LengthEntries(buffer);
    var length := Image16(|buffer| - RTP_HEADER);
    payload[0] := Xor(payload[0], buffer[0]);
    payload[1] := Xor(payload[1], buffer[1]);
    payload[8] := Xor(payload[8], length[0]);
    payload[9] := Xor(payload[9], length[1]);
  }

  method XorTimestamp(payload: array<byte>, buffer: Buffer)
    requires |buffer| >= RTP_HEADER && payload.Length >= LEVEL0_LENGTH
    modifies payload
    ensures forall i :: 0 <= i < payload.Length ==>
              payload[i] == if 4 <= i < 8 then Xor(old(payload[i]), Entry(buffer, i)) else old(payload[i])
  {
    payload[4] := Xor(payload[4], buffer[4]);
    payload[5] := Xor(payload[5], buffer[5]);
    payload[6] := Xor(payload[6], buffer[6]);
    payload[7] := Xor(payload[7], buffer[7]);
  }

  method XorLevel0(payload: array<byte>, buffer: Buffer, maskSize: nat)
    requires RTP_HEADER <= |buffer| <= RTP_HEADER + 0x7fff
    requires payload.Length >= LEVEL0_LENGTH
    modifies payload
    ensures forall i :: 0 <= i < payload.Length ==>
              payload[i] == if i < LEVEL0_LENGTH then Xor(old(payload[i]), Entry(buffer, ColumnAt(i, maskSize))) else old(payload[i])
  {
    XorFlagsAndLength(payload, buffer);
    XorTimestamp(payload, buffer);
    XorZero(payload[2]);
    XorZero(payload[3]);
  }

  lemma HeaderColumns(i: int, maskSize: nat, buffer: Buffer, v: byte)
    ensures LEVEL0_LENGTH <= i < MASK_AT ==> Xor(v, Entry(buffer, ColumnAt(i, maskSize))) == v
    ensures i >= MASK_AT + maskSize ==> ColumnAt(i, maskSize) == RTP_HEADER + i - (MASK_AT + maskSize)
  {
    XorZero(v);
  }

  /** One turn of the loop over a group. */
  method XorMember(payload: array<byte>, m: Member, base: Seq16, maskSize: nat)
    requires RTP_HEADER <= |m.buffer| <= RTP_HEADER + 0x7fff && maskSize <= MASK_SIZE_SET
    requires MASK_AT + maskSize + |m.buffer| - RTP_HEADER <= payload.Length
    requires Position(base, m) < 8 * maskSize
    modifies payload
    ensures forall i :: 0 <= i < payload.Length ==> payload[i] == MemberStep(old(payload[i]), m, base, maskSize, i)
  {
    var position := Position(base, m);
    var at := MASK_AT + position / 8;
    XorLevel0(payload, m.buffer, maskSize);
    XorPayload(payload, MASK_AT + maskSize, m.buffer);
    payload[at] := Or(payload[at], Weight(position % 8));
    forall i | 0 <= i < payload.Length ensures payload[i] == MemberStep(old(payload[i]), m, base, maskSize, i) {
      HeaderColumns(i, maskSize, m.buffer, old(payload[i]));
    }
  }

  /** Builds the payload in place: zeros, the protected length, one XOR pass per
      member, then the base number and the flags. */
  method BuildFecPayload(group: seq<Member>, protection: U16) returns (payload: array<byte>)
    requires Buildable(group, protection)
    ensures fresh(payload) && payload[..] == FecPayload(group, protection)
  {
    var base := group[0].seqNum;
    var l := LongMask(group);
    var maskSize := MaskSize(l);
    payload := new byte[MASK_AT + maskSize + protection](_ => 0);
    payload[10], payload[11] := Image16(protection)[0], Image16(protection)[1];
    var k := 0;
    while k < |group|
      invariant 0 <= k <= |group|
      invariant forall i :: 0 <= i < payload.Length ==> payload[i] == RawByte(group[..k], base, maskSize, protection, i)
    {
      ghost var before := payload[..];
      XorMember(payload, group[k], base, maskSize);
      forall i | 0 <= i < payload.Length ensures payload[i] == RawByte(group[..k + 1], base, maskSize, protection, i) {
        StepRaw(group, k, base, maskSize, protection, i);
        assert before[i] == RawByte(group[..k], base, maskSize, protection, i);
      }
      k := k + 1;
    }
    assert group[..k] == group;
    FinishPayload(payload, group, protection, base, l);
  }

  method FinishPayload(payload: array<byte>, ghost group: seq<Member>, ghost protection: U16, base: Seq16, l: bool)
    requires group != [] && base == group[0].seqNum && l == LongMask(group)
    requires payload.Length == MASK_AT + MaskSize(l) + protection
    requires forall i :: 0 <= i < payload.Length ==> payload[i] == RawByte(group, base, MaskSize(l), protection, i)
    modifies payload
    ensures payload[..] == FecPayload(group, protection)
  {
    UntouchedBase(group, base, MaskSize(l), protection);
    payload[2] := Xor(payload[2], Image16(base)[0]);
    payload[3] := Xor(payload[3], Image16(base)[1]);
    payload[0] := payload[0] % 0x40;
    if l {
      payload[0] := payload[0] + 0x40;
    }
  }

  lemma UntouchedBase(group: seq<Member>, base: Seq16, maskSize: nat, protection: U16)
    ensures forall i :: 2 <= i < 4 ==> Xor(RawByte(group, base, maskSize, protection, i), Image16(base)[i - 2]) == Image16(base)[i - 2]
  {
    NoColumn(BuffersOf(group));
    XorLaws(0, Image16(base)[0], 0);
    XorLaws(0, Image16(base)[1], 0);
    XorZero(Image16(base)[0]);
    XorZero(Image16(base)[1]);
  }

  lemma NoColumn(buffers: seq<Buffer>)
    ensures XorColumn(buffers, -3) == 0
  {
    if buffers != [] {
      NoColumn(buffers[..|buffers| - 1]);
      XorZero(0);
    }
  }

  // ---------- which packets a payload protects ----------

  function HasLongMask(payload: seq<byte>): bool
    requires |payload| > 0
  {
    payload[0] / 0x40 % 2 == 1
  }

  /** The decoder reads the mask without a length check. */
  predicate Readable(payload: seq<byte>) {
    |payload| >= MASK_AT + MASK_SIZE_CLEAR && |payload| >= MASK_AT + MaskSize(HasLongMask(payload))
  }

  predicate MaskBit(mask: seq<byte>, position: nat)
    requires position < 8 * |mask|
  {
    BitOf(mask[position / 8], 7 - position % 8) == 1
  }

  function MaskOf(payload: seq<byte>): (mask: seq<byte>)
    requires Readable(payload)
    ensures |mask| == MaskSize(HasLongMask(payload))
  {
    payload[MASK_AT..MASK_AT + MaskSize(HasLongMask(payload))]
  }

  function BaseOf(payload: seq<byte>): Seq16
    requires Readable(payload)
  {
    Value16(payload[2..4])
  }

  /** The numbers whose mask bits are set, from position `from` on. */
  function ProtectedFrom(mask: seq<byte>, base: Seq16, from: nat): seq<Seq16>
    requires from <= 8 * |mask|
    decreases 8 * |mask| - from
  {
    if from == 8 * |mask| then []
    else (if MaskBit(mask, from) then [Wrap(base + from)] else []) + ProtectedFrom(mask, base, from + 1)
  }

  function ProtectedSeqs(payload: seq<byte>): seq<Seq16>
    requires Readable(payload)
  {
    ProtectedFrom(MaskOf(payload), BaseOf(payload), 0)
  }

  // ---------- recovering a member ----------

  function ProtectionOf(payload: seq<byte>): U16
    requires Readable(payload)
  {
    Value16(payload[10..12])
  }

  /** Beyond what it checks, recovery reads the protected length from the payload. */
  predicate Recoverable(payload: seq<byte>) {
    && Readable(payload)
    && ProtectionOf(payload) <= |payload| - MASK_AT - MaskSize(HasLongMask(payload))
  }

  function RecoveredByte(payload: seq<byte>, others: seq<Buffer>, lost: Seq16, ssrc: U32, i: int): byte
    requires Recoverable(payload) && 0 <= i < RTP_HEADER + ProtectionOf(payload)
  {
    var maskSize := MaskSize(HasLongMask(payload));
    if i == 0 then Xor(payload[0], XorColumn(others, 0)) % 0x40 + 0x80
    else if i == 2 || i == 3 then Image16(lost)[i - 2]
    else if 8 <= i < 12 then Image32(ssrc)[i - 8]
    else Xor(payload[if i < 8 then i else i + maskSize], XorColumn(others, i))
  }

  function RecoveredLength(payload: seq<byte>, others: seq<Buffer>): U16
    requires Recoverable(payload)
  {
    Value16([Xor(payload[8], XorColumn(others, LENGTH_HIGH)), Xor(payload[9], XorColumn(others, LENGTH_LOW))])
  }

  /** The buffer recovered from a payload and the other members; the buffer's
      capacity bounds the recovered length. */
  function RecoveredBuffer(payload: seq<byte>, others: seq<Buffer>, lost: Seq16, ssrc: U32): (r: Buffer)
    requires Recoverable(payload)
    ensures |r| <= RTP_HEADER + ProtectionOf(payload)
    ensures forall i :: 0 <= i < |r| ==> r[i] == RecoveredByte(payload, others, lost, ssrc, i)
  {
    var capacity := RTP_HEADER + ProtectionOf(payload);
    var length := RTP_HEADER + RecoveredLength(payload, others);
    seq(if length > capacity then capacity else length,
        i requires 0 <= i < capacity => RecoveredByte(payload, others, lost, ssrc, i))
  }

  /** Recovery gives up on a payload with nothing protected or with more bytes
      than it declares. */
  predicate RecoveryRefused(payload: seq<byte>)
    requires Readable(payload)
  {
    var header := MASK_AT + MaskSize(HasLongMask(payload));
    |payload| <= header || ProtectionOf(payload) < |payload| - header
  }

  /** Where a recovered buffer's byte comes from in the payload. */
  function SourceAt(i: int, maskSize: nat): int {
    if i < 8 then i else i + maskSize
  }

  /** The buffer after the bytes of `others` are XORed over the payload's. */
  ghost predicate FoldedOver(buffer: seq<byte>, payload: seq<byte>, maskSize: nat, others: seq<Buffer>) {
    && |buffer| + maskSize <= |payload|
    && forall i :: 0 <= i < |buffer| && Folded(i) ==>
         buffer[i] == Xor(payload[SourceAt(i, maskSize)], XorColumn(others, i))
  }

  /** The loop over the known members: buffer bytes and the length field. */
  method FoldOthers(buffer: array<byte>, payload: seq<byte>, maskSize: nat, others: seq<Buffer>)
    returns (lengthHigh: byte, lengthLow: byte)
    requires |payload| >= MASK_AT && buffer.Length >= RTP_HEADER && buffer.Length + maskSize <= |payload|
    requires forall k :: 0 <= k < |others| ==> RTP_HEADER <= |others[k]| < RTP_HEADER + 0x1_0000
    requires forall i :: 0 <= i < buffer.Length && Folded(i) ==> buffer[i] == payload[SourceAt(i, maskSize)]
    modifies buffer
    ensures FoldedOver(buffer[..], payload, maskSize, others)
    ensures lengthHigh == Xor(payload[8], XorColumn(others, LENGTH_HIGH))
    ensures lengthLow == Xor(payload[9], XorColumn(others, LENGTH_LOW))
  {
    lengthHigh, lengthLow := payload[8], payload[9];
    AllXorZero();
    var k := 0;
    while k < |others|
      invariant 0 <= k <= |others|
      invariant FoldedOver(buffer[..], payload, maskSize, others[..k])
      invariant lengthHigh == Xor(payload[8], XorColumn(others[..k], LENGTH_HIGH))
      invariant lengthLow == Xor(payload[9], XorColumn(others[..k], LENGTH_LOW))
    {
      var other := others[k];
      ghost var before := buffer[..];
      XorKnown(buffer, other);
      LengthEntries(other);
      var length := Image16(|other| - RTP_HEADER);
      if |other| > RTP_HEADER {
        lengthHigh := Xor(lengthHigh, length[0]);
        lengthLow := Xor(lengthLow, length[1]);
      } else {
        assert length == [0, 0];
      }
      FoldStep(before, buffer[..], payload, maskSize, others, k);
      XorFold(payload[8], others, k, LENGTH_HIGH);
      XorFold(payload[9], others, k, LENGTH_LOW);
      k := k + 1;
    }
    assert others[..k] == others;
  }

  lemma FoldStep(before: seq<byte>, after: seq<byte>, payload: seq<byte>, maskSize: nat, others: seq<Buffer>, k: nat)
    requires k < |others| && |before| == |after| && FoldedOver(before, payload, maskSize, others[..k])
    requires forall i :: 0 <= i < |after| && Folded(i) ==> after[i] == Xor(before[i], Entry(others[k], i))
    ensures FoldedOver(after, payload, maskSize, others[..k + 1])
  {
    forall i | 0 <= i < |after| && Folded(i)
      ensures after[i] == Xor(payload[SourceAt(i, maskSize)], XorColumn(others[..k + 1], i))
    {
      XorFold(payload[SourceAt(i, maskSize)], others, k, i);
    }
  }

  /** Copies the FEC bytes over a cleared header, then XORs every member in. */
  method FecRecoverBuffer(payload: seq<byte>, others: seq<Buffer>, lost: Seq16, ssrc: U32)
    returns (refused: bool, buffer: array<byte>, size: nat)
    requires Recoverable(payload)
    requires forall k :: 0 <= k < |others| ==> RTP_HEADER <= |others[k]| < RTP_HEADER + 0x1_0000
    ensures refused <==> RecoveryRefused(payload)
    ensures !refused ==> size <= buffer.Length && buffer[..size] == RecoveredBuffer(payload, others, lost, ssrc)
    ensures fresh(buffer)
  {
    var maskSize := MaskSize(HasLongMask(payload));
    var header := MASK_AT + maskSize;
    var protection := ProtectionOf(payload);
    refused, size := true, 0;
    buffer := new byte[RTP_HEADER + protection](i requires 0 <= i < RTP_HEADER + protection =>
      if 8 <= i < RTP_HEADER then 0 else payload[SourceAt(i, maskSize)]);
    if |payload| <= header { return; }
    if protection < |payload| - header { return; }
    refused := false;
    var lengthHigh, lengthLow := FoldOthers(buffer, payload, maskSize, others);
    size := FinishRecovered(buffer, payload, others, lost, ssrc, lengthHigh, lengthLow);
  }

  method FinishRecovered(buffer: array<byte>, ghost payload: seq<byte>, ghost others: seq<Buffer>, lost: Seq16, ssrc: U32,
                         lengthHigh: byte, lengthLow: byte) returns (size: nat)
    requires Recoverable(payload) && buffer.Length == RTP_HEADER + ProtectionOf(payload)
    requires FoldedOver(buffer[..], payload, MaskSize(HasLongMask(payload)), others)
    requires lengthHigh == Xor(payload[8], XorColumn(others, LENGTH_HIGH))
    requires lengthLow == Xor(payload[9], XorColumn(others, LENGTH_LOW))
    modifies buffer
    ensures size <= buffer.Length && buffer[..size] == RecoveredBuffer(payload, others, lost, ssrc)
  {
    ghost var folded := buffer[..];
    Write32(buffer, 8, ssrc);
    Write16(buffer, 2, lost);
    buffer[0] := buffer[0] % 0x40 + 0x80;
    var length := RTP_HEADER + Value16([lengthHigh, lengthLow]);
    size := if length > buffer.Length then buffer.Length else length;
    assert forall i :: 0 <= i < buffer.Length ==> buffer[i] == Finished(folded, lost, ssrc, i);
    FinishedBytes(folded, payload, others, lost, ssrc);
  }

  /** A folded buffer with the fields that are not recovered filled in. */
  function Finished(folded: seq<byte>, lost: Seq16, ssrc: U32, i: int): byte
    requires 0 <= i < |folded|
  {
    if i == 0 then folded[0] % 0x40 + 0x80
    else if i == 2 || i == 3 then Image16(lost)[i - 2]
    else if 8 <= i < 12 then Image32(ssrc)[i - 8]
    else folded[i]
  }

  lemma FinishedBytes(folded: seq<byte>, payload: seq<byte>, others: seq<Buffer>, lost: Seq16, ssrc: U32)
    requires Recoverable(payload) && |folded| == RTP_HEADER + ProtectionOf(payload)
    requires FoldedOver(folded, payload, MaskSize(HasLongMask(payload)), others)
    ensures forall i :: 0 <= i < |folded| ==>
              Finished(folded, lost, ssrc, i) == RecoveredByte(payload, others, lost, ssrc, i)
  {
  }

  /** The positions of a recovered buffer that are XORed together. */
  predicate Folded(i: int) {
    0 <= i < 2 || 4 <= i < 8 || i >= RTP_HEADER
  }

  lemma XorFold(v: byte, others: seq<Buffer>, k: nat, i: int)
    requires k < |others|
    ensures Xor(Xor(v, XorColumn(others[..k], i)), Entry(others[k], i)) == Xor(v, XorColumn(others[..k + 1], i))
  {
    assert others[..k + 1][..k] == others[..k];
    XorLaws(v, XorColumn(others[..k], i), Entry(others[k], i));
  }

  lemma AllXorZero()
    ensures forall v: byte :: Xor(v, 0) == v
  {
    forall v: byte ensures Xor(v, 0) == v { XorZero(v); }
  }

  /** The body of the recovery loop: the header octets, then the payload up to the
      shorter of the two lengths. */
  method XorKnown(buffer: array<byte>, other: Buffer)
    requires buffer.Length >= RTP_HEADER && |other| >= RTP_HEADER
    modifies buffer
    ensures forall i :: 0 <= i < buffer.Length ==>
              buffer[i] == if Folded(i) then Xor(old(buffer[i]), Entry(other, i)) else old(buffer[i])
  {
    XorTimestamp(buffer, other);
    buffer[0] := Xor(buffer[0], other[0]);
    buffer[1] := Xor(buffer[1], other[1]);
    var limit := if |other| < buffer.Length then |other| else buffer.Length;
    var i := RTP_HEADER;
    while i < limit
      invariant RTP_HEADER <= i <= limit
      invariant forall j :: 0 <= j < buffer.Length ==>
                  buffer[j] == if Folded(j) && j < i then Xor(old(buffer[j]), Entry(other, j)) else old(buffer[j])
    {
      buffer[i] := Xor(buffer[i], other[i]);
      i := i + 1;
    }
    forall j | limit <= j < buffer.Length ensures buffer[j] == Xor(old(buffer[j]), Entry(other, j)) {
      XorZero(buffer[j]);
    }
  }
}