/** The ULP FEC encoder. The mask buffer is one array: the method that computes a
    sub-mask writes into the same array that the caller is assembling. */
module FecEncoder {
  import opened ByteIo
  import opened SeqComparison
  import opened RtpPackets
  import opened FecXor
  import opened FecCodec
  import opened FecMask
  import opened FecShift
  import opened FecMatrix
  import FecRecovery

  datatype Tables = Tables(random: Table, bursty: Table)

  function PickTable(tables: Tables, random: bool, media: nat): Table {
    if !random && media <= MAX_TABLE_MEDIA then tables.bursty else tables.random
  }

  /** Beyond 12 media packets the table makes no difference. */
  lemma TableAsked(tables: Tables, random: bool, media: nat, fec: nat, important: nat, mode: Mode)
    requires TableOk(tables.random) && TableOk(tables.bursty) && Served(media, fec, important, mode)
    ensures FinalRows(PickTable(tables, random, media), media, fec, important, mode) ==
            FinalRows(if random then tables.random else tables.bursty, media, fec, important, mode)
  {
    hide TableOk, InterleavedRow, ShiftedRow, WithFirst;
  }

  // ---------- blocks of rows ----------

  lemma {:induction false} AtSum(a: nat, b: nat, stride: nat)
    ensures At(a + b, stride) == At(a, stride) + At(b, stride)
  {
    if b > 0 {
      AtSum(a, b - 1, stride);
    }
  }

  /** Writing a block of whole rows from row `first` on. */
  lemma BlockRow(mask: seq<byte>, first: nat, block: seq<byte>, stride: nat, rows: nat, k: nat)
    requires |block| == At(rows, stride) && At(first + rows, stride) <= |mask| && At(k, stride) + stride <= |mask|
    requires At(first, stride) + |block| <= |mask|
    ensures k < first || k >= first + rows ==> RowOf(Spliced(mask, At(first, stride), block), stride, k) == RowOf(mask, stride, k)
    ensures first <= k < first + rows ==>
              At(k - first, stride) + stride <= |block|
              && RowOf(Spliced(mask, At(first, stride), block), stride, k) == RowOf(block, stride, k - first)
  {
    hide At, Spliced;
    AtSum(first, rows, stride);
    if k < first {
      AtApart(k, first, stride);
      SplicedApart(mask, At(first, stride), block, At(k, stride), At(k, stride) + stride);
    } else if k >= first + rows {
      if k > first + rows { AtApart(first + rows, k, stride); }
      SplicedApart(mask, At(first, stride), block, At(k, stride), At(k, stride) + stride);
    } else {
      AtSum(first, k - first, stride);
      AtApart(k - first, rows, stride);
      SplicedInside(mask, At(first, stride), block, At(k - first, stride), At(k - first, stride) + stride);
    }
  }

  lemma SplicedInside(mask: seq<byte>, at: nat, block: seq<byte>, from: nat, to: nat)
    requires at + |block| <= |mask| && from <= to <= |block|
    ensures Spliced(mask, at, block)[at + from..at + to] == block[from..to]
  {
    var s := Spliced(mask, at, block);
    forall p | from <= p < to ensures s[at + p] == block[p] {
    }
  }

  /** The first `rows` rows are those of the interleaved mask. */
  ghost predicate Filled(mask: seq<byte>, media: nat, fec: nat, stride: nat, rows: nat)
    requires fec > 0
  {
    forall r: nat :: r < rows ==> At(r, stride) + stride <= |mask| && RowOf(mask, stride, r) == InterleavedRow(media, fec, stride, r)
  }

  lemma FilledStep(before: seq<byte>, after: seq<byte>, media: nat, fec: nat, stride: nat, row: nat)
    requires fec > 0 && At(row, stride) + stride <= |before| && Filled(before, media, fec, stride, row)
    requires after == Spliced(before, At(row, stride), InterleavedRow(media, fec, stride, row))
    ensures Filled(after, media, fec, stride, row + 1)
  {
    forall r: nat | r < row + 1
      ensures At(r, stride) + stride <= |after| && RowOf(after, stride, r) == InterleavedRow(media, fec, stride, r)
    {
      if r < row {
        AtApart(r, row, stride);
      }
      SplicedRow(before, At(row, stride), InterleavedRow(media, fec, stride, row), stride, row, r);
      if r == row {
        WholeRow(RowOf(before, stride, r), InterleavedRow(media, fec, stride, r));
      }
    }
  }

  lemma WholeRow(old_: Row, row: Row)
    requires |old_| == |row|
    ensures Spliced(old_, 0, row) == row
  {
  }

  lemma FilledPrefix(mask: seq<byte>, media: nat, fec: nat, stride: nat, rows: nat)
    requires fec > 0 && At(rows, stride) <= |mask| && Filled(mask, media, fec, stride, rows)
    ensures Filled(mask[..At(rows, stride)], media, fec, stride, rows)
  {
    RowsInside(rows, stride);
    var out := mask[..At(rows, stride)];
    forall r: nat | r < rows
      ensures At(r, stride) + stride <= |out| && RowOf(out, stride, r) == InterleavedRow(media, fec, stride, r)
    {
      assert RowOf(out, stride, r) == RowOf(mask, stride, r);
    }
  }

  /** What a narrower sub-mask's rows leave in the mask. */
  function Fitted(mask: seq<byte>, stride: nat, subStride: nat, rows: nat, sub: seq<byte>): (r: seq<byte>)
    requires subStride <= stride && At(rows, stride) <= |mask| && At(rows, subStride) <= |sub|
    ensures |r| == |mask|
  {
    if rows == 0 then mask
    else
      Spliced(Fitted(mask, stride, subStride, rows - 1, sub), At(rows - 1, stride), RowOf(sub, subStride, rows - 1))
  }

  /** A sub-mask for `media` and `fec` packets. */
  ghost predicate SourceMask(out: seq<byte>, table: Table, media: nat, fec: nat, stride: nat)
    requires 0 < fec <= media && TableOk(table)
  {
    if media <= MAX_TABLE_MEDIA then out == TableMask(table, media, fec)
    else |out| == At(fec, stride) && Filled(out, media, fec, stride, fec)
  }

  lemma SourceMaskRow(out: seq<byte>, table: Table, media: nat, fec: nat, stride: nat, r: nat)
    requires 0 < fec <= media && TableOk(table) && SourceMask(out, table, media, fec, stride) && r < fec
    requires media <= MAX_TABLE_MEDIA ==> stride == MASK_SIZE_CLEAR
    ensures |out| == At(fec, stride) && At(r, stride) + stride <= |out|
    ensures RowOf(out, stride, r) == SourceRow(table, media, fec, stride, r)
  {
    AtApart(r, fec, stride);
  }

  ghost predicate HoldsRow(mask: seq<byte>, stride: nat, k: nat, row: Row) {
    At(k, stride) + stride <= |mask| && RowOf(mask, stride, k) == row
  }

  /** Row `first + r` is row `r` of a sub-mask. */
  ghost predicate RowIs(mask: seq<byte>, first: nat, table: Table, media: nat, fec: nat, stride: nat, r: nat)
    requires 0 < fec <= media && TableOk(table) && r < fec
  {
    HoldsRow(mask, stride, first + r, SourceRow(table, media, fec, stride, r))
  }

  /** From row `first` on, the mask holds the rows of a sub-mask. */
  ghost predicate RowsAre(mask: seq<byte>, first: nat, table: Table, media: nat, fec: nat, stride: nat)
    requires 0 < fec <= media && TableOk(table)
  {
    forall r: nat :: r < fec ==> RowIs(mask, first, table, media, fec, stride, r)
  }

  /** Row `apart + r` is row `r` of the sub-mask for the remaining packets, moved. */
  ghost predicate RowIsMoved(mask: seq<byte>, table: Table, media: nat, rest: nat, apart: nat, stride: nat, r: nat)
    requires TableOk(table) && apart < 8 && 0 < rest && apart + rest <= media && stride > 0 && r < rest
  {
    var row := SourceRow(table, media - apart, rest, stride, r);
    row != [] && HoldsRow(mask, stride, apart + r, ShiftedRow(row, apart, false))
  }

  ghost predicate RowsAreMoved(mask: seq<byte>, table: Table, media: nat, rest: nat, apart: nat, stride: nat)
    requires TableOk(table) && apart < 8 && 0 < rest && apart + rest <= media && stride > 0
  {
    forall r: nat :: r < rest ==> RowIsMoved(mask, table, media, rest, apart, stride, r)
  }

  /** The first `count` rows are those of a sub-mask. */
  ghost predicate FirstRowsAre(mask: seq<byte>, table: Table, media: nat, fec: nat, stride: nat, count: nat)
    requires count <= fec && 0 < fec <= media && TableOk(table)
  {
    forall r: nat :: r < count ==> RowIs(mask, 0, table, media, fec, stride, r)
  }

  lemma BlockSourceRow(mask: seq<byte>, after: seq<byte>, first: nat, sub: seq<byte>, table: Table, media: nat, fec: nat,
                       stride: nat, r: nat)
    requires 0 < fec <= media && TableOk(table) && SourceMask(sub, table, media, fec, stride) && r < fec
    requires media <= MAX_TABLE_MEDIA ==> stride == MASK_SIZE_CLEAR
    requires |sub| == At(fec, stride) && At(first + fec, stride) <= |mask| && At(first, stride) + |sub| <= |mask|
    requires after == Spliced(mask, At(first, stride), sub)
    ensures RowIs(after, first, table, media, fec, stride, r)
  {
    AtApart(first + r, first + fec, stride);
    SourceMaskRow(sub, table, media, fec, stride, r);
    BlockHolds(mask, first, sub, fec, stride, r);
  }

  lemma BlockHolds(mask: seq<byte>, first: nat, sub: seq<byte>, fec: nat, stride: nat, r: nat)
    requires |sub| == At(fec, stride) && At(first + fec, stride) <= |mask| && At(first, stride) + |sub| <= |mask|
    requires r < fec && At(r, stride) + stride <= |sub|
    ensures HoldsRow(Spliced(mask, At(first, stride), sub), stride, first + r, RowOf(sub, stride, r))
  {
    AtApart(first + r, first + fec, stride);
    BlockRow(mask, first, sub, stride, fec, first + r);
  }

  lemma BlockKept(mask: seq<byte>, first: nat, sub: seq<byte>, fec: nat, stride: nat)
    requires |sub| == At(fec, stride) && At(first + fec, stride) <= |mask| && At(first, stride) + |sub| <= |mask|
    ensures RowsKept(mask, Spliced(mask, At(first, stride), sub), stride, first)
  {
    var after := Spliced(mask, At(first, stride), sub);
    forall r: nat | r < first && At(r, stride) + stride <= |mask| ensures RowOf(after, stride, r) == RowOf(mask, stride, r) {
      BlockRow(mask, first, sub, stride, fec, r);
    }
  }

  /** Writing a sub-mask as a block puts its rows there and leaves the other rows. */
  lemma BlockRowsAre(mask: seq<byte>, after: seq<byte>, first: nat, sub: seq<byte>, table: Table, media: nat, fec: nat, stride: nat)
    requires 0 < fec <= media && TableOk(table) && SourceMask(sub, table, media, fec, stride)
    requires media <= MAX_TABLE_MEDIA ==> stride == MASK_SIZE_CLEAR
    requires |sub| == At(fec, stride) && At(first + fec, stride) <= |mask| && At(first, stride) + |sub| <= |mask|
    requires after == Spliced(mask, At(first, stride), sub)
    ensures RowsAre(after, first, table, media, fec, stride)
    ensures RowsKept(mask, after, stride, first)
  {
    BlockKept(mask, first, sub, fec, stride);
    forall r: nat | r < fec ensures RowIs(after, first, table, media, fec, stride, r) {
      BlockSourceRow(mask, after, first, sub, table, media, fec, stride, r);
    }
  }

  /** The rows before row `first` are as before. */
  ghost predicate RowsKept(before: seq<byte>, after: seq<byte>, stride: nat, first: nat) {
    && |after| == |before|
    && forall r: nat :: r < first && At(r, stride) + stride <= |before| ==> RowOf(after, stride, r) == RowOf(before, stride, r)
  }

  /** The rows in the mask are the final ones. */
  ghost predicate MatrixIs(mask: seq<byte>, table: Table, media: nat, fec: nat, important: nat, mode: Mode)
    requires Served(media, fec, important, mode) && TableOk(table)
  {
    forall r: nat :: r < fec ==> HoldsRow(mask, MaskBytes(media), r, FinalRow(table, media, fec, important, mode, r))
  }

  /** Every stride and row count the encoder uses fits its buffer. */
  lemma BufferFits(rows: nat, stride: nat)
    requires rows <= MAX_MEDIA && stride <= MASK_SIZE_SET
    ensures At(rows, stride) <= MASK_MAX_SIZE
  {
    AtIs(rows, stride);
    assert rows * stride <= MAX_MEDIA * MASK_SIZE_SET by {
      assert rows * stride <= rows * MASK_SIZE_SET;
    }
  }

  lemma SubMaskFits(sub: seq<byte>, table: Table, important: nat, apart: nat, stride: nat)
    requires 0 < apart <= important && TableOk(table) && SourceMask(sub, table, important, apart, stride)
    requires MaskBytes(important) <= stride
    ensures At(apart, MaskBytes(important)) <= |sub|
    ensures important <= MAX_TABLE_MEDIA ==> |sub| == At(apart, MASK_SIZE_CLEAR)
  {
    AtGrows(apart, MaskBytes(important), stride);
  }

  lemma {:induction false} AtGrows(rows: nat, narrow: nat, wide: nat)
    requires narrow <= wide
    ensures At(rows, narrow) <= At(rows, wide)
  {
    if rows > 0 {
      AtGrows(rows - 1, narrow, wide);
    }
  }

  lemma ShiftRoom(rest: nat, apart: nat, stride: nat, length: nat)
    requires 0 < stride <= MASK_SIZE_SET && apart < 8 && apart + rest <= MAX_MEDIA && length == At(rest, stride)
    ensures Room(MASK_MAX_SIZE, length, stride, stride, apart, rest) && Spill(stride, stride, apart) == 0
  {
    BufferFits(apart + rest, stride);
    forall k | 0 <= k < rest
      ensures Target(k, stride, apart) + Width(stride, stride) <= MASK_MAX_SIZE && At(k, stride) + stride <= length
    {
      AtApart(apart + k, apart + rest, stride);
      AtApart(k, rest, stride);
    }
  }

  lemma MovedIs(sub: seq<byte>, stride: nat, apart: nat, r: nat)
    requires apart < 8 && stride > 0 && At(r, stride) + stride <= |sub|
    ensures apart / 8 == 0 && MovedRow(sub, stride, stride, apart, r) == ShiftedRow(RowOf(sub, stride, r), apart, false)
  {
  }

  /** Moved by less than a byte into rows of the same size, a row replaces the whole row. */
  lemma MovedHolds(before: seq<byte>, after: seq<byte>, sub: seq<byte>, stride: nat, rest: nat, apart: nat, r: nat)
    requires apart < 8 && r < rest && stride > 0
    requires Room(|before|, |sub|, stride, stride, apart, rest) && Spill(stride, stride, apart) == 0
    requires after == ShiftedRows(before, sub, stride, stride, apart, rest)
    ensures At(r, stride) + stride <= |sub|
    ensures HoldsRow(after, stride, apart + r, ShiftedRow(RowOf(sub, stride, r), apart, false))
  {
    hide Spliced, ShiftedRow, RowOf, MovedRow, ShiftedRows, At;
    assert Target(r, stride, apart) + Width(stride, stride) <= |before|;
    WholeRowShifted(before, sub, stride, stride, apart, rest, apart + r);
    MovedIs(sub, stride, apart, r);
    WholeRow(RowOf(before, stride, apart + r), MovedRow(sub, stride, stride, apart, r));
  }

  lemma MovedKept(before: seq<byte>, after: seq<byte>, sub: seq<byte>, stride: nat, rest: nat, apart: nat)
    requires Room(|before|, |sub|, stride, stride, apart, rest) && Spill(stride, stride, apart) == 0
    requires after == ShiftedRows(before, sub, stride, stride, apart, rest)
    ensures RowsKept(before, after, stride, apart)
  {
    forall r: nat | r < apart && At(r, stride) + stride <= |before| ensures RowOf(after, stride, r) == RowOf(before, stride, r) {
      WholeRowShifted(before, sub, stride, stride, apart, rest, r);
    }
  }

  lemma ShiftedSourceRow(after: seq<byte>, sub: seq<byte>, table: Table, media: nat, rest: nat, apart: nat, stride: nat, r: nat)
    requires TableOk(table) && apart < 8 && 0 < rest && apart + rest <= media && r < rest && stride > 0
    requires media - apart <= MAX_TABLE_MEDIA ==> stride == MASK_SIZE_CLEAR
    requires SourceMask(sub, table, media - apart, rest, stride) && At(r, stride) + stride <= |sub|
    requires HoldsRow(after, stride, apart + r, ShiftedRow(RowOf(sub, stride, r), apart, false))
    ensures RowIsMoved(after, table, media, rest, apart, stride, r)
  {
    hide SourceMask, ShiftedRow, RowOf, At, TableOk;
    SourceMaskRow(sub, table, media - apart, rest, stride, r);
  }

  lemma MovedSourceRows(before: seq<byte>, after: seq<byte>, sub: seq<byte>, table: Table, media: nat, rest: nat, apart: nat, stride: nat)
    requires TableOk(table) && apart < 8 && 0 < rest && apart + rest <= media && stride > 0
    requires media - apart <= MAX_TABLE_MEDIA ==> stride == MASK_SIZE_CLEAR
    requires SourceMask(sub, table, media - apart, rest, stride)
    requires Room(|before|, |sub|, stride, stride, apart, rest) && Spill(stride, stride, apart) == 0
    requires after == ShiftedRows(before, sub, stride, stride, apart, rest)
    ensures RowsAreMoved(after, table, media, rest, apart, stride)
  {
    forall r: nat | r < rest ensures RowIsMoved(after, table, media, rest, apart, stride, r) {
      MovedHolds(before, after, sub, stride, rest, apart, r);
      ShiftedSourceRow(after, sub, table, media, rest, apart, stride, r);
    }
  }

  /** Column `c` of row `apart + r`, from the first touched byte to the end of the row or of
      what is moved, is column `c - apart` of row `r` of the sub-mask for the rest. */
  ghost predicate ColumnMoved(mask: seq<byte>, table: Table, media: nat, rest: nat, apart: nat, stride: nat, r: nat, c: nat)
    requires TableOk(table) && 0 < rest && apart + rest <= media && r < rest
  {
    && At(apart + r, stride) + stride <= |mask|
    && (RowBit(RowOf(mask, stride, apart + r), c) <==>
        c >= apart && RowBit(SourceRow(table, media - apart, rest, MaskBytes(media - apart), r), c - apart))
  }

  predicate Touched(media: nat, apart: nat, stride: nat, c: nat)
    requires apart <= media
  {
    apart / 8 * 8 <= c < 8 * stride && c < 8 * (apart / 8 + Width(stride, MaskBytes(media - apart)))
  }

  ghost predicate ColumnsMoved(mask: seq<byte>, table: Table, media: nat, rest: nat, apart: nat, stride: nat)
    requires TableOk(table) && 0 < rest && apart + rest <= media
  {
    forall r: nat, c: nat :: r < rest && Touched(media, apart, stride, c) ==> ColumnMoved(mask, table, media, rest, apart, stride, r, c)
  }

  lemma MovedColumns(before: seq<byte>, after: seq<byte>, sub: seq<byte>, table: Table, media: nat, rest: nat, apart: nat, stride: nat)
    requires TableOk(table) && 0 < rest && apart + rest <= media <= MAX_MEDIA && stride == MaskBytes(media)
    requires var subStride := MaskBytes(media - apart);
             && SourceMask(sub, table, media - apart, rest, subStride)
             && Room(|before|, |sub|, stride, subStride, apart, rest)
             && after == ShiftedRows(before, sub, stride, subStride, apart, rest)
    requires At(apart + rest, stride) <= |before|
    ensures ColumnsMoved(after, table, media, rest, apart, stride)
  {
    hide SourceMask, TableOk, SourceRow, ShiftedRows, Room, RowBit, At, RowOf;
    var subStride := MaskBytes(media - apart);
    forall r: nat, c: nat | r < rest && Touched(media, apart, stride, c)
      ensures ColumnMoved(after, table, media, rest, apart, stride, r, c)
    {
      AtApart(apart + r, apart + rest, stride);
      SourceMaskRow(sub, table, media - apart, rest, subStride, r);
      ShiftIsColumnShift(before, sub, stride, subStride, apart, rest, r, c);
    }
  }

  // ---------- the assembled matrix ----------

  lemma SourceLength(sub: seq<byte>, table: Table, media: nat, fec: nat, stride: nat)
    requires 0 < fec <= media && TableOk(table) && SourceMask(sub, table, media, fec, stride)
    requires media <= MAX_TABLE_MEDIA ==> stride == MASK_SIZE_CLEAR
    ensures |sub| == At(fec, stride)
  {
  }

  ghost predicate Biased(before: seq<byte>, after: seq<byte>, stride: nat, rows: nat)
    requires stride > 0
  {
    && |after| == |before|
    && forall r: nat :: r < rows && At(r, stride) + stride <= |before| ==>
         RowOf(after, stride, r) == WithFirst(RowOf(before, stride, r))
  }

  lemma BiasedStep(before: seq<byte>, sofar: seq<byte>, after: seq<byte>, stride: nat, i: nat)
    requires stride > 0 && Biased(before, sofar, stride, i) && At(i, stride) + stride <= |before|
    requires forall p :: At(i, stride) <= p < |before| ==> sofar[p] == before[p]
    requires after == sofar[At(i, stride) := Or(sofar[At(i, stride)], 0x80)]
    ensures Biased(before, after, stride, i + 1)
  {
    forall r: nat | r < i + 1 && At(r, stride) + stride <= |before|
      ensures RowOf(after, stride, r) == WithFirst(RowOf(before, stride, r))
    {
      if r < i {
        AtApart(r, i, stride);
        assert RowOf(after, stride, r) == RowOf(sofar, stride, r);
      }
    }
  }

  lemma PlainAssembled(mask: seq<byte>, table: Table, media: nat, fec: nat, mode: Mode)
    requires Served(media, fec, 0, mode) && TableOk(table) && RowsAre(mask, 0, table, media, fec, MaskBytes(media))
    ensures MatrixIs(mask, table, media, fec, 0, mode)
  {
    forall r: nat | r < fec ensures HoldsRow(mask, MaskBytes(media), r, FinalRow(table, media, fec, 0, mode, r)) {
      assert RowIs(mask, 0, table, media, fec, MaskBytes(media), r);
    }
  }

  lemma PlainIsOverlap(mask: seq<byte>, table: Table, media: nat, fec: nat, important: nat)
    requires Served(media, fec, important, Plain) && TableOk(table) && important > 0
    requires MatrixIs(mask, table, media, fec, important, Overlap)
    ensures MatrixIs(mask, table, media, fec, important, Plain)
  {
    hide TableOk, SourceRow, ShiftedRow, RowOf;
    forall r: nat | r < fec
      ensures HoldsRow(mask, MaskBytes(media), r, FinalRow(table, media, fec, important, Plain, r))
    {
      assert HoldsRow(mask, MaskBytes(media), r, FinalRow(table, media, fec, important, Overlap, r));
    }
  }

  lemma BiasAssembled(plain: seq<byte>, mask: seq<byte>, table: Table, media: nat, fec: nat, important: nat)
    requires Served(media, fec, important, BiasFirst) && TableOk(table) && important > 0
    requires RowsAre(plain, 0, table, media, fec, MaskBytes(media)) && Biased(plain, mask, MaskBytes(media), fec)
    ensures MatrixIs(mask, table, media, fec, important, BiasFirst)
  {
    forall r: nat | r < fec
      ensures HoldsRow(mask, MaskBytes(media), r, FinalRow(table, media, fec, important, BiasFirst, r))
    {
      assert RowIs(plain, 0, table, media, fec, MaskBytes(media), r);
    }
  }

  lemma OverlapRow(before: seq<byte>, mask: seq<byte>, table: Table, media: nat, fec: nat, important: nat, apart: nat,
                   stride: nat, r: nat)
    requires Served(media, fec, important, Overlap) && TableOk(table) && important > 0 && r < fec
    requires apart == ImportantRows(media, fec, important, Overlap) && stride == MaskBytes(media)
    requires RowsAre(mask, apart, table, media, fec - apart, stride)
    requires media > MAX_TABLE_MEDIA ==> FirstRowsAre(mask, table, media, fec - apart, stride, apart)
    requires media <= MAX_TABLE_MEDIA ==> RowsKept(before, mask, stride, apart)
                                          && (apart > 0 ==> RowsAre(before, 0, table, important, apart, stride))
    ensures HoldsRow(mask, stride, r, FinalRow(table, media, fec, important, Overlap, r))
  {
    hide SourceRow, RowOf, TableOk;
    if r >= apart {
      assert RowIs(mask, apart, table, media, fec - apart, stride, r - apart);
    } else if media > MAX_TABLE_MEDIA {
      assert RowIs(mask, 0, table, media, fec - apart, stride, r);
    } else {
      assert RowIs(before, 0, table, important, apart, stride, r);
    }
  }

  lemma OverlapAssembled(before: seq<byte>, mask: seq<byte>, table: Table, media: nat, fec: nat, important: nat, apart: nat, stride: nat)
    requires Served(media, fec, important, Overlap) && TableOk(table) && important > 0
    requires apart == ImportantRows(media, fec, important, Overlap) && stride == MaskBytes(media)
    requires RowsAre(mask, apart, table, media, fec - apart, stride)
    requires media > MAX_TABLE_MEDIA ==> FirstRowsAre(mask, table, media, fec - apart, stride, apart)
    requires media <= MAX_TABLE_MEDIA ==> RowsKept(before, mask, stride, apart)
                                          && (apart > 0 ==> RowsAre(before, 0, table, important, apart, stride))
    ensures MatrixIs(mask, table, media, fec, important, Overlap)
  {
    forall r: nat | r < fec ensures HoldsRow(mask, stride, r, FinalRow(table, media, fec, important, Overlap, r)) {
      OverlapRow(before, mask, table, media, fec, important, apart, stride, r);
    }
  }

  lemma FinalApart(table: Table, media: nat, fec: nat, important: nat, apart: nat, stride: nat, r: nat)
    requires Served(media, fec, important, NoOverlap) && TableOk(table) && important > 0 && r < fec
    requires apart == ImportantRows(media, fec, important, NoOverlap) && stride == MaskBytes(media)
    ensures r < apart ==> FinalRow(table, media, fec, important, NoOverlap, r) == SourceRow(table, important, apart, stride, r)
    ensures r >= apart ==>
              SourceRow(table, media - apart, fec - apart, stride, r - apart) != []
              && FinalRow(table, media, fec, important, NoOverlap, r) ==
                 ShiftedRow(SourceRow(table, media - apart, fec - apart, stride, r - apart), apart, false)
  {
    hide ShiftedRow;
  }

  lemma ApartRow(before: seq<byte>, mask: seq<byte>, table: Table, media: nat, fec: nat, important: nat, apart: nat,
                 stride: nat, r: nat)
    requires Served(media, fec, important, NoOverlap) && TableOk(table) && important > 0 && r < fec
    requires apart == ImportantRows(media, fec, important, NoOverlap) && stride == MaskBytes(media)
    requires RowsKept(before, mask, stride, apart) && (apart > 0 ==> RowsAre(before, 0, table, important, apart, stride))
    requires RowsAreMoved(mask, table, media, fec - apart, apart, stride)
    ensures HoldsRow(mask, stride, r, FinalRow(table, media, fec, important, NoOverlap, r))
  {
    hide SourceRow, TableOk, FinalRow, ImportantRows, RowOf, ShiftedRow;
    FinalApart(table, media, fec, important, apart, stride, r);
    if r >= apart {
      assert RowIsMoved(mask, table, media, fec - apart, apart, stride, r - apart);
    } else {
      assert RowIs(before, 0, table, important, apart, stride, r);
    }
  }

  lemma ApartAssembled(before: seq<byte>, mask: seq<byte>, table: Table, media: nat, fec: nat, important: nat, apart: nat, stride: nat)
    requires Served(media, fec, important, NoOverlap) && TableOk(table) && important > 0
    requires apart == ImportantRows(media, fec, important, NoOverlap) && stride == MaskBytes(media)
    requires RowsKept(before, mask, stride, apart) && (apart > 0 ==> RowsAre(before, 0, table, important, apart, stride))
    requires RowsAreMoved(mask, table, media, fec - apart, apart, stride)
    ensures MatrixIs(mask, table, media, fec, important, NoOverlap)
  {
    forall r: nat | r < fec ensures HoldsRow(mask, stride, r, FinalRow(table, media, fec, important, NoOverlap, r)) {
      ApartRow(before, mask, table, media, fec, important, apart, stride, r);
    }
  }

  // ---------- groups ----------

  /** The media packets at a row's columns. */
  function Select(media: seq<Member>, columns: seq<nat>): (group: seq<Member>)
    requires forall k :: 0 <= k < |columns| ==> columns[k] < |media|
    ensures |group| == |columns| && forall k :: 0 <= k < |group| ==> group[k] == media[columns[k]]
  {
    seq(|columns|, k requires 0 <= k < |columns| => media[columns[k]])
  }

  predicate Packetlike(m: Member) {
    RTP_HEADER <= |m.buffer| <= RTP_HEADER + 0x7fff
  }

  function LongestPayload(group: seq<Member>): (length: U16)
    requires forall k :: 0 <= k < |group| ==> Packetlike(group[k])
    ensures forall k :: 0 <= k < |group| ==> |group[k].buffer| <= RTP_HEADER + length
  {
    if group == [] then 0
    else
      var before := LongestPayload(group[..|group| - 1]);
      assert Packetlike(group[|group| - 1]);
      var length := |group[|group| - 1].buffer| - RTP_HEADER;
      if length > before then length else before
  }

  lemma ColumnsWithin(row: Row, media: nat)
    requires forall c: nat :: RowBit(row, c) ==> c < media
    ensures forall k :: 0 <= k < |Columns(row)| ==> Columns(row)[k] < media
    ensures Columns(row) != [] <==> exists c: nat :: c < media && RowBit(row, c)
    ensures forall a, b :: 0 <= a < b < |Columns(row)| ==> Columns(row)[a] < Columns(row)[b]
  {
    ColumnsAre(row, 8 * |row|);
    var columns := Columns(row);
    forall k | 0 <= k < |columns| ensures columns[k] < media {
      assert columns[k] in columns;
    }
    if columns != [] {
      assert columns[0] in columns;
    }
  }

  /** The group a row stands for. */
  function GroupOf(media: seq<Member>, row: Row): (group: seq<Member>)
    requires forall c: nat :: RowBit(row, c) ==> c < |media|
  {
    ColumnsWithin(row, |media|);
    Select(media, Columns(row))
  }

  /** The packet that carries a group's FEC payload; the caller numbers it. */
  function FecPacketOf(fecType: byte, ssrc: U32, group: seq<Member>): RtpPacket
    requires group != [] && forall k :: 0 <= k < |group| ==> Packetlike(group[k])
  {
    RtpPacket(fecType, 0, 0, ssrc, [], None, Some(FecPayload(group, LongestPayload(group))), 0)
  }

  /** Media packets with consecutive numbers from `base` on. */
  ghost predicate Consecutive(media: seq<Member>, base: int) {
    forall j :: 0 <= j < |media| ==> media[j].seqNum == Wrap(base + j) && Packetlike(media[j])
  }

  /** The unwrapped numbers at a row's columns. */
  function NumbersAt(base: int, columns: seq<nat>): (ns: seq<int>)
    ensures |ns| == |columns| && forall k :: 0 <= k < |ns| ==> ns[k] == base + columns[k]
  {
    seq(|columns|, k requires 0 <= k < |columns| => base + columns[k])
  }

  lemma RowNumbered(media: seq<Member>, base: int, row: Row)
    requires Consecutive(media, base) && |media| <= MAX_MEDIA && Busy(row, |media|) && Within(row, |media|)
    ensures FecRecovery.Numbered(GroupOf(media, row), NumbersAt(base, Columns(row)))
    ensures forall k :: 0 <= k < |GroupOf(media, row)| ==> Packetlike(GroupOf(media, row)[k])
  {
    ColumnsWithin(row, |media|);
  }

  lemma NumberedBuildable(group: seq<Member>, ns: seq<int>)
    requires FecRecovery.Numbered(group, ns) && forall k :: 0 <= k < |group| ==> Packetlike(group[k])
    ensures Buildable(group, LongestPayload(group))
  {
    forall k | 0 <= k < |group| ensures Position(group[0].seqNum, group[k]) < 8 * MaskSize(LongMask(group)) {
      FecRecovery.PositionOf(group, ns, k);
    }
  }

  /** A sound row's group can be built: it is not empty and spans at most 48 numbers. */
  lemma RowGroup(media: seq<Member>, base: int, row: Row)
    requires Consecutive(media, base) && |media| <= MAX_MEDIA && Busy(row, |media|) && Within(row, |media|)
    ensures var group := GroupOf(media, row);
            && FecRecovery.Numbered(group, NumbersAt(base, Columns(row)))
            && (forall k :: 0 <= k < |group| ==> Packetlike(group[k]))
            && Buildable(group, LongestPayload(group))
  {
    RowNumbered(media, base, row);
    NumberedBuildable(GroupOf(media, row), NumbersAt(base, Columns(row)));
  }

  ghost predicate PacketIs(p: RtpPacket, media: seq<Member>, row: Row, fecType: byte, ssrc: U32) {
    && Within(row, |media|)
    && var group := GroupOf(media, row);
       group != [] && (forall k :: 0 <= k < |group| ==> Packetlike(group[k])) && p == FecPacketOf(fecType, ssrc, group)
  }

  /** Packet `r` carries the FEC payload of row `r`'s group. */
  ghost predicate PacketsAre(packets: seq<RtpPacket>, media: seq<Member>, rows: seq<Row>, fecType: byte, ssrc: U32) {
    |packets| == |rows| && forall k: nat :: k < |rows| ==> PacketIs(packets[k], media, rows[k], fecType, ssrc)
  }

  /** What has been read of a row's group after `c` columns. */
  ghost predicate Gathered(media: seq<Member>, row: Row, c: nat, group: seq<Member>, maxLength: U16)
    requires c <= 8 * |row|
  {
    && (forall k :: 0 <= k < |ColumnsTo(row, c)| ==> ColumnsTo(row, c)[k] < |media|)
    && group == Select(media, ColumnsTo(row, c))
    && (forall k :: 0 <= k < |group| ==> Packetlike(group[k])) && maxLength == LongestPayload(group)
  }

  lemma GatherStart(media: seq<Member>, row: Row)
    ensures Gathered(media, row, 0, [], 0)
  {
  }

  lemma GatherSkip(media: seq<Member>, row: Row, c: nat, group: seq<Member>, maxLength: U16)
    requires c < 8 * |row| && Gathered(media, row, c, group, maxLength) && !RowBit(row, c)
    ensures Gathered(media, row, c + 1, group, maxLength)
  {
    ColumnsStep(row, c + 1);
  }

  lemma GatherEnd(media: seq<Member>, row: Row, group: seq<Member>, maxLength: U16)
    requires Gathered(media, row, 8 * |row|, group, maxLength) && Within(row, |media|)
    ensures group == GroupOf(media, row)
    ensures (forall k :: 0 <= k < |group| ==> Packetlike(group[k])) && maxLength == LongestPayload(group)
  {
  }

  lemma GatherStep(media: seq<Member>, row: Row, c: nat, group: seq<Member>, maxLength: U16)
    requires c < 8 * |row| && Gathered(media, row, c, group, maxLength) && RowBit(row, c)
    requires c < |media| && Packetlike(media[c])
    ensures var length := |media[c].buffer| - RTP_HEADER;
            Gathered(media, row, c + 1, group + [media[c]], if length > maxLength then length else maxLength)
  {
    hide At;
    assert (group + [media[c]])[..|group|] == group;
    ColumnsStep(row, c + 1);
  }

  // ---------- batches ----------

  /** A packet whose bytes the signed 16-bit payload index can walk. */
  predicate Protectable(p: RtpPacket) {
    p.WellFormed() && |Serialized(p)| <= RTP_HEADER + 0x7fff
  }

  function MembersFor(packets: seq<RtpPacket>): (media: seq<Member>)
    ensures |media| == |packets|
    ensures forall k :: 0 <= k < |media| ==> media[k] == Member(packets[k].seqNum, Serialized(packets[k]))
  {
    seq(|packets|, k requires 0 <= k < |packets| => Member(packets[k].seqNum, Serialized(packets[k])))
  }

  /** Packets of one stream with consecutive numbers. */
  predicate Together(packets: seq<RtpPacket>, ssrc: U32) {
    && (forall k :: 0 <= k < |packets| ==> packets[k].ssrc == ssrc)
    && (forall k :: 0 < k < |packets| ==> IsNextSeq(packets[k - 1].seqNum, packets[k].seqNum))
  }

  predicate Acceptable(packets: seq<RtpPacket>, important: nat, ssrc: U32) {
    0 < |packets| <= MAX_MEDIA && important <= |packets| && Together(packets, ssrc)
  }

  /** The FEC packets of an accepted batch: the right number of them, each built from a
      row of the final matrix. */
  ghost predicate EncodedAs(protected: seq<RtpPacket>, important: nat, mode: Mode, protectionFactor: byte, table: Table,
                            packets: seq<RtpPacket>, fecType: byte, ssrc: U32)
    requires TableOk(table)
  {
    && Acceptable(protected, important, ssrc)
    && |packets| == NumFecPackets(|protected|, protectionFactor)
    && (packets != [] ==>
          Served(|protected|, |packets|, important, mode)
          && PacketsAre(packets, MembersFor(protected), FinalRows(table, |protected|, |packets|, important, mode), fecType, ssrc))
  }

  /** FEC packets belong to the encoder's stream and are of its type, with nothing but a
      header and a payload. */
  lemma FecFields(protected: seq<RtpPacket>, important: nat, mode: Mode, protectionFactor: byte, table: Table,
                  packets: seq<RtpPacket>, fecType: byte, ssrc: U32, k: nat)
    requires TableOk(table) && fecType < 0x80 && k < |packets|
    requires EncodedAs(protected, important, mode, protectionFactor, table, packets, fecType, ssrc)
    ensures packets[k].ssrc == ssrc && packets[k].PayloadType() == fecType && packets[k].Marker() == 0
    ensures packets[k].seqNum == 0 && packets[k].timestamp == 0 && packets[k].csrcs == [] && packets[k].extension.None?
    ensures packets[k].padSize == 0 && packets[k].payload.Some?
  {
    hide TableOk, FinalRows, Acceptable, NumFecPackets, FecPayload;
    assert PacketIs(packets[k], MembersFor(protected), FinalRows(table, |protected|, |packets|, important, mode)[k], fecType, ssrc);
  }

  lemma NotTogether(packets: seq<RtpPacket>, ssrc: U32, k: nat)
    requires k < |packets|
    requires packets[k].ssrc != ssrc || (k > 0 && !IsNextSeq(packets[k - 1].seqNum, packets[k].seqNum))
    ensures !Together(packets, ssrc)
  {
  }

  lemma OneMore(packets: seq<RtpPacket>, ssrc: U32, k: nat)
    requires k < |packets| && Together(packets[..k], ssrc)
    requires packets[k].ssrc == ssrc && (k > 0 ==> IsNextSeq(packets[k - 1].seqNum, packets[k].seqNum))
    ensures Together(packets[..k + 1], ssrc)
    ensures MembersFor(packets[..k + 1]) == MembersFor(packets[..k]) + [Member(packets[k].seqNum, Serialized(packets[k]))]
  {
    assert packets[..k + 1] == packets[..k] + [packets[k]];
  }

  lemma NextWraps(a: Seq16, n: int)
    requires IsNextSeq(Wrap(n), a)
    ensures a == Wrap(n + 1)
  {
  }

  /** Consecutive numbers stay consecutive over the wrap. */
  lemma TogetherConsecutive(packets: seq<RtpPacket>, ssrc: U32)
    requires Together(packets, ssrc) && packets != [] && forall k :: 0 <= k < |packets| ==> Protectable(packets[k])
    ensures Consecutive(MembersFor(packets), packets[0].seqNum)
  {
    forall j | 0 <= j < |packets| ensures packets[j].seqNum == Wrap(packets[0].seqNum + j) {
      NumberAt(packets, ssrc, j);
    }
  }

  lemma {:induction false} NumberAt(packets: seq<RtpPacket>, ssrc: U32, j: nat)
    requires Together(packets, ssrc) && j < |packets|
    ensures packets[j].seqNum == Wrap(packets[0].seqNum + j)
  {
    if j > 0 {
      NumberAt(packets, ssrc, j - 1);
      NextWraps(packets[j].seqNum, packets[0].seqNum + j - 1);
    }
  }

  /** What is accepted: 1 to 48 packets of the encoder's stream, numbered one after the
      other over the wrap, and no more important ones than packets. */
  lemma AcceptableExactly(packets: seq<RtpPacket>, important: nat, ssrc: U32)
    ensures Acceptable(packets, important, ssrc) <==>
            && 0 < |packets| <= 48 && important <= |packets|
            && forall k :: 0 <= k < |packets| ==>
                 packets[k].ssrc == ssrc && packets[k].seqNum == Wrap(packets[0].seqNum + k)
  {
    if Acceptable(packets, important, ssrc) {
      forall k | 0 <= k < |packets| ensures packets[k].seqNum == Wrap(packets[0].seqNum + k) {
        NumberAt(packets, ssrc, k);
      }
    }
  }

  class UlpFecEncoder {
    const fecType: byte
    const ssrc: U32
    const tables: Tables
    const mask: array<byte>

    ghost predicate Valid() {
      mask.Length == MASK_MAX_SIZE && TableOk(tables.random) && TableOk(tables.bursty) && fecType < 0x80
    }

    constructor (fecType: byte, ssrc: U32, tables: Tables)
      requires TableOk(tables.random) && TableOk(tables.bursty) && fecType < 0x80
      ensures Valid() && this.fecType == fecType && this.ssrc == ssrc && this.tables == tables && fresh(mask)
    {
      this.fecType := fecType;
      this.ssrc := ssrc;
      this.tables := tables;
      mask := new byte[MASK_MAX_SIZE](_ => 0);
    }

    method FillRow(media: nat, fec: nat, stride: nat, row: nat)
      requires fec > 0 && At(row, stride) + stride <= mask.Length
      modifies mask
      ensures mask[..] == Spliced(old(mask[..]), At(row, stride), InterleavedRow(media, fec, stride, row))
    {
      ghost var before := mask[..];
      for col := 0 to stride
        invariant forall p :: 0 <= p < mask.Length ==>
                    mask[p] ==
                    if At(row, stride) <= p < At(row, stride) + col then Terms(media, fec, row, p - At(row, stride), 8)
                    else before[p]
      {
        mask[At(row, stride) + col] := Terms(media, fec, row, col, 8);
      }
      SplicedIs(before, mask[..], At(row, stride), InterleavedRow(media, fec, stride, row));
    }

    /** A sub-mask. Beyond 12 media packets it is built in the shared buffer and then
        copied out. */
    method Mask(media: nat, fec: nat, stride: nat, table: Table) returns (out: seq<byte>)
      requires Valid() && TableOk(table) && 0 < fec <= media && At(fec, stride) <= mask.Length
      modifies mask
      ensures SourceMask(out, table, media, fec, stride)
      ensures media <= MAX_TABLE_MEDIA ==> mask[..] == old(mask[..])
      ensures media > MAX_TABLE_MEDIA ==> Filled(mask[..], media, fec, stride, fec)
    {
      if media <= MAX_TABLE_MEDIA {
        return TableMask(table, media, fec);
      }
      RowsInside(fec, stride);
      for row := 0 to fec
        invariant Filled(mask[..], media, fec, stride, row)
      {
        ghost var before := mask[..];
        FillRow(media, fec, stride, row);
        FilledStep(before, mask[..], media, fec, stride, row);
      }
      out := mask[..At(fec, stride)];
      FilledPrefix(mask[..], media, fec, stride, fec);
    }

    /** Copies a sub-mask's rows in, from row `first` on. */
    method FitSubMask(first: nat, stride: nat, subStride: nat, rows: nat, sub: seq<byte>)
      requires subStride <= stride && At(first, stride) + At(rows, stride) <= mask.Length && At(rows, subStride) <= |sub|
      requires first == 0 || stride == subStride
      modifies mask
      ensures stride == subStride ==> mask[..] == Spliced(old(mask[..]), At(first, stride), sub[..At(rows, stride)])
      ensures stride != subStride ==> mask[..] == Fitted(old(mask[..]), stride, subStride, rows, sub)
    {
      hide Spliced, RowOf;
      if stride == subStride {
        CopyInto(mask, At(first, stride), sub[..At(rows, stride)]);
      } else {
        RowsInside(rows, stride);
        RowsInside(rows, subStride);
        for i := 0 to rows
          invariant At(i, stride) <= mask.Length && At(i, subStride) <= |sub|
          invariant mask[..] == Fitted(old(mask[..]), stride, subStride, i, sub)
        {
          CopyInto(mask, At(i, stride), RowOf(sub, subStride, i));
        }
      }
    }

    /** Sub-mask 1: rows for the important packets alone. */
    method ImportantPacketProtection(apart: nat, important: nat, stride: nat, table: Table)
      requires Valid() && TableOk(table) && 0 < apart <= important && MaskBytes(important) <= stride
      requires At(apart, stride) <= mask.Length
      modifies mask
      ensures important <= MAX_TABLE_MEDIA && stride == MASK_SIZE_CLEAR ==> RowsAre(mask[..], 0, table, important, apart, stride)
    {
      var sub := Mask(important, apart, stride, table);
      SubMaskFits(sub, table, important, apart, stride);
      ghost var before := mask[..];
      FitSubMask(0, stride, MaskBytes(important), apart, sub);
      if important <= MAX_TABLE_MEDIA && stride == MASK_SIZE_CLEAR {
        assert sub[..At(apart, stride)] == sub;
        BlockRowsAre(before, mask[..], 0, sub, table, important, apart, stride);
      }
    }

    /** Sub-mask 2 when it may protect the important packets as well. */
    method OverlappingProtection(media: nat, rest: nat, apart: nat, stride: nat, table: Table)
      requires Valid() && TableOk(table) && 0 < rest <= media && apart <= rest && stride == MaskBytes(media)
      requires At(apart + rest, stride) <= mask.Length
      modifies mask
      ensures RowsAre(mask[..], apart, table, media, rest, stride)
      ensures media <= MAX_TABLE_MEDIA ==> RowsKept(old(mask[..]), mask[..], stride, apart)
      ensures media > MAX_TABLE_MEDIA ==> FirstRowsAre(mask[..], table, media, rest, stride, apart)
    {
      AtSum(apart, rest, stride);
      var sub := Mask(media, rest, stride, table);
      ghost var before := mask[..];
      FitSubMask(apart, stride, stride, rest, sub);
      assert sub[..At(rest, stride)] == sub;
      BlockRowsAre(before, mask[..], apart, sub, table, media, rest, stride);
    }

    /** Sub-mask 2 when it leaves the important packets to sub-mask 1. Up to 12 media
        packets the rows are its rows, moved, and the rows before are kept. In general its
        columns arrive `apart` to the right, inside the row. */
    method ShiftedProtection(media: nat, rest: nat, apart: nat, stride: nat, table: Table)
      requires Valid() && TableOk(table) && 0 < rest && apart + rest <= media <= MAX_MEDIA && stride == MaskBytes(media)
      requires media <= MAX_TABLE_MEDIA ==> apart < 8
      requires media > MAX_TABLE_MEDIA ==>
                 Room(mask.Length, At(rest, MaskBytes(media - apart)), stride, MaskBytes(media - apart), apart, rest)
                 && At(apart + rest, stride) <= mask.Length
      modifies mask
      ensures media <= MAX_TABLE_MEDIA ==> RowsKept(old(mask[..]), mask[..], stride, apart)
      ensures media <= MAX_TABLE_MEDIA ==> RowsAreMoved(mask[..], table, media, rest, apart, stride)
      ensures ColumnsMoved(mask[..], table, media, rest, apart, stride)
    {
      hide SourceRow, ShiftedRows, RowsAreMoved, RowsKept, TableOk, Room, ColumnsMoved, At;
      var subStride := MaskBytes(media - apart);
      BufferFits(rest, subStride);
      var sub := Mask(media - apart, rest, subStride, table);
      ghost var before := mask[..];
      SourceLength(sub, table, media - apart, rest, subStride);
      if media <= MAX_TABLE_MEDIA {
        ShiftRoom(rest, apart, stride, |sub|);
        BufferFits(apart + rest, stride);
      }
      ShiftFitSubMask(mask, stride, subStride, apart, apart + rest, sub);
      if media <= MAX_TABLE_MEDIA {
        MovedKept(before, mask[..], sub, stride, rest, apart);
        MovedSourceRows(before, mask[..], sub, table, media, rest, apart, stride);
      }
      MovedColumns(before, mask[..], sub, table, media, rest, apart, stride);
    }

    /** Every FEC packet also protects the first media packet. */
    method BiasFirstPacket(stride: nat, rows: nat)
      requires stride > 0 && At(rows, stride) <= mask.Length
      modifies mask
      ensures Biased(old(mask[..]), mask[..], stride, rows)
    {
      hide Or, RowOf, WithFirst;
      RowsInside(rows, stride);
      ghost var before := mask[..];
      for i := 0 to rows
        invariant Biased(before, mask[..], stride, i)
        invariant forall p :: At(i, stride) <= p < mask.Length ==> mask[p] == before[p]
      {
        ghost var sofar := mask[..];
        mask[At(i, stride)] := Or(mask[At(i, stride)], 0x80);
        BiasedStep(before, sofar, mask[..], stride, i);
      }
    }

    /** Rows for the important packets first, then rows for the rest. */
    method UnequalProtectionMask(media: nat, fec: nat, important: nat, mode: Mode, table: Table)
      requires Valid() && TableOk(table) && Served(media, fec, important, mode) && important > 0 && mode != Plain
      modifies mask
      ensures MatrixIs(mask[..], table, media, fec, important, mode)
    {
      hide RowsAre, RowsKept, RowsAreMoved, FirstRowsAre, Biased, MatrixIs, TableOk;
      var stride := MaskBytes(media);
      var apart := ImportantRows(media, fec, important, mode);
      var rest := fec - apart;
      BufferFits(fec, stride);
      BufferFits(apart, stride);
      if apart > 0 {
        ImportantPacketProtection(apart, important, stride, table);
      }
      ghost var before := mask[..];
      if mode == NoOverlap {
        ShiftedProtection(media, rest, apart, stride, table);
        ApartAssembled(before, mask[..], table, media, fec, important, apart, stride);
      } else {
        OverlappingProtection(media, rest, apart, stride, table);
        if mode == BiasFirst {
          ghost var plain := mask[..];
          BiasFirstPacket(stride, rest);
          BiasAssembled(plain, mask[..], table, media, fec, important);
        } else {
          OverlapAssembled(before, mask[..], table, media, fec, important, apart, stride);
        }
      }
    }

    /** The matrix for a batch. */
    method GeneratePacketMasks(media: nat, fec: nat, important: nat, mode: Mode, random: bool)
      requires Valid() && Served(media, fec, important, mode)
      modifies mask
      ensures MatrixIs(mask[..], PickTable(tables, random, media), media, fec, important, mode)
    {
      var table := PickTable(tables, random, media);
      var stride := MaskBytes(media);
      if important == 0 {
        BufferFits(fec, stride);
        var sub := Mask(media, fec, stride, table);
        ghost var before := mask[..];
        SourceLength(sub, table, media, fec, stride);
        CopyInto(mask, 0, sub);
        BlockRowsAre(before, mask[..], 0, sub, table, media, fec, stride);
        PlainAssembled(mask[..], table, media, fec, mode);
      } else {
        UnequalProtectionMask(media, fec, important, if mode == Plain then Overlap else mode, table);
        if mode == Plain {
          PlainIsOverlap(mask[..], table, media, fec, important);
        }
      }
    }

    /** Row `r`'s group, read bit by bit, and its longest payload. */
    method GatherGroup(media: seq<Member>, r: nat, stride: nat) returns (group: seq<Member>, maxLength: U16)
      requires At(r, stride) + stride <= mask.Length && Within(RowOf(mask[..], stride, r), |media|)
      requires forall j :: 0 <= j < |media| ==> Packetlike(media[j])
      ensures group == GroupOf(media, RowOf(mask[..], stride, r))
      ensures (forall k :: 0 <= k < |group| ==> Packetlike(group[k])) && maxLength == LongestPayload(group)
    {
      hide Gathered, BitOf, ColumnsTo, LongestPayload, Select, At;
      ghost var row := RowOf(mask[..], stride, r);
      group, maxLength := [], 0;
      GatherStart(media, row);
      for c := 0 to 8 * stride
        invariant Gathered(media, row, c, group, maxLength)
      {
        assert mask[At(r, stride) + c / 8] == row[c / 8];
        if BitOf(mask[At(r, stride) + c / 8], 7 - c % 8) == 1 {
          assert RowBit(row, c);
          GatherStep(media, row, c, group, maxLength);
          var length := |media[c].buffer| - RTP_HEADER;
          group := group + [media[c]];
          if length > maxLength { maxLength := length; }
        } else {
          GatherSkip(media, row, c, group, maxLength);
        }
      }
      GatherEnd(media, row, group, maxLength);
    }

    method BuildRowPacket(media: seq<Member>, ghost base: int, r: nat, stride: nat) returns (p: RtpPacket)
      requires At(r, stride) + stride <= mask.Length && Consecutive(media, base) && |media| <= MAX_MEDIA
      requires Busy(RowOf(mask[..], stride, r), |media|) && Within(RowOf(mask[..], stride, r), |media|)
      ensures PacketIs(p, media, RowOf(mask[..], stride, r), fecType, ssrc)
    {
      RowGroup(media, base, RowOf(mask[..], stride, r));
      var group, maxLength := GatherGroup(media, r, stride);
      var payload := BuildFecPayload(group, maxLength);
      return RtpPacket(fecType, 0, 0, ssrc, [], None, Some(payload[..]), 0);
    }

    /** One FEC packet per row. */
    method GenerateFecPackets(media: seq<Member>, ghost base: int, stride: nat, fec: nat, ghost rows: seq<Row>)
      returns (packets: seq<RtpPacket>)
      requires Consecutive(media, base) && |media| <= MAX_MEDIA && SoundRows(rows, |media|) && |rows| == fec
      requires forall r: nat :: r < fec ==> HoldsRow(mask[..], stride, r, rows[r])
      ensures PacketsAre(packets, media, rows, fecType, ssrc)
    {
      hide PacketIs, Consecutive, Busy, Within, RowBit;
      packets := [];
      for r := 0 to fec
        invariant |packets| == r && forall k: nat :: k < r ==> PacketIs(packets[k], media, rows[k], fecType, ssrc)
      {
        assert HoldsRow(mask[..], stride, r, rows[r]);
        assert Busy(rows[r], |media|) && Within(rows[r], |media|);
        var p := BuildRowPacket(media, base, r, stride);
        packets := packets + [p];
      }
    }

    /** Serializes the packets of a batch, checking that they belong together. */
    method LoadMedia(packets: seq<RtpPacket>) returns (ok: bool, media: seq<Member>)
      requires forall k :: 0 <= k < |packets| ==> Protectable(packets[k])
      ensures ok <==> Together(packets, ssrc)
      ensures ok ==> media == MembersFor(packets)
    {
      ok, media := true, [];
      for k := 0 to |packets|
        invariant Together(packets[..k], ssrc) && media == MembersFor(packets[..k])
      {
        if packets[k].ssrc != ssrc || (k > 0 && !IsNextSeq(packets[k - 1].seqNum, packets[k].seqNum)) {
          NotTogether(packets, ssrc, k);
          return false, media;
        }
        OneMore(packets, ssrc, k);
        var image := LoadPacket(packets[k]);
        media := media + [Member(packets[k].seqNum, image[..])];
      }
      assert packets[..|packets|] == packets;
    }

    /** Protects a batch: refused unless there are 1 to 48 packets of the encoder's
        stream with consecutive numbers and no more important ones than packets. */
    method Encode(protected: seq<RtpPacket>, important: nat, mode: Mode, protectionFactor: byte, random: bool)
      returns (ok: bool, packets: seq<RtpPacket>)
      requires Valid() && forall k :: 0 <= k < |protected| ==> Protectable(protected[k])
      requires mode == NoOverlap && important > 0 ==> |protected| <= MAX_TABLE_MEDIA
      modifies mask
      ensures ok <==> Acceptable(protected, important, ssrc)
      ensures ok && random ==> EncodedAs(protected, important, mode, protectionFactor, tables.random, packets, fecType, ssrc)
      ensures ok && !random ==> EncodedAs(protected, important, mode, protectionFactor, tables.bursty, packets, fecType, ssrc)
      ensures ok ==> Rounded(|packets|, |protected| * protectionFactor)
    {
      hide TableOk, SoundRows, FinalRow, RowsOf, MatrixIs, NumFecPackets, Rounded;
      if |protected| == 0 || |protected| > MAX_MEDIA || important > |protected| { return false, []; }
      var media: seq<Member>;
      ok, media := LoadMedia(protected);
      if !ok { return false, []; }
      var fec := NumFecPackets(|protected|, protectionFactor);
      NumFecBounded(|protected|, protectionFactor);
      if fec == 0 { return true, []; }
      var stride := MaskBytes(|protected|);
      BufferFits(fec, stride);
      for p := 0 to At(fec, stride)
      {
        mask[p] := 0;
      }
      GeneratePacketMasks(|protected|, fec, important, mode, random);
      ghost var table := if random then tables.random else tables.bursty;
      ghost var rows := FinalRows(table, |protected|, fec, important, mode);
      TableAsked(tables, random, |protected|, fec, important, mode);
      MatrixSound(table, |protected|, fec, important, mode);
      TogetherConsecutive(protected, ssrc);
      packets := GenerateFecPackets(media, protected[0].seqNum, stride, fec, rows);
    }
  }
}
