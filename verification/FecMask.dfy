/** The encoder's bit matrix: which media packets each FEC packet protects. A row
    belongs to a FEC packet, a column to a media packet; the most significant bit of
    a row's first byte is column 0. */
module FecMask {
  import opened ByteIo
  import opened FecXor
  import opened FecCodec

  type Row = seq<byte>

  const MAX_TABLE_MEDIA := 12
  const MASK_MAX_SIZE := 288

  predicate RowBit(row: Row, column: nat) {
    column < 8 * |row| && BitOf(row[column / 8], 7 - column % 8) == 1
  }

  /** Where a row starts: `row * stride`. */
  function At(row: nat, stride: nat): nat {
    if row == 0 then 0 else At(row - 1, stride) + stride
  }

  lemma {:induction false} AtIs(row: nat, stride: nat)
    ensures At(row, stride) == row * stride
  {
    if row > 0 {
      AtIs(row - 1, stride);
      assert row * stride == (row - 1) * stride + stride;
    }
  }

  lemma {:induction false} AtApart(r: nat, s: nat, stride: nat)
    requires r < s
    ensures At(r, stride) + stride <= At(s, stride)
  {
    if r < s - 1 {
      AtApart(r, s - 1, stride);
    }
  }

  function RowOf(mask: seq<byte>, stride: nat, row: nat): (r: Row)
    requires At(row, stride) + stride <= |mask|
    ensures |r| == stride
  {
    mask[At(row, stride)..At(row, stride) + stride]
  }

  // ---------- one byte of the interleaved mask ----------

  predicate Protects(media: nat, fec: nat, row: nat, column: nat)
    requires fec > 0
  {
    column < media && column % fec == row
  }

  function Term(media: nat, fec: nat, row: nat, col: nat, bit: nat): byte
    requires fec > 0 && bit < 8
  {
    if Protects(media, fec, row, 8 * col + bit) then Weight(bit) else 0
  }

  /** The terms for the first `k` bits, ORed. */
  function Terms(media: nat, fec: nat, row: nat, col: nat, k: nat): byte
    requires fec > 0 && k <= 8
  {
    if k == 0 then 0 else Or(Terms(media, fec, row, col, k - 1), Term(media, fec, row, col, k - 1))
  }

  function InterleavedRow(media: nat, fec: nat, stride: nat, row: nat): (r: Row)
    requires fec > 0
    ensures |r| == stride
  {
    seq(stride, col requires 0 <= col < stride => Terms(media, fec, row, col, 8))
  }

  lemma {:induction false} WeightBit(k: nat, b: nat)
    requires k < 8 && b < 8
    ensures BitOf(Weight(k), 7 - b) == 1 <==> b == k
    ensures Weight(k) == Pow2(7 - k)
  {
    WeightPower(k);
    PowerBit(7 - k, 7 - b);
  }

  lemma {:induction false} TermsBit(media: nat, fec: nat, row: nat, col: nat, k: nat, b: nat)
    requires fec > 0 && k <= 8 && b < 8
    ensures BitOf(Terms(media, fec, row, col, k), 7 - b) == 1 <==> b < k && Protects(media, fec, row, 8 * col + b)
  {
    hide Protects, Weight, BitOf, OrBits;
    ZeroBit(7 - b);
    if k > 0 {
      TermsBit(media, fec, row, col, k - 1, b);
      WeightBit(k - 1, b);
      OrBit(Terms(media, fec, row, col, k - 1), Term(media, fec, row, col, k - 1), 8, 7 - b);
    }
  }

  /** The interleaved mask: media packet X is protected by FEC packet X mod N alone. */
  lemma InterleavedBits(media: nat, fec: nat, stride: nat, row: nat, column: nat)
    requires fec > 0 && media <= 8 * stride
    ensures RowBit(InterleavedRow(media, fec, stride, row), column) <==> Protects(media, fec, row, column)
  {
    if column < 8 * stride {
      TermsBit(media, fec, row, column / 8, 8, column % 8);
      assert 8 * (column / 8) + column % 8 == column;
    }
  }

  // ---------- groups ----------

  /** A row's columns below `k`, in order. */
  function ColumnsTo(row: Row, k: nat): (r: seq<nat>)
    requires k <= 8 * |row|
  {
    if k == 0 then [] else ColumnsTo(row, k - 1) + if RowBit(row, k - 1) then [k - 1] else []
  }

  function Columns(row: Row): seq<nat> {
    ColumnsTo(row, 8 * |row|)
  }

  lemma {:induction false} ColumnsAre(row: Row, k: nat)
    requires k <= 8 * |row|
    ensures forall c: nat :: c in ColumnsTo(row, k) <==> c < k && RowBit(row, c)
    ensures forall a, b :: 0 <= a < b < |ColumnsTo(row, k)| ==> ColumnsTo(row, k)[a] < ColumnsTo(row, k)[b]
  {
    if k > 0 {
      ColumnsAre(row, k - 1);
      var before := ColumnsTo(row, k - 1);
      assert forall a :: 0 <= a < |before| ==> before[a] in before;
    }
  }

  /** The `t`-th column of an interleaved row, and where the row ends. */
  predicate Strides(columns: seq<nat>, fec: nat, row: nat, end: nat) {
    && (forall t :: 0 <= t < |columns| ==> columns[t] == row + At(t, fec))
    && row + At(|columns|, fec) >= end
    && (columns != [] ==> columns[|columns| - 1] < end)
  }

  lemma AtOrder(a: nat, b: nat, fec: nat)
    requires fec > 0
    ensures a < b <==> At(a, fec) < At(b, fec)
  {
    if a < b {
      AtApart(a, b, fec);
    } else if b < a {
      AtApart(b, a, fec);
    }
  }

  lemma NextStride(n: nat, fec: nat, row: nat, j: nat)
    requires fec > 0 && row < fec && j <= row + At(n, fec) && (n > 0 ==> row + At(n - 1, fec) < j)
    ensures j % fec == row <==> j == row + At(n, fec)
  {
    hide At;
    if j % fec == row {
      QuotientIs(j, fec);
      AtOrder(n, j / fec, fec);
      if n > 0 {
        AtOrder(n - 1, j / fec, fec);
      }
    } else {
      ModOfStride(n, fec, row);
    }
  }

  lemma QuotientIs(j: nat, fec: nat)
    requires fec > 0
    ensures j == j % fec + At(j / fec, fec)
  {
    AtIs(j / fec, fec);
  }

  lemma {:induction false} ModOfStride(n: nat, fec: nat, row: nat)
    requires row < fec
    ensures (row + At(n, fec)) % fec == row
  {
    AtIs(n, fec);
    ModUnique(row + At(n, fec), fec, n, row);
  }

  /** One more column of an interleaved row. */
  lemma StrideStep(columns: seq<nat>, fec: nat, row: nat, j: nat)
    requires row < fec && Strides(columns, fec, row, j)
    ensures Strides(if j % fec == row then columns + [j] else columns, fec, row, j + 1)
  {
    var n := |columns|;
    NextStride(n, fec, row, j);
  }

  lemma {:induction false} StridedColumns(bits: Row, media: nat, fec: nat, row: nat, k: nat)
    requires row < fec && media <= 8 * |bits| && k <= 8 * |bits|
    requires forall c: nat :: RowBit(bits, c) <==> Protects(media, fec, row, c)
    ensures Strides(ColumnsTo(bits, k), fec, row, if k < media then k else media)
  {
    hide RowBit, Protects, At;
    if k > 0 {
      StridedColumns(bits, media, fec, row, k - 1);
      ColumnsStep(bits, k);
      StrideNext(ColumnsTo(bits, k - 1), ColumnsTo(bits, k), media, fec, row, k - 1);
    }
  }

  lemma ColumnsStep(row: Row, k: nat)
    requires 0 < k <= 8 * |row|
    ensures ColumnsTo(row, k) == if RowBit(row, k - 1) then ColumnsTo(row, k - 1) + [k - 1] else ColumnsTo(row, k - 1)
  {
    assert ColumnsTo(row, k - 1) + [] == ColumnsTo(row, k - 1);
  }

  lemma StrideNext(before: seq<nat>, after: seq<nat>, media: nat, fec: nat, row: nat, j: nat)
    requires row < fec && Strides(before, fec, row, if j < media then j else media)
    requires after == if Protects(media, fec, row, j) then before + [j] else before
    ensures Strides(after, fec, row, if j + 1 < media then j + 1 else media)
  {
    if j < media {
      StrideStep(before, fec, row, j);
    }
  }

  lemma InterleavedColumns(media: nat, fec: nat, stride: nat, row: nat)
    requires row < fec && media <= 8 * stride
    ensures Strides(Columns(InterleavedRow(media, fec, stride, row)), fec, row, media)
  {
    var bits := InterleavedRow(media, fec, stride, row);
    forall c: nat ensures RowBit(bits, c) <==> Protects(media, fec, row, c) {
      InterleavedBits(media, fec, stride, row, c);
    }
    StridedColumns(bits, media, fec, row, 8 * stride);
  }

  lemma StridesClose(a: seq<nat>, b: seq<nat>, fec: nat, row: nat, other: nat, end: nat)
    requires Strides(a, fec, row, end) && Strides(b, fec, other, end) && row < fec && other < fec
    ensures |a| <= |b| + 1
  {
    if a != [] {
      assert a[|a| - 1] == row + At(|a| - 1, fec);
      AtOrder(|a| - 1, |b| + 1, fec);
    }
  }

  /** Interleaved groups differ in size by at most one packet. */
  lemma GroupSizesEven(media: nat, fec: nat, stride: nat, row: nat, other: nat)
    requires row < fec && other < fec && media <= 8 * stride
    ensures var a, b := Columns(InterleavedRow(media, fec, stride, row)), Columns(InterleavedRow(media, fec, stride, other));
            -1 <= |a| - |b| <= 1
  {
    InterleavedColumns(media, fec, stride, row);
    InterleavedColumns(media, fec, stride, other);
    var a, b := Columns(InterleavedRow(media, fec, stride, row)), Columns(InterleavedRow(media, fec, stride, other));
    StridesClose(a, b, fec, row, other, media);
    StridesClose(b, a, fec, other, row, media);
  }
}
