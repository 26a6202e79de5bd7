/** Moving a sub-mask right by whole columns, byte by byte. */
module FecShift {
  import opened ByteIo
  import opened FecXor
  import opened FecMask

  /** `v >> n`. */
  function Right(v: byte, n: nat): byte
    decreases n
  {
    if n == 0 then v else Right(v / 2, n - 1)
  }

  /** `v << n`, kept in one octet. */
  function Left(v: byte, n: nat): byte
    decreases n
  {
    if n == 0 then v else Left(2 * v % 0x100, n - 1)
  }

  lemma {:induction false} RightBit(v: byte, n: nat, i: nat)
    ensures BitOf(Right(v, n), i) == BitOf(v, i + n)
    decreases n
  {
    if n > 0 {
      RightBit(v / 2, n - 1, i);
    }
  }

  lemma {:induction false} HighBitZero(v: nat, k: nat, i: nat)
    requires v < Pow2(k) && i >= k
    ensures BitOf(v, i) == 0
    decreases k
  {
    if k == 0 {
      ZeroBit(i);
    } else {
      HighBitZero(v / 2, k - 1, i - 1);
    }
  }

  lemma {:induction false} LowBitsKept(v: nat, k: nat, i: nat)
    requires i < k
    ensures BitOf(v % Pow2(k), i) == BitOf(v, i)
    decreases k
  {
    HalfMod(v, Pow2(k - 1));
    if i > 0 {
      LowBitsKept(v / 2, k - 1, i - 1);
    }
  }

  lemma LeftOne(v: byte, i: nat)
    requires i < 8
    ensures BitOf(2 * v % 0x100, i) == if i == 0 then 0 else BitOf(v, i - 1)
  {
    assert Pow2(8) == 0x100;
    LowBitsKept(2 * v, 8, i);
  }

  lemma {:induction false} LeftBit(v: byte, n: nat, i: nat)
    requires i < 8
    ensures BitOf(Left(v, n), i) == if i < n then 0 else BitOf(v, i - n)
    decreases n
  {
    if n > 0 {
      LeftBit(2 * v % 0x100, n - 1, i);
      if i >= n - 1 {
        LeftOne(v, i - (n - 1));
      }
    }
  }

  // ---------- one row ----------

  /** A row moved right by `n` bits; `wider` rows get the bits that leave the last byte. */
  function ShiftedByte(sub: Row, n: nat, j: nat): byte
    requires n < 8 && j <= |sub| && sub != []
  {
    if j == 0 then Right(sub[0], n)
    else if j == |sub| then Left(sub[j - 1], 8 - n)
    else Or(Right(sub[j], n), Left(sub[j - 1], 8 - n))
  }

  function ShiftedRow(sub: Row, n: nat, wider: bool): (r: Row)
    requires n < 8 && sub != []
    ensures |r| == |sub| + if wider then 1 else 0
  {
    seq(|sub| + if wider then 1 else 0, j requires 0 <= j < |sub| + (if wider then 1 else 0) => ShiftedByte(sub, n, j))
  }

  lemma RightPart(sub: Row, n: nat, j: nat, b: nat)
    requires n < 8 && j < |sub| && b < 8
    ensures BitOf(Right(sub[j], n), 7 - b) == 1 <==> b >= n && RowBit(sub, 8 * j + b - n)
  {
    RightBit(sub[j], n, 7 - b);
    assert Pow2(8) == 0x100;
    if b < n {
      HighBitZero(sub[j], 8, 7 - b + n);
    } else {
      assert (8 * j + b - n) / 8 == j && (8 * j + b - n) % 8 == b - n;
    }
  }

  lemma LeftPart(sub: Row, n: nat, j: nat, b: nat)
    requires n < 8 && 0 < j <= |sub| && b < 8
    ensures BitOf(Left(sub[j - 1], 8 - n), 7 - b) == 1 <==> b < n && RowBit(sub, 8 * j + b - n)
  {
    LeftBit(sub[j - 1], 8 - n, 7 - b);
    if b < n {
      assert (8 * j + b - n) / 8 == j - 1 && (8 * j + b - n) % 8 == 8 + b - n;
    }
  }

  /** Byte by byte is bit by bit: every bit moves `n` columns to the right. */
  lemma ShiftedBits(sub: Row, n: nat, wider: bool, column: nat)
    requires n < 8 && sub != [] && column < 8 * |ShiftedRow(sub, n, wider)|
    ensures RowBit(ShiftedRow(sub, n, wider), column) <==> column >= n && RowBit(sub, column - n)
  {
    hide Right, Left, BitOf, OrBits;
    var j, b := column / 8, column % 8;
    assert column == 8 * j + b;
    if j < |sub| {
      RightPart(sub, n, j, b);
    }
    if j > 0 {
      LeftPart(sub, n, j, b);
    }
    if 0 < j < |sub| {
      OrBit(Right(sub[j], n), Left(sub[j - 1], 8 - n), 8, 7 - b);
    }
  }

  // ---------- all rows ----------

  /** Row `k` of the sub-mask goes to row `shift + k`. */
  function Target(k: nat, maskBytes: nat, shift: nat): nat {
    At(shift + k, maskBytes) + shift / 8
  }

  function Width(maskBytes: nat, subBytes: nat): nat {
    subBytes + if maskBytes > subBytes then 1 else 0
  }

  /** Rows `0` to `rows` of the sub-mask and their targets lie inside the buffers. */
  predicate Room(length: nat, subLength: nat, maskBytes: nat, subBytes: nat, shift: nat, rows: nat) {
    && subBytes > 0
    && forall k :: 0 <= k < rows ==>
         Target(k, maskBytes, shift) + Width(maskBytes, subBytes) <= length && At(k, subBytes) + subBytes <= subLength
  }

  function MovedRow(sub: seq<byte>, maskBytes: nat, subBytes: nat, shift: nat, k: nat): (r: Row)
    requires subBytes > 0 && At(k, subBytes) + subBytes <= |sub|
    ensures |r| == Width(maskBytes, subBytes)
  {
    ShiftedRow(RowOf(sub, subBytes, k), shift % 8, maskBytes > subBytes)
  }

  function ShiftedRows(mask: seq<byte>, sub: seq<byte>, maskBytes: nat, subBytes: nat, shift: nat, rows: nat): (r: seq<byte>)
    requires Room(|mask|, |sub|, maskBytes, subBytes, shift, rows)
    ensures |r| == |mask|
  {
    if rows == 0 then mask
    else
      Spliced(ShiftedRows(mask, sub, maskBytes, subBytes, shift, rows - 1),
              Target(rows - 1, maskBytes, shift), MovedRow(sub, maskBytes, subBytes, shift, rows - 1))
  }

  /** A byte of a row, moved. */
  method ShiftByte(sub: Row, n: nat, j: nat) returns (v: byte)
    requires n < 8 && 0 < j < |sub|
    ensures v == ShiftedByte(sub, n, j)
  {
    var shiftRightCurrByte := Right(sub[j], n);
    var shiftLeftPrevByte := Left(sub[j - 1], 8 - n);
    return Or(shiftRightCurrByte, shiftLeftPrevByte);
  }

  /** One row, from its last byte to its first. */
  method ShiftRow(mask: array<byte>, at: nat, sub: Row, n: nat, wider: bool)
    requires n < 8 && sub != [] && at + |sub| + (if wider then 1 else 0) <= mask.Length
    modifies mask
    ensures mask[..] == Spliced(old(mask[..]), at, ShiftedRow(sub, n, wider))
  {
    ghost var shifted := ShiftedRow(sub, n, wider);
    ghost var before := mask[..];
    if wider {
      mask[at + |sub|] := Left(sub[|sub| - 1], 8 - n);
    }
    var j := |sub| - 1;
    while j > 0
      invariant 0 <= j < |sub|
      invariant forall p :: at + j < p < at + |shifted| ==> mask[p] == shifted[p - at]
      invariant forall p :: 0 <= p <= at + j || at + |shifted| <= p < mask.Length ==> mask[p] == before[p]
    {
      var v := ShiftByte(sub, n, j);
      mask[at + j] := v;
      j := j - 1;
    }
    mask[at] := Right(sub[0], n);
    assert shifted[0] == Right(sub[0], n);
    SplicedIs(before, mask[..], at, shifted);
  }

  lemma SplicedIs(before: seq<byte>, after: seq<byte>, at: nat, row: seq<byte>)
    requires |after| == |before| && at + |row| <= |before|
    requires forall p :: at <= p < at + |row| ==> after[p] == row[p - at]
    requires forall p :: 0 <= p < at || at + |row| <= p < |before| ==> after[p] == before[p]
    ensures after == Spliced(before, at, row)
  {
    var s := Spliced(before, at, row);
    forall p | 0 <= p < |before| ensures after[p] == s[p] {
    }
  }

  /** The rows from `shift` to `endRow` become the sub-mask's rows moved right. */
  method ShiftFitSubMask(mask: array<byte>, maskBytes: nat, subBytes: nat, shift: nat, endRow: nat, sub: seq<byte>)
    requires shift <= endRow && Room(mask.Length, |sub|, maskBytes, subBytes, shift, endRow - shift)
    modifies mask
    ensures mask[..] == ShiftedRows(old(mask[..]), sub, maskBytes, subBytes, shift, endRow - shift)
  {
    hide Spliced, ShiftedRow, At;
    for i := shift to endRow
      invariant mask[..] == ShiftedRows(old(mask[..]), sub, maskBytes, subBytes, shift, i - shift)
    {
      ShiftRow(mask, Target(i - shift, maskBytes, shift), RowOf(sub, subBytes, i - shift), shift % 8, maskBytes > subBytes);
    }
  }

  lemma SplicedApart(mask: seq<byte>, at: nat, row: seq<byte>, from: nat, to: nat)
    requires at + |row| <= |mask| && from <= to <= |mask| && (to <= at || at + |row| <= from)
    ensures Spliced(mask, at, row)[from..to] == mask[from..to]
  {
    var s := Spliced(mask, at, row);
    forall p | from <= p < to ensures s[p] == mask[p] {
    }
  }

  lemma SplicedWithin(mask: seq<byte>, at: nat, row: seq<byte>, from: nat, to: nat)
    requires from <= at && at + |row| <= to <= |mask|
    ensures Spliced(mask, at, row)[from..to] == Spliced(mask[from..to], at - from, row)
  {
    SplicedIs(mask[from..to], Spliced(mask, at, row)[from..to], at - from, row);
  }

  lemma SplicedRow(mask: seq<byte>, at: nat, row: Row, maskBytes: nat, r: nat, k: nat)
    requires at + |row| <= |mask| && At(k, maskBytes) + maskBytes <= |mask|
    requires At(r, maskBytes) <= at && at + |row| <= At(r, maskBytes) + maskBytes
    ensures RowOf(Spliced(mask, at, row), maskBytes, k) ==
            if k == r then Spliced(RowOf(mask, maskBytes, r), at - At(r, maskBytes), row) else RowOf(mask, maskBytes, k)
  {
    if k < r {
      AtApart(k, r, maskBytes);
      SplicedApart(mask, at, row, At(k, maskBytes), At(k, maskBytes) + maskBytes);
    } else if k > r {
      AtApart(r, k, maskBytes);
      SplicedApart(mask, at, row, At(k, maskBytes), At(k, maskBytes) + maskBytes);
    } else {
      SplicedWithin(mask, at, row, At(k, maskBytes), At(k, maskBytes) + maskBytes);
    }
  }

  // ---------- byte by byte ----------

  /** Rows of the sub-mask arrive in places of their own. */
  lemma TargetsApart(maskBytes: nat, subBytes: nat, shift: nat, k: nat, l: nat)
    requires subBytes <= maskBytes && k < l
    ensures Target(k, maskBytes, shift) + Width(maskBytes, subBytes) <= Target(l, maskBytes, shift)
  {
    AtApart(shift + k, shift + l, maskBytes);
  }

  /** Byte `b` of sub-mask row `k`, once moved, is where it was put. */
  lemma {:induction false} ByteMoved(mask: seq<byte>, sub: seq<byte>, maskBytes: nat, subBytes: nat, shift: nat, rows: nat, k: nat, b: nat)
    requires Room(|mask|, |sub|, maskBytes, subBytes, shift, rows) && subBytes <= maskBytes
    requires k < rows && b < Width(maskBytes, subBytes)
    ensures Target(k, maskBytes, shift) + b < |mask|
    ensures ShiftedRows(mask, sub, maskBytes, subBytes, shift, rows)[Target(k, maskBytes, shift) + b] ==
            MovedRow(sub, maskBytes, subBytes, shift, k)[b]
    decreases rows
  {
    hide MovedRow, Target, Width;
    assert Target(k, maskBytes, shift) + Width(maskBytes, subBytes) <= |mask|;
    if k < rows - 1 {
      ByteMoved(mask, sub, maskBytes, subBytes, shift, rows - 1, k, b);
      TargetsApart(maskBytes, subBytes, shift, k, rows - 1);
    }
  }

  /** Byte `p` lies where sub-mask row `k` is put. */
  predicate PutAt(maskBytes: nat, subBytes: nat, shift: nat, k: nat, p: nat) {
    Target(k, maskBytes, shift) <= p < Target(k, maskBytes, shift) + Width(maskBytes, subBytes)
  }

  /** Every other byte is kept. */
  lemma {:induction false} ByteKept(mask: seq<byte>, sub: seq<byte>, maskBytes: nat, subBytes: nat, shift: nat, rows: nat, p: nat)
    requires Room(|mask|, |sub|, maskBytes, subBytes, shift, rows) && p < |mask|
    requires forall k: nat :: k < rows ==> !PutAt(maskBytes, subBytes, shift, k, p)
    ensures ShiftedRows(mask, sub, maskBytes, subBytes, shift, rows)[p] == mask[p]
    decreases rows
  {
    hide MovedRow, Target, Width;
    if rows > 0 {
      ByteKept(mask, sub, maskBytes, subBytes, shift, rows - 1, p);
      assert !PutAt(maskBytes, subBytes, shift, rows - 1, p);
      assert Target(rows - 1, maskBytes, shift) + Width(maskBytes, subBytes) <= |mask|;
    }
  }

  // ---------- row by row ----------

  /** How many bytes of a moved row run over into the row after it. */
  function Spill(maskBytes: nat, subBytes: nat, shift: nat): nat {
    if shift / 8 + Width(maskBytes, subBytes) <= maskBytes then 0
    else shift / 8 + Width(maskBytes, subBytes) - maskBytes
  }

  /** Byte `b` of row `r` afterwards: from the row's own sub-mask row, from what the row
      before it spills, or as it was. */
  function RowByte(mask: seq<byte>, sub: seq<byte>, maskBytes: nat, subBytes: nat, shift: nat, rows: nat, r: nat, b: nat): byte
    requires Room(|mask|, |sub|, maskBytes, subBytes, shift, rows) && shift < 8 * maskBytes
    requires At(r, maskBytes) + maskBytes <= |mask| && b < maskBytes
  {
    if shift <= r < shift + rows && shift / 8 <= b < shift / 8 + Width(maskBytes, subBytes) then
      MovedRow(sub, maskBytes, subBytes, shift, r - shift)[b - shift / 8]
    else if shift < r <= shift + rows && b < Spill(maskBytes, subBytes, shift) then
      MovedRow(sub, maskBytes, subBytes, shift, r - 1 - shift)[b + maskBytes - shift / 8]
    else mask[At(r, maskBytes) + b]
  }

  lemma AtNext(r: nat, stride: nat)
    requires r > 0
    ensures At(r, stride) == At(r - 1, stride) + stride
  {
  }

  /** Where byte `b` of row `r` comes from. */
  lemma PutInRow(maskBytes: nat, subBytes: nat, shift: nat, rows: nat, r: nat, b: nat, k: nat)
    requires subBytes <= maskBytes && shift < 8 * maskBytes && b < maskBytes && k < rows
    requires PutAt(maskBytes, subBytes, shift, k, At(r, maskBytes) + b)
    ensures (r == shift + k && shift / 8 <= b < shift / 8 + Width(maskBytes, subBytes))
            || (r == shift + k + 1 && b < Spill(maskBytes, subBytes, shift))
  {
    if r < shift + k {
      AtApart(r, shift + k, maskBytes);
    } else if r > shift + k {
      AtNext(shift + k + 1, maskBytes);
      if r > shift + k + 1 {
        AtApart(shift + k + 1, r, maskBytes);
      }
    }
  }

  /** Every row afterwards, for every sub-mask no wider than the mask and every shift inside
      a row. */
  lemma RowsShifted(mask: seq<byte>, sub: seq<byte>, maskBytes: nat, subBytes: nat, shift: nat, rows: nat, r: nat, b: nat)
    requires Room(|mask|, |sub|, maskBytes, subBytes, shift, rows) && subBytes <= maskBytes && shift < 8 * maskBytes
    requires At(r, maskBytes) + maskBytes <= |mask| && b < maskBytes
    ensures RowOf(ShiftedRows(mask, sub, maskBytes, subBytes, shift, rows), maskBytes, r)[b] ==
            RowByte(mask, sub, maskBytes, subBytes, shift, rows, r, b)
  {
    hide MovedRow, ShiftedRows, PutAt, At, Width, Target;
    if shift <= r < shift + rows && shift / 8 <= b < shift / 8 + Width(maskBytes, subBytes) {
      TargetOf(r, maskBytes, shift);
      ByteMoved(mask, sub, maskBytes, subBytes, shift, rows, r - shift, b - shift / 8);
    } else if shift < r <= shift + rows && b < Spill(maskBytes, subBytes, shift) {
      TargetOf(r - 1, maskBytes, shift);
      AtNext(r, maskBytes);
      ByteMoved(mask, sub, maskBytes, subBytes, shift, rows, r - 1 - shift, b + maskBytes - shift / 8);
    } else {
      var p := At(r, maskBytes) + b;
      forall k: nat | k < rows ensures !PutAt(maskBytes, subBytes, shift, k, p) {
        if PutAt(maskBytes, subBytes, shift, k, p) {
          PutInRow(maskBytes, subBytes, shift, rows, r, b, k);
        }
      }
      ByteKept(mask, sub, maskBytes, subBytes, shift, rows, p);
    }
  }

  lemma TargetOf(r: nat, maskBytes: nat, shift: nat)
    requires shift <= r
    ensures Target(r - shift, maskBytes, shift) == At(r, maskBytes) + shift / 8
  {
  }

  /** A moved row that does not spill: its bytes from `shift / 8` on are the sub-mask's,
      and all others are kept. */
  lemma WholeRowShifted(mask: seq<byte>, sub: seq<byte>, maskBytes: nat, subBytes: nat, shift: nat, rows: nat, r: nat)
    requires Room(|mask|, |sub|, maskBytes, subBytes, shift, rows) && subBytes <= maskBytes && shift < 8 * maskBytes
    requires At(r, maskBytes) + maskBytes <= |mask| && Spill(maskBytes, subBytes, shift) == 0
    ensures RowOf(ShiftedRows(mask, sub, maskBytes, subBytes, shift, rows), maskBytes, r) ==
            if shift <= r < shift + rows then
              Spliced(RowOf(mask, maskBytes, r), shift / 8, MovedRow(sub, maskBytes, subBytes, shift, r - shift))
            else RowOf(mask, maskBytes, r)
  {
    hide MovedRow, ShiftedRows, At;
    forall b | 0 <= b < maskBytes
      ensures RowOf(ShiftedRows(mask, sub, maskBytes, subBytes, shift, rows), maskBytes, r)[b] ==
              RowByte(mask, sub, maskBytes, subBytes, shift, rows, r, b)
    {
      RowsShifted(mask, sub, maskBytes, subBytes, shift, rows, r, b);
    }
  }

  // ---------- column by column ----------

  lemma ColumnOfByte(row: Row, c: nat)
    requires c < 8 * |row|
    ensures RowBit(row, c) <==> BitOf(row[c / 8], 7 - c % 8) == 1
  {
  }

  /** The byte-wise shift is the column shift: in a moved row, column `c` shows the
      sub-mask's column `c - shift`, from the first touched byte to the end of the row or
      of what is moved, and the columns of the first touched byte before `shift` are clear. */
  lemma ShiftIsColumnShift(mask: seq<byte>, sub: seq<byte>, maskBytes: nat, subBytes: nat, shift: nat, rows: nat, k: nat, c: nat)
    requires Room(|mask|, |sub|, maskBytes, subBytes, shift, rows) && subBytes <= maskBytes && shift < 8 * maskBytes
    requires k < rows && At(shift + k, maskBytes) + maskBytes <= |mask|
    requires shift / 8 * 8 <= c < 8 * maskBytes && c < 8 * (shift / 8 + Width(maskBytes, subBytes))
    ensures RowBit(RowOf(ShiftedRows(mask, sub, maskBytes, subBytes, shift, rows), maskBytes, shift + k), c) <==>
            c >= shift && RowBit(RowOf(sub, subBytes, k), c - shift)
  {
    hide ShiftedRows, At, RowBit, ShiftedRow, RowOf;
    var s, m := shift / 8, shift % 8;
    var row := RowOf(sub, subBytes, k);
    var moved := MovedRow(sub, maskBytes, subBytes, shift, k);
    RowsShifted(mask, sub, maskBytes, subBytes, shift, rows, shift + k, c / 8);
    ShiftedBits(row, m, maskBytes > subBytes, c - 8 * s);
    assert (c - 8 * s) / 8 == c / 8 - s && (c - 8 * s) % 8 == c % 8;
    ColumnOfByte(moved, c - 8 * s);
    ColumnOfByte(RowOf(ShiftedRows(mask, sub, maskBytes, subBytes, shift, rows), maskBytes, shift + k), c);
    assert shift == 8 * s + m;
  }

  /** The moved bits of every row fit the row. */
  ghost predicate Fits(sub: seq<byte>, maskBytes: nat, subBytes: nat, shift: nat, rows: nat)
    requires forall k :: 0 <= k < rows ==> At(k, subBytes) + subBytes <= |sub|
  {
    forall k: nat, c: nat :: k < rows && RowBit(RowOf(sub, subBytes, k), c) ==> c + shift < 8 * maskBytes
  }

  /** Every set bit of the sub-mask arrives `shift` columns to the right. */
  ghost predicate AllArrive(mask: seq<byte>, sub: seq<byte>, maskBytes: nat, subBytes: nat, shift: nat, rows: nat)
    requires forall k :: 0 <= k < rows ==> At(k, subBytes) + subBytes <= |sub|
  {
    forall k: nat, c: nat :: k < rows && RowBit(RowOf(sub, subBytes, k), c) ==> Arrived(mask, maskBytes, shift, k, c)
  }

  predicate Arrived(mask: seq<byte>, maskBytes: nat, shift: nat, k: nat, c: nat) {
    At(shift + k, maskBytes) + maskBytes <= |mask| && RowBit(RowOf(mask, maskBytes, shift + k), c + shift)
  }

  /** Nothing is lost exactly when everything fits. */
  lemma AllArriveExactly(mask: seq<byte>, sub: seq<byte>, maskBytes: nat, subBytes: nat, shift: nat, rows: nat)
    requires Room(|mask|, |sub|, maskBytes, subBytes, shift, rows) && subBytes <= maskBytes && shift < 8 * maskBytes
    requires At(shift + rows, maskBytes) <= |mask|
    ensures AllArrive(ShiftedRows(mask, sub, maskBytes, subBytes, shift, rows), sub, maskBytes, subBytes, shift, rows) <==>
            Fits(sub, maskBytes, subBytes, shift, rows)
  {
    hide ShiftedRows, At;
    var after := ShiftedRows(mask, sub, maskBytes, subBytes, shift, rows);
    if Fits(sub, maskBytes, subBytes, shift, rows) {
      forall k: nat, c: nat | k < rows && RowBit(RowOf(sub, subBytes, k), c)
        ensures Arrived(after, maskBytes, shift, k, c)
      {
        assert c < 8 * subBytes && c + shift < 8 * maskBytes;
        AtApart(shift + k, shift + rows, maskBytes);
        ShiftIsColumnShift(mask, sub, maskBytes, subBytes, shift, rows, k, c + shift);
      }
    }
    if AllArrive(after, sub, maskBytes, subBytes, shift, rows) {
      forall k: nat, c: nat | k < rows && RowBit(RowOf(sub, subBytes, k), c) ensures c + shift < 8 * maskBytes {
        assert Arrived(after, maskBytes, shift, k, c);
      }
    }
  }

  // ---------- what the moved rows overwrite ----------

  /** Byte `p` belongs to a moved row, from its first touched byte on. */
  predicate Own(maskBytes: nat, shift: nat, rows: nat, p: nat) {
    exists k: nat :: k < rows && OwnOf(maskBytes, shift, k, p)
  }

  predicate OwnOf(maskBytes: nat, shift: nat, k: nat, p: nat) {
    At(shift + k, maskBytes) + shift / 8 <= p < At(shift + k, maskBytes) + maskBytes
  }

  /** Other rows and the earlier bytes of the moved ones are kept. */
  ghost predicate OthersKept(mask: seq<byte>, after: seq<byte>, maskBytes: nat, shift: nat, rows: nat) {
    && |after| == |mask|
    && forall p: nat :: p < |mask| && !Own(maskBytes, shift, rows, p) ==> after[p] == mask[p]
  }

  lemma OwnFirst(maskBytes: nat, shift: nat, rows: nat, r: nat, b: nat)
    requires b < maskBytes && Own(maskBytes, shift, rows, At(r, maskBytes) + b)
    ensures shift <= r < shift + rows && shift / 8 <= b
  {
    var k: nat :| k < rows && OwnOf(maskBytes, shift, k, At(r, maskBytes) + b);
    if r < shift + k {
      AtApart(r, shift + k, maskBytes);
    } else if r > shift + k {
      AtApart(shift + k, r, maskBytes);
    }
  }

  lemma PutPastEnd(maskBytes: nat, subBytes: nat, shift: nat, rows: nat, k: nat, p: nat)
    requires k < rows && PutAt(maskBytes, subBytes, shift, k, p) && !Own(maskBytes, shift, rows, p)
    ensures At(shift + k, maskBytes) + maskBytes <= p
  {
    assert !OwnOf(maskBytes, shift, k, p);
  }

  /** What row `k` spills is already there. */
  ghost predicate SpillsIntoSame(mask: seq<byte>, sub: seq<byte>, maskBytes: nat, subBytes: nat, shift: nat, rows: nat)
    requires Room(|mask|, |sub|, maskBytes, subBytes, shift, rows)
  {
    forall k: nat, b: nat {:trigger SpillByte(mask, sub, maskBytes, subBytes, shift, rows, k, b)} ::
      k < rows && b < Spill(maskBytes, subBytes, shift) ==> SpillByte(mask, sub, maskBytes, subBytes, shift, rows, k, b)
  }

  ghost predicate SpillByte(mask: seq<byte>, sub: seq<byte>, maskBytes: nat, subBytes: nat, shift: nat, rows: nat, k: nat, b: nat)
    requires Room(|mask|, |sub|, maskBytes, subBytes, shift, rows) && k < rows && b < Spill(maskBytes, subBytes, shift)
  {
    && At(shift + k + 1, maskBytes) + b < |mask|
    && maskBytes - shift / 8 + b >= 0
    && mask[At(shift + k + 1, maskBytes) + b] == MovedRow(sub, maskBytes, subBytes, shift, k)[maskBytes - shift / 8 + b]
  }

  lemma SpillPlace(mask: seq<byte>, sub: seq<byte>, maskBytes: nat, subBytes: nat, shift: nat, rows: nat, k: nat, b: nat)
    requires Room(|mask|, |sub|, maskBytes, subBytes, shift, rows) && subBytes <= maskBytes && shift < 8 * maskBytes
    requires k < rows && b < Spill(maskBytes, subBytes, shift)
    ensures var p := At(shift + k + 1, maskBytes) + b;
            && p < |mask| && p == Target(k, maskBytes, shift) + (maskBytes - shift / 8 + b) && !Own(maskBytes, shift, rows, p)
            && maskBytes - shift / 8 + b < Width(maskBytes, subBytes)
  {
    AtNext(shift + k + 1, maskBytes);
    var p := At(shift + k + 1, maskBytes) + b;
    assert Target(k, maskBytes, shift) + Width(maskBytes, subBytes) <= |mask|;
    if Own(maskBytes, shift, rows, p) {
      OwnFirst(maskBytes, shift, rows, shift + k + 1, b);
    }
  }

  /** The exact condition, for every sub-mask: other rows and earlier bytes are kept if and
      only if every byte a row spills into the next one is there already. */
  lemma OthersKeptExactly(mask: seq<byte>, sub: seq<byte>, maskBytes: nat, subBytes: nat, shift: nat, rows: nat)
    requires Room(|mask|, |sub|, maskBytes, subBytes, shift, rows) && subBytes <= maskBytes && shift < 8 * maskBytes
    ensures OthersKept(mask, ShiftedRows(mask, sub, maskBytes, subBytes, shift, rows), maskBytes, shift, rows) <==>
            SpillsIntoSame(mask, sub, maskBytes, subBytes, shift, rows)
  {
    hide ShiftedRows, At, MovedRow, Own, Target, Width, Room;
    var after := ShiftedRows(mask, sub, maskBytes, subBytes, shift, rows);
    if OthersKept(mask, after, maskBytes, shift, rows) {
      forall k: nat, b: nat | k < rows && b < Spill(maskBytes, subBytes, shift)
        ensures SpillByte(mask, sub, maskBytes, subBytes, shift, rows, k, b)
      {
        SpillPlace(mask, sub, maskBytes, subBytes, shift, rows, k, b);
        ByteMoved(mask, sub, maskBytes, subBytes, shift, rows, k, maskBytes - shift / 8 + b);
      }
    }
    if SpillsIntoSame(mask, sub, maskBytes, subBytes, shift, rows) {
      forall p: nat | p < |mask| && !Own(maskBytes, shift, rows, p) ensures after[p] == mask[p] {
        OtherByte(mask, sub, maskBytes, subBytes, shift, rows, p);
      }
    }
  }

  lemma OtherByte(mask: seq<byte>, sub: seq<byte>, maskBytes: nat, subBytes: nat, shift: nat, rows: nat, p: nat)
    requires Room(|mask|, |sub|, maskBytes, subBytes, shift, rows) && subBytes <= maskBytes && shift < 8 * maskBytes
    requires SpillsIntoSame(mask, sub, maskBytes, subBytes, shift, rows)
    requires p < |mask| && !Own(maskBytes, shift, rows, p)
    ensures ShiftedRows(mask, sub, maskBytes, subBytes, shift, rows)[p] == mask[p]
  {
    hide ShiftedRows, MovedRow, Own, Room;
    if k: nat :| k < rows && PutAt(maskBytes, subBytes, shift, k, p) {
      PutPastEnd(maskBytes, subBytes, shift, rows, k, p);
      AtNext(shift + k + 1, maskBytes);
      var b: nat := p - At(shift + k + 1, maskBytes);
      assert SpillByte(mask, sub, maskBytes, subBytes, shift, rows, k, b);
      ByteMoved(mask, sub, maskBytes, subBytes, shift, rows, k, maskBytes - shift / 8 + b);
    } else {
      ByteKept(mask, sub, maskBytes, subBytes, shift, rows, p);
    }
  }

  lemma {:induction false} NoBits(v: nat, k: nat)
    requires v < Pow2(k) && forall i: nat :: i < k ==> BitOf(v, i) == 0
    ensures v == 0
  {
    if k > 0 {
      assert BitOf(v, 0) == v % 2;
      forall i: nat | i < k - 1 ensures BitOf(v / 2, i) == 0 {
        assert BitOf(v, i + 1) == BitOf(v / 2, i);
      }
      NoBits(v / 2, k - 1);
    }
  }

  /** What a fitting sub-mask spills is zero. */
  lemma FittingSpill(sub: seq<byte>, maskBytes: nat, subBytes: nat, shift: nat, rows: nat, k: nat, x: nat)
    requires forall l :: 0 <= l < rows ==> At(l, subBytes) + subBytes <= |sub|
    requires Fits(sub, maskBytes, subBytes, shift, rows) && subBytes > 0 && k < rows && shift < 8 * maskBytes
    requires x < Width(maskBytes, subBytes) && maskBytes <= shift / 8 + x
    ensures MovedRow(sub, maskBytes, subBytes, shift, k)[x] == 0
  {
    hide ShiftedRow, At, RowOf, RowBit, BitOf;
    var moved, row := MovedRow(sub, maskBytes, subBytes, shift, k), RowOf(sub, subBytes, k);
    forall i: nat | i < 8 ensures BitOf(moved[x], i) == 0 {
      var c := 8 * x + 7 - i;
      ColumnOfByte(moved, c);
      assert c / 8 == x && 7 - c % 8 == i;
      ShiftedBits(row, shift % 8, maskBytes > subBytes, c);
      var d: nat := c - shift % 8;
      assert d + shift >= 8 * maskBytes;
      assert RowBit(row, d) ==> d + shift < 8 * maskBytes;
      BitIsZeroOrOne(moved[x], i);
    }
    assert Pow2(8) == 0x100;
    NoBits(moved[x], 8);
  }

  lemma {:induction false} BitIsZeroOrOne(v: nat, i: nat)
    ensures BitOf(v, i) == 0 || BitOf(v, i) == 1
    decreases i
  {
    if i > 0 {
      BitIsZeroOrOne(v / 2, i - 1);
    }
  }

  /** The first bytes of the rows after the moved ones are clear as far as rows spill. */
  ghost predicate ClearAhead(mask: seq<byte>, maskBytes: nat, subBytes: nat, shift: nat, rows: nat) {
    forall k: nat, b: nat {:trigger ClearByte(mask, maskBytes, shift, k, b)} ::
      k < rows && b < Spill(maskBytes, subBytes, shift) ==> ClearByte(mask, maskBytes, shift, k, b)
  }

  predicate ClearByte(mask: seq<byte>, maskBytes: nat, shift: nat, k: nat, b: nat) {
    At(shift + k + 1, maskBytes) + b < |mask| && mask[At(shift + k + 1, maskBytes) + b] == 0
  }

  /** For a sub-mask that fits: other rows and earlier bytes are kept if and only if the
      first bytes of the rows from the second moved one to the one after the last are clear,
      as many as a row spills; with no spill, always. */
  lemma FittingKeepsExactly(mask: seq<byte>, sub: seq<byte>, maskBytes: nat, subBytes: nat, shift: nat, rows: nat)
    requires Room(|mask|, |sub|, maskBytes, subBytes, shift, rows) && subBytes <= maskBytes && shift < 8 * maskBytes
    requires Fits(sub, maskBytes, subBytes, shift, rows)
    ensures OthersKept(mask, ShiftedRows(mask, sub, maskBytes, subBytes, shift, rows), maskBytes, shift, rows) <==>
            ClearAhead(mask, maskBytes, subBytes, shift, rows)
  {
    hide ShiftedRows, At, MovedRow, OthersKept, Fits;
    OthersKeptExactly(mask, sub, maskBytes, subBytes, shift, rows);
    forall k: nat, b: nat | k < rows && b < Spill(maskBytes, subBytes, shift)
      ensures SpillByte(mask, sub, maskBytes, subBytes, shift, rows, k, b) <==> ClearByte(mask, maskBytes, shift, k, b)
    {
      SpillPlace(mask, sub, maskBytes, subBytes, shift, rows, k, b);
      FittingSpill(sub, maskBytes, subBytes, shift, rows, k, maskBytes - shift / 8 + b);
    }
  }

  /** For example: a full first byte moved right by 8 columns, rows of six bytes. It fits,
      and still clears the first byte of the row after the moved one. */
  lemma SpillExample(mask: seq<byte>)
    requires |mask| >= 55 && mask[54] == 1
    ensures var sub := [0xff, 0, 0, 0, 0, 0];
            && Room(|mask|, |sub|, 6, 6, 8, 1) && Fits(sub, 6, 6, 8, 1) && At(9, 6) == 54
            && ShiftedRows(mask, sub, 6, 6, 8, 1)[At(9, 6)] == 0
            && !OthersKept(mask, ShiftedRows(mask, sub, 6, 6, 8, 1), 6, 8, 1)
  {
    var sub: seq<byte> := [0xff, 0, 0, 0, 0, 0];
    ExampleFits(sub);
    ExampleSpills(mask, sub);
  }

  lemma ExampleFits(sub: seq<byte>)
    requires sub == [0xff, 0, 0, 0, 0, 0]
    ensures At(0, 6) + 6 <= |sub| && Fits(sub, 6, 6, 8, 1)
  {
    assert RowOf(sub, 6, 0) == sub;
    forall c: nat | RowBit(sub, c) ensures c < 8 {
      if c >= 8 {
        ZeroBit(7 - c % 8);
      }
    }
  }

  lemma ExampleSpills(mask: seq<byte>, sub: seq<byte>)
    requires |mask| >= 55 && mask[54] == 1 && |sub| == 6 && At(0, 6) + 6 <= |sub| && Fits(sub, 6, 6, 8, 1)
    ensures Room(|mask|, |sub|, 6, 6, 8, 1) && At(9, 6) == 54
    ensures ShiftedRows(mask, sub, 6, 6, 8, 1)[54] == 0 && !OthersKept(mask, ShiftedRows(mask, sub, 6, 6, 8, 1), 6, 8, 1)
  {
    hide Fits, ShiftedRows, MovedRow, Own;
    AtIs(8, 6);
    AtIs(9, 6);
    assert Target(0, 6, 8) == 49 && Width(6, 6) == 6;
    FittingSpill(sub, 6, 6, 8, 1, 0, 5);
    ByteMoved(mask, sub, 6, 6, 8, 1, 0, 5);
    SpillPlace(mask, sub, 6, 6, 8, 1, 0, 0);
  }
}
