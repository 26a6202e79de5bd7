/** Which rows the encoder's matrix ends up with, and that they are sound: every
    FEC packet protects something, nothing outside the media packets, and every
    media packet is protected. */
module FecMatrix {
  import opened ByteIo
  import opened FecXor
  import opened FecCodec
  import opened FecMask
  import opened FecShift

  datatype Mode = Plain | NoOverlap | Overlap | BiasFirst

  /** Ready-made masks of two-byte rows for up to 12 media packets, by the numbers of
      media and FEC packets. */
  type Table = map<(nat, nat), seq<byte>>

  function MaskBytes(media: nat): nat {
    if media > 16 then MASK_SIZE_SET else MASK_SIZE_CLEAR
  }

  /** A row protects some media packet. */
  ghost predicate Busy(row: Row, media: nat) {
    exists c: nat :: c < media && RowBit(row, c)
  }

  /** A row protects nothing but media packets. */
  ghost predicate Within(row: Row, media: nat) {
    forall c: nat :: RowBit(row, c) ==> c < media
  }

  ghost predicate Covered(rows: seq<Row>, c: nat) {
    exists r: nat :: r < |rows| && RowBit(rows[r], c)
  }

  /** Every row protects something, nothing but media packets, and every media packet
      is protected. */
  ghost predicate SoundRows(rows: seq<Row>, media: nat) {
    && (forall r: nat :: r < |rows| ==> Busy(rows[r], media) && Within(rows[r], media))
    && (forall c: nat :: c < media ==> Covered(rows, c))
  }

  /** The rows of a flat mask. */
  function RowsOf(mask: seq<byte>, stride: nat, rows: nat): (r: seq<Row>)
    requires At(rows, stride) <= |mask|
    ensures |r| == rows
    ensures forall k: nat :: k < rows ==> At(k, stride) + stride <= |mask| && r[k] == RowOf(mask, stride, k)
  {
    RowsInside(rows, stride);
    seq(rows, k requires 0 <= k < rows => RowOf(mask, stride, k))
  }

  lemma RowsInside(rows: nat, stride: nat)
    ensures forall k: nat :: k < rows ==> At(k, stride) + stride <= At(rows, stride)
  {
    forall k: nat | k < rows ensures At(k, stride) + stride <= At(rows, stride) {
      AtApart(k, rows, stride);
    }
  }

  ghost predicate EntryOk(table: Table, media: nat, fec: nat) {
    && (media, fec) in table && |table[(media, fec)]| == At(fec, MASK_SIZE_CLEAR)
    && SoundRows(RowsOf(table[(media, fec)], MASK_SIZE_CLEAR, fec), media)
  }

  /** The tables are taken to hold sound masks for every case they serve. */
  ghost predicate TableOk(table: Table) {
    forall m: nat, n: nat :: 1 <= n <= m <= MAX_TABLE_MEDIA ==> EntryOk(table, m, n)
  }

  function TableMask(table: Table, media: nat, fec: nat): (bytes: seq<byte>)
    requires TableOk(table) && 1 <= fec <= media <= MAX_TABLE_MEDIA
    ensures |bytes| == At(fec, MASK_SIZE_CLEAR)
  {
    assert EntryOk(table, media, fec);
    table[(media, fec)]
  }

  // ---------- how many rows ----------

  function NumFecPackets(media: nat, protectionFactor: byte): nat {
    var n := (media * protectionFactor + 0x80) / 0x100;
    if protectionFactor > 0 && n == 0 then 1 else n
  }

  /** `count` is the nearest integer to `product / 256`, a half counting up; where that
      would be none of a product that is not 0, it is one. */
  predicate Rounded(count: nat, product: nat) {
    && (product >= 128 ==> product - 128 < 256 * count <= product + 128)
    && (0 < product < 128 ==> count == 1)
    && (product == 0 ==> count == 0)
  }

  /** The number of FEC packets is the rounded share of the media packets: never more
      than those, and none exactly when no protection is asked for. */
  lemma NumFecBounded(media: nat, protectionFactor: byte)
    requires media > 0
    ensures Rounded(NumFecPackets(media, protectionFactor), media * protectionFactor)
    ensures NumFecPackets(media, protectionFactor) <= media
    ensures NumFecPackets(media, protectionFactor) == 0 <==> protectionFactor == 0
  {
    ProductBound(media, protectionFactor);
    var product := media * protectionFactor;
    assert product <= 0xff * media;
    assert (product + 0x80) / 0x100 <= media;
  }

  lemma ProductBound(a: nat, b: byte)
    ensures 0 <= a * b <= 0xff * a
  {
  }

  /** How many rows are set aside for the important packets. */
  function SetProtectionAllocation(media: nat, fec: nat, important: nat): nat {
    if fec == 1 && media > 2 * important then 0
    else if important < fec / 2 then important else fec / 2
  }

  /** A row for each important packet, as far as half of the rows go; none in the mode
      that only favours the first packet. */
  function ImportantRows(media: nat, fec: nat, important: nat, mode: Mode): (k: nat)
    ensures 2 * k <= fec && k <= important
    ensures mode == BiasFirst ==> k == 0
    ensures mode != BiasFirst ==> k == important || fec <= 2 * k + 1
  {
    if important == 0 || mode == BiasFirst then 0 else SetProtectionAllocation(media, fec, important)
  }

  // ---------- the rows ----------

  /** A row of a mask for `media` and `fec` packets: from the table, or interleaved. */
  ghost function SourceRow(table: Table, media: nat, fec: nat, stride: nat, r: nat): Row
    requires 0 < fec <= media && r < fec && TableOk(table)
  {
    if media <= MAX_TABLE_MEDIA then RowsOf(TableMask(table, media, fec), MASK_SIZE_CLEAR, fec)[r]
    else InterleavedRow(media, fec, stride, r)
  }

  function WithFirst(row: Row): Row
    requires row != []
  {
    row[0 := Or(row[0], 0x80)]
  }

  /** What the encoder serves: any mode for up to 12 media packets, beyond that no
      mode that keeps the important packets' rows apart. */
  predicate Served(media: nat, fec: nat, important: nat, mode: Mode) {
    && 0 < fec <= media <= MAX_MEDIA && important <= media
    && (mode == NoOverlap && important > 0 ==> media <= MAX_TABLE_MEDIA)
  }

  /** The final row `r`. Beyond 12 media packets the rows for the important packets
      are overwritten: they repeat the first of the other rows. */
  ghost function FinalRow(table: Table, media: nat, fec: nat, important: nat, mode: Mode, r: nat): Row
    requires Served(media, fec, important, mode) && TableOk(table) && r < fec
  {
    var stride := MaskBytes(media);
    var apart := ImportantRows(media, fec, important, mode);
    var rest := fec - apart;
    if important == 0 then SourceRow(table, media, fec, stride, r)
    else if mode == BiasFirst then WithFirst(SourceRow(table, media, fec, stride, r))
    else if r < apart then
      if media > MAX_TABLE_MEDIA then SourceRow(table, media, rest, stride, r) else SourceRow(table, important, apart, stride, r)
    else if mode == NoOverlap then
      ShiftedRow(SourceRow(table, media - apart, rest, stride, r - apart), apart, false)
    else SourceRow(table, media, rest, stride, r - apart)
  }

  ghost function FinalRows(table: Table, media: nat, fec: nat, important: nat, mode: Mode): (rows: seq<Row>)
    requires Served(media, fec, important, mode) && TableOk(table)
    ensures |rows| == fec
    ensures forall r :: 0 <= r < fec ==> rows[r] == FinalRow(table, media, fec, important, mode, r)
  {
    seq(fec, r requires 0 <= r < fec => FinalRow(table, media, fec, important, mode, r))
  }

  // ---------- soundness ----------

  ghost function SourceRows(table: Table, media: nat, fec: nat, stride: nat): (rows: seq<Row>)
    requires 0 < fec <= media && TableOk(table)
    ensures |rows| == fec
    ensures forall r :: 0 <= r < fec ==> rows[r] == SourceRow(table, media, fec, stride, r)
  {
    seq(fec, r requires 0 <= r < fec => SourceRow(table, media, fec, stride, r))
  }

  lemma SourceSound(table: Table, media: nat, fec: nat, stride: nat)
    requires 0 < fec <= media <= 8 * stride && TableOk(table)
    ensures SoundRows(SourceRows(table, media, fec, stride), media)
  {
    var rows := SourceRows(table, media, fec, stride);
    if media <= MAX_TABLE_MEDIA {
      assert EntryOk(table, media, fec);
      assert rows == RowsOf(TableMask(table, media, fec), MASK_SIZE_CLEAR, fec);
    } else {
      InterleavedSound(rows, media, fec, stride);
    }
  }

  lemma InterleavedSound(rows: seq<Row>, media: nat, fec: nat, stride: nat)
    requires 0 < fec <= media <= 8 * stride && |rows| == fec
    requires forall r: nat :: r < fec ==> rows[r] == InterleavedRow(media, fec, stride, r)
    ensures SoundRows(rows, media)
    ensures forall r: nat, c: nat :: r < fec ==> (RowBit(rows[r], c) <==> Protects(media, fec, r, c))
  {
    forall r: nat, c: nat | r < fec ensures RowBit(rows[r], c) <==> Protects(media, fec, r, c) {
      InterleavedBits(media, fec, stride, r, c);
    }
    forall r: nat | r < fec ensures Busy(rows[r], media) && Within(rows[r], media) {
      OwnColumn(media, fec, r);
    }
    forall c: nat | c < media ensures Covered(rows, c) {
      OwnRow(media, fec, c);
      assert RowBit(rows[c % fec], c);
    }
  }

  lemma OwnColumn(media: nat, fec: nat, r: nat)
    requires r < fec <= media
    ensures Protects(media, fec, r, r)
  {
  }

  lemma OwnRow(media: nat, fec: nat, c: nat)
    requires 0 < fec && c < media
    ensures c % fec < fec && Protects(media, fec, c % fec, c)
  {
  }

  /** Rows that are all sound by themselves and include a covering set. */
  lemma CoveringSound(rows: seq<Row>, media: nat, part: seq<Row>, at: nat, other: seq<Row>)
    requires at + |part| == |rows| && SoundRows(part, media)
    requires forall r: nat :: r < |part| ==> rows[at + r] == part[r]
    requires |other| >= at && forall r: nat :: r < at ==> rows[r] == other[r]
    requires forall r: nat :: r < |other| ==> Busy(other[r], media) && Within(other[r], media)
    ensures SoundRows(rows, media)
  {
    hide RowBit;
    forall r: nat | r < |rows| ensures Busy(rows[r], media) && Within(rows[r], media) {
      assert r >= at ==> rows[r] == part[r - at];
    }
    forall c: nat | c < media ensures Covered(rows, c) {
      assert Covered(part, c);
      var r: nat :| r < |part| && RowBit(part[r], c);
      assert RowBit(rows[at + r], c);
    }
  }

  lemma WiderSound(rows: seq<Row>, media: nat, wider: nat)
    requires SoundRows(rows, media) && media <= wider
    ensures forall r: nat :: r < |rows| ==> Busy(rows[r], wider) && Within(rows[r], wider)
  {
    forall r: nat | r < |rows| ensures Busy(rows[r], wider) && Within(rows[r], wider) {
      assert Busy(rows[r], media);
      var c: nat :| c < media && RowBit(rows[r], c);
    }
  }

  lemma FirstBits(row: Row, c: nat)
    requires row != []
    ensures RowBit(WithFirst(row), c) <==> c == 0 || RowBit(row, c)
  {
    if c < 8 {
      OrBit(row[0], 0x80, 8, 7 - c);
      assert Pow2(7) == 0x80;
      PowerBit(7, 7 - c);
    }
  }

  lemma BiasSound(rows: seq<Row>, media: nat, plain: seq<Row>)
    requires SoundRows(plain, media) && media > 0 && |rows| == |plain| > 0
    requires forall r: nat :: r < |plain| ==> plain[r] != [] && rows[r] == WithFirst(plain[r])
    ensures SoundRows(rows, media)
  {
    forall r: nat | r < |rows| ensures Busy(rows[r], media) && Within(rows[r], media) {
      assert Within(plain[r], media);
      FirstBits(plain[r], 0);
      forall c: nat | RowBit(rows[r], c) ensures c < media {
        FirstBits(plain[r], c);
      }
    }
    forall c: nat | c < media ensures Covered(rows, c) {
      assert Covered(plain, c);
      var r: nat :| r < |plain| && RowBit(plain[r], c);
      FirstBits(plain[r], c);
      assert RowBit(rows[r], c);
    }
  }

  /** Rows moved right by `apart` columns protect the media packets from `apart` on. */
  lemma MovedBits(sub: Row, apart: nat, c: nat)
    requires |sub| == MASK_SIZE_CLEAR && apart < 8
    ensures RowBit(ShiftedRow(sub, apart, false), c) <==> apart <= c < 16 && RowBit(sub, c - apart)
  {
    if c < 16 {
      ShiftedBits(sub, apart, false, c);
    }
  }

  lemma MovedSound(sub: Row, apart: nat, media: nat)
    requires |sub| == MASK_SIZE_CLEAR && apart < 8 && apart <= media <= MAX_TABLE_MEDIA
    requires Busy(sub, media - apart) && Within(sub, media - apart)
    ensures Busy(ShiftedRow(sub, apart, false), media) && Within(ShiftedRow(sub, apart, false), media)
  {
    var c: nat :| c < media - apart && RowBit(sub, c);
    MovedBits(sub, apart, c + apart);
    forall d: nat | RowBit(ShiftedRow(sub, apart, false), d) ensures d < media {
      MovedBits(sub, apart, d);
    }
  }

  lemma MovedCovers(rows: seq<Row>, media: nat, rest: seq<Row>, apart: nat, c: nat)
    requires media <= MAX_TABLE_MEDIA && apart <= c < media && apart < 8 && Covered(rest, c - apart)
    requires forall r: nat :: r < |rest| ==> |rest[r]| == MASK_SIZE_CLEAR
    requires |rows| == apart + |rest|
    requires forall r: nat :: r < |rest| ==> rows[apart + r] == ShiftedRow(rest[r], apart, false)
    ensures Covered(rows, c)
  {
    var r: nat :| r < |rest| && RowBit(rest[r], c - apart);
    MovedBits(rest[r], apart, c);
    assert RowBit(rows[apart + r], c);
  }

  /** Important rows first, then rows that protect the rest of the packets. */
  lemma NoOverlapSound(rows: seq<Row>, media: nat, first: seq<Row>, important: nat, rest: seq<Row>, apart: nat)
    requires media <= MAX_TABLE_MEDIA && apart <= important <= media && apart < 8
    requires |first| == apart && (apart > 0 ==> SoundRows(first, important))
    requires SoundRows(rest, media - apart) && forall r: nat :: r < |rest| ==> |rest[r]| == MASK_SIZE_CLEAR
    requires |rows| == apart + |rest| && forall r: nat :: r < apart ==> rows[r] == first[r]
    requires forall r: nat :: r < |rest| ==> rows[apart + r] == ShiftedRow(rest[r], apart, false)
    ensures SoundRows(rows, media)
  {
    forall r: nat | r < |rows| ensures Busy(rows[r], media) && Within(rows[r], media) {
      if r < apart {
        WiderSound(first, important, media);
      } else {
        assert rows[r] == ShiftedRow(rest[r - apart], apart, false);
        MovedSound(rest[r - apart], apart, media);
      }
    }
    forall c: nat | c < media ensures Covered(rows, c) {
      if c < apart {
        assert Covered(first, c);
        var r: nat :| r < |first| && RowBit(first[r], c);
        assert RowBit(rows[r], c);
      } else {
        MovedCovers(rows, media, rest, apart, c);
      }
    }
  }

  lemma OverlapSound(table: Table, media: nat, fec: nat, important: nat)
    requires Served(media, fec, important, Overlap) && TableOk(table) && important > 0
    ensures SoundRows(FinalRows(table, media, fec, important, Overlap), media)
  {
    hide SoundRows, SourceRow, ShiftedRow;
    var rows := FinalRows(table, media, fec, important, Overlap);
    var stride := MaskBytes(media);
    var apart := ImportantRows(media, fec, important, Overlap);
    var part := SourceRows(table, media, fec - apart, stride);
    SourceSound(table, media, fec - apart, stride);
    if media > MAX_TABLE_MEDIA || apart == 0 {
      CoveringSound(rows, media, part, apart, part);
    } else {
      var other := SourceRows(table, important, apart, stride);
      SourceSound(table, important, apart, stride);
      WiderSound(other, important, media);
      CoveringSound(rows, media, part, apart, other);
    }
  }

  lemma ApartSound(table: Table, media: nat, fec: nat, important: nat)
    requires Served(media, fec, important, NoOverlap) && TableOk(table) && important > 0
    ensures SoundRows(FinalRows(table, media, fec, important, NoOverlap), media)
  {
    hide SoundRows, ShiftedRow, TableMask, InterleavedRow;
    var rows := FinalRows(table, media, fec, important, NoOverlap);
    var stride := MaskBytes(media);
    var apart := ImportantRows(media, fec, important, NoOverlap);
    var rest := SourceRows(table, media - apart, fec - apart, stride);
    SourceSound(table, media - apart, fec - apart, stride);
    var first: seq<Row> := [];
    if apart > 0 {
      first := SourceRows(table, important, apart, stride);
      SourceSound(table, important, apart, stride);
    }
    NoOverlapSound(rows, media, first, important, rest, apart);
  }

  /** The matrix is sound in every mode served, the aliased rows included. */
  lemma MatrixSound(table: Table, media: nat, fec: nat, important: nat, mode: Mode)
    requires Served(media, fec, important, mode) && TableOk(table)
    ensures SoundRows(FinalRows(table, media, fec, important, mode), media)
  {
    var rows := FinalRows(table, media, fec, important, mode);
    var plain := SourceRows(table, media, fec, MaskBytes(media));
    if important == 0 || mode == BiasFirst {
      SourceSound(table, media, fec, MaskBytes(media));
      if important == 0 {
        assert rows == plain;
      } else {
        BiasSound(rows, media, plain);
      }
    } else if mode != NoOverlap {
      assert rows == FinalRows(table, media, fec, important, Overlap);
      OverlapSound(table, media, fec, important);
    } else {
      ApartSound(table, media, fec, important);
    }
  }

  /** Without important packets, beyond 12 media packets, the rows share the media
      packets out: each packet is in exactly one group, and groups differ by at most one. */
  lemma MatrixPartitions(table: Table, media: nat, fec: nat, mode: Mode)
    requires Served(media, fec, 0, mode) && TableOk(table) && media > MAX_TABLE_MEDIA
    ensures var rows := FinalRows(table, media, fec, 0, mode);
            && (forall r: nat, c: nat :: r < fec ==> (RowBit(rows[r], c) <==> Protects(media, fec, r, c)))
            && (forall r, s :: 0 <= r < fec && 0 <= s < fec ==> -1 <= |Columns(rows[r])| - |Columns(rows[s])| <= 1)
  {
    var rows := FinalRows(table, media, fec, 0, mode);
    InterleavedSound(rows, media, fec, MaskBytes(media));
    forall r, s | 0 <= r < fec && 0 <= s < fec ensures -1 <= |Columns(rows[r])| - |Columns(rows[s])| <= 1 {
      GroupSizesEven(media, fec, MaskBytes(media), r, s);
    }
  }

  /** Rows set apart for important packets in a mode that lets the others protect them too. */
  predicate Overlaps(mode: Mode) {
    mode == Plain || mode == Overlap
  }

  /** Beyond 12 media packets such a matrix is interleaved all the same: the rows after the
      first `apart` share the media packets out, and the first ones repeat them. */
  lemma OverlapInterleaves(table: Table, media: nat, fec: nat, important: nat, mode: Mode, r: nat)
    requires Served(media, fec, important, mode) && TableOk(table) && media > MAX_TABLE_MEDIA
    requires important > 0 && Overlaps(mode) && r < fec
    ensures var apart := ImportantRows(media, fec, important, mode);
            && apart <= fec - apart
            && (forall c: nat :: RowBit(FinalRow(table, media, fec, important, mode, r), c) <==>
                  Protects(media, fec - apart, if r < apart then r else r - apart, c))
            && (r < apart ==>
                  FinalRow(table, media, fec, important, mode, r) == FinalRow(table, media, fec, important, mode, apart + r))
  {
    var apart := ImportantRows(media, fec, important, mode);
    var place := if r < apart then r else r - apart;
    forall c: nat ensures RowBit(FinalRow(table, media, fec, important, mode, r), c) <==> Protects(media, fec - apart, place, c) {
      InterleavedBits(media, fec - apart, MaskBytes(media), place, c);
    }
  }
}
