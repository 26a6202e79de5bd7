/** The encoder, its caller and the decoder together. A session sends batch after batch:
    the media packets of a batch, then the FEC packets `Encode` built for it, all under
    consecutive numbers. What goes on the wire is what the decoder's theorems ask for, so
    their promises hold for everything the encoder produces. */
module FecSession {
  import opened ByteIo
  import opened SeqComparison
  import opened RtpPackets
  import opened SeqLemmas
  import opened FecXor
  import opened FecCodec
  import opened FecStream
  import opened FecIdeal
  import opened FecScan
  import opened FecRefinement
  import opened FecPass
  import opened FecRelease
  import opened FecRuns
  import opened FecConservation
  import opened FecBurst
  import opened FecDelivery
  import FecRecovery
  import FecMask
  import FecMatrix
  import FecEncoder
  import D = FecDecoder

  // ---------- what the encoder builds is honest ----------

  ghost predicate SentAs(stream: Stream, cfg: D.Config, p: RtpPacket, n: int) {
    n in stream.sent && stream.sent[n] == p && !stream.IsFec(cfg, n)
  }

  /** A batch of media packets on the wire, numbered from `base` on. */
  ghost predicate MediaSent(stream: Stream, cfg: D.Config, protected: seq<RtpPacket>, base: int) {
    forall j :: 0 <= j < |protected| ==> SentAs(stream, cfg, protected[j], base + j)
  }

  /** A FEC packet as its caller sends it: numbered and stamped. */
  function OnWire(p: RtpPacket, n: int, stamp: U32): RtpPacket {
    p.(seqNum := Wrap(n), timestamp := stamp)
  }

  /** The FEC packet of row `row` on the wire under number `n`. */
  ghost predicate FecSent(stream: Stream, cfg: D.Config, protected: seq<RtpPacket>, base: int, row: FecMask.Row, p: RtpPacket, n: int,
                          stamp: U32) {
    && FecEncoder.PacketIs(p, FecEncoder.MembersFor(protected), row, cfg.fecType, cfg.ssrc)
    && n in stream.sent && stream.sent[n] == OnWire(p, n, stamp)
    && n in stream.groups
    && stream.groups[n] == Group(FecEncoder.NumbersAt(base, FecMask.Columns(row)),
                                 FecEncoder.LongestPayload(FecEncoder.GroupOf(FecEncoder.MembersFor(protected), row)))
  }

  lemma GroupSent(stream: Stream, cfg: D.Config, protected: seq<RtpPacket>, base: int, row: FecMask.Row)
    requires MediaSent(stream, cfg, protected, base) && FecMatrix.Within(row, |protected|)
    ensures forall m :: m in FecEncoder.NumbersAt(base, FecMask.Columns(row)) ==> m in stream.sent && !stream.IsFec(cfg, m)
  {
    FecEncoder.ColumnsWithin(row, |protected|);
    var columns := FecMask.Columns(row);
    var ns := FecEncoder.NumbersAt(base, columns);
    forall m | m in ns ensures m in stream.sent && !stream.IsFec(cfg, m) {
      var k :| 0 <= k < |ns| && ns[k] == m;
      var j := columns[k];
      assert SentAs(stream, cfg, protected[j], base + j);
    }
  }

  lemma GroupMembers(stream: Stream, cfg: D.Config, protected: seq<RtpPacket>, base: int, row: FecMask.Row)
    requires MediaSent(stream, cfg, protected, base) && FecMatrix.Within(row, |protected|)
    requires forall j :: 0 <= j < |protected| ==> protected[j].seqNum == Wrap(base + j)
    requires forall m :: m in FecEncoder.NumbersAt(base, FecMask.Columns(row)) ==> m in stream.sent
    ensures MembersOf(stream, FecEncoder.NumbersAt(base, FecMask.Columns(row))) ==
            FecEncoder.GroupOf(FecEncoder.MembersFor(protected), row)
  {
    FecEncoder.ColumnsWithin(row, |protected|);
    SelectedMembers(stream, cfg, protected, base, FecMask.Columns(row));
  }

  lemma SelectedMembers(stream: Stream, cfg: D.Config, protected: seq<RtpPacket>, base: int, columns: seq<nat>)
    requires MediaSent(stream, cfg, protected, base) && forall k :: 0 <= k < |columns| ==> columns[k] < |protected|
    requires forall j :: 0 <= j < |protected| ==> protected[j].seqNum == Wrap(base + j)
    requires forall m :: m in FecEncoder.NumbersAt(base, columns) ==> m in stream.sent
    ensures MembersOf(stream, FecEncoder.NumbersAt(base, columns)) == FecEncoder.Select(FecEncoder.MembersFor(protected), columns)
  {
    hide MediaSent, Wrap;
    var ns, media := FecEncoder.NumbersAt(base, columns), FecEncoder.MembersFor(protected);
    forall k | 0 <= k < |columns| ensures MembersOf(stream, ns)[k] == FecEncoder.Select(media, columns)[k] {
      SelectedMember(stream, cfg, protected, base, columns, ns, media, k);
    }
  }

  lemma SelectedMember(stream: Stream, cfg: D.Config, protected: seq<RtpPacket>, base: int, columns: seq<nat>,
                       ns: seq<int>, media: seq<Member>, k: nat)
    requires MediaSent(stream, cfg, protected, base) && (forall c :: 0 <= c < |columns| ==> columns[c] < |protected|)
    requires ns == FecEncoder.NumbersAt(base, columns) && media == FecEncoder.MembersFor(protected) && k < |columns|
    requires protected[columns[k]].seqNum == Wrap(base + columns[k]) && forall m :: m in ns ==> m in stream.sent
    ensures MembersOf(stream, ns)[k] == FecEncoder.Select(media, columns)[k]
  {
    hide MediaSent, Wrap;
    SameMember(stream, cfg, protected, base, columns[k]);
  }

  lemma SameMember(stream: Stream, cfg: D.Config, protected: seq<RtpPacket>, base: int, j: nat)
    requires MediaSent(stream, cfg, protected, base) && j < |protected| && protected[j].seqNum == Wrap(base + j)
    ensures base + j in stream.sent
    ensures Member(Wrap(base + j), stream.Image(base + j)) == FecEncoder.MembersFor(protected)[j]
  {
    assert SentAs(stream, cfg, protected[j], base + j);
  }

  /** A FEC packet the encoder built from a sound row and its caller numbered satisfies
      what the decoder's theorems ask of FEC packets. */
  lemma EncodedIsHonest(stream: Stream, cfg: D.Config, protected: seq<RtpPacket>, base: int, row: FecMask.Row, p: RtpPacket, n: int,
                        stamp: U32)
    requires MediaSent(stream, cfg, protected, base) && FecSent(stream, cfg, protected, base, row, p, n, stamp)
    requires FecEncoder.Consecutive(FecEncoder.MembersFor(protected), base) && |protected| <= MAX_MEDIA
    requires FecMatrix.Busy(row, |protected|) && FecMatrix.Within(row, |protected|)
    ensures HonestGroup(stream, cfg, n)
  {
    hide FecMatrix.Busy, FecMask.Columns, FecEncoder.GroupOf, FecEncoder.LongestPayload, Wrap, HonestGroup, Buildable, FecPayload;
    var media := FecEncoder.MembersFor(protected);
    forall j | 0 <= j < |protected| ensures protected[j].seqNum == Wrap(base + j) {
      assert media[j].seqNum == Wrap(base + j);
    }
    FecEncoder.RowGroup(media, base, row);
    GroupSent(stream, cfg, protected, base, row);
    GroupMembers(stream, cfg, protected, base, row);
    var group, ns := FecEncoder.GroupOf(media, row), FecEncoder.NumbersAt(base, FecMask.Columns(row));
    GroupIsHonest(stream, cfg, n, ns, group, FecEncoder.LongestPayload(group));
  }

  lemma GroupIsHonest(stream: Stream, cfg: D.Config, n: int, ns: seq<int>, group: seq<Member>, protection: U16)
    requires n in stream.sent && n in stream.groups && stream.groups[n] == Group(ns, protection)
    requires (forall m :: m in ns ==> m in stream.sent && !stream.IsFec(cfg, m)) && MembersOf(stream, ns) == group
    requires FecRecovery.Numbered(group, ns) && Buildable(group, protection)
    requires var p := stream.sent[n]; p.csrcs == [] && p.extension.None? && p.payload == Some(FecPayload(group, protection))
    ensures HonestGroup(stream, cfg, n)
  {
  }

  lemma FecPacketIsHonest(cfg: D.Config, media: seq<Member>, row: FecMask.Row, p: RtpPacket, n: int, stamp: U32)
    requires FecEncoder.PacketIs(p, media, row, cfg.fecType, cfg.ssrc)
    ensures HonestPacket(cfg, OnWire(p, n, stamp), n)
    ensures cfg.fecType < 0x80 ==> OnWire(p, n, stamp).PayloadType() == cfg.fecType
  {
    var q := OnWire(p, n, stamp);
    CopyIsExact(q);
    PlainLength(q);
    ProtectionBounded(FecEncoder.GroupOf(media, row));
  }

  lemma PlainLength(p: RtpPacket)
    requires p.csrcs == [] && p.extension.None? && p.padSize == 0
    ensures |Serialized(p)| == RTP_HEADER + |p.PayloadBytes()|
  {
  }

  lemma {:induction false} ProtectionBounded(group: seq<Member>)
    requires forall k :: 0 <= k < |group| ==> FecEncoder.Packetlike(group[k])
    ensures FecEncoder.LongestPayload(group) <= 0x7fff
  {
    if group != [] {
      ProtectionBounded(group[..|group| - 1]);
    }
  }

  lemma FecSentHonest(stream: Stream, cfg: D.Config, protected: seq<RtpPacket>, base: int, row: FecMask.Row, p: RtpPacket, n: int,
                      stamp: U32)
    requires MediaSent(stream, cfg, protected, base) && FecSent(stream, cfg, protected, base, row, p, n, stamp)
    requires FecEncoder.Consecutive(FecEncoder.MembersFor(protected), base) && |protected| <= MAX_MEDIA
    requires FecMatrix.Busy(row, |protected|) && FecMatrix.Within(row, |protected|) && cfg.fecType < 0x80
    ensures FecHonest(stream, cfg, n)
  {
    hide HonestPacket, HonestGroup, MediaSent, FecEncoder.Consecutive, FecEncoder.PacketIs, FecMatrix.Busy, FecMatrix.Within, OnWire;
    FecPacketIsHonest(cfg, FecEncoder.MembersFor(protected), row, p, n, stamp);
    EncodedIsHonest(stream, cfg, protected, base, row, p, n, stamp);
  }

  ghost predicate FecHonest(stream: Stream, cfg: D.Config, n: int) {
    && n in stream.sent && stream.IsFec(cfg, n)
    && HonestPacket(cfg, stream.sent[n], n) && HonestGroup(stream, cfg, n)
  }

  // ---------- one batch ----------

  /** A call of `Encode` with what it returned, and the time stamp the caller then gives
      the FEC packets. */
  datatype Batch = Batch(media: seq<RtpPacket>, important: nat, mode: FecMatrix.Mode, factor: byte, table: FecMatrix.Table,
                         fec: seq<RtpPacket>, stamp: U32)
  {
    function Size(): nat { |media| + |fec| }
  }

  /** A media packet that reads back and is copied unchanged, short enough to protect. */
  predicate Sendable(cfg: D.Config, p: RtpPacket) {
    FecEncoder.Protectable(p) && Transparent(p) && Copied(p) == p && p.PayloadType() != cfg.fecType
  }

  /** `Encode` accepted the batch and returned `fec`. */
  ghost predicate Encoded(cfg: D.Config, b: Batch) {
    && FecMatrix.TableOk(b.table) && cfg.fecType < 0x80
    && (forall k :: 0 <= k < |b.media| ==> Sendable(cfg, b.media[k]))
    && FecEncoder.EncodedAs(b.media, b.important, b.mode, b.factor, b.table, b.fec, cfg.fecType, cfg.ssrc)
  }

  ghost function RowAt(cfg: D.Config, b: Batch, r: nat): FecMask.Row
    requires Encoded(cfg, b) && r < |b.fec|
  {
    FecMatrix.FinalRow(b.table, |b.media|, |b.fec|, b.important, b.mode, r)
  }

  /** The group of the FEC packet numbered `n`. */
  ghost function GroupAt(cfg: D.Config, b: Batch, base: int, n: int): Group
    requires Encoded(cfg, b) && base + |b.media| <= n < base + b.Size()
  {
    var row := RowAt(cfg, b, n - base - |b.media|);
    RowPacket(cfg, b, n - base - |b.media|);
    Group(FecEncoder.NumbersAt(base, FecMask.Columns(row)),
          FecEncoder.LongestPayload(FecEncoder.GroupOf(FecEncoder.MembersFor(b.media), row)))
  }

  lemma RowPacket(cfg: D.Config, b: Batch, r: nat)
    requires Encoded(cfg, b) && r < |b.fec|
    ensures FecEncoder.PacketIs(b.fec[r], FecEncoder.MembersFor(b.media), RowAt(cfg, b, r), cfg.fecType, cfg.ssrc)
    ensures FecMatrix.Busy(RowAt(cfg, b, r), |b.media|) && FecMatrix.Within(RowAt(cfg, b, r), |b.media|)
  {
    hide FecEncoder.PacketIs, FecMatrix.FinalRow, FecMatrix.Busy, FecMatrix.Within, FecMatrix.Covered, FecMatrix.TableOk;
    FecMatrix.MatrixSound(b.table, |b.media|, |b.fec|, b.important, b.mode);
    var rows := FecMatrix.FinalRows(b.table, |b.media|, |b.fec|, b.important, b.mode);
    assert FecEncoder.PacketIs(b.fec[r], FecEncoder.MembersFor(b.media), rows[r], cfg.fecType, cfg.ssrc);
  }

  /** The packet under number `n` of a batch numbered from `base` on. */
  function PacketAt(b: Batch, base: int, n: int): RtpPacket
    requires base <= n < base + b.Size()
  {
    if n < base + |b.media| then b.media[n - base] else OnWire(b.fec[n - base - |b.media|], n, b.stamp)
  }

  ghost function BatchStream(cfg: D.Config, b: Batch, base: int): Stream
    requires Encoded(cfg, b)
  {
    Stream(map n | base <= n < base + b.Size() :: PacketAt(b, base, n),
           map n | base + |b.media| <= n < base + b.Size() :: GroupAt(cfg, b, base, n))
  }

  /** The caller numbers on: a batch starts with the next number. */
  ghost predicate NumberedFrom(cfg: D.Config, b: Batch, base: int) {
    Encoded(cfg, b) && b.media[0].seqNum == Wrap(base)
  }

  lemma WrapOn(base: int, j: nat)
    ensures Wrap(Wrap(base) + j) == Wrap(base + j)
  {
  }

  lemma BatchBasics(cfg: D.Config, b: Batch)
    requires Encoded(cfg, b)
    ensures FecEncoder.Together(b.media, cfg.ssrc) && 0 < |b.media| <= MAX_MEDIA && cfg.fecType < 0x80
    ensures forall k :: 0 <= k < |b.media| ==> Sendable(cfg, b.media[k])
  {
  }

  lemma BatchConsecutive(cfg: D.Config, b: Batch, base: int)
    requires NumberedFrom(cfg, b, base)
    ensures FecEncoder.Consecutive(FecEncoder.MembersFor(b.media), base) && 0 < |b.media| <= MAX_MEDIA
    ensures forall j :: 0 <= j < |b.media| ==> b.media[j].seqNum == Wrap(base + j) && b.media[j].ssrc == cfg.ssrc
  {
    hide Wrap, Encoded;
    BatchBasics(cfg, b);
    FecEncoder.TogetherConsecutive(b.media, cfg.ssrc);
    var members := FecEncoder.MembersFor(b.media);
    forall j | 0 <= j < |b.media| ensures members[j].seqNum == Wrap(base + j) && members[j].seqNum == b.media[j].seqNum {
      WrapOn(base, j);
    }
  }

  lemma MediaIsHonest(cfg: D.Config, b: Batch, base: int, j: nat)
    requires NumberedFrom(cfg, b, base) && j < |b.media|
    ensures HonestPacket(cfg, b.media[j], base + j) && b.media[j].PayloadType() != cfg.fecType
  {
    hide Encoded;
    BatchBasics(cfg, b);
    BatchConsecutive(cfg, b, base);
    assert Sendable(cfg, b.media[j]);
  }

  lemma BatchAt(cfg: D.Config, b: Batch, base: int, n: int)
    requires Encoded(cfg, b) && base <= n < base + b.Size()
    ensures n in BatchStream(cfg, b, base).sent && BatchStream(cfg, b, base).sent[n] == PacketAt(b, base, n)
    ensures n >= base + |b.media| ==>
              n in BatchStream(cfg, b, base).groups && BatchStream(cfg, b, base).groups[n] == GroupAt(cfg, b, base, n)
  {
    hide Encoded, PacketAt, GroupAt;
  }

  lemma BatchMediaSent(cfg: D.Config, b: Batch, base: int)
    requires NumberedFrom(cfg, b, base)
    ensures MediaSent(BatchStream(cfg, b, base), cfg, b.media, base)
  {
    hide HonestPacket, Encoded, BatchStream;
    forall j | 0 <= j < |b.media| ensures SentAs(BatchStream(cfg, b, base), cfg, b.media[j], base + j) {
      MediaIsHonest(cfg, b, base, j);
      BatchAt(cfg, b, base, base + j);
    }
  }

  lemma FecAt(cfg: D.Config, b: Batch, base: int, r: nat)
    requires Encoded(cfg, b) && r < |b.fec|
    requires FecEncoder.PacketIs(b.fec[r], FecEncoder.MembersFor(b.media), RowAt(cfg, b, r), cfg.fecType, cfg.ssrc)
    ensures var n := base + |b.media| + r;
            && PacketAt(b, base, n) == OnWire(b.fec[r], n, b.stamp)
            && GroupAt(cfg, b, base, n) ==
               Group(FecEncoder.NumbersAt(base, FecMask.Columns(RowAt(cfg, b, r))),
                     FecEncoder.LongestPayload(FecEncoder.GroupOf(FecEncoder.MembersFor(b.media), RowAt(cfg, b, r))))
  {
    hide Encoded, RowAt, OnWire, FecMask.Columns, FecEncoder.GroupOf, FecEncoder.LongestPayload;
  }

  lemma BatchFecSent(cfg: D.Config, b: Batch, base: int, r: nat)
    requires NumberedFrom(cfg, b, base) && r < |b.fec|
    ensures var n := base + |b.media| + r;
            FecSent(BatchStream(cfg, b, base), cfg, b.media, base, RowAt(cfg, b, r), b.fec[r], n, b.stamp)
  {
    hide Encoded, BatchStream, RowAt, FecEncoder.PacketIs, OnWire, FecMask.Columns, PacketAt, GroupAt;
    hide FecEncoder.GroupOf, FecEncoder.LongestPayload;
    RowPacket(cfg, b, r);
    FecAt(cfg, b, base, r);
    BatchAt(cfg, b, base, base + |b.media| + r);
  }

  lemma BatchFecHonest(cfg: D.Config, b: Batch, base: int, r: nat)
    requires NumberedFrom(cfg, b, base) && r < |b.fec|
    ensures FecHonest(BatchStream(cfg, b, base), cfg, base + |b.media| + r)
  {
    hide Encoded, FecHonest, MediaSent, FecSent, FecEncoder.Consecutive, FecEncoder.PacketIs;
    hide FecMatrix.Busy, FecMatrix.Within, RowAt, BatchStream;
    RowPacket(cfg, b, r);
    BatchBasics(cfg, b);
    BatchConsecutive(cfg, b, base);
    BatchMediaSent(cfg, b, base);
    BatchFecSent(cfg, b, base, r);
    FecSentHonest(BatchStream(cfg, b, base), cfg, b.media, base, RowAt(cfg, b, r), b.fec[r], base + |b.media| + r, b.stamp);
  }

  lemma BatchIsHonest(cfg: D.Config, b: Batch, base: int)
    requires NumberedFrom(cfg, b, base)
    ensures Honest(BatchStream(cfg, b, base), cfg)
  {
    hide Encoded, HonestPacket, HonestGroup;
    var stream := BatchStream(cfg, b, base);
    forall n | n in stream.sent
      ensures HonestPacket(cfg, stream.sent[n], n) && (stream.IsFec(cfg, n) ==> HonestGroup(stream, cfg, n))
    {
      if n < base + |b.media| {
        MediaIsHonest(cfg, b, base, n - base);
      } else {
        BatchFecHonest(cfg, b, base, n - base - |b.media|);
      }
    }
  }

  /** The rows beyond 12 media packets without important ones are such a matrix. */
  lemma EncodedInterleaves(row: FecMask.Row, base: int, media: nat, fec: nat, r: nat)
    requires 0 < fec <= media
    requires forall c: nat :: FecMask.RowBit(row, c) <==> FecMask.Protects(media, fec, r, c)
    ensures forall m :: m in FecEncoder.NumbersAt(base, FecMask.Columns(row)) <==> base <= m < base + media && (m - base) % fec == r
  {
    hide FecMask.ColumnsTo;
    FecMask.ColumnsAre(row, 8 * |row|);
    var columns := FecMask.Columns(row);
    var ns := FecEncoder.NumbersAt(base, columns);
    forall m ensures m in ns <==> base <= m < base + media && (m - base) % fec == r {
      if m in ns {
        var k :| 0 <= k < |ns| && ns[k] == m;
        assert columns[k] in columns;
      }
      if base <= m < base + media && (m - base) % fec == r {
        var c: nat := m - base;
        assert FecMask.RowBit(row, c) && c in columns;
        var k :| 0 <= k < |columns| && columns[k] == c;
        assert ns[k] == m;
      }
    }
  }

  /** How many of a batch's FEC packets, the first ones, repeat others. */
  function RepeatCount(b: Batch): (apart: nat)
    ensures b.fec != [] ==> apart < |b.fec|
  {
    if |b.fec| <= 1 || b.important == 0 then 0
    else FecMatrix.ImportantRows(|b.media|, |b.fec|, b.important, b.mode)
  }

  /** How many FEC packets share the media packets out. */
  function MainCount(b: Batch): (n: nat)
    ensures b.fec != [] ==> n > 0
  {
    if b.fec == [] then 0 else |b.fec| - RepeatCount(b)
  }

  /** A batch whose media packets are shared out: by a single FEC packet; or, beyond 12
      media packets, without important ones or in a mode that overlaps. */
  predicate Shares(b: Batch) {
    b.fec != [] &&
    (|b.fec| == 1 || (|b.media| > FecMask.MAX_TABLE_MEDIA && (b.important == 0 || FecMatrix.Overlaps(b.mode))))
  }

  /** The place of FEC packet `r` among those that share the media packets out. */
  function PlaceAmong(b: Batch, r: nat): nat {
    if r < RepeatCount(b) then r else r - RepeatCount(b)
  }

  lemma BatchServed(cfg: D.Config, b: Batch)
    requires Encoded(cfg, b) && b.fec != []
    ensures FecMatrix.Served(|b.media|, |b.fec|, b.important, b.mode) && FecMatrix.TableOk(b.table)
  {
  }

  /** The row shows what the one at `place` protects when `main` FEC packets share out the media. */
  ghost predicate Shows(row: FecMask.Row, media: nat, main: nat, place: nat)
    requires main > 0
  {
    forall c: nat :: FecMask.RowBit(row, c) <==> FecMask.Protects(media, main, place, c)
  }

  lemma OneShows(table: FecMatrix.Table, media: nat, important: nat, mode: FecMatrix.Mode)
    requires FecMatrix.Served(media, 1, important, mode) && FecMatrix.TableOk(table)
    ensures Shows(FecMatrix.FinalRow(table, media, 1, important, mode, 0), media, 1, 0)
  {
    hide FecMask.RowBit, FecMatrix.TableOk, FecMatrix.FinalRow;
    FecMatrix.MatrixSound(table, media, 1, important, mode);
    OneRow(FecMatrix.FinalRows(table, media, 1, important, mode), media);
  }

  lemma PlainShows(table: FecMatrix.Table, media: nat, fec: nat, mode: FecMatrix.Mode, r: nat)
    requires FecMatrix.Served(media, fec, 0, mode) && FecMatrix.TableOk(table) && media > FecMask.MAX_TABLE_MEDIA && r < fec
    ensures Shows(FecMatrix.FinalRow(table, media, fec, 0, mode, r), media, fec, r)
  {
    hide FecMask.RowBit, FecMatrix.TableOk, FecMatrix.FinalRow;
    FecMatrix.MatrixPartitions(table, media, fec, mode);
    var rows := FecMatrix.FinalRows(table, media, fec, 0, mode);
    assert rows[r] == FecMatrix.FinalRow(table, media, fec, 0, mode, r);
  }

  lemma OverlapShows(table: FecMatrix.Table, media: nat, fec: nat, important: nat, mode: FecMatrix.Mode, r: nat)
    requires FecMatrix.Served(media, fec, important, mode) && FecMatrix.TableOk(table) && media > FecMask.MAX_TABLE_MEDIA
    requires important > 0 && FecMatrix.Overlaps(mode) && r < fec
    ensures var apart := FecMatrix.ImportantRows(media, fec, important, mode);
            && apart <= fec - apart
            && Shows(FecMatrix.FinalRow(table, media, fec, important, mode, r), media, fec - apart, if r < apart then r else r - apart)
            && (r < apart ==> FecMatrix.FinalRow(table, media, fec, important, mode, r) ==
                              FecMatrix.FinalRow(table, media, fec, important, mode, apart + r))
  {
    hide FecMask.RowBit, FecMatrix.FinalRow, FecMatrix.TableOk, FecMatrix.ImportantRows;
    FecMatrix.OverlapInterleaves(table, media, fec, important, mode, r);
  }

  /** What the row of FEC packet `r` amounts to. */
  ghost predicate RowShared(cfg: D.Config, b: Batch, r: nat)
    requires Encoded(cfg, b) && r < |b.fec|
  {
    && RepeatCount(b) <= MainCount(b) <= |b.media|
    && Shows(RowAt(cfg, b, r), |b.media|, MainCount(b), PlaceAmong(b, r))
    && (r < RepeatCount(b) ==> RowAt(cfg, b, r) == RowAt(cfg, b, RepeatCount(b) + r))
  }

  lemma OneShared(cfg: D.Config, b: Batch)
    requires Encoded(cfg, b) && |b.fec| == 1
    ensures RowShared(cfg, b, 0)
  {
    hide Encoded, Shows, FecMatrix.FinalRow, FecMatrix.TableOk, FecMatrix.Served, FecMatrix.SetProtectionAllocation;
    BatchServed(cfg, b);
    OneShows(b.table, |b.media|, b.important, b.mode);
  }

  lemma PlainShared(cfg: D.Config, b: Batch, r: nat)
    requires Encoded(cfg, b) && |b.media| > FecMask.MAX_TABLE_MEDIA && b.important == 0 && r < |b.fec|
    ensures RowShared(cfg, b, r)
  {
    hide Encoded, Shows, FecMatrix.FinalRow, FecMatrix.TableOk, FecMatrix.Served, FecMatrix.SetProtectionAllocation;
    BatchServed(cfg, b);
    PlainShows(b.table, |b.media|, |b.fec|, b.mode, r);
  }

  lemma OverlapShared(cfg: D.Config, b: Batch, r: nat)
    requires Encoded(cfg, b) && |b.media| > FecMask.MAX_TABLE_MEDIA && b.important > 0 && FecMatrix.Overlaps(b.mode)
    requires r < |b.fec| && |b.fec| > 1
    ensures RowShared(cfg, b, r)
  {
    hide Encoded, Shows, FecMatrix.FinalRow, FecMatrix.TableOk, FecMatrix.Served, FecMatrix.SetProtectionAllocation;
    BatchServed(cfg, b);
    OverlapShows(b.table, |b.media|, |b.fec|, b.important, b.mode, r);
  }

  lemma RowShares(cfg: D.Config, b: Batch, r: nat)
    requires Encoded(cfg, b) && Shares(b) && r < |b.fec|
    ensures RowShared(cfg, b, r)
  {
    hide Encoded, RowShared;
    if |b.fec| == 1 {
      OneShared(cfg, b);
    } else if b.important == 0 {
      PlainShared(cfg, b, r);
    } else {
      OverlapShared(cfg, b, r);
    }
  }

  lemma OneRow(rows: seq<FecMask.Row>, media: nat)
    requires FecMatrix.SoundRows(rows, media) && |rows| == 1
    ensures forall c: nat :: FecMask.RowBit(rows[0], c) <==> FecMask.Protects(media, 1, 0, c)
  {
    hide FecMask.RowBit;
    forall c: nat ensures FecMask.RowBit(rows[0], c) <==> c < media {
      if c < media {
        assert FecMatrix.Covered(rows, c);
      }
    }
  }

  /** A batch is on the wire with its shared groups. */
  lemma BatchShares(cfg: D.Config, b: Batch, base: int)
    requires NumberedFrom(cfg, b, base) && Shares(b)
    ensures BatchSent(BatchStream(cfg, b, base), cfg, base, |b.media|, |b.fec|, MainCount(b))
  {
    hide Encoded, BatchStream, RowAt, Shares, FecHonest, FecSent, Interleaved;
    var stream, all := BatchStream(cfg, b, base), Range(base + |b.media|, |b.fec|);
    FecCount(cfg, b);
    forall r | 0 <= r < |b.fec| ensures all[r] in stream.sent && stream.IsFec(cfg, all[r]) {
      FecSentIs(cfg, b, base, r);
    }
    forall x: nat | x < RepeatCount(b) ensures Repeats(stream, base, |b.media|, |b.fec|, MainCount(b), x) {
      RowShares(cfg, b, x);
      FecSentIs(cfg, b, base, x);
      FecSentIs(cfg, b, base, RepeatCount(b) + x);
    }
    MainsInterleaved(cfg, b, base);
  }

  lemma MainsInterleaved(cfg: D.Config, b: Batch, base: int)
    requires NumberedFrom(cfg, b, base) && Shares(b)
    ensures Interleaved(BatchStream(cfg, b, base), base, |b.media|, Mains(base, |b.media|, |b.fec|, MainCount(b)))
  {
    hide Encoded, BatchStream, RowAt, Shares, FecHonest, FecSent;
    var stream, n := BatchStream(cfg, b, base), MainCount(b);
    var fecs := Mains(base, |b.media|, |b.fec|, n);
    FecCount(cfg, b);
    forall r | 0 <= r < n
      ensures fecs[r] in stream.groups
      ensures forall m :: m in stream.groups[fecs[r]].ns <==> base <= m < base + |b.media| && (m - base) % n == r
    {
      RowShares(cfg, b, RepeatCount(b) + r);
      EncodedInterleaves(RowAt(cfg, b, RepeatCount(b) + r), base, |b.media|, n, r);
      FecSentIs(cfg, b, base, RepeatCount(b) + r);
    }
  }

  lemma FecCount(cfg: D.Config, b: Batch)
    requires Encoded(cfg, b) && Shares(b)
    ensures 0 < MainCount(b) <= |b.media| && RepeatCount(b) <= MainCount(b)
    ensures |b.fec| == RepeatCount(b) + MainCount(b)
  {
    hide RowAt, Encoded;
    RowShares(cfg, b, 0);
  }

  lemma FecSentIs(cfg: D.Config, b: Batch, base: int, r: nat)
    requires NumberedFrom(cfg, b, base) && r < |b.fec|
    ensures var stream, n := BatchStream(cfg, b, base), base + |b.media| + r;
            && n in stream.sent && stream.IsFec(cfg, n) && n in stream.groups
            && stream.groups[n].ns == FecEncoder.NumbersAt(base, FecMask.Columns(RowAt(cfg, b, r)))
  {
    hide Encoded, BatchStream, RowAt, HonestGroup, HonestPacket, FecMask.Columns, FecEncoder.PacketIs, OnWire;
    BatchFecHonest(cfg, b, base, r);
    BatchFecSent(cfg, b, base, r);
  }

  // ---------- whole sessions ----------

  /** Batches one after the other, the first numbered from `start` on. */
  ghost predicate Session(cfg: D.Config, start: int, batches: seq<Batch>)
    decreases |batches|
  {
    batches == [] || (NumberedFrom(cfg, batches[0], start) && Session(cfg, start + batches[0].Size(), batches[1..]))
  }

  function Joined(a: Stream, b: Stream): Stream {
    Stream(a.sent + b.sent, a.groups + b.groups)
  }

  /** Everything a session puts on the wire. */
  ghost function Wire(cfg: D.Config, start: int, batches: seq<Batch>): Stream
    requires Session(cfg, start, batches)
    decreases |batches|
  {
    if batches == [] then Stream(map[], map[])
    else Joined(BatchStream(cfg, batches[0], start), Wire(cfg, start + batches[0].Size(), batches[1..]))
  }

  /** The numbers of a stream, its FEC packets and their groups lie in an interval. */
  ghost predicate Inside(stream: Stream, lo: int, hi: int) {
    && (forall n :: n in stream.sent ==> lo <= n < hi)
    && (forall n :: n in stream.groups ==> lo <= n < hi && GroupInside(stream, n, lo, hi))
  }

  function End(start: int, batches: seq<Batch>): (end: int)
    ensures start <= end
    decreases |batches|
  {
    if batches == [] then start else End(start + batches[0].Size(), batches[1..])
  }

  lemma BatchInside(cfg: D.Config, b: Batch, base: int)
    requires NumberedFrom(cfg, b, base)
    ensures Inside(BatchStream(cfg, b, base), base, base + b.Size())
  {
    hide Encoded, GroupAt, PacketAt;
    var stream := BatchStream(cfg, b, base);
    forall n | n in stream.groups ensures GroupInside(stream, n, base, base + b.Size()) {
      BatchGroupInside(cfg, b, base, n - base - |b.media|);
    }
  }

  ghost predicate GroupInside(stream: Stream, n: int, lo: int, hi: int) {
    n in stream.groups && forall m :: m in stream.groups[n].ns ==> lo <= m < hi
  }

  lemma BatchGroupInside(cfg: D.Config, b: Batch, base: int, r: nat)
    requires NumberedFrom(cfg, b, base) && r < |b.fec|
    ensures GroupInside(BatchStream(cfg, b, base), base + |b.media| + r, base, base + b.Size())
  {
    hide Encoded, BatchStream, RowAt, FecMask.Columns;
    FecSentIs(cfg, b, base, r);
    ColumnsInside(cfg, b, base, r);
  }

  lemma ColumnsInside(cfg: D.Config, b: Batch, base: int, r: nat)
    requires Encoded(cfg, b) && r < |b.fec|
    ensures forall m :: m in FecEncoder.NumbersAt(base, FecMask.Columns(RowAt(cfg, b, r))) ==> base <= m < base + |b.media|
  {
    hide Encoded, RowAt, FecMask.Columns, FecEncoder.PacketIs, FecMatrix.Busy;
    RowPacket(cfg, b, r);
    FecEncoder.ColumnsWithin(RowAt(cfg, b, r), |b.media|);
  }

  lemma {:induction false} WireInside(cfg: D.Config, start: int, batches: seq<Batch>)
    requires Session(cfg, start, batches)
    ensures Inside(Wire(cfg, start, batches), start, End(start, batches))
    decreases |batches|
  {
    hide BatchStream, Encoded;
    if batches != [] {
      BatchInside(cfg, batches[0], start);
      WireInside(cfg, start + batches[0].Size(), batches[1..]);
    }
  }

  /** Streams with numbers apart are honest together. */
  lemma JoinedHonest(a: Stream, b: Stream, cfg: D.Config, lo: int, mid: int, hi: int)
    requires Honest(a, cfg) && Honest(b, cfg) && Inside(a, lo, mid) && Inside(b, mid, hi)
    ensures Honest(Joined(a, b), cfg)
  {
    hide HonestGroup, HonestPacket;
    var both := Joined(a, b);
    forall n | n in both.sent && both.IsFec(cfg, n) ensures HonestGroup(both, cfg, n) {
      if n in b.sent {
        GroupStays(b, both, cfg, n);
      } else {
        GroupStays(a, both, cfg, n);
      }
    }
  }

  /** `big` carries everything of `small`. */
  ghost predicate Extends(big: Stream, small: Stream) {
    && (forall n :: n in small.sent ==> n in big.sent && big.sent[n] == small.sent[n])
    && (forall n :: n in small.groups ==> n in big.groups && big.groups[n] == small.groups[n])
  }

  lemma GroupStays(small: Stream, big: Stream, cfg: D.Config, n: int)
    requires n in small.sent && HonestGroup(small, cfg, n) && Extends(big, small)
    ensures HonestGroup(big, cfg, n)
  {
    hide Buildable, FecPayload, Serialized;
    assert MembersOf(big, small.groups[n].ns) == MembersOf(small, small.groups[n].ns);
  }

  /** What the encoder and its caller send is honest, over any number of batches. */
  lemma {:induction false} SessionIsHonest(cfg: D.Config, start: int, batches: seq<Batch>)
    requires Session(cfg, start, batches)
    ensures Honest(Wire(cfg, start, batches), cfg)
    decreases |batches|
  {
    hide BatchStream, Encoded, Inside, HonestPacket, HonestGroup;
    if batches != [] {
      var next := start + batches[0].Size();
      BatchIsHonest(cfg, batches[0], start);
      SessionIsHonest(cfg, next, batches[1..]);
      BatchInside(cfg, batches[0], start);
      WireInside(cfg, next, batches[1..]);
      JoinedHonest(BatchStream(cfg, batches[0], start), Wire(cfg, next, batches[1..]), cfg, start, next, End(start, batches));
    }
  }

  /** Where batch `k` begins. */
  function Start(start: int, batches: seq<Batch>, k: nat): (s: int)
    requires k <= |batches|
    ensures start <= s
    decreases |batches|
  {
    if k == 0 then start else Start(start + batches[0].Size(), batches[1..], k - 1)
  }

  lemma {:induction false} BatchInSession(cfg: D.Config, start: int, batches: seq<Batch>, k: nat)
    requires Session(cfg, start, batches) && k < |batches|
    ensures NumberedFrom(cfg, batches[k], Start(start, batches, k))
    ensures Start(start, batches, k) + batches[k].Size() <= End(start, batches)
    decreases |batches|
  {
    hide Encoded;
    if k > 0 {
      BatchInSession(cfg, start + batches[0].Size(), batches[1..], k - 1);
    }
  }

  lemma JoinedExtends(a: Stream, b: Stream, lo: int, mid: int, hi: int)
    requires Inside(a, lo, mid) && Inside(b, mid, hi)
    ensures Extends(Joined(a, b), a) && Extends(Joined(a, b), b)
  {
  }

  lemma ExtendsOn(a: Stream, b: Stream, c: Stream)
    requires Extends(a, b) && Extends(b, c)
    ensures Extends(a, c)
  {
  }

  ghost function FirstSent(cfg: D.Config, start: int, batches: seq<Batch>): Stream
    requires Session(cfg, start, batches) && batches != []
  {
    BatchStream(cfg, batches[0], start)
  }

  ghost function RestSent(cfg: D.Config, start: int, batches: seq<Batch>): Stream
    requires Session(cfg, start, batches) && batches != []
  {
    Wire(cfg, start + batches[0].Size(), batches[1..])
  }

  lemma WireJoins(cfg: D.Config, start: int, batches: seq<Batch>)
    requires Session(cfg, start, batches) && batches != []
    ensures Wire(cfg, start, batches) == Joined(FirstSent(cfg, start, batches), RestSent(cfg, start, batches))
    ensures Inside(FirstSent(cfg, start, batches), start, start + batches[0].Size())
    ensures Inside(RestSent(cfg, start, batches), start + batches[0].Size(), End(start, batches))
    ensures Extends(Wire(cfg, start, batches), FirstSent(cfg, start, batches))
    ensures Extends(Wire(cfg, start, batches), RestSent(cfg, start, batches))
  {
    hide BatchStream, Encoded, Extends, Inside;
    var next := start + batches[0].Size();
    BatchInside(cfg, batches[0], start);
    WireInside(cfg, next, batches[1..]);
    JoinedExtends(BatchStream(cfg, batches[0], start), Wire(cfg, next, batches[1..]), start, next, End(start, batches));
  }

  /** The wire carries each batch. */
  lemma {:induction false} WireCarries(cfg: D.Config, start: int, batches: seq<Batch>, k: nat)
    requires Session(cfg, start, batches) && k < |batches|
    ensures NumberedFrom(cfg, batches[k], Start(start, batches, k))
    ensures Extends(Wire(cfg, start, batches), BatchStream(cfg, batches[k], Start(start, batches, k)))
    decreases |batches|
  {
    hide BatchStream, Encoded, Extends, Inside, Wire;
    BatchInSession(cfg, start, batches, k);
    WireJoins(cfg, start, batches);
    if k > 0 {
      var next := start + batches[0].Size();
      WireCarries(cfg, next, batches[1..], k - 1);
      ExtendsOn(Wire(cfg, start, batches), Wire(cfg, next, batches[1..]), BatchStream(cfg, batches[k], Start(start, batches, k)));
    }
  }

  /** A packet of a batch is protected by FEC packets of that batch alone. */
  lemma {:induction false} GroupsApart(cfg: D.Config, start: int, batches: seq<Batch>, k: nat, f: int, m: int)
    requires Session(cfg, start, batches) && k < |batches|
    requires var base := Start(start, batches, k); base <= m < base + batches[k].Size()
    requires f in Wire(cfg, start, batches).groups && m in Wire(cfg, start, batches).groups[f].ns
    ensures var base := Start(start, batches, k); base + |batches[k].media| <= f < base + batches[k].Size()
    decreases |batches|
  {
    hide Encoded, Extends;
    var next := start + batches[0].Size();
    WireJoins(cfg, start, batches);
    if k > 0 {
      GroupsApart(cfg, next, batches[1..], k - 1, f, m);
    }
  }

  // ---------- the decoder's promises for everything the encoder produces ----------

  /** Over any session of encoded batches and any sequence of decoder calls with any
      lossy, reordered, repeated part of what was sent: every packet released is one
      that was sent, and released numbers strictly increase. */
  lemma SessionRunSafe(cfg: D.Config, start: int, batches: seq<Batch>, calls: seq<seq<int>>, given: seq<seq<RtpPacket>>)
    requires Session(cfg, start, batches)
    requires var wire := Wire(cfg, start, batches); RunOk(wire, cfg, FRESH, calls) && Given(wire, calls, given)
    ensures SafeRun(D.EMPTY, cfg, given)
    ensures var wire := Wire(cfg, start, batches);
            var released := DecodeRun(wire, cfg, FRESH, calls).1;
            && Ascending(released) && AllSent(wire, released)
            && RunOutput(D.EMPTY, cfg, given) == PacketsFor(wire, released)
  {
    hide Wire, Session, RunOk, Given, SafeRun, Honest;
    SessionIsHonest(cfg, start, batches);
    FecRunSafe(Wire(cfg, start, batches), cfg, calls, given);
  }

  lemma InterleavedOn(stream: Stream, big: Stream, base: int, media: nat, fecs: seq<int>)
    requires Interleaved(stream, base, media, fecs) && Extends(big, stream)
    ensures Interleaved(big, base, media, fecs)
  {
    forall r | 0 <= r < |fecs| ensures GroupOn(stream, big, fecs[r]) {
      ExtendsGroup(stream, big, fecs[r]);
    }
  }

  predicate GroupOn(small: Stream, big: Stream, f: int) {
    f in small.groups && f in big.groups && big.groups[f] == small.groups[f]
  }

  lemma ExtendsGroup(small: Stream, big: Stream, f: int)
    requires Extends(big, small) && f in small.groups
    ensures GroupOn(small, big, f)
  {
  }

  lemma BatchSentOn(stream: Stream, big: Stream, cfg: D.Config, base: int, media: nat, fec: nat, n: nat)
    requires BatchSent(stream, cfg, base, media, fec, n) && Extends(big, stream)
    ensures BatchSent(big, cfg, base, media, fec, n)
  {
    hide Interleaved;
    InterleavedOn(stream, big, base, media, Mains(base, media, fec, n));
    var all := Range(base + media, fec);
    forall r | 0 <= r < fec ensures all[r] in big.sent && big.IsFec(cfg, all[r]) {
      assert all[r] in stream.sent;
    }
    forall x: nat | x < fec - n ensures Repeats(big, base, media, fec, n, x) {
      assert Repeats(stream, base, media, fec, n, x);
    }
  }

  lemma SessionShares(cfg: D.Config, start: int, batches: seq<Batch>, k: nat)
    requires Session(cfg, start, batches) && k < |batches| && Shares(batches[k])
    ensures BatchSent(Wire(cfg, start, batches), cfg, Start(start, batches, k), |batches[k].media|, |batches[k].fec|,
                      MainCount(batches[k]))
  {
    hide Encoded, BatchStream, Wire, Shares, Session, BatchSent, Extends, MainCount;
    WireCarries(cfg, start, batches, k);
    var base, b := Start(start, batches, k), batches[k];
    BatchShares(cfg, b, base);
    BatchSentOn(BatchStream(cfg, b, base), Wire(cfg, start, batches), cfg, base, |b.media|, |b.fec|, MainCount(b));
  }

  /** The packets of a batch as they go on the wire. */
  function OnTheWire(b: Batch, base: int): (packets: seq<RtpPacket>)
    ensures |packets| == b.Size()
  {
    seq(b.Size(), k requires 0 <= k < b.Size() => PacketAt(b, base, base + k))
  }

  lemma WirePackets(cfg: D.Config, start: int, batches: seq<Batch>, k: nat)
    requires Session(cfg, start, batches) && k < |batches|
    ensures var all := Range(Start(start, batches, k), batches[k].Size());
            && AllSent(Wire(cfg, start, batches), all)
            && PacketsFor(Wire(cfg, start, batches), all) == OnTheWire(batches[k], Start(start, batches, k))
  {
    hide Encoded, BatchStream, Wire, Session, PacketAt;
    var wire, base, b := Wire(cfg, start, batches), Start(start, batches, k), batches[k];
    WireCarries(cfg, start, batches, k);
    var all := Range(base, b.Size());
    forall j | 0 <= j < b.Size() ensures all[j] in wire.sent && wire.sent[all[j]] == OnTheWire(b, base)[j] {
      BatchAt(cfg, b, base, base + j);
    }
  }

  /** Burst recovery for whatever the encoder produces beyond 12 media packets, without
      important ones or with important ones in an overlapping mode, or with a single FEC
      packet: the hypotheses on the stream are met. */
  lemma SessionBurstRecovered(cfg: D.Config, start: int, batches: seq<Batch>, k: nat,
                              s: D.DecoderState, i: Ideal, found: map<int, seq<int>>, lo: int, first: int, length: nat, m: int)
    requires Session(cfg, start, batches) && k < |batches| && Shares(batches[k]) && length <= MainCount(batches[k])
    requires var wire := Wire(cfg, start, batches);
             Related(wire, cfg, s, i, found) && Window(wire, cfg, i, lo) && s.cached != []
    requires var base, media, fec := Start(start, batches, k), |batches[k].media|, |batches[k].fec|;
             BurstLost(i, base, media, Mains(base, media, fec, MainCount(batches[k])), first, length) && first <= m < first + length
    ensures var wire, base, b := Wire(cfg, start, batches), Start(start, batches, k), batches[k];
            base <= m < base + |b.media| && i.nums != [] && MainCount(b) > 0
            && (CachedAs(D.Recovered(s, cfg).cached, b.media[m - base]) <==>
                InTime(wire, i, i.nums[|i.nums| - 1], base, |b.media|, MainCount(b), m))
  {
    hide Wire, Session, Related, Window, Encoded, BatchStream, CachedAs, InTime, D.Recovered, Honest, Interleaved, MainCount;
    var wire, base, b := Wire(cfg, start, batches), Start(start, batches, k), batches[k];
    var n := MainCount(b);
    var fecs := Mains(base, |b.media|, |b.fec|, n);
    SessionIsHonest(cfg, start, batches);
    SessionShares(cfg, start, batches, k);
    MainsSent(wire, cfg, base, |b.media|, |b.fec|, n);
    SessionGroups(cfg, start, batches, k, i, m);
    WireMedia(cfg, start, batches, k, m - base);
    BurstRecovered(wire, cfg, s, i, found, lo, base, |b.media|, fecs, first, length, m);
    CachedSome(wire, cfg, s, i, found);
  }

  /** No FEC packet but those of the batch protects its packets, and these agree. */
  lemma SessionGroups(cfg: D.Config, start: int, batches: seq<Batch>, k: nat, i: Ideal, m: int)
    requires Session(cfg, start, batches) && k < |batches| && Shares(batches[k])
    requires var base, b := Start(start, batches, k), batches[k];
             && base <= m < base + |b.media|
             && BatchSent(Wire(cfg, start, batches), cfg, base, |b.media|, |b.fec|, MainCount(b))
    ensures var wire, base, b := Wire(cfg, start, batches), Start(start, batches, k), batches[k];
            OneGroup(wire, cfg, i, Together(wire, base, |b.media|, Mains(base, |b.media|, |b.fec|, MainCount(b)), m), m)
  {
    hide Wire, Session, MainCount, Shares, Interleaved;
    var wire, base, b := Wire(cfg, start, batches), Start(start, batches, k), batches[k];
    var fecs := Mains(base, |b.media|, |b.fec|, MainCount(b));
    forall f | f in wire.groups && m in wire.groups[f].ns ensures wire.groups[f].ns == Together(wire, base, |b.media|, fecs, m) {
      GroupsApart(cfg, start, batches, k, f, m);
      var r := MainOf(wire, cfg, base, |b.media|, |b.fec|, MainCount(b), f);
      PlaceOf(wire, base, |b.media|, fecs, r, m);
    }
  }

  lemma CachedSome(stream: Stream, cfg: D.Config, s: D.DecoderState, i: Ideal, found: map<int, seq<int>>)
    requires Related(stream, cfg, s, i, found) && s.cached != []
    ensures i.nums != []
  {
  }

  ghost predicate SentUnder(stream: Stream, n: int, p: RtpPacket) {
    n in stream.sent && stream.sent[n] == p
  }

  lemma WireMedia(cfg: D.Config, start: int, batches: seq<Batch>, k: nat, j: nat)
    requires Session(cfg, start, batches) && k < |batches| && j < |batches[k].media|
    ensures SentUnder(Wire(cfg, start, batches), Start(start, batches, k) + j, batches[k].media[j])
  {
    hide Encoded, BatchStream, Wire, Session, PacketAt;
    WireCarries(cfg, start, batches, k);
    BatchAt(cfg, batches[k], Start(start, batches, k), Start(start, batches, k) + j);
    MediaAt(batches[k], Start(start, batches, k), j);
  }

  lemma MediaAt(b: Batch, base: int, j: nat)
    requires j < |b.media|
    ensures PacketAt(b, base, base + j) == b.media[j]
  {
  }

  /** From encoder to application. A batch that `Encode` protected as above loses a
      burst no longer than the number of FEC packets that share its media packets out; the
      rest arrives in one call, in any order, at a decoder with an empty cache. The call hands out exactly what
      was sent, in order, if and only if each lost packet has a payload and, before any
      release, a 16-bit number of at most 32768. */
  lemma SessionDelivered(cfg: D.Config, start: int, batches: seq<Batch>, k: nat,
                         s: D.DecoderState, i: Ideal, found: map<int, seq<int>>, lo: int,
                         ns: seq<int>, packets: seq<RtpPacket>, first: int, length: nat)
    requires Session(cfg, start, batches) && k < |batches| && Shares(batches[k]) && length <= MainCount(batches[k])
    requires var wire := Wire(cfg, start, batches);
             && Related(wire, cfg, s, i, found) && CallOk(wire, cfg, i, ns, lo) && packets == PacketsFor(wire, ns)
    requires i.nums == [] && (i.last.Some? ==> i.last.value < Start(start, batches, k))
    requires batches[k].Size() <= cfg.maxDifference + 1
    requires var base := Start(start, batches, k);
             && base <= first && first + length <= base + |batches[k].media|
             && AllBut(ns, base, batches[k].Size(), first, length)
    ensures D.Decodable(s, cfg, packets)
    ensures D.Decoded(s, cfg, packets, []).1 == OnTheWire(batches[k], Start(start, batches, k)) <==>
            forall m :: first <= m < first + length ==> Startable(Wire(cfg, start, batches), i.last, m)
  {
    hide Wire, Session, Related, CallOk, Encoded, BatchStream, Startable, D.Decoded, D.Decodable, Honest, BatchSent, Shares, MainCount;
    var base, b := Start(start, batches, k), batches[k];
    SessionIsHonest(cfg, start, batches);
    SessionShares(cfg, start, batches, k);
    WirePackets(cfg, start, batches, k);
    BatchDelivered(Wire(cfg, start, batches), cfg, s, i, found, lo, ns, packets, base, |b.media|, |b.fec|,
                   MainCount(b), first, length);
  }

  // ---------- two media packets and one FEC packet ----------

  /** A batch of two media packets with one FEC packet, numbered from `base` on. */
  ghost predicate Three(cfg: D.Config, b: Batch, base: int) {
    NumberedFrom(cfg, b, base) && |b.media| == 2 && |b.fec| == 1
  }

  function ParityOf(b: Batch, base: int): RtpPacket
    requires |b.media| == 2 && |b.fec| == 1
  {
    OnWire(b.fec[0], base + 2, b.stamp)
  }

  ghost predicate ThreeSent(stream: Stream, cfg: D.Config, p: RtpPacket, q: RtpPacket, f: RtpPacket, base: int) {
    && Honest(stream, cfg) && BatchSent(stream, cfg, base, 2, 1, 1)
    && SentUnder(stream, base, p) && SentUnder(stream, base + 1, q) && SentUnder(stream, base + 2, f)
    && !stream.IsFec(cfg, base) && stream.IsFec(cfg, base + 2) && q.seqNum == Wrap(base + 1)
  }

  lemma ThreeStream(cfg: D.Config, b: Batch, base: int)
    requires Three(cfg, b, base)
    ensures ThreeSent(BatchStream(cfg, b, base), cfg, b.media[0], b.media[1], ParityOf(b, base), base)
  {
    hide Encoded, BatchStream, Honest, BatchSent, SentUnder, OnWire, Wrap;
    BatchIsHonest(cfg, b, base);
    ThreeShares(cfg, b, base);
    MediaUnder(cfg, b, base, 0);
    MediaUnder(cfg, b, base, 1);
    FecUnder(cfg, b, base, 0);
  }

  lemma ThreeShares(cfg: D.Config, b: Batch, base: int)
    requires Three(cfg, b, base)
    ensures BatchSent(BatchStream(cfg, b, base), cfg, base, 2, 1, 1) && b.media[1].seqNum == Wrap(base + 1)
  {
    hide Encoded, BatchStream, BatchSent, Wrap;
    BatchShares(cfg, b, base);
    BatchConsecutive(cfg, b, base);
  }

  lemma MediaUnder(cfg: D.Config, b: Batch, base: int, j: nat)
    requires NumberedFrom(cfg, b, base) && j < |b.media|
    ensures SentUnder(BatchStream(cfg, b, base), base + j, b.media[j])
    ensures base + j in BatchStream(cfg, b, base).sent && !BatchStream(cfg, b, base).IsFec(cfg, base + j)
  {
    hide Encoded, BatchStream, PacketAt, HonestPacket;
    BatchAt(cfg, b, base, base + j);
    MediaAt(b, base, j);
    MediaIsHonest(cfg, b, base, j);
  }

  lemma FecUnder(cfg: D.Config, b: Batch, base: int, r: nat)
    requires NumberedFrom(cfg, b, base) && r < |b.fec|
    ensures var n := base + |b.media| + r;
            && SentUnder(BatchStream(cfg, b, base), n, OnWire(b.fec[r], n, b.stamp))
            && n in BatchStream(cfg, b, base).sent && BatchStream(cfg, b, base).IsFec(cfg, n)
  {
    hide Encoded, BatchStream, RowAt, HonestPacket, HonestGroup, FecEncoder.PacketIs, FecMask.Columns, OnWire;
    BatchFecSent(cfg, b, base, r);
    BatchFecHonest(cfg, b, base, r);
  }

  lemma ThreeGroup(stream: Stream, cfg: D.Config, base: int, f: int)
    requires BatchSent(stream, cfg, base, 2, 1, 1) && f == base + 2
    ensures f in stream.groups
    ensures forall m :: m in stream.groups[f].ns <==> m == base || m == base + 1
  {
    assert Mains(base, 2, 1, 1)[0] == base + 2;
  }

  /** The numbers of the batch that arrive are in play. */
  lemma ThreeInPlay(stream: Stream, cfg: D.Config, p: RtpPacket, q: RtpPacket, f: RtpPacket, base: int, n: int)
    requires ThreeSent(stream, cfg, p, q, f, base) && (n == base || n == base + 2)
    ensures InPlay(stream, cfg, n, base)
  {
    hide Honest, BatchSent;
    ThreeGroup(stream, cfg, base, base + 2);
  }

  lemma FirstCall(stream: Stream, cfg: D.Config, p: RtpPacket, q: RtpPacket, f: RtpPacket, base: int)
    requires ThreeSent(stream, cfg, p, q, f, base) && cfg.maxDifference >= 2
    ensures D.Decodable(D.EMPTY, cfg, [p, f])
    ensures D.Decoded(D.EMPTY, cfg, [p, f], []).1 == [p, q, f] <==> q.payload.Some? && q.seqNum <= 0x8000
  {
    hide Honest, BatchSent, D.Decoded, D.Decodable, InPlay, CacheNumbers, Wrap;
    var ns, all := [base, base + 2], Range(base, 3);
    ThreeInPlay(stream, cfg, p, q, f, base, base);
    ThreeInPlay(stream, cfg, p, q, f, base, base + 2);
    CacheKeeps(FRESH, ns);
    assert base in ns;
    EmptyRelated(stream, cfg);
    BatchDelivered(stream, cfg, D.EMPTY, FRESH, map[], base, ns, [p, f], base, 2, 1, 1, base + 1, 1);
    assert all == [base, base + 1, base + 2] && PacketsFor(stream, all) == [p, q, f];
    assert Startable(stream, None, base + 1) <==> q.payload.Some? && q.seqNum <= 0x8000;
    assert (forall m :: base + 1 <= m < base + 2 ==> Startable(stream, None, m)) <==> Startable(stream, None, base + 1);
  }

  /** Why the start matters, on the smallest batch: one packet of two is lost, the other
      and the FEC packet arrive in the first call. The lost one comes back exactly when
      it has a payload and its 16-bit number is not one of 32769 to 65535. */
  lemma StartsExactly(cfg: D.Config, b: Batch, base: int)
    requires Three(cfg, b, base) && cfg.maxDifference >= 2
    ensures D.Decodable(D.EMPTY, cfg, [b.media[0], ParityOf(b, base)])
    ensures D.Decoded(D.EMPTY, cfg, [b.media[0], ParityOf(b, base)], []).1 == [b.media[0], b.media[1], ParityOf(b, base)] <==>
            b.media[1].payload.Some? && b.media[1].seqNum <= 0x8000
  {
    hide Encoded, ThreeSent, ParityOf, D.Decoded, D.Decodable;
    ThreeStream(cfg, b, base);
    FirstCall(BatchStream(cfg, b, base), cfg, b.media[0], b.media[1], ParityOf(b, base), base);
  }

  // ---------- released too early ----------

  lemma LoneEmitted(last: Option<int>, x: int, cfg: D.Config)
    requires !FecIdeal.Released(last, x)
    ensures EmitNumbers(Ideal([x], last), cfg) == (Ideal([], Some(x)), [x])
  {
    var nums := [x];
    assert OutOfRange(nums[1..], x, cfg.maxDifference) == 0;
    assert OutOfRange(nums, x, cfg.maxDifference) == 1;
    assert nums[..1] == nums && nums[1..] == [] && nums[..0] == [];
    assert Late(last, nums) == [x];
    assert Continued(last, [x], []) == [] && [x] + [] == [x];
  }

  lemma LoneMedia(stream: Stream, cfg: D.Config, x: int)
    requires x in stream.sent && !stream.IsFec(cfg, x)
    ensures CacheNumbers(FRESH, [x]) == Ideal([x], None)
    ensures DecodeNumbers(stream, cfg, FRESH, [x]) == (Ideal([], Some(x)), [x])
  {
    assert [x][..0] == [] && [x][1..] == [];
    assert FecNumbers(stream, cfg, [x]) == [];
    LoneEmitted(None, x, cfg);
  }

  lemma LoneFec(stream: Stream, cfg: D.Config, base: int)
    requires BatchSent(stream, cfg, base, 2, 1, 1) && base + 2 in stream.sent && stream.IsFec(cfg, base + 2)
    ensures CacheNumbers(Ideal([], Some(base)), [base + 2]) == Ideal([base + 2], Some(base))
    ensures DecodeNumbers(stream, cfg, Ideal([], Some(base)), [base + 2]) == (Ideal([], Some(base + 2)), [base + 2])
  {
    hide BatchSent, EmitNumbers;
    var i, x := Ideal([base + 2], Some(base)), base + 2;
    ThreeGroup(stream, cfg, base, base + 2);
    assert [x][..0] == [] && [x][1..] == [];
    assert FecNumbers(stream, cfg, [x]) == [x];
    assert base in stream.groups[x].ns && !Usable(stream.groups[x].ns, i, x);
    assert RecoverNumber(stream, i, x, x) == i;
    assert RecoverNumbers(stream, i, x, []) == i && RecoverNumbers(stream, i, x, [x]) == i;
    assert FecNumbers(stream, cfg, i.nums) == [x] && RecoverAll(stream, cfg, i) == i;
    LoneEmitted(Some(base), x, cfg);
  }

  lemma SplitRun(stream: Stream, cfg: D.Config, p: RtpPacket, q: RtpPacket, f: RtpPacket, base: int)
    requires ThreeSent(stream, cfg, p, q, f, base)
    ensures RunOk(stream, cfg, FRESH, [[base], [base + 2]])
    ensures DecodeRun(stream, cfg, FRESH, [[base], [base + 2]]).1 == [base, base + 2]
  {
    hide Honest, BatchSent, DecodeNumbers, CacheNumbers, InPlay;
    var calls := [[base], [base + 2]];
    ThreeInPlay(stream, cfg, p, q, f, base, base);
    ThreeInPlay(stream, cfg, p, q, f, base, base + 2);
    LoneMedia(stream, cfg, base);
    LoneFec(stream, cfg, base);
    assert CallOk(stream, cfg, FRESH, calls[0], base);
    assert CallOk(stream, cfg, Ideal([], Some(base)), calls[1], base);
    assert calls[1..] == [[base + 2]] && calls[1..][1..] == [];
    assert RunOk(stream, cfg, Ideal([], Some(base)), calls[1..]);
    assert DecodeRun(stream, cfg, Ideal([], Some(base)), calls[1..]).1 == [base + 2];
  }

  /** Why being released early matters, on the same batch: when the first packet comes
      alone it is evicted and released at once, its group is disabled, and the FEC packet
      that follows gives nothing back, whatever the cache range. */
  lemma EarlyReleaseLoses(cfg: D.Config, b: Batch, base: int)
    requires Three(cfg, b, base)
    ensures SafeRun(D.EMPTY, cfg, [[b.media[0]], [ParityOf(b, base)]])
    ensures RunOutput(D.EMPTY, cfg, [[b.media[0]], [ParityOf(b, base)]]) == [b.media[0], ParityOf(b, base)]
  {
    hide Encoded, ParityOf, BatchStream, DecodeRun, SafeRun, RunOutput, RunOk, Honest, BatchSent;
    var stream := BatchStream(cfg, b, base);
    ThreeStream(cfg, b, base);
    SplitRun(stream, cfg, b.media[0], b.media[1], ParityOf(b, base), base);
    FecRunSafe(stream, cfg, [[base], [base + 2]], [[b.media[0]], [ParityOf(b, base)]]);
  }
}
