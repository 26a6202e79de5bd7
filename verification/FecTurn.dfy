/** One pass over the cached FEC packets refines the ideal recovery. */
module FecTurn {
  import opened SeqComparison
  import opened RtpPackets
  import opened SeqLemmas
  import opened FecStream
  import opened FecIdeal
  import opened FecScan
  import opened FecRefinement
  import D = FecDecoder

  /** What a turn starts from: a live FEC packet `f` at position `k` of the cache. */
  ghost predicate Turn(stream: Stream, cfg: D.Config, s: D.DecoderState, i: Ideal, found: map<int, seq<int>>,
                       lo: int, top: int, k: nat) {
    && Honest(stream, cfg) && Related(stream, cfg, s, i, found)
    && Window(stream, cfg, i, lo)
    && k < |s.cached| && top == i.nums[|i.nums| - 1]
    && s.cached[k].isFec
  }

  lemma TurnGroup(stream: Stream, cfg: D.Config, s: D.DecoderState, i: Ideal, found: map<int, seq<int>>,
                  lo: int, top: int, k: nat)
    requires Turn(stream, cfg, s, i, found, lo, top, k)
    ensures var f := i.nums[k];
            && f in stream.sent && stream.IsFec(cfg, f) && f in stream.groups && HonestGroup(stream, cfg, f)
            && KeysName(s.cached[k].members, stream.groups[f].ns)
            && Context(s, i, stream.groups[f].ns, lo, top)
            && s.cached[k].buffer == stream.Image(f)
            && f in found
            && (if s.cached[k].invalidFec then Spent(stream.groups[f].ns, i)
                else RecordOk(s.cached[k], stream.groups[f].ns, found[f], s.cached, i))
  {
    var f := i.nums[k];
    assert f in i.nums && InPlay(stream, cfg, f, lo);
    assert SlotOk(stream, cfg, s.cached[k], f);
    assert FecOk(stream, s.cached[k], f, found, s.cached, i);
    KeysOfGroup(stream, cfg, f);
    assert KeysName(D.ProtectedMembers(stream.Image(f)), stream.groups[f].ns);
    SameKeysName(s.cached[k].members, D.ProtectedMembers(stream.Image(f)), stream.groups[f].ns);
    WindowCarries(stream, cfg, s, i, found, lo);
    assert top in i.nums && InPlay(stream, cfg, top, lo);
  }

  lemma RelatedCarries(stream: Stream, cfg: D.Config, s: D.DecoderState, i: Ideal, lo: int)
    requires Honest(stream, cfg) && Shape(stream, cfg, s, i) && forall n :: n in i.nums ==> Near(lo, n)
    ensures Carrying(s.cached, i.nums, lo)
  {
    forall k | 0 <= k < |i.nums| ensures s.cached[k].Seq() == Wrap(i.nums[k]) && Near(lo, i.nums[k]) {
      assert i.nums[k] in i.nums;
      assert SlotOk(stream, cfg, s.cached[k], i.nums[k]);
      assert HonestPacket(cfg, stream.sent[i.nums[k]], i.nums[k]);
    }
  }

  lemma WindowCarries(stream: Stream, cfg: D.Config, s: D.DecoderState, i: Ideal, found: map<int, seq<int>>, lo: int)
    requires Honest(stream, cfg) && Related(stream, cfg, s, i, found) && Window(stream, cfg, i, lo)
    ensures Carrying(s.cached, i.nums, lo)
  {
    forall n | n in i.nums ensures Near(lo, n) {
      assert InPlay(stream, cfg, n, lo);
    }
    RelatedCarries(stream, cfg, s, i, lo);
  }

  lemma ScanStart(s: D.DecoderState, i: Ideal, c: D.CachedPacket, ns: seq<int>, top: int, found: seq<int>)
    requires |s.cached| == |i.nums| && RecordOk(c, ns, found, s.cached, i)
    ensures ScanOk(s, i, c, ns, top, D.Scan(c.members, c.media, [], D.Complete), 0, found, [])
  {
    RecordFields(c, c.(members := c.members, media := c.media), ns, found, s.cached, i);
  }

  /** The scan of a live FEC packet, with its meaning. */
  lemma TurnScan(stream: Stream, cfg: D.Config, s: D.DecoderState, i: Ideal, found: map<int, seq<int>>,
                 lo: int, top: int, k: nat) returns (seen: seq<int>, lacking: seq<int>)
    requires Turn(stream, cfg, s, i, found, lo, top, k) && !s.cached[k].invalidFec
    ensures i.nums[k] in stream.groups
    ensures Outcome(s, i, s.cached[k], stream.groups[i.nums[k]].ns, top, D.ScanOf(s, Wrap(top), s.cached[k]), seen, lacking)
  {
    TurnGroup(stream, cfg, s, i, found, lo, top, k);
    var c, ns := s.cached[k], stream.groups[i.nums[k]].ns;
    var start := D.Scan(c.members, c.media, [], D.Complete);
    ScanStart(s, i, c, ns, top, found[i.nums[k]]);
    seen, lacking := ScanRefines(s, i, c, ns, lo, top, start, 0, found[i.nums[k]], [], D.ScanOf(s, Wrap(top), c));
  }

  /** Writing a scan's marks back keeps the relation. */
  lemma NotedRelated(stream: Stream, cfg: D.Config, s: D.DecoderState, i: Ideal, found: map<int, seq<int>>,
                     lo: int, top: int, k: nat, scan: D.Scan, seen: seq<int>, lacking: seq<int>)
    requires Turn(stream, cfg, s, i, found, lo, top, k) && !s.cached[k].invalidFec
    requires i.nums[k] in stream.groups
    requires Outcome(s, i, s.cached[k], stream.groups[i.nums[k]].ns, top, scan, seen, lacking)
    ensures Related(stream, cfg, s.(cached := s.cached[k := D.Noted(s.cached[k], scan)]), i, found[i.nums[k] := seen])
  {
    var c, f := s.cached[k], i.nums[k];
    var noted := D.Noted(c, scan);
    assert FecOk(stream, noted, f, found[f := seen], s.cached, i) by {
      if !scan.verdict.Stale? {
        RecordFields(c.(members := scan.members, media := scan.media), noted, stream.groups[f].ns, seen, s.cached, i);
      }
    }
    UpdateRelated(stream, cfg, s, i, found, k, noted, seen);
  }

  lemma RecordFields(c: D.CachedPacket, d: D.CachedPacket, ns: seq<int>, found: seq<int>, cached: seq<D.CachedPacket>, i: Ideal)
    requires |cached| == |i.nums| && RecordOk(c, ns, found, cached, i)
    requires d.members == c.members && d.media == c.media
    ensures RecordOk(d, ns, found, cached, i)
  {
  }

  /** Marking a packet as spent keeps the relation once its group is spent. */
  lemma SpentRelated(stream: Stream, cfg: D.Config, s: D.DecoderState, i: Ideal, found: map<int, seq<int>>, k: nat,
                     c: D.CachedPacket)
    requires Related(stream, cfg, s, i, found) && k < |s.cached|
    requires c == s.cached[k].(members := c.members, media := c.media, invalidFec := true)
    requires SameKeys(c.members, s.cached[k].members)
    requires i.nums[k] in stream.groups && Spent(stream.groups[i.nums[k]].ns, i)
    ensures Related(stream, cfg, s.(cached := s.cached[k := c]), i, found[i.nums[k] := []])
  {
    UpdateRelated(stream, cfg, s, i, found, k, c, []);
  }

  /** What a complete scan leaves in hand: exactly the cached members, by pointers
      that all lead to their packets, and exactly the lacking ones. */
  ghost predicate InHand(stream: Stream, s: D.DecoderState, i: Ideal, ns: seq<int>, top: int, scan: D.Scan,
                         seen: seq<int>, missing: seq<int>)
    requires |s.cached| == |i.nums|
  {
    && Usable(ns, i, top) && |scan.missing| == |missing|
    && (|missing| == 1 ==> scan.missing[0] == Wrap(missing[0]))
    && !D.SomeDangling(s.cached, scan.media)
    && (forall m :: m in seen ==> m in stream.sent)
    && D.MediaBuffers(s.cached, scan.media) == Images(stream, seen)
    && (forall m :: m in seen <==> m in ns && m in i.nums) && Distinct(seen)
  }

  lemma CompleteTurn(stream: Stream, cfg: D.Config, s: D.DecoderState, i: Ideal, ns: seq<int>, lo: int, top: int,
                     c: D.CachedPacket, scan: D.Scan, seen: seq<int>, lacking: seq<int>)
    requires Shape(stream, cfg, s, i) && KeysName(c.members, ns) && Context(s, i, ns, lo, top)
    requires ScanOk(s, i, c, ns, top, scan, |scan.members|, seen, lacking)
    ensures InHand(stream, s, i, ns, top, scan, seen, Lacking(ns, i.nums))
  {
    CompleteScan(s, i, c, ns, lo, top, scan, seen, lacking);
    var missing := Lacking(ns, i.nums);
    LackingAscends(ns, i.nums);
    AscendingDistinct(missing);
    DistinctSameSize(lacking, missing);
    forall a | 0 <= a < |seen| ensures PointsTo(s.cached, i.nums, scan.media[a], seen[a]) {
      assert seen[a] in seen;
    }
    PointersLead(stream, cfg, s, i, scan.media, seen);
    if |missing| == 1 {
      assert lacking[0] in lacking;
      assert lacking[0] == missing[0];
    }
  }

  /** Recovery is attempted exactly when one member lacks and the ideal decoder may start. */
  lemma TurnAttempts(stream: Stream, cfg: D.Config, s: D.DecoderState, i: Ideal, ns: seq<int>, lo: int, top: int,
                     scan: D.Scan, seen: seq<int>) returns (m: int)
    requires Shape(stream, cfg, s, i) && Context(s, i, ns, lo, top)
    requires i.nums != [] && top == i.nums[|i.nums| - 1] && scan.verdict.Complete?
    requires InHand(stream, s, i, ns, top, scan, seen, Lacking(ns, i.nums))
    ensures D.Attempts(s, scan) ==> Lacking(ns, i.nums) == [m] && CanStart(i, m)
    ensures !D.Attempts(s, scan) ==> !Recovers(stream, i, top, ns)
  {
    var missing := Lacking(ns, i.nums);
    m := 0;
    if |missing| == 1 {
      m := missing[0];
      Singleton(missing);
      LackingMembers(ns, i.nums, m);
      AttemptCompared(s, i, ns, lo, top, m);
      assert s.cached[|s.cached| - 1].Seq() == Wrap(top);
    }
  }

  lemma AttemptCompared(s: D.DecoderState, i: Ideal, ns: seq<int>, lo: int, top: int, m: int)
    requires Context(s, i, ns, lo, top) && m in ns && !Released(i.last, m) && m <= top
    requires i.last.None? ==> s.lastOutput == 0
    ensures IsSeqBefore(Wrap(m), s.lastOutput) <==> !CanStart(i, m)
    ensures !IsSeqAfter(Wrap(top), Wrap(m))
  {
    if i.last.Some? {
      AfterBridge(m, i.last.value);
    }
    AfterBridge(top, m);
  }

  lemma InsertAtUpdate<T>(s: seq<T>, p: nat, x: T, k: nat, y: T)
    requires p <= |s| && k < |s|
    ensures var k' := if k < p then k else k + 1;
            InsertAt(s, p, x)[k' := y] == InsertAt(s[k := y], p, x)
  {
    var k' := if k < p then k else k + 1;
    var t, u := InsertAt(s, p, x)[k' := y], InsertAt(s[k := y], p, x);
    forall a | 0 <= a < |s| + 1 ensures t[a] == u[a] {
      InsertAtIndex(s, p, x, a);
      InsertAtIndex(s[k := y], p, x, a);
    }
  }

  lemma RetireRelated(stream: Stream, cfg: D.Config, s: D.DecoderState, i: Ideal, found: map<int, seq<int>>,
                      k: nat, m: int, r: D.CachedPacket, p: nat)
    requires |s.cached| == |i.nums| && k < |i.nums| && p <= |i.nums|
    requires Related(stream, cfg, s.(cached := InsertAt(s.cached, p, r), nextId := s.nextId + 1),
                     i.(nums := InsertAt(i.nums, p, m)), found)
    requires i.nums[k] in stream.groups
    requires forall x :: x in stream.groups[i.nums[k]].ns ==> x in i.nums || x == m
    ensures var retired := s.cached[k].(invalidFec := true);
            Related(stream, cfg, s.(cached := InsertAt(s.cached[k := retired], p, r), nextId := s.nextId + 1),
                    i.(nums := InsertAt(i.nums, p, m)), found[i.nums[k] := []])
  {
    var retired := s.cached[k].(invalidFec := true);
    var k' := if k < p then k else k + 1;
    var t := s.(cached := InsertAt(s.cached, p, r), nextId := s.nextId + 1);
    var j := i.(nums := InsertAt(i.nums, p, m));
    InsertAtIndex(s.cached, p, r, k');
    InsertAtIndex(i.nums, p, m, k');
    forall x | x in stream.groups[i.nums[k]].ns ensures x in j.nums {
      InsertAtMember(i.nums, p, m, x);
    }
    SpentRelated(stream, cfg, t, j, found, k', retired);
    InsertAtUpdate(s.cached, p, r, k, retired);
  }

  /** Inserting the recovered packet and retiring its FEC packet keeps the relation. */
  lemma InsertRelated(stream: Stream, cfg: D.Config, s: D.DecoderState, i: Ideal, found: map<int, seq<int>>,
                      k: nat, m: int, r: D.CachedPacket, u: D.DecoderState)
    requires Honest(stream, cfg) && Related(stream, cfg, s, i, found) && k < |s.cached|
    requires m in stream.sent && m !in i.nums && r == D.NewCached(cfg, s.nextId, stream.sent[m], stream.Image(m))
    requires i.nums[k] in stream.groups
    requires forall x :: x in stream.groups[i.nums[k]].ns ==> x in i.nums || x == m
    requires u == s.(cached := InsertAt(s.cached[k := s.cached[k].(invalidFec := true)], PlaceIndex(i.nums, m), r),
                     nextId := s.nextId + 1)
    ensures Related(stream, cfg, u, i.(nums := Place(i.nums, m)), found[m := []][i.nums[k] := []])
  {
    PlaceAt(i.nums, m);
    AddRelated(stream, cfg, s, i, found, r, m);
    RetireRelated(stream, cfg, s, i, found[m := []], k, m, r, PlaceIndex(i.nums, m));
  }

  /** The state a turn leaves, case by case. */
  lemma TurnState(s: D.DecoderState, cfg: D.Config, lastSeq: Seq16, k: nat)
    requires k < |s.cached| && !s.cached[k].invalidFec
    ensures var scan := D.ScanOf(s, lastSeq, s.cached[k]);
            var noted := D.Noted(s.cached[k], scan);
            var t := s.(cached := s.cached[k := noted]);
            var after := D.RecoverAt(s, cfg, lastSeq, k);
            if !D.Attempts(s, scan) || D.SomeDangling(s.cached, scan.media) then after == t
            else
              var r := D.FecRecovered(cfg, s.nextId, s.cached[k].buffer, scan.missing[0], D.MediaBuffers(s.cached, scan.media));
              && (r.None? ==> after == t)
              && (r.Some? && r.value.Seq() == scan.missing[0] && D.Places(t.cached, scan.missing[0]) ==>
                    after == t.(cached := D.Placed(s.cached[k := noted.(invalidFec := true)], r.value), nextId := s.nextId + 1))
  {
  }

  /** What a recovering turn yields. */
  lemma TurnYields(stream: Stream, cfg: D.Config, s: D.DecoderState, i: Ideal, found: map<int, seq<int>>,
                   lo: int, top: int, k: nat, scan: D.Scan, seen: seq<int>, m: int)
    requires Turn(stream, cfg, s, i, found, lo, top, k)
    requires i.nums[k] in stream.groups
    requires Lacking(stream.groups[i.nums[k]].ns, i.nums) == [m]
    requires InHand(stream, s, i, stream.groups[i.nums[k]].ns, top, scan, seen, [m])
    ensures m in stream.sent && m in stream.groups[i.nums[k]].ns && m !in i.nums
    ensures D.FecRecovered(cfg, s.nextId, s.cached[k].buffer, Wrap(m), D.MediaBuffers(s.cached, scan.media)) ==
            if stream.sent[m].payload.Some? then Some(D.NewCached(cfg, s.nextId, stream.sent[m], stream.Image(m))) else None
    ensures forall x :: x in stream.groups[i.nums[k]].ns ==> x in i.nums || x == m
    ensures stream.sent[m].seqNum == Wrap(m) && Near(lo, m)
  {
    var f := i.nums[k];
    var ns := stream.groups[f].ns;
    TurnGroup(stream, cfg, s, i, found, lo, top, k);
    LackingMembers(ns, i.nums, m);
    LackingOnly(ns, i.nums, m);
    GroupSplit(stream, ns, seen, m);
    RecoveryYields(stream, cfg, s.nextId, f, m, Images(stream, seen));
    assert HonestPacket(cfg, stream.sent[m], m);
  }

  /** Placing the recovered packet in the cache with its FEC packet retired. */
  lemma TurnPlaces(stream: Stream, cfg: D.Config, s: D.DecoderState, i: Ideal, lo: int,
                   k: nat, noted: D.CachedPacket, r: D.CachedPacket, m: int)
    requires Honest(stream, cfg) && Shape(stream, cfg, s, i) && (forall n :: n in i.nums ==> Near(lo, n))
    requires k < |s.cached| && noted.packet == s.cached[k].packet && Near(lo, m) && m !in i.nums && r.Seq() == Wrap(m)
    ensures D.Places(s.cached[k := noted], Wrap(m))
    ensures D.Placed(s.cached[k := noted], r) == InsertAt(s.cached[k := noted], PlaceIndex(i.nums, m), r)
  {
    RelatedCarries(stream, cfg, s, i, lo);
    RetiredCarries(s.cached, i.nums, lo, k, noted);
    PlacedAt(s.cached[k := noted], i.nums, lo, r, m);
  }

  lemma IdealTurn(stream: Stream, i: Ideal, top: int, f: int, m: int)
    requires f in stream.groups && m in stream.sent
    requires Usable(stream.groups[f].ns, i, top) && Lacking(stream.groups[f].ns, i.nums) == [m] && CanStart(i, m)
    ensures RecoverNumber(stream, i, top, f) ==
            if stream.sent[m].payload.Some? then i.(nums := Place(i.nums, m)) else i
  {
  }

  lemma RecoveredState(s: D.DecoderState, cfg: D.Config, lastSeq: Seq16, k: nat, scan: D.Scan, r: D.CachedPacket,
                       t: D.DecoderState, noted: D.CachedPacket)
    requires k < |s.cached| && !s.cached[k].invalidFec && scan == D.ScanOf(s, lastSeq, s.cached[k])
    requires D.Attempts(s, scan) && !D.SomeDangling(s.cached, scan.media) && scan.missing[0] == r.Seq()
    requires D.FecRecovered(cfg, s.nextId, s.cached[k].buffer, r.Seq(), D.MediaBuffers(s.cached, scan.media)) == Some(r)
    requires noted == D.Noted(s.cached[k], scan) && t == s.(cached := s.cached[k := noted])
    requires D.Places(t.cached, r.Seq())
    ensures D.RecoverAt(s, cfg, lastSeq, k) ==
            t.(cached := D.Placed(t.cached[k := noted.(invalidFec := true)], r), nextId := s.nextId + 1)
  {
    TurnState(s, cfg, lastSeq, k);
    UpdateTwice(s.cached, k, noted, noted.(invalidFec := true));
  }

  lemma UpdateTwice<T>(list: seq<T>, k: nat, x: T, y: T)
    requires k < |list|
    ensures list[k := x][k := y] == list[k := y]
  {
  }

  /** The state after a recovered packet is placed. */
  lemma PlacedState(stream: Stream, cfg: D.Config, s: D.DecoderState, i: Ideal, lo: int, lastSeq: Seq16, k: nat,
                    scan: D.Scan, r: D.CachedPacket, m: int, t: D.DecoderState, noted: D.CachedPacket)
    requires Honest(stream, cfg) && Shape(stream, cfg, s, i) && (forall n :: n in i.nums ==> Near(lo, n))
    requires Near(lo, m) && m !in i.nums && r.Seq() == Wrap(m)
    requires k < |s.cached| && !s.cached[k].invalidFec && scan == D.ScanOf(s, lastSeq, s.cached[k])
    requires D.Attempts(s, scan) && !D.SomeDangling(s.cached, scan.media) && scan.missing[0] == Wrap(m)
    requires D.FecRecovered(cfg, s.nextId, s.cached[k].buffer, Wrap(m), D.MediaBuffers(s.cached, scan.media)) == Some(r)
    requires noted == D.Noted(s.cached[k], scan) && t == s.(cached := s.cached[k := noted])
    ensures D.RecoverAt(s, cfg, lastSeq, k) ==
            t.(cached := InsertAt(t.cached[k := noted.(invalidFec := true)], PlaceIndex(i.nums, m), r), nextId := s.nextId + 1)
  {
    var retired := noted.(invalidFec := true);
    TurnPlaces(stream, cfg, s, i, lo, k, noted, r, m);
    TurnPlaces(stream, cfg, s, i, lo, k, retired, r, m);
    RecoveredState(s, cfg, lastSeq, k, scan, r, t, noted);
    UpdateTwice(s.cached, k, noted, retired);
  }

  /** What a recovering turn has in hand, and the state it leaves. */
  lemma TurnPlaced(stream: Stream, cfg: D.Config, s: D.DecoderState, i: Ideal, found: map<int, seq<int>>,
                   lo: int, top: int, k: nat, scan: D.Scan, seen: seq<int>, m: int, t: D.DecoderState, r: D.CachedPacket)
    requires Turn(stream, cfg, s, i, found, lo, top, k) && !s.cached[k].invalidFec
    requires i.nums[k] in stream.groups && scan == D.ScanOf(s, Wrap(top), s.cached[k])
    requires m in stream.groups[i.nums[k]].ns && m !in i.nums && r.Seq() == Wrap(m)
    requires InHand(stream, s, i, stream.groups[i.nums[k]].ns, top, scan, seen, [m])
    requires D.Attempts(s, scan) && t == s.(cached := s.cached[k := D.Noted(s.cached[k], scan)])
    requires D.FecRecovered(cfg, s.nextId, s.cached[k].buffer, Wrap(m), D.MediaBuffers(s.cached, scan.media)) == Some(r)
    ensures D.RecoverAt(s, cfg, Wrap(top), k) ==
            t.(cached := InsertAt(t.cached[k := t.cached[k].(invalidFec := true)], PlaceIndex(i.nums, m), r), nextId := s.nextId + 1)
  {
    TurnGroup(stream, cfg, s, i, found, lo, top, k);
    forall n | n in i.nums ensures Near(lo, n) {
      assert InPlay(stream, cfg, n, lo);
    }
    PlacedState(stream, cfg, s, i, lo, Wrap(top), k, scan, r, m, t, D.Noted(s.cached[k], scan));
  }

  /** A turn that recovers. */
  lemma TurnRecovers(stream: Stream, cfg: D.Config, s: D.DecoderState, i: Ideal, found: map<int, seq<int>>,
                     lo: int, top: int, k: nat, scan: D.Scan, seen: seq<int>, m: int, t: D.DecoderState)
    requires Turn(stream, cfg, s, i, found, lo, top, k) && !s.cached[k].invalidFec
    requires i.nums[k] in stream.groups && scan == D.ScanOf(s, Wrap(top), s.cached[k])
    requires Lacking(stream.groups[i.nums[k]].ns, i.nums) == [m] && m in stream.sent && stream.sent[m].payload.Some?
    requires InHand(stream, s, i, stream.groups[i.nums[k]].ns, top, scan, seen, [m])
    requires D.Attempts(s, scan) && t == s.(cached := s.cached[k := D.Noted(s.cached[k], scan)])
    requires Related(stream, cfg, t, i, found[i.nums[k] := seen])
    ensures Related(stream, cfg, D.RecoverAt(s, cfg, Wrap(top), k), i.(nums := Place(i.nums, m)),
                    found[i.nums[k] := seen][m := []][i.nums[k] := []])
  {
    TurnYields(stream, cfg, s, i, found, lo, top, k, scan, seen, m);
    var r := D.NewCached(cfg, s.nextId, stream.sent[m], stream.Image(m));
    TurnPlaced(stream, cfg, s, i, found, lo, top, k, scan, seen, m, t, r);
    InsertRelated(stream, cfg, t, i, found[i.nums[k] := seen], k, m, r, D.RecoverAt(s, cfg, Wrap(top), k));
  }

  lemma LackingOnly(ns: seq<int>, nums: seq<int>, m: int)
    requires |Lacking(ns, nums)| == 1 && Lacking(ns, nums)[0] == m
    ensures forall x :: x in ns ==> x in nums || x == m
  {
    forall x | x in ns && x !in nums ensures x == m {
      LackingMembers(ns, nums, x);
    }
  }

  lemma RetiredCarries(cached: seq<D.CachedPacket>, nums: seq<int>, lo: int, k: nat, c: D.CachedPacket)
    requires Carrying(cached, nums, lo) && k < |cached| && c.packet == cached[k].packet
    ensures Carrying(cached[k := c], nums, lo)
  {
  }

  /** A turn that attempts a recovery. */
  lemma AttemptTurn(stream: Stream, cfg: D.Config, s: D.DecoderState, i: Ideal, found: map<int, seq<int>>,
                    lo: int, top: int, k: nat, scan: D.Scan, seen: seq<int>, m: int)
    returns (found': map<int, seq<int>>)
    requires Turn(stream, cfg, s, i, found, lo, top, k) && !s.cached[k].invalidFec
    requires i.nums[k] in stream.groups && scan == D.ScanOf(s, Wrap(top), s.cached[k])
    requires Lacking(stream.groups[i.nums[k]].ns, i.nums) == [m] && CanStart(i, m)
    requires InHand(stream, s, i, stream.groups[i.nums[k]].ns, top, scan, seen, [m])
    requires D.Attempts(s, scan)
    requires Related(stream, cfg, s.(cached := s.cached[k := D.Noted(s.cached[k], scan)]), i, found[i.nums[k] := seen])
    ensures Related(stream, cfg, D.RecoverAt(s, cfg, Wrap(top), k), RecoverNumber(stream, i, top, i.nums[k]), found')
  {
    var f := i.nums[k];
    found' := found[f := seen];
    TurnYields(stream, cfg, s, i, found, lo, top, k, scan, seen, m);
    IdealTurn(stream, i, top, f, m);
    if stream.sent[m].payload.Some? {
      TurnRecovers(stream, cfg, s, i, found, lo, top, k, scan, seen, m, s.(cached := s.cached[k := D.Noted(s.cached[k], scan)]));
      found' := found[f := seen][m := []][f := []];
    } else {
      TurnState(s, cfg, Wrap(top), k);
    }
  }

  /** The marks a complete scan leaves, and whether it goes on to recover. */
  lemma CompleteLiveTurn(stream: Stream, cfg: D.Config, s: D.DecoderState, i: Ideal, found: map<int, seq<int>>,
                         lo: int, top: int, k: nat, scan: D.Scan, seen: seq<int>, lacking: seq<int>)
    returns (m: int)
    requires Turn(stream, cfg, s, i, found, lo, top, k) && !s.cached[k].invalidFec
    requires i.nums[k] in stream.groups && scan.verdict.Complete?
    requires Outcome(s, i, s.cached[k], stream.groups[i.nums[k]].ns, top, scan, seen, lacking)
    ensures InHand(stream, s, i, stream.groups[i.nums[k]].ns, top, scan, seen, Lacking(stream.groups[i.nums[k]].ns, i.nums))
    ensures D.Attempts(s, scan) ==> Lacking(stream.groups[i.nums[k]].ns, i.nums) == [m] && CanStart(i, m)
    ensures !D.Attempts(s, scan) ==> !Recovers(stream, i, top, stream.groups[i.nums[k]].ns)
  {
    var ns := stream.groups[i.nums[k]].ns;
    TurnGroup(stream, cfg, s, i, found, lo, top, k);
    CompleteTurn(stream, cfg, s, i, ns, lo, top, s.cached[k], scan, seen, lacking);
    m := TurnAttempts(stream, cfg, s, i, ns, lo, top, scan, seen);
  }

  lemma UnusableRecoversNothing(stream: Stream, s: D.DecoderState, i: Ideal, c: D.CachedPacket, ns: seq<int>, top: int,
                                scan: D.Scan, seen: seq<int>, lacking: seq<int>)
    requires |s.cached| == |i.nums| && !scan.verdict.Complete? && Outcome(s, i, c, ns, top, scan, seen, lacking)
    ensures !Recovers(stream, i, top, ns)
  {
  }

  /** A live FEC packet's turn. */
  lemma LiveTurn(stream: Stream, cfg: D.Config, s: D.DecoderState, i: Ideal, found: map<int, seq<int>>,
                 lo: int, top: int, k: nat, scan: D.Scan, seen: seq<int>, lacking: seq<int>)
    returns (found': map<int, seq<int>>)
    requires Turn(stream, cfg, s, i, found, lo, top, k) && !s.cached[k].invalidFec
    requires i.nums[k] in stream.groups && scan == D.ScanOf(s, Wrap(top), s.cached[k])
    requires Outcome(s, i, s.cached[k], stream.groups[i.nums[k]].ns, top, scan, seen, lacking)
    ensures Related(stream, cfg, D.RecoverAt(s, cfg, Wrap(top), k), RecoverNumber(stream, i, top, i.nums[k]), found')
    ensures D.Attempts(s, scan) ==> !D.SomeDangling(s.cached, scan.media)
  {
    NotedRelated(stream, cfg, s, i, found, lo, top, k, scan, seen, lacking);
    found' := found[i.nums[k] := seen];
    var m := 0;
    if scan.verdict.Complete? {
      m := CompleteLiveTurn(stream, cfg, s, i, found, lo, top, k, scan, seen, lacking);
    } else {
      UnusableRecoversNothing(stream, s, i, s.cached[k], stream.groups[i.nums[k]].ns, top, scan, seen, lacking);
    }
    if D.Attempts(s, scan) {
      found' := AttemptTurn(stream, cfg, s, i, found, lo, top, k, scan, seen, m);
    } else {
      TurnState(s, cfg, Wrap(top), k);
    }
  }

  /** One FEC packet's turn does what the ideal decoder does with its group; when it
      attempts a recovery no stored pointer dangles. */
  lemma TurnRefines(stream: Stream, cfg: D.Config, s: D.DecoderState, i: Ideal, found: map<int, seq<int>>,
                    lo: int, top: int, k: nat) returns (found': map<int, seq<int>>)
    requires Turn(stream, cfg, s, i, found, lo, top, k)
    ensures Related(stream, cfg, D.RecoverAt(s, cfg, Wrap(top), k), RecoverNumber(stream, i, top, i.nums[k]), found')
    ensures !s.cached[k].invalidFec && D.Attempts(s, D.ScanOf(s, Wrap(top), s.cached[k])) ==>
              !D.SomeDangling(s.cached, D.ScanOf(s, Wrap(top), s.cached[k]).media)
  {
    TurnGroup(stream, cfg, s, i, found, lo, top, k);
    if s.cached[k].invalidFec {
      found' := found;
      SpentRecoversNothing(stream, i, top, stream.groups[i.nums[k]].ns);
    } else {
      var seen, lacking := TurnScan(stream, cfg, s, i, found, lo, top, k);
      found' := LiveTurn(stream, cfg, s, i, found, lo, top, k, D.ScanOf(s, Wrap(top), s.cached[k]), seen, lacking);
    }
  }

  lemma SpentRecoversNothing(stream: Stream, i: Ideal, top: int, ns: seq<int>)
    requires Spent(ns, i)
    ensures !Recovers(stream, i, top, ns)
  {
    var missing := Lacking(ns, i.nums);
    if |missing| == 1 {
      LackingMembers(ns, i.nums, missing[0]);
    }
  }
}