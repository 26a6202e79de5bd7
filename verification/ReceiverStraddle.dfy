/** When the loss list is wrong. A gap that straddles 65535/0 makes the gap filler skip
    number 0, and one that ends at 0 makes it list 65535 twice. */
module ReceiverStraddle {
  import opened SeqComparison
  import opened RtpPackets
  import opened SeqLemmas
  import opened ReceiverIdeal
  import opened ReceiverLosses
  import opened ReceiverRuns
  import C = ReceiverCache

  predicate Lists(losses: seq<C.LossSeq>, v: Seq16) {
    exists k :: 0 <= k < |losses| && losses[k].seqNum == v
  }

  predicate ListsTwice(losses: seq<C.LossSeq>, v: Seq16) {
    exists a, b :: 0 <= a < b < |losses| && losses[a].seqNum == v && losses[b].seqNum == v
  }

  lemma ListsCons(x: C.LossSeq, losses: seq<C.LossSeq>, v: Seq16)
    ensures Lists([x] + losses, v) <==> x.seqNum == v || Lists(losses, v)
    ensures ListsTwice(losses, v) || (x.seqNum == v && Lists(losses, v)) ==> ListsTwice([x] + losses, v)
  {
    var r := [x] + losses;
    if x.seqNum == v { assert r[0].seqNum == v; }
    if k :| 0 <= k < |losses| && losses[k].seqNum == v { assert r[k + 1].seqNum == v; }
    if k :| 0 <= k < |r| && r[k].seqNum == v { assert k > 0 ==> losses[k - 1].seqNum == v; }
    if a, b :| 0 <= a < b < |losses| && losses[a].seqNum == v && losses[b].seqNum == v {
      assert r[a + 1].seqNum == v && r[b + 1].seqNum == v;
    }
  }

  // ---------- number 0 ----------

  lemma {:induction false} DownAbove(from: int, to: int)
    requires from <= MAX_SEQ && 0 <= to
    ensures forall k :: 0 <= k < |C.Down(from, to)| ==> to < C.Down(from, to)[k]
    decreases from - to
  {
    if from > to {
      DownAbove(from - 1, to);
    }
  }

  lemma GapAbove(last: Seq16, this_: Seq16)
    ensures 0 !in C.GapTo(last, this_)
  {
    var from: int := last;
    DownAbove(from - 1, this_);
    DownAbove(Wrap(from - 1), 0);
    DownAbove(MAX_SEQ, this_);
  }

  lemma {:induction false} MergedFrom(losses: seq<C.LossSeq>, gaps: seq<Seq16>, v: Seq16)
    ensures Lists(C.Merged(losses, gaps), v) <==> Lists(losses, v) || v in gaps
    decreases |losses| + |gaps|
  {
    if gaps != [] {
      assert gaps == [gaps[0]] + gaps[1..];
      if losses != [] {
        assert losses == [losses[0]] + losses[1..];
        ListsCons(losses[0], losses[1..], v);
      }
      if losses == [] {
        MergedFrom([], gaps[1..], v);
        ListsCons(C.Fresh(gaps[0]), C.Merged([], gaps[1..]), v);
      } else if gaps[0] == losses[0].seqNum {
        MergedFrom(losses, gaps[1..], v);
      } else if !IsSeqBefore(gaps[0], losses[0].seqNum) {
        MergedFrom(losses, gaps[1..], v);
        ListsCons(C.Fresh(gaps[0]), C.Merged(losses, gaps[1..]), v);
      } else {
        MergedFrom(losses[1..], gaps, v);
        ListsCons(losses[0], C.Merged(losses[1..], gaps), v);
      }
    }
  }

  lemma {:induction false} PrunedFrom(losses: seq<C.LossSeq>, latest: Seq16, v: Seq16)
    ensures Lists(C.Pruned(losses, latest), v) ==> Lists(losses, v)
    ensures IsSeqBefore(latest, v) && ListsTwice(losses, v) ==> ListsTwice(C.Pruned(losses, latest), v)
    ensures IsSeqBefore(latest, v) && Lists(losses, v) ==> Lists(C.Pruned(losses, latest), v)
  {
    if losses != [] {
      var rest := losses[1..];
      assert losses == [losses[0]] + rest;
      PrunedFrom(rest, latest, v);
      ListsCons(losses[0], rest, v);
      TwiceSplit(losses[0], rest, v);
      EmptyLeft(C.Pruned(rest, latest));
      ListsCons(losses[0], C.Pruned(rest, latest), v);
    }
  }

  lemma TwiceSplit(x: C.LossSeq, losses: seq<C.LossSeq>, v: Seq16)
    ensures ListsTwice([x] + losses, v) ==> ListsTwice(losses, v) || (x.seqNum == v && Lists(losses, v))
  {
    var r := [x] + losses;
    if a, b :| 0 <= a < b < |r| && r[a].seqNum == v && r[b].seqNum == v {
      assert losses[b - 1].seqNum == v;
      assert a > 0 ==> losses[a - 1].seqNum == v;
    }
  }

  // ---------- 65535 twice ----------

  /** `v` is visited, then the number below it, and later `v` again. */
  ghost predicate Revisits(gaps: seq<Seq16>, v: Seq16) {
    exists p, q :: 0 <= p && p + 1 < q < |gaps| && gaps[p] == v && gaps[p + 1] == v - 1 && gaps[q] == v
  }

  lemma RevisitsWithin(pre: seq<Seq16>, mid: seq<Seq16>, post: seq<Seq16>, v: Seq16)
    requires Revisits(mid, v)
    ensures Revisits(pre + mid + post, v)
  {
    var p, q :| 0 <= p && p + 1 < q < |mid| && mid[p] == v && mid[p + 1] == v - 1 && mid[q] == v;
    var all := pre + mid + post;
    var d := |pre|;
    assert all[d + p] == v && all[d + p + 1] == v - 1 && all[d + q] == v;
  }

  /** The second visit finds the insert position past the first and inserts again. */
  lemma {:induction false} RevisitLists(losses: seq<C.LossSeq>, gaps: seq<Seq16>, v: Seq16)
    requires v > 0 && |gaps| >= 2 && gaps[0] == v && gaps[1] == v - 1 && v in gaps[2..]
    ensures ListsTwice(C.Merged(losses, gaps), v)
    decreases |losses|
  {
    var more := gaps[1..];
    assert more[1..] == gaps[2..] && v in more;
    MergedFrom(losses, more, v);
    if losses == [] {
      ListsCons(C.Fresh(v), C.Merged([], more), v);
    } else if losses[0].seqNum == v {
      MergedFrom(losses[1..], more, v);
      ListsCons(losses[0], C.Merged(losses[1..], more), v);
      assert C.Merged(losses, gaps) == C.Merged(losses, more) == [losses[0]] + C.Merged(losses[1..], more);
    } else if !IsSeqBefore(v, losses[0].seqNum) {
      ListsCons(C.Fresh(v), C.Merged(losses, more), v);
    } else {
      RevisitLists(losses[1..], gaps, v);
      ListsCons(losses[0], C.Merged(losses[1..], gaps), v);
    }
  }

  lemma {:induction false} MergedTwice(losses: seq<C.LossSeq>, gaps: seq<Seq16>, v: Seq16, p: nat, q: nat)
    requires p + 1 < q < |gaps| && gaps[p] == v && gaps[p + 1] == v - 1 && gaps[q] == v && v > 0
    ensures ListsTwice(C.Merged(losses, gaps), v)
    decreases |losses| + |gaps|
  {
    if p == 0 {
      assert gaps[2..][q - 2] == v;
      RevisitLists(losses, gaps, v);
    } else {
      var more := gaps[1..];
      if losses == [] {
        MergedTwice([], more, v, p - 1, q - 1);
        ListsCons(C.Fresh(gaps[0]), C.Merged([], more), v);
      } else if gaps[0] == losses[0].seqNum {
        MergedTwice(losses, more, v, p - 1, q - 1);
      } else if !IsSeqBefore(gaps[0], losses[0].seqNum) {
        MergedTwice(losses, more, v, p - 1, q - 1);
        ListsCons(C.Fresh(gaps[0]), C.Merged(losses, more), v);
      } else {
        MergedTwice(losses[1..], gaps, v, p, q);
        ListsCons(losses[0], C.Merged(losses[1..], gaps), v);
      }
    }
  }

  /** Filling down from a mark numbered 0 visits the whole space first. */
  lemma ZeroMarkRevisits(this_: Seq16)
    requires this_ < MAX_SEQ && !IsNextSeq(this_, 0)
    ensures Revisits(C.GapTo(0, this_), MAX_SEQ)
  {
    var a, b := C.Down(MAX_SEQ, 0), C.Down(MAX_SEQ, this_);
    assert a == [MAX_SEQ] + ([MAX_SEQ - 1] + C.Down(MAX_SEQ - 2, 0));
    assert b[0] == MAX_SEQ;
    var gaps := a + b;
    assert gaps[0] == MAX_SEQ && gaps[1] == MAX_SEQ - 1 && gaps[|a|] == MAX_SEQ;
    assert C.GapTo(0, this_) == gaps;
  }

  lemma {:induction false} GapAt(marks: seq<Seq16>, k: nat) returns (pre: seq<Seq16>, post: seq<Seq16>)
    requires k + 1 < |marks|
    ensures SeqGaps(marks) == pre + C.GapTo(marks[k], marks[k + 1]) + post
  {
    if k == 0 {
      pre, post := [], SeqGaps(marks[1..]);
      EmptyLeft(C.GapTo(marks[0], marks[1]));
    } else {
      var before, after := GapAt(marks[1..], k - 1);
      var first, gap := C.GapTo(marks[0], marks[1]), C.GapTo(marks[k], marks[k + 1]);
      pre, post := first + before, after;
      Assoc(first, before + gap, after);
      Assoc(first, before, gap);
    }
  }

  // ---------- the exact condition ----------

  lemma FoundNumber(lost: seq<Lost>, n: int)
    ensures Find(lost, n).n == n
  {
    if lost != [] && lost[0].n != n {
      FoundNumber(lost[1..], n);
    }
  }

  /** The ideal list names each missing number. */
  lemma RelistedLists(ns: seq<int>, lost: seq<Lost>, k: nat)
    requires k < |ns|
    ensures LossesOf(Relisted(ns, lost))[k].seqNum == Wrap(ns[k])
  {
    LossAt(Relisted(ns, lost), k);
    FoundNumber(lost, ns[k]);
  }

  /** The list names exactly these numbers, in this order. */
  predicate ListsNumbers(losses: seq<C.LossSeq>, ns: seq<int>) {
    |losses| == |ns| && forall k :: 0 <= k < |ns| ==> losses[k].seqNum == Wrap(ns[k])
  }

  lemma RelistedNumbered(ns: seq<int>, lost: seq<Lost>)
    ensures ListsNumbers(LossesOf(Relisted(ns, lost)), ns)
  {
    hide LossesOf, Relisted, Wrap;
    forall k | 0 <= k < |ns| ensures LossesOf(Relisted(ns, lost))[k].seqNum == Wrap(ns[k]) {
      RelistedLists(ns, lost, k);
    }
  }

  /** Numbers of half the space are listed once each. */
  lemma NumbersOnce(losses: seq<C.LossSeq>, ns: seq<int>, v: Seq16, base: int)
    requires ListsNumbers(losses, ns)
    requires Descending(ns) && forall k :: 0 <= k < |ns| ==> base < ns[k] <= base + HALF_RANGE
    ensures !ListsTwice(losses, v)
  {
    forall a, b | 0 <= a < b < |losses| ensures losses[a].seqNum != losses[b].seqNum {
      WrapInjective(ns[a], ns[b]);
    }
  }

  /** What a sweep that visited a gap ending at number 0 leaves. */
  lemma TopRepeats(erased: seq<C.LossSeq>, gaps: seq<Seq16>, pruned: bool, latest: Seq16)
    requires Revisits(gaps, MAX_SEQ) && (pruned ==> IsSeqBefore(latest, MAX_SEQ))
    ensures ListsTwice(if pruned then C.Pruned(C.Merged(erased, gaps), latest) else C.Merged(erased, gaps), MAX_SEQ)
  {
    var p, q :| 0 <= p && p + 1 < q < |gaps| && gaps[p] == MAX_SEQ && gaps[p + 1] == MAX_SEQ - 1 && gaps[q] == MAX_SEQ;
    MergedTwice(erased, gaps, MAX_SEQ, p, q);
    PrunedFrom(C.Merged(erased, gaps), latest, MAX_SEQ);
  }

  /** The visited numbers of a state and the marks they come from. */
  lemma VisitedFromMarks(s: C.CacheState, j: Ideal, cached: seq<C.CachedPacket>)
    requires Valid(j) && j.held != [] && cached == CachedOf(j.held)
    requires s.hasCallback == j.last.Some? && (j.last.Some? ==> s.latestCallback == Wrap(j.last.value))
    ensures C.AllGaps(s.(cached := cached)) == SeqGaps(WrapAll(Marks(j)))
  {
    CachedAt(j.held, |j.held| - 1);
    AllGapsOfMarks(j.held, if j.last.Some? then [j.last.value] else []);
  }

  /** A straddling gap between marks `k` and `k + 1`. */
  predicate StraddlesAt(marks: seq<int>, k: nat) {
    k + 1 < |marks| && marks[k] != marks[k + 1] + 1 && Wrap(marks[k + 1]) >= Wrap(marks[k])
  }

  /** The multiple of 65536 a straddling gap contains. */
  lemma StraddledZero(marks: seq<int>, k: nat) returns (z: int)
    requires StraddlesAt(marks, k) && 0 < marks[k] - marks[k + 1] <= HALF_RANGE
    ensures marks[k + 1] < z <= marks[k] && Wrap(z) == 0 && z == marks[k] - Wrap(marks[k])
  {
    z := marks[k] - Wrap(marks[k]);
    OriginAligned(marks[k]);
    WrapDistance(marks[k + 1], marks[k]);
  }

  lemma MarkSpan(marks: seq<int>, k: nat)
    requires Descending(marks) && k + 1 < |marks| && marks[0] - marks[|marks| - 1] <= HALF_RANGE
    ensures 0 < marks[k] - marks[k + 1] <= HALF_RANGE
    ensures forall m :: marks[k + 1] < m < marks[k] ==> m in Missing(marks)
  {
    assert marks[0] >= marks[k] && marks[k + 1] >= marks[|marks| - 1];
    forall m | marks[k + 1] < m < marks[k] ensures m in Missing(marks) {
      MissingExactly(marks, m);
      forall a | 0 <= a < |marks| ensures marks[a] != m {
        assert a <= k ==> marks[a] >= marks[k];
        assert a > k ==> marks[a] <= marks[k + 1];
      }
    }
  }

  /** A gap whose newer end carries number 0 makes the filler visit 65535 twice. */
  lemma ZeroEndRevisits(marks: seq<int>, k: nat)
    requires k + 1 < |marks| && 1 < marks[k] - marks[k + 1] <= HALF_RANGE && Wrap(marks[k]) == 0
    ensures Revisits(SeqGaps(WrapAll(marks)), MAX_SEQ)
  {
    WrapAllAt(marks, k);
    WrapAllAt(marks, k + 1);
    var pre, post := GapAt(WrapAll(marks), k);
    NextBridge(marks[k + 1], marks[k]);
    WrapDistance(marks[k + 1], marks[k]);
    ZeroMarkRevisits(Wrap(marks[k + 1]));
    RevisitsWithin(pre, C.GapTo(0, Wrap(marks[k + 1])), post, MAX_SEQ);
  }

  lemma TopAfterBase(marks: seq<int>, k: nat, z: int, base: int)
    requires Descending(marks) && k + 1 < |marks| && marks[0] - marks[|marks| - 1] <= HALF_RANGE
    requires z == marks[k] && Wrap(z) == 0 && marks[k] != marks[k + 1] + 1 && base == marks[|marks| - 1]
    ensures IsSeqBefore(Wrap(base), MAX_SEQ)
  {
    hide Wrap;
    assert base <= marks[k + 1] < marks[k] <= marks[0];
    AfterBridge(base, z - 1);
    BeforeZero(z);
  }

  lemma BeforeZero(z: int)
    requires Wrap(z) == 0
    ensures Wrap(z - 1) == MAX_SEQ
  {
  }

  lemma GapsAbove(j: Ideal, base: int)
    requires Valid(j) && j.started && Marks(j) != [] && base == Marks(j)[|Marks(j)| - 1]
    ensures Descending(Gaps(j)) && forall k :: 0 <= k < |Gaps(j)| ==> base < Gaps(j)[k] <= base + HALF_RANGE
    ensures var ns := Missing(Marks(j)); Descending(ns) && forall k :: 0 <= k < |ns| ==> base < ns[k] <= base + HALF_RANGE
  {
    hide Gaps, Missing;
    MarksDescend(j);
    GapsDescend(j);
    var ns, gaps := Missing(Marks(j)), Gaps(j);
    MissingDescends(Marks(j));
    forall k | 0 <= k < |ns| ensures base < ns[k] <= base + HALF_RANGE {
      MissingExactly(Marks(j), ns[k]);
      assert ns[k] in ns;
    }
    forall k | 0 <= k < |gaps| ensures base < gaps[k] <= base + HALF_RANGE {
      GapBounds(j, gaps[k], base);
    }
  }

  lemma {:induction false} ErasedLists(losses: seq<C.LossSeq>, n: Seq16, v: Seq16)
    ensures Lists(C.EraseLoss(losses, n), v) ==> Lists(losses, v)
  {
    if losses != [] {
      assert losses == [losses[0]] + losses[1..];
      ListsCons(losses[0], losses[1..], v);
      ErasedLists(losses[1..], n, v);
      ListsCons(losses[0], C.EraseLoss(losses[1..], n), v);
    }
  }

  /** A gap that ends at a number 0, between marks `k` and `k + 1`. */
  predicate ZeroEndAt(marks: seq<int>, k: nat) {
    k + 1 < |marks| && marks[k] != marks[k + 1] + 1 && Wrap(marks[k]) == 0
  }

  lemma ZeroEndRepeats(j: Ideal, k: nat, erased: seq<C.LossSeq>, base: int)
    requires Valid(j) && ZeroEndAt(Marks(j), k) && base == Marks(j)[|Marks(j)| - 1]
    ensures var merged := C.Merged(erased, SeqGaps(WrapAll(Marks(j))));
            ListsTwice(if j.last.Some? then C.Pruned(merged, Wrap(base)) else merged, MAX_SEQ)
  {
    var marks := Marks(j);
    MarksDescend(j);
    MarkSpan(marks, k);
    ZeroEndRevisits(marks, k);
    TopAfterBase(marks, k, marks[k], base);
    TopRepeats(erased, SeqGaps(WrapAll(marks)), j.last.Some?, Wrap(base));
  }

  /** A packet that leaves a gap ending at number 0 leaves 65535 listed twice. */
  lemma PutRepeats(s: C.CacheState, i: Ideal, n: int, packet: RtpPacket, timeoutMs: nat, k: nat)
    requires Valid(i) && Core(s, i) && InWindow(i, n) && packet.seqNum == Wrap(n) && !Late(i, n)
    requires ZeroEndAt(Marks(Inserted(i, n, packet, timeoutMs)), k)
    ensures ListsTwice(C.AfterPut(s, packet, timeoutMs).losses, MAX_SEQ)
  {
    var j := Inserted(i, n, packet, timeoutMs);
    RejectsLate(s, i, n);
    InsertedValid(i, n, packet, timeoutMs);
    WindowNear(i, n);
    InsertRefines(i.held, Held(n, packet, timeoutMs));
    MarksDescend(j);
    var cached := C.InsertCached(s.cached, C.CachedPacket(packet, timeoutMs));
    VisitedFromMarks(s, j, cached);
    AcceptedLosses(s, packet, timeoutMs);
    ZeroEndRepeats(j, k, C.EraseLoss(s.losses, packet.seqNum), Marks(j)[|Marks(j)| - 1]);
  }

  lemma FindZeroEnd(marks: seq<int>) returns (k: nat)
    requires !NoZeroEnd(marks)
    ensures ZeroEndAt(marks, k)
  {
    k :| 0 <= k && k + 1 < |marks| && !(marks[k] == marks[k + 1] + 1 || Wrap(marks[k]) != 0);
  }

  lemma FindStraddle(marks: seq<int>) returns (k: nat)
    requires !NoStraddle(marks)
    ensures StraddlesAt(marks, k)
  {
    k :| 0 <= k && k + 1 < |marks| && !(marks[k] == marks[k + 1] + 1 || Wrap(marks[k + 1]) < Wrap(marks[k]));
  }

  /** A gap that ends at number 0 straddles. */
  lemma ZeroEndStraddles(marks: seq<int>)
    requires NoStraddle(marks)
    ensures NoZeroEnd(marks)
  {
  }

  /** A missing number 0 lies in a straddling gap. */
  lemma {:induction false} MissingZeroStraddles(marks: seq<int>, z: int)
    requires Descending(marks) && z in Missing(marks) && Wrap(z) == 0
    requires marks[0] - marks[|marks| - 1] <= HALF_RANGE
    ensures !NoStraddle(marks)
  {
    var rest := marks[1..];
    assert forall k :: 0 <= k < |rest| ==> rest[k] == marks[k + 1];
    if z in Missing(rest) {
      MissingZeroStraddles(rest, z);
      var k := FindStraddle(rest);
      assert StraddlesAt(marks, k + 1);
    } else {
      DownIntMember(marks[0] - 1, marks[1], z);
      ZeroBetween(marks[0], marks[1], z);
      assert marks[0] != marks[0 + 1] + 1;
    }
  }

  lemma ZeroBetween(newer: int, older: int, z: int)
    requires older < z < newer && newer - older <= HALF_RANGE && Wrap(z) == 0
    ensures Wrap(older) > Wrap(newer)
  {
    WrapDistance(z, newer);
    WrapDistance(older, z);
  }

  /** Without a straddling gap everything missing is sought; with one that does not
      end at number 0, some missing number is not. */
  lemma SoughtExactly(marks: seq<int>)
    requires Descending(marks) && NoZeroEnd(marks) && marks != [] && marks[0] - marks[|marks| - 1] <= HALF_RANGE
    ensures NoStraddle(marks) <==> Sought(Missing(marks)) == Missing(marks)
  {
    SoughtAll(Missing(marks));
    if NoStraddle(marks) {
      forall m | m in Missing(marks) ensures Wrap(m) != 0 {
        if Wrap(m) == 0 {
          MissingZeroStraddles(marks, m);
        }
      }
    } else {
      var k := FindStraddle(marks);
      MarkSpan(marks, k);
      var z := StraddledZero(marks, k);
      assert z in Missing(marks);
    }
  }

  /** A list of sought numbers that names all missing ones seeks them all. */
  lemma SameNumbers(losses: seq<C.LossSeq>, ns: seq<int>)
    requires ListsNumbers(losses, Sought(ns))
    ensures ListsNumbers(losses, ns) <==> Sought(ns) == ns
  {
    if ListsNumbers(losses, ns) {
      SoughtAll(ns);
      forall m | m in ns ensures Wrap(m) != 0 {
        var k :| 0 <= k < |ns| && ns[k] == m;
        SoughtMembers(ns, Sought(ns)[k]);
        assert Sought(ns)[k] in Sought(ns);
      }
    }
  }

  lemma NotExact(j: Ideal, losses: seq<C.LossSeq>, ns: seq<int>, base: int)
    requires Valid(j) && j.started && Marks(j) != [] && base == Marks(j)[|Marks(j)| - 1]
    requires ListsTwice(losses, MAX_SEQ) && (ns == Gaps(j) || ns == Missing(Marks(j)))
    ensures !ListsNumbers(losses, ns)
  {
    GapsAbove(j, base);
    if ListsNumbers(losses, ns) {
      NumbersOnce(losses, ns, MAX_SEQ, base);
    }
  }

  /** The exact conditions. An accepted packet leaves exactly the missing numbers other
      than 0 listed, with what was known of them, if and only if no gap between
      neighbouring marks ends at number 0; and it leaves exactly the missing numbers
      listed if and only if no gap straddles 65535/0. */
  lemma PutLossesExactly(s: C.CacheState, i: Ideal, n: int, packet: RtpPacket, timeoutMs: nat, j: Ideal, losses: seq<C.LossSeq>)
    requires Valid(i) && Core(s, i) && s.losses == LossesOf(i.lost) && LossesExact(i)
    requires InWindow(i, n) && packet.seqNum == Wrap(n) && !Late(i, n)
    requires j == Inserted(i, n, packet, timeoutMs) && losses == C.AfterPut(s, packet, timeoutMs).losses
    ensures losses == LossesOf(Put(i, n, packet, timeoutMs).lost) <==> NoZeroEnd(Marks(j))
    ensures ListsNumbers(losses, Missing(Marks(j))) <==> NoStraddle(Marks(j))
  {
    hide LossesOf, Relisted, C.AfterPut, Missing, Sought, NoStraddle, NoZeroEnd;
    InsertedValid(i, n, packet, timeoutMs);
    MarksDescend(j);
    RelistedNumbered(Gaps(j), i.lost);
    if NoZeroEnd(Marks(j)) {
      PutLossesRefine(s, i, n, packet, timeoutMs);
      SameNumbers(losses, Missing(Marks(j)));
      SoughtExactly(Marks(j));
    } else {
      var k := FindZeroEnd(Marks(j));
      PutRepeats(s, i, n, packet, timeoutMs, k);
      NotExact(j, losses, Gaps(j), Marks(j)[|Marks(j)| - 1]);
      NotExact(j, losses, Missing(Marks(j)), Marks(j)[|Marks(j)| - 1]);
      if NoStraddle(Marks(j)) {
        ZeroEndStraddles(Marks(j));
      }
    }
  }

  // ---------- number 0 in whole runs ----------

  lemma {:induction false} CachedGapsAbove(cached: seq<C.CachedPacket>)
    ensures 0 !in C.CachedGaps(cached)
  {
    if |cached| >= 2 {
      GapAbove(cached[0].Seq(), cached[1].Seq());
      CachedGapsAbove(cached[1..]);
    }
  }

  lemma PutNeverLists(s: C.CacheState, packet: RtpPacket, timeoutMs: nat)
    requires !Lists(s.losses, 0)
    ensures !Lists(C.AfterPut(s, packet, timeoutMs).losses, 0)
  {
    if !C.Rejects(s, packet.seqNum) {
      var erased := C.EraseLoss(s.losses, packet.seqNum);
      var visited := s.(cached := C.InsertCached(s.cached, C.CachedPacket(packet, timeoutMs)));
      AcceptedLosses(s, packet, timeoutMs);
      ErasedLists(s.losses, packet.seqNum, 0);
      CachedGapsAbove(visited.cached);
      GapAbove(visited.cached[|visited.cached| - 1].Seq(), s.latestCallback);
      MergedFrom(erased, C.AllGaps(visited), 0);
      PrunedFrom(C.Merged(erased, C.AllGaps(visited)), s.latestCallback, 0);
    }
  }

  lemma {:induction false} NotedLists(losses: seq<C.LossSeq>, now: nat, v: Seq16)
    ensures Lists(C.AllNoted(losses, now), v) <==> Lists(losses, v)
  {
    if losses != [] {
      assert losses == [losses[0]] + losses[1..];
      NotedLists(losses[1..], now, v);
      ListsCons(losses[0], losses[1..], v);
      ListsCons(C.AllNoted(losses, now)[0], C.AllNoted(losses[1..], now), v);
    }
  }

  /** In no run whatever is number 0 ever listed as lost. */
  lemma {:induction false} ZeroNeverListed(events: seq<Event>)
    ensures !Lists(Run(events).state.losses, 0)
  {
    if events != [] {
      var before, e := events[..|events| - 1], events[|events| - 1];
      ZeroNeverListed(before);
      var s := Run(before).state;
      if e.Arrive? {
        PutNeverLists(s, e.packet, e.timeoutMs);
      } else if e.ReportAt? {
        NotedLists(s.losses, e.now, 0);
      }
    }
  }

  /** For example: 65534 and then 1 arrive, and of 65535 and 0 only 65535 is listed. */
  lemma StraddleExample(p: RtpPacket, q: RtpPacket, timeoutMs: nat)
    requires p.seqNum == 65534 && q.seqNum == 1
    ensures C.AfterPut(C.AfterPut(C.EMPTY, p, timeoutMs), q, timeoutMs).losses == [C.Fresh(65535)]
  {
    var s := C.AfterPut(C.EMPTY, p, timeoutMs);
    assert s.cached == [C.CachedPacket(p, timeoutMs)] && s.losses == [];
    var cached := C.InsertCached(s.cached, C.CachedPacket(q, timeoutMs));
    assert cached == [C.CachedPacket(q, timeoutMs), C.CachedPacket(p, timeoutMs)];
    assert C.GapTo(1, 65534) == [65535];
    assert cached[1..] == [C.CachedPacket(p, timeoutMs)];
    assert C.CachedGaps(cached) == [65535] + [];
    assert C.Merged([], [65535]) == [C.Fresh(65535)];
  }
}
