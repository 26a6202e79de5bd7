/** The loss requests the program makes: their discipline, and exactly which runs keep it. */
module ReceiverRequests {
  import opened SeqComparison
  import opened RtpPackets
  import opened SeqLemmas
  import opened ReceiverIdeal
  import opened ReceiverLosses
  import opened ReceiverRuns
  import opened ReceiverStraddle
  import opened ReceiverTheorems
  import C = ReceiverCache

  // ---------- one report ----------

  /** The numbers a report asks for, on a clean run. */
  function Reported(events: seq<Event>, now: nat): seq<int> {
    Wanted(IdealRun(events).state.lost, now)
  }

  predicate Distinct(list: seq<Seq16>) {
    forall a, b :: 0 <= a < b < |list| ==> list[a] != list[b]
  }

  /** The list a report sends names lost numbers that increase strictly within half the
      number space, so no number is on it twice. */
  lemma ReportIncreases(events: seq<Event>, now: nat)
    requires Clean(events)
    ensures C.Requests(Run(events).state.losses, now) == WrapAll(Reported(events, now))
    ensures Ascending(Reported(events, now))
    ensures forall m :: m in Reported(events, now) ==> m in LostNumbers(IdealRun(events).state.lost)
    ensures forall m, n :: m in Reported(events, now) && n in Reported(events, now) ==> m - n < HALF_RANGE
    ensures Distinct(C.Requests(Run(events).state.losses, now))
  {
    var i := IdealRun(events).state;
    CleanIsAdmissible(events);
    CleanRunRefines(events);
    RunRefines(events);
    ReportRefines(Run(events).state, i, now);
    WantedIncreases(i.lost, now);
    var ns := Reported(events, now);
    forall m | m in ns ensures m in LostNumbers(i.lost) && i.top - HALF_RANGE <= m < i.top {
      var k :| 0 <= k < |i.lost| && i.lost[k].n == m;
      assert LostNumbers(i.lost)[k] == m;
    }
    AscendingDistinct(ns, i.top);
  }

  lemma AscendingDistinct(ns: seq<int>, top: int)
    requires Ascending(ns) && forall m :: m in ns ==> top - HALF_RANGE <= m < top
    ensures Distinct(WrapAll(ns))
  {
    forall a, b | 0 <= a < b < |ns| ensures WrapAll(ns)[a] != WrapAll(ns)[b] {
      WrapAllAt(ns, a);
      WrapAllAt(ns, b);
      assert ns[a] in ns && ns[b] in ns;
      WrapInjective(ns[a], ns[b]);
    }
  }

  // ---------- whole runs ----------

  /** What each request of a run stands for. */
  predicate StandFor(requests: seq<Request>, asked: seq<Asked>) {
    && |requests| == |asked|
    && forall a :: 0 <= a < |asked| ==> requests[a] == Request(Wrap(asked[a].n), asked[a].at)
  }

  lemma RequestsStand(events: seq<Event>)
    requires Clean(events)
    ensures StandFor(Run(events).requests, IdealRun(events).asked)
  {
    CleanRunRefines(events);
  }

  /** Every accepted number lies in the one cycle from `lo` on. */
  ghost predicate OneCycle(events: seq<Event>, lo: int) {
    forall k :: 0 <= k < |events| && Accepted(events, k) ==> lo <= events[k].n < lo + SEQ_SPACE
  }

  predicate Above(i: Ideal, lo: int) {
    && (forall k :: 0 <= k < |i.held| ==> lo <= i.held[k].n)
    && (i.last.Some? ==> lo <= i.last.value)
    && (forall m :: m in LostNumbers(i.lost) ==> lo <= m)
    && (i.started ==> i.top < lo + SEQ_SPACE)
  }

  lemma PutAbove(i: Ideal, n: int, packet: RtpPacket, timeoutMs: nat, lo: int)
    requires Valid(i) && InWindow(i, n) && packet.seqNum == Wrap(n) && !Late(i, n)
    requires Above(i, lo) && lo <= n < lo + SEQ_SPACE
    ensures Above(Put(i, n, packet, timeoutMs), lo)
  {
    var h := Held(n, packet, timeoutMs);
    var j := Put(i, n, packet, timeoutMs);
    PutExact(i, n, packet, timeoutMs);
    InsertMembers(i.held, h);
    forall k | 0 <= k < |j.held| ensures lo <= j.held[k].n {
      assert j.held[k] in j.held;
    }
    forall m | m in LostNumbers(j.lost) ensures lo <= m {
      assert IsSought(j, m);
    }
  }

  lemma StepAbove(u: IdealTrace, e: Event, lo: int)
    requires Good(u.state) && StepAdmissible(u.state, e) && Above(u.state, lo)
    requires e.Arrive? && !Late(u.state, e.n) ==> lo <= e.n < lo + SEQ_SPACE
    ensures Above(IdealStep(u, e).state, lo)
    ensures forall a :: |u.asked| <= a < |IdealStep(u, e).asked| ==> lo <= IdealStep(u, e).asked[a].n < lo + SEQ_SPACE
  {
    hide Above, Wanted, Inserted, Relisted, Gaps, Collect, LossesExact, EverKnown;
    match e
    case Arrive(n, packet, timeoutMs) =>
      if !Late(u.state, n) {
        PutAbove(u.state, n, packet, timeoutMs, lo);
      }
    case CollectAt(now) =>
      CollectAbove(u.state, now, lo);
    case ReportAt(now) =>
      ReportAbove(u, now, lo);
      AskedNumbers(Wanted(u.state.lost, now), now, lo);
  }

  lemma CollectAbove(i: Ideal, now: nat, lo: int)
    requires Above(i, lo)
    ensures Above(Collect(i, now), lo)
  {
    hide LostNumbers;
  }

  lemma AskedNumbers(ns: seq<int>, now: nat, lo: int)
    requires forall m :: m in ns ==> lo <= m < lo + SEQ_SPACE
    ensures forall a :: 0 <= a < |ns| ==> lo <= AskedAt(ns, now)[a].n < lo + SEQ_SPACE
  {
    forall a | 0 <= a < |ns| ensures lo <= AskedAt(ns, now)[a].n < lo + SEQ_SPACE {
      assert ns[a] in ns;
    }
  }

  lemma ReportAbove(u: IdealTrace, now: nat, lo: int)
    requires Good(u.state) && Above(u.state, lo)
    ensures Above(Report(u.state, now), lo)
    ensures forall m :: m in Wanted(u.state.lost, now) ==> lo <= m < lo + SEQ_SPACE
  {
    var i := u.state;
    assert LostNumbers(Report(i, now).lost) == LostNumbers(i.lost);
    WantedIncreases(i.lost, now);
    forall m | m in Wanted(i.lost, now) ensures lo <= m < lo + SEQ_SPACE {
      var k :| 0 <= k < |i.lost| && i.lost[k].n == m;
      assert LostNumbers(i.lost)[k] == m;
      assert m in i.ever;
      assert i.started by { LostStarted(i, k); }
    }
  }

  lemma LostStarted(i: Ideal, k: nat)
    requires Good(i) && k < |i.lost|
    ensures i.started
  {
    assert LostNumbers(i.lost)[k] == i.lost[k].n;
    GapsExactly(i, i.lost[k].n);
  }

  lemma {:induction false} AskedInCycle(events: seq<Event>, lo: int)
    requires Admissible(events) && OneCycle(events, lo)
    ensures Above(IdealRun(events).state, lo)
    ensures forall a :: 0 <= a < |IdealRun(events).asked| ==> lo <= IdealRun(events).asked[a].n < lo + SEQ_SPACE
  {
    if events != [] {
      var before, e := events[..|events| - 1], events[|events| - 1];
      forall k | 0 <= k < |before| && Accepted(before, k) ensures lo <= before[k].n < lo + SEQ_SPACE {
        AcceptedPrefix(events, k, |before|);
      }
      AskedInCycle(before, lo);
      RunRefines(before);
      assert e.Arrive? && !Late(IdealRun(before).state, e.n) ==> Accepted(events, |before|);
      StepAbove(IdealRun(before), e, lo);
      AskedGrows(IdealRun(before), e);
    }
  }

  lemma AskedGrows(u: IdealTrace, e: Event)
    ensures |u.asked| <= |IdealStep(u, e).asked|
    ensures forall a :: 0 <= a < |u.asked| ==> IdealStep(u, e).asked[a] == u.asked[a]
  {
  }

  /** On a clean run, two requests the program makes for one number are at least 50 ms
      apart: for one unwrapped number always, and for one 16-bit number as long as all
      accepted numbers lie in one cycle. */
  lemma RequestsSpaced(events: seq<Event>, lo: int, a: nat, b: nat)
    requires Clean(events) && a < b < |Run(events).requests|
    requires Run(events).requests[a].seqNum == Run(events).requests[b].seqNum
    ensures StandFor(Run(events).requests, IdealRun(events).asked)
    ensures IdealRun(events).asked[a].n == IdealRun(events).asked[b].n || OneCycle(events, lo) ==>
              Run(events).requests[b].at >= Run(events).requests[a].at + 50
  {
    CleanIsAdmissible(events);
    RequestsStand(events);
    AskedSpaced(events);
    if OneCycle(events, lo) {
      AskedInCycle(events, lo);
      WrapInjective(IdealRun(events).asked[a].n, IdealRun(events).asked[b].n);
    }
  }

  /** An entry that remembers a request remembers one that was made. */
  predicate Backed(u: IdealTrace) {
    forall k :: 0 <= k < |u.state.lost| && u.state.lost[k].notified ==>
      Asked(u.state.lost[k].n, u.state.lost[k].lastNotifyMs) in u.asked
  }

  lemma {:induction false} FindKnown(lost: seq<Lost>, n: int)
    ensures Find(lost, n) in lost || Find(lost, n) == Lost(n, false, 0)
  {
    if lost != [] {
      FindKnown(lost[1..], n);
    }
  }

  lemma {:induction false} WantedHas(lost: seq<Lost>, now: nat, k: nat)
    requires k < |lost| && Wants(lost[k], now)
    ensures lost[k].n in Wanted(lost, now)
  {
    hide Wants;
    if k > 0 {
      WantedHas(lost[1..], now, k - 1);
    }
  }

  lemma StepBacked(u: IdealTrace, e: Event)
    requires Backed(u)
    ensures Backed(IdealStep(u, e))
  {
    hide Late, Inserted, Gaps, Collected, Find;
    var v := IdealStep(u, e);
    forall k | 0 <= k < |v.state.lost| && v.state.lost[k].notified
      ensures Asked(v.state.lost[k].n, v.state.lost[k].lastNotifyMs) in v.asked
    {
      match e
      case Arrive(n, packet, timeoutMs) =>
        if !Late(u.state, n) {
          FindKnown(u.state.lost, Gaps(Inserted(u.state, n, packet, timeoutMs))[k]);
        }
      case CollectAt(now) =>
      case ReportAt(now) =>
        if Wants(u.state.lost[k], now) {
          WantedHas(u.state.lost, now, k);
          var j :| 0 <= j < |Wanted(u.state.lost, now)| && Wanted(u.state.lost, now)[j] == u.state.lost[k].n;
          assert AskedAt(Wanted(u.state.lost, now), now)[j] == Asked(u.state.lost[k].n, now);
        }
    }
  }

  lemma {:induction false} RunBacked(events: seq<Event>)
    ensures Backed(IdealRun(events))
  {
    hide IdealStep;
    if events != [] {
      RunBacked(events[..|events| - 1]);
      StepBacked(IdealRun(events[..|events| - 1]), events[|events| - 1]);
    }
  }

  /** Exactly what a report asks for: whatever a clean run has led to, it names a number
      if and only if that is listed as lost and was not asked for in the last 50 ms. */
  lemma ReportExactly(events: seq<Event>, now: nat, m: int)
    requires Clean(events)
    ensures C.Requests(Run(events).state.losses, now) == WrapAll(Reported(events, now))
    ensures m in Reported(events, now) <==>
            && m in LostNumbers(IdealRun(events).state.lost)
            && forall a :: 0 <= a < |IdealRun(events).asked| && IdealRun(events).asked[a].n == m ==>
                 IdealRun(events).asked[a].at + 50 <= now
  {
    hide Find, Wanted, LostNumbers, Run, IdealRun;
    CleanIsAdmissible(events);
    ReportIncreases(events, now);
    AskedSpaced(events);
    RunRefines(events);
    RunBacked(events);
    var u := IdealRun(events);
    if m in Reported(events, now) {
      WantedNoted(u.state.lost, now, m);
      forall a | 0 <= a < |u.asked| && u.asked[a].n == m ensures u.asked[a].at + 50 <= now {
        RepeatSpaced(u, u.asked[a], now);
      }
    }
    if m in LostNumbers(u.state.lost) && forall a :: 0 <= a < |u.asked| && u.asked[a].n == m ==> u.asked[a].at + 50 <= now {
      FindNumber(u.state.lost, m);
      var k :| 0 <= k < |u.state.lost| && u.state.lost[k] == Find(u.state.lost, m);
      WantedHas(u.state.lost, now, k);
    }
  }

  lemma {:induction false} CleanPrefix(events: seq<Event>, k: nat)
    requires Clean(events) && k <= |events|
    ensures Clean(events[..k])
  {
    if k < |events| {
      CleanPrefix(events[..|events| - 1], k);
      assert events[..|events| - 1][..k] == events[..k];
    } else {
      assert events[..k] == events;
    }
  }

  /** On a clean run, once a packet is accepted at position `k`, the program requests
      neither that packet's number nor any number held or delivered past by then again:
      no later request stands for it, and as long as all accepted numbers lie in one
      cycle, none even carries its 16 bits. */
  lemma NeverRequestedAgain(events: seq<Event>, k: nat, n: int, lo: int, a: nat)
    requires Clean(events) && k < |events| && events[k].Arrive?
    requires var i := IdealRun(events[..k]).state;
             !Late(i, events[k].n) && (n == events[k].n || n in HeldNumbers(i.held) || Late(i, n))
    requires |Run(events[..k]).requests| <= a < |Run(events).requests|
    ensures StandFor(Run(events).requests, IdealRun(events).asked) && IdealRun(events).asked[a].n != n
    ensures OneCycle(events, lo) && lo <= n < lo + SEQ_SPACE ==> Run(events).requests[a].seqNum != Wrap(n)
  {
    hide Late, HeldNumbers;
    CleanIsAdmissible(events);
    CleanPrefix(events, k);
    RequestsStand(events);
    RequestsStand(events[..k]);
    NeverAskedAgain(events, k, n);
    if OneCycle(events, lo) && lo <= n < lo + SEQ_SPACE {
      AskedInCycle(events, lo);
      WrapInjective(IdealRun(events).asked[a].n, n);
    }
  }

  // ---------- what the counter counts ----------

  function SeqsOf(losses: seq<C.LossSeq>): set<Seq16> {
    set l | l in losses :: l.seqNum
  }

  function WrapSet(ns: set<int>): set<Seq16> {
    set m | m in ns :: Wrap(m)
  }

  /** Every 16-bit number that was ever in the program's loss list. */
  function ListedSeqs(events: seq<Event>): set<Seq16> {
    (if events == [] then {} else ListedSeqs(events[..|events| - 1])) + SeqsOf(Run(events).state.losses)
  }

  lemma SeqsConcat(a: seq<C.LossSeq>, b: seq<C.LossSeq>)
    ensures SeqsOf(a + b) == SeqsOf(a) + SeqsOf(b)
  {
  }

  lemma WrapSetUnion(a: set<int>, b: set<int>)
    ensures WrapSet(a + b) == WrapSet(a) + WrapSet(b)
  {
  }

  lemma {:induction false} SeqsAreWraps(lost: seq<Lost>)
    ensures SeqsOf(LossesOf(lost)) == WrapSet(SetOf(LostNumbers(lost)))
  {
    if lost == [] {
      assert SeqsOf(LossesOf(lost)) == {} && WrapSet(SetOf(LostNumbers(lost))) == {};
    } else {
      SeqsAreWraps(lost[1..]);
      assert LostNumbers(lost) == [lost[0].n] + LostNumbers(lost[1..]);
      SetOfCons(LostNumbers(lost));
      WrapSetUnion({lost[0].n}, SetOf(LostNumbers(lost[1..])));
      SeqsConcat([LossOf(lost[0])], LossesOf(lost[1..]));
      assert WrapSet({lost[0].n}) == {Wrap(lost[0].n)} == SeqsOf([LossOf(lost[0])]);
    }
  }

  lemma {:induction false} WrapSetSize(ns: set<int>, lo: int)
    requires forall m :: m in ns ==> lo <= m < lo + SEQ_SPACE
    ensures |WrapSet(ns)| == |ns|
    decreases |ns|
  {
    if ns == {} {
      assert WrapSet(ns) == {};
    } else {
      var m := SomeOf(ns);
      var rest := ns - {m};
      WrapSetSize(rest, lo);
      forall x | x in rest ensures Wrap(x) != Wrap(m) {
        WrapInjective(x, m);
      }
      assert WrapSet(ns) == WrapSet(rest) + {Wrap(m)};
    }
  }

  lemma SomeOf<T>(ns: set<T>) returns (m: T)
    requires ns != {}
    ensures m in ns
  {
    m :| m in ns;
  }

  lemma StateListed(events: seq<Event>, lo: int, now: set<int>)
    requires Clean(events) && OneCycle(events, lo) && now == SetOf(LostNumbers(IdealRun(events).state.lost))
    ensures SeqsOf(Run(events).state.losses) == WrapSet(now)
    ensures forall m :: m in now ==> lo <= m < lo + SEQ_SPACE
  {
    CleanIsAdmissible(events);
    AskedInCycle(events, lo);
    CleanRunRefines(events);
    RunRefines(events);
    ListedBelow(IdealRun(events).state, lo);
    SeqsAreWraps(IdealRun(events).state.lost);
  }

  lemma CycleBefore(events: seq<Event>, lo: int)
    requires events != [] && OneCycle(events, lo)
    ensures OneCycle(events[..|events| - 1], lo)
  {
    hide IdealRun, Late;
    var before := events[..|events| - 1];
    forall k | 0 <= k < |before| && Accepted(before, k) ensures lo <= before[k].n < lo + SEQ_SPACE {
      AcceptedPrefix(events, k, |before|);
    }
  }

  lemma {:induction false} ListedAreWraps(events: seq<Event>, lo: int)
    requires Clean(events) && OneCycle(events, lo)
    ensures ListedSeqs(events) == WrapSet(EverListed(events))
    ensures forall m :: m in EverListed(events) ==> lo <= m < lo + SEQ_SPACE
  {
    hide WrapSet, SeqsOf, OneCycle, Run, IdealRun, SetOf, LostNumbers;
    var now := SetOf(LostNumbers(IdealRun(events).state.lost));
    StateListed(events, lo, now);
    if events == [] {
      EmptyUnion(now);
      EmptyUnion(SeqsOf(Run(events).state.losses));
    } else {
      var before := events[..|events| - 1];
      CycleBefore(events, lo);
      ListedAreWraps(before, lo);
      WrapSetUnion(EverListed(before), now);
    }
  }

  lemma EmptyUnion<T>(s: set<T>)
    ensures {} + s == s
  {
  }

  lemma ListedBelow(i: Ideal, lo: int)
    requires Good(i) && Above(i, lo)
    ensures forall m :: m in LostNumbers(i.lost) ==> lo <= m < lo + SEQ_SPACE
  {
    forall m | m in LostNumbers(i.lost) ensures lo <= m < lo + SEQ_SPACE {
      var k :| 0 <= k < |i.lost| && LostNumbers(i.lost)[k] == m;
      LostStarted(i, k);
      assert m in i.ever;
    }
  }

  /** On a clean run within one cycle the program's counter is the number of different
      16-bit numbers that were ever in its loss list. */
  lemma CounterCountsListed(events: seq<Event>, lo: int)
    requires Clean(events) && OneCycle(events, lo)
    ensures Run(events).state.cumulativeLoss == |ListedSeqs(events)|
  {
    hide Wrap, C.Counter32;
    ListedAreWraps(events, lo);
    WrapSetSize(EverListed(events), lo);
    InCycleSize(EverListed(events), lo);
    C.Counter32Next(|EverListed(events)|);
    CumulativeLossCounts(events);
  }

  lemma {:induction false} InCycleSize(ns: set<int>, lo: int)
    requires forall m :: m in ns ==> lo <= m < lo + SEQ_SPACE
    ensures |ns| <= SEQ_SPACE
  {
    IntervalSize(ns, lo, lo + SEQ_SPACE);
  }

  lemma {:induction false} IntervalSize(ns: set<int>, lo: int, hi: int)
    requires lo <= hi && forall m :: m in ns ==> lo <= m < hi
    ensures |ns| <= hi - lo
    decreases hi - lo
  {
    if lo == hi {
      assert ns == {};
    } else {
      IntervalSize(ns - {hi - 1}, lo, hi - 1);
    }
  }

  // ---------- where the discipline ends ----------

  /** When every entry wants a request, the report names them all, oldest first. */
  lemma {:induction false} AllWanted(losses: seq<C.LossSeq>, now: nat)
    requires forall k :: 0 <= k < |losses| ==> C.WantsNack(losses[k], now)
    ensures |C.Requests(losses, now)| == |losses|
    ensures forall k :: 0 <= k < |losses| ==> C.Requests(losses, now)[|losses| - 1 - k] == losses[k].seqNum
  {
    if losses != [] {
      AllWanted(losses[1..], now);
    }
  }

  /** A time at which every entry wants a request. */
  function LateEnough(losses: seq<C.LossSeq>): (now: nat)
    ensures forall k :: 0 <= k < |losses| ==> C.WantsNack(losses[k], now)
  {
    if losses == [] then 0
    else
      var later := LateEnough(losses[1..]);
      var own := losses[0].lastNotifyMs + C.NACK_INTERVAL_MS;
      if own > later then own else later
  }

  lemma TwiceRequested(losses: seq<C.LossSeq>, now: nat, v: Seq16)
    requires ListsTwice(losses, v) && forall k :: 0 <= k < |losses| ==> C.WantsNack(losses[k], now)
    ensures !Distinct(C.Requests(losses, now))
  {
    var a, b :| 0 <= a < b < |losses| && losses[a].seqNum == v && losses[b].seqNum == v;
    AllWanted(losses, now);
    assert C.Requests(losses, now)[|losses| - 1 - b] == C.Requests(losses, now)[|losses| - 1 - a];
  }

  lemma {:induction false} FirstUnclean(events: seq<Event>) returns (k: nat)
    requires !Clean(events)
    ensures k < |events| && Clean(events[..k]) && !Clean(events[..k + 1])
  {
    var before := events[..|events| - 1];
    if Clean(before) {
      k := |before|;
      assert events[..k + 1] == events;
    } else {
      k := FirstUnclean(before);
      assert before[..k] == events[..k] && before[..k + 1] == events[..k + 1];
    }
  }

  /** An unclean step lists 65535 twice. */
  lemma UncleanRepeats(events: seq<Event>)
    requires Admissible(events) && events != [] && Clean(events[..|events| - 1]) && !Clean(events)
    ensures ListsTwice(Run(events).state.losses, MAX_SEQ)
  {
    var before, e := events[..|events| - 1], events[|events| - 1];
    var i := IdealRun(before).state;
    RunRefines(before);
    assert !StepClean(i, e) && StepAdmissible(i, e);
    var k := FindZeroEnd(Marks(Inserted(i, e.n, e.packet, e.timeoutMs)));
    PutRepeats(Run(before).state, i, e.n, e.packet, e.timeoutMs, k);
  }

  /** Whatever was received so far, a report asks for no number twice. */
  ghost predicate AlwaysDistinct(events: seq<Event>) {
    forall k, now: nat :: 0 <= k <= |events| ==> Distinct(C.Requests(Run(events[..k]).state.losses, now))
  }

  /** The exact condition. Reports are free of repetitions at every moment of a run if and
      only if no accepted packet of it leaves a gap that ends at number 0. */
  lemma DisciplineExactly(events: seq<Event>)
    requires Admissible(events)
    ensures AlwaysDistinct(events) <==> Clean(events)
  {
    if Clean(events) {
      forall k, now: nat | 0 <= k <= |events| ensures Distinct(C.Requests(Run(events[..k]).state.losses, now)) {
        CleanPrefix(events, k);
        ReportIncreases(events[..k], now);
      }
    } else {
      var k := FirstUnclean(events);
      AdmissiblePrefix(events, k + 1);
      assert events[..k + 1][..k] == events[..k];
      UncleanRepeats(events[..k + 1]);
      var losses := Run(events[..k + 1]).state.losses;
      TwiceRequested(losses, LateEnough(losses), MAX_SEQ);
    }
  }

  // ---------- a run that fails ----------

  lemma {:induction false} MergedFresh(gaps: seq<Seq16>)
    ensures |C.Merged([], gaps)| == |gaps|
    ensures forall k :: 0 <= k < |gaps| ==> C.Merged([], gaps)[k] == C.Fresh(gaps[k])
  {
    if gaps != [] {
      MergedFresh(gaps[1..]);
    }
  }

  lemma {:induction false} DownMember(from: int, to: int, v: Seq16)
    requires from <= MAX_SEQ && 0 <= to && to < v <= from
    ensures v in C.Down(from, to)
    decreases from - to
  {
    if v < from {
      DownMember(from - 1, to, v);
    }
  }

  lemma TwoArrivals(p: RtpPacket, q: RtpPacket, timeoutMs: nat) returns (losses: seq<C.LossSeq>)
    requires p.seqNum == 65530 && q.seqNum == 0
    ensures losses == C.AfterPut(C.AfterPut(C.EMPTY, p, timeoutMs), q, timeoutMs).losses == C.Merged([], C.GapTo(0, 65530))
    ensures C.AfterPut(C.AfterPut(C.EMPTY, p, timeoutMs), q, timeoutMs).cached ==
            [C.CachedPacket(q, timeoutMs), C.CachedPacket(p, timeoutMs)]
  {
    var s := C.AfterPut(C.EMPTY, p, timeoutMs);
    FirstArrival(p, timeoutMs, s);
    SecondArrival(p, q, timeoutMs, s);
    losses := C.Merged([], C.GapTo(0, 65530));
  }

  lemma FirstArrival(p: RtpPacket, timeoutMs: nat, s: C.CacheState)
    requires s == C.AfterPut(C.EMPTY, p, timeoutMs)
    ensures s.cached == [C.CachedPacket(p, timeoutMs)] && s.losses == [] && !s.hasCallback
  {
  }

  lemma SecondArrival(p: RtpPacket, q: RtpPacket, timeoutMs: nat, s: C.CacheState)
    requires p.seqNum == 65530 && q.seqNum == 0
    requires s.cached == [C.CachedPacket(p, timeoutMs)] && s.losses == [] && !s.hasCallback
    ensures C.AfterPut(s, q, timeoutMs).losses == C.Merged([], C.GapTo(0, 65530))
    ensures C.AfterPut(s, q, timeoutMs).cached == [C.CachedPacket(q, timeoutMs), C.CachedPacket(p, timeoutMs)]
  {
    hide C.GapTo, C.Merged;
    var cached := C.InsertCached(s.cached, C.CachedPacket(q, timeoutMs));
    assert cached == [C.CachedPacket(q, timeoutMs), C.CachedPacket(p, timeoutMs)];
    assert cached[1..] == [C.CachedPacket(p, timeoutMs)];
    EmptyRight(C.GapTo(0, 65530));
    assert C.CachedGaps(cached) == C.GapTo(0, 65530);
    assert C.AllGaps(s.(cached := cached)) == C.GapTo(0, 65530);
  }

  /** For example: packets 65530 and 65536 arrive and a report follows at once. It asks for
      65535 twice, and for 65530, which is in the cache. */
  lemma FailingRun(p: RtpPacket, q: RtpPacket, timeoutMs: nat, now: nat) returns (events: seq<Event>)
    requires p.seqNum == 65530 && q.seqNum == 0
    ensures events == [Arrive(65530, p, timeoutMs), Arrive(65536, q, timeoutMs), ReportAt(now)] && Admissible(events)
    ensures Request(65530, now) in Run(events).requests
    ensures C.CachedPacket(p, timeoutMs) in Run(events).state.cached
    ensures Repeats(Run(events).requests, Request(65535, now))
  {
    hide C.AfterPut, C.Merged, C.GapTo, C.Requests;
    var first, second := Arrive(65530, p, timeoutMs), Arrive(65536, q, timeoutMs);
    events := [first, second, ReportAt(now)];
    FailingAdmissible(p, q, timeoutMs, now, events);
    var losses := TwoArrivals(p, q, timeoutMs);
    assert events[..2] == [first, second] && [first, second][..1] == [first] && [first][..0] == [];
    assert Run([first]).state == C.AfterPut(C.EMPTY, p, timeoutMs);
    assert Run([first, second]) == Trace(C.AfterPut(C.AfterPut(C.EMPTY, p, timeoutMs), q, timeoutMs), [], []);
    FailingGap();
    FailingReport(losses, C.GapTo(0, 65530), now);
    EmptyLeft(RequestsAt(C.Requests(losses, now), now));
  }

  lemma FailingAdmissible(p: RtpPacket, q: RtpPacket, timeoutMs: nat, now: nat, events: seq<Event>)
    requires p.seqNum == 65530 && q.seqNum == 0
    requires events == [Arrive(65530, p, timeoutMs), Arrive(65536, q, timeoutMs), ReportAt(now)]
    ensures Admissible(events)
  {
    hide Gaps, Relisted;
    var one, two := [events[0]], [events[0], events[1]];
    assert events[..2] == two && two[..1] == one && one[..0] == [];
    assert IdealRun(one).state.held == [Held(65530, p, timeoutMs)];
    assert Admissible(one);
  }

  lemma FailingReport(losses: seq<C.LossSeq>, gaps: seq<Seq16>, now: nat)
    requires losses == C.Merged([], gaps) && Revisits(gaps, MAX_SEQ) && 65530 in gaps
    ensures var out := RequestsAt(C.Requests(losses, now), now); Request(65530, now) in out && Repeats(out, Request(65535, now))
  {
    hide C.Merged, C.Requests, RequestsAt;
    var out := RequestsAt(C.Requests(losses, now), now);
    FreshRequests(losses, gaps, now);
    var n := |gaps|;
    var k :| 0 <= k < n && gaps[k] == 65530;
    assert out[n - 1 - k] == Request(65530, now);
    var p, q :| 0 <= p && p + 1 < q < n && gaps[p] == MAX_SEQ && gaps[p + 1] == MAX_SEQ - 1 && gaps[q] == MAX_SEQ;
    assert out[n - 1 - q] == Request(65535, now);
    assert out[n - 1 - p] == Request(65535, now);
  }

  predicate Repeats(requests: seq<Request>, r: Request) {
    exists a, b :: 0 <= a < b < |requests| && requests[a] == r && requests[b] == r
  }

  lemma FreshRequests(losses: seq<C.LossSeq>, gaps: seq<Seq16>, now: nat)
    requires losses == C.Merged([], gaps)
    ensures var out := RequestsAt(C.Requests(losses, now), now);
            |out| == |gaps| && forall k :: 0 <= k < |gaps| ==> out[|gaps| - 1 - k] == Request(gaps[k], now)
  {
    hide C.Merged, C.Requests;
    MergedFresh(gaps);
    AllWanted(losses, now);
  }

  lemma FailingGap()
    ensures 65530 in C.GapTo(0, 65530) && Revisits(C.GapTo(0, 65530), MAX_SEQ)
  {
    ZeroMarkRevisits(65530);
    DownMember(MAX_SEQ, 0, 65530);
  }
}
