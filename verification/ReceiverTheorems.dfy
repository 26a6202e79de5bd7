/** What holds of every run of the receiver cache: delivery order,
    conservation, and the discipline of loss requests. */
module ReceiverTheorems {
  import opened SeqComparison
  import opened RtpPackets
  import opened SeqLemmas
  import opened ReceiverIdeal
  import opened ReceiverLosses
  import opened ReceiverRuns
  import C = ReceiverCache

  // ---------- delivery order ----------

  predicate Increasing(held: seq<Held>) {
    forall a, b :: 0 <= a < b < |held| ==> held[a].n < held[b].n
  }

  ghost predicate InOrder(u: IdealTrace) {
    && Increasing(u.delivered)
    && (u.delivered == [] <==> u.state.last.None?)
    && (u.delivered != [] ==> u.state.last == Some(u.delivered[|u.delivered| - 1].n))
  }

  lemma ReversedOrder(tail: seq<Held>, a: nat, b: nat)
    requires Numbered(tail) && a < b < |tail|
    ensures Reversed(tail)[a].n < Reversed(tail)[b].n
  {
    hide Numbered, Reversed;
    NumberedOrder(tail, |tail| - 1 - b, |tail| - 1 - a);
  }

  lemma NumberedOrder(held: seq<Held>, a: nat, b: nat)
    requires Numbered(held) && a < b < |held|
    ensures held[a].n > held[b].n
  {
  }

  lemma ReversedIncreases(tail: seq<Held>)
    requires Numbered(tail)
    ensures Increasing(Reversed(tail))
    ensures tail != [] ==> forall k :: 0 <= k < |tail| ==> Oldest(tail) <= Reversed(tail)[k].n
  {
    hide Numbered, Reversed;
    var r := Reversed(tail);
    forall a, b | 0 <= a < b < |tail| ensures r[a].n < r[b].n {
      ReversedOrder(tail, a, b);
    }
    forall k | 0 <= k < |tail| ensures Oldest(tail) <= r[k].n {
      if k > 0 {
        ReversedOrder(tail, 0, k);
      }
    }
  }

  lemma NumberedSuffix(held: seq<Held>, k: nat)
    requires Numbered(held) && k < |held|
    ensures Numbered(held[k..]) && Oldest(held[k..]) == Oldest(held)
  {
  }

  /** A collection is oldest first and starts after the last delivery. */
  lemma CollectedIncreases(i: Ideal, now: nat)
    requires Valid(i)
    ensures Increasing(Collected(i, now))
    ensures i.last.Some? ==> forall k :: 0 <= k < |Collected(i, now)| ==> i.last.value < Collected(i, now)[k].n
  {
    var k := FirstDue(i, now, 0);
    if k < |i.held| {
      NumberedSuffix(i.held, k);
      ReversedIncreases(i.held[k..]);
    }
  }

  lemma CollectedEnds(i: Ideal, now: nat)
    ensures Collected(i, now) == [] <==> FirstDue(i, now, 0) == |i.held|
    ensures Collected(i, now) != [] ==>
              Collect(i, now).last == Some(Collected(i, now)[|Collected(i, now)| - 1].n)
  {
  }

  lemma OrderCollect(u: IdealTrace, now: nat)
    requires Valid(u.state) && InOrder(u)
    ensures InOrder(IdealStep(u, CollectAt(now)))
  {
    var more := Collected(u.state, now);
    CollectedIncreases(u.state, now);
    CollectedEnds(u.state, now);
    OrderedConcat(u.delivered, more);
    if more != [] {
      assert (u.delivered + more)[|u.delivered + more| - 1] == more[|more| - 1];
    }
  }

  lemma OrderStep(u: IdealTrace, e: Event)
    requires Valid(u.state) && InOrder(u)
    ensures InOrder(IdealStep(u, e))
  {
    if e.CollectAt? {
      OrderCollect(u, e.now);
    }
  }

  /** Over any interleaving of arrivals, collections and reports, numbers are
      delivered strictly increasing. */
  lemma {:induction false} DeliveredInOrder(events: seq<Event>)
    requires Admissible(events)
    ensures InOrder(IdealRun(events))
  {
    if events != [] {
      var before := events[..|events| - 1];
      DeliveredInOrder(before);
      RunRefines(before);
      OrderStep(IdealRun(before), events[|events| - 1]);
    }
  }

  lemma OrderedConcat(a: seq<Held>, b: seq<Held>)
    requires Increasing(a) && Increasing(b)
    requires a != [] ==> forall k :: 0 <= k < |b| ==> a[|a| - 1].n < b[k].n
    ensures Increasing(a + b)
  {
    forall x, y | 0 <= x < y < |a + b| ensures (a + b)[x].n < (a + b)[y].n {
      if x < |a| <= y {
        assert a[x].n <= a[|a| - 1].n;
      }
    }
  }

  // ---------- conservation ----------

  /** What one event admits: a packet that is neither late nor a duplicate of a held one. */
  function AdmittedBy(i: Ideal, e: Event): seq<Held> {
    if e.Arrive? && !Late(i, e.n) && e.n !in HeldNumbers(i.held) then [Held(e.n, e.packet, e.timeoutMs)] else []
  }

  function Admitted(events: seq<Event>): seq<Held> {
    if events == [] then []
    else
      var before := events[..|events| - 1];
      Admitted(before) + AdmittedBy(IdealRun(before).state, events[|events| - 1])
  }

  function Owned(u: IdealTrace): multiset<Held> {
    multiset(u.delivered) + multiset(u.state.held)
  }

  lemma {:induction false} InsertConserves(held: seq<Held>, h: Held)
    requires Numbered(held)
    ensures multiset(InsertHeld(held, h)) ==
            multiset(held) + if h.n in HeldNumbers(held) then multiset{} else multiset{h}
  {
    if held != [] {
      HeldNumbersCons(held);
      assert held == [held[0]] + held[1..];
      if held[0].n > h.n {
        InsertConserves(held[1..], h);
      } else if held[0].n < h.n {
        assert h.n !in HeldNumbers(held) by {
          forall k | 0 <= k < |held| ensures HeldNumbers(held)[k] != h.n { assert held[k].n <= held[0].n; }
        }
      }
    }
  }

  lemma {:induction false} ReversedConserves<T>(s: seq<T>)
    ensures multiset(Reversed(s)) == multiset(s)
  {
    if s != [] {
      ReversedConserves(s[1..]);
      assert s == [s[0]] + s[1..];
    }
  }

  lemma StepConserves(u: IdealTrace, e: Event)
    requires Valid(u.state)
    ensures Owned(IdealStep(u, e)) == Owned(u) + multiset(AdmittedBy(u.state, e))
  {
    hide Relisted, Gaps, InsertHeld, Collect, Collected;
    match e
    case Arrive(n, packet, timeoutMs) =>
      if !Late(u.state, n) {
        InsertConserves(u.state.held, Held(n, packet, timeoutMs));
      }
    case CollectAt(now) =>
      CollectConserves(u.state, now);
    case ReportAt(now) =>
  }

  lemma CollectConserves(i: Ideal, now: nat)
    ensures multiset(Collected(i, now)) + multiset(Collect(i, now).held) == multiset(i.held)
  {
    var k := FirstDue(i, now, 0);
    ReversedConserves(i.held[k..]);
    SplitAt(i.held, k);
    assert Collect(i, now).held == i.held[..k];
  }

  /** Every admitted packet is delivered once or still cached, and nothing else is. */
  lemma {:induction false} Conserved(events: seq<Event>)
    requires Admissible(events)
    ensures Owned(IdealRun(events)) == multiset(Admitted(events))
  {
    if events != [] {
      var before := events[..|events| - 1];
      Conserved(before);
      RunRefines(before);
      StepConserves(IdealRun(before), events[|events| - 1]);
    }
  }

  // ---------- the loss list and the requests, on clean runs ----------

  function WrapAsked(asked: seq<Asked>): (r: seq<Request>)
    ensures |r| == |asked|
  {
    seq(|asked|, k requires 0 <= k < |asked| => Request(Wrap(asked[k].n), asked[k].at))
  }

  lemma CleanIsAdmissible(events: seq<Event>)
    requires Clean(events)
    ensures Admissible(events)
  {
    if events != [] {
      CleanIsAdmissible(events[..|events| - 1]);
    }
  }

  lemma AskedRefines(ns: seq<int>, now: nat)
    ensures RequestsAt(WrapAll(ns), now) == WrapAsked(AskedAt(ns, now))
  {
    forall k | 0 <= k < |ns| ensures RequestsAt(WrapAll(ns), now)[k] == WrapAsked(AskedAt(ns, now))[k] {
      WrapAllAt(ns, k);
    }
  }

  /** On runs in which no gap ends at number 0 the 16-bit loss list, its counter
      and every request are the ideal ones. */
  lemma {:induction false} CleanRunRefines(events: seq<Event>)
    requires Clean(events)
    ensures Losses(Run(events).state, IdealRun(events).state)
    ensures Run(events).requests == WrapAsked(IdealRun(events).asked)
  {
    if events != [] {
      var before, e := events[..|events| - 1], events[|events| - 1];
      CleanIsAdmissible(before);
      CleanRunRefines(before);
      RunRefines(before);
      CleanStepRefines(Run(before), IdealRun(before), e);
    }
  }

  lemma LossesOfFields(s: C.CacheState, t: C.CacheState, i: Ideal, j: Ideal, added: nat)
    requires Losses(s, i) && t.losses == LossesOf(j.lost)
    requires t.cumulativeLoss == C.Bumped(s.cumulativeLoss, added) && |j.ever| == |i.ever| + added
    ensures Losses(t, j)
  {
    C.BumpedTwice(0, |i.ever|, added);
  }

  lemma CleanArrive(s: C.CacheState, i: Ideal, n: int, packet: RtpPacket, timeoutMs: nat)
    requires Good(i) && Core(s, i) && Losses(s, i) && StepClean(i, Arrive(n, packet, timeoutMs))
    ensures Losses(C.AfterPut(s, packet, timeoutMs), Put(i, n, packet, timeoutMs))
  {
    PutLossesRefine(s, i, n, packet, timeoutMs);
    PutGood(i, n, packet, timeoutMs);
    LossesOfFields(s, C.AfterPut(s, packet, timeoutMs), i, Put(i, n, packet, timeoutMs), Added(i, n, packet, timeoutMs));
  }

  lemma CleanReport(s: C.CacheState, i: Ideal, now: nat)
    requires Core(s, i) && Losses(s, i)
    ensures Losses(C.AfterNack(s, now), Report(i, now))
    ensures RequestsAt(C.Requests(s.losses, now), now) == WrapAsked(AskedAt(Wanted(i.lost, now), now))
  {
    ReportRefines(s, i, now);
    AskedRefines(Wanted(i.lost, now), now);
  }

  lemma WrapAskedConcat(a: seq<Asked>, b: seq<Asked>)
    ensures WrapAsked(a + b) == WrapAsked(a) + WrapAsked(b)
  {
  }

  lemma CleanStepRefines(t: Trace, u: IdealTrace, e: Event)
    requires Good(u.state) && Core(t.state, u.state) && Losses(t.state, u.state) && StepClean(u.state, e)
    requires t.requests == WrapAsked(u.asked)
    ensures Losses(Step(t, e).state, IdealStep(u, e).state)
    ensures Step(t, e).requests == WrapAsked(IdealStep(u, e).asked)
  {
    match e
    case Arrive(n, packet, timeoutMs) =>
      CleanArrive(t.state, u.state, n, packet, timeoutMs);
    case CollectAt(now) =>
      CollectRefines(t.state, u.state, now);
    case ReportAt(now) =>
      CleanReport(t.state, u.state, now);
      WrapAskedConcat(u.asked, AskedAt(Wanted(u.state.lost, now), now));
  }

  /** After every accepted packet of a clean run the 16-bit loss list is strictly
      descending and holds exactly the missing numbers other than number 0. */
  lemma LossListExact(events: seq<Event>, ns: seq<int>)
    requires Clean(events) && events != [] && events[|events| - 1].Arrive?
    requires !Late(IdealRun(events[..|events| - 1]).state, events[|events| - 1].n)
    requires ns == LostNumbers(IdealRun(events).state.lost)
    ensures |Run(events).state.losses| == |ns|
    ensures forall k :: 0 <= k < |ns| ==> Run(events).state.losses[k].seqNum == Wrap(ns[k])
    ensures Descending(ns) && forall m :: m in ns <==> IsSought(IdealRun(events).state, m)
  {
    var before, e := events[..|events| - 1], events[|events| - 1];
    CleanIsAdmissible(before);
    CleanRunRefines(events);
    RunRefines(before);
    PutExact(IdealRun(before).state, e.n, e.packet, e.timeoutMs);
    forall k | 0 <= k < |ns| ensures Run(events).state.losses[k].seqNum == Wrap(ns[k]) {
      LossAt(IdealRun(events).state.lost, k);
    }
  }

  // ---------- request discipline ----------

  /** `n` has arrived or was delivered past, and is no longer listed. */
  predicate Settled(i: Ideal, n: int) {
    n !in LostNumbers(i.lost) && (n in HeldNumbers(i.held) || Late(i, n))
  }

  lemma SettledStays(i: Ideal, e: Event, n: int)
    requires Good(i) && StepAdmissible(i, e) && Settled(i, n)
    ensures Settled(IdealStep(IdealTrace(i, [], []), e).state, n)
  {
    hide Inserted, Relisted, Gaps, EverKnown, LossesExact;
    match e
    case Arrive(m, packet, timeoutMs) =>
      if !Late(i, m) {
        PutSettles(i, m, packet, timeoutMs, n);
      }
    case CollectAt(now) =>
      var k := FirstDue(i, now, 0);
      if k < |i.held| && n in HeldNumbers(i.held) {
        var a :| 0 <= a < |i.held| && HeldNumbers(i.held)[a] == n;
        if a < k {
          assert HeldNumbers(Collect(i, now).held)[a] == n;
        }
      }
    case ReportAt(now) =>
      assert LostNumbers(Report(i, now).lost) == LostNumbers(i.lost);
  }

  /** An accepted packet settles its own number and everything delivered past. */
  lemma PutSettles(i: Ideal, m: int, packet: RtpPacket, timeoutMs: nat, n: int)
    requires Valid(i) && InWindow(i, m) && !Late(i, m) && packet.seqNum == Wrap(m)
    requires n == m || n in HeldNumbers(i.held) || Late(i, n)
    ensures Settled(Put(i, m, packet, timeoutMs), n)
  {
    PutExact(i, m, packet, timeoutMs);
    InsertNumbers(i.held, Held(m, packet, timeoutMs), n);
  }

  /** What is known of every request made so far. */
  ghost predicate Disciplined(u: IdealTrace) {
    && (forall a :: 0 <= a < |u.asked| ==>
          Settled(u.state, u.asked[a].n) || StillNoted(u.state.lost, u.asked[a]))
    && (forall a, b :: 0 <= a < b < |u.asked| && u.asked[a].n == u.asked[b].n ==>
          u.asked[b].at >= u.asked[a].at + C.NACK_INTERVAL_MS)
  }

  /** The number is listed, and its entry remembers a request at least that late. */
  predicate StillNoted(lost: seq<Lost>, q: Asked) {
    q.n in LostNumbers(lost) && Find(lost, q.n).notified && Find(lost, q.n).lastNotifyMs >= q.at
  }

  lemma PutKeepsNoted(i: Ideal, m: int, packet: RtpPacket, timeoutMs: nat, q: Asked)
    requires Good(i) && InWindow(i, m) && !Late(i, m) && packet.seqNum == Wrap(m)
    requires StillNoted(i.lost, q)
    ensures var j := Put(i, m, packet, timeoutMs); Settled(j, q.n) || StillNoted(j.lost, q)
  {
    var j := Put(i, m, packet, timeoutMs);
    var gaps := Gaps(Inserted(i, m, packet, timeoutMs));
    RelistedNumbers(gaps, i.lost);
    if q.n in gaps {
      FindRelisted(gaps, i.lost, q.n);
    } else {
      InsertedValid(i, m, packet, timeoutMs);
      GapsExactly(Inserted(i, m, packet, timeoutMs), q.n);
      var k :| 0 <= k < |i.lost| && LostNumbers(i.lost)[k] == q.n;
      GapsExactly(i, q.n);
      GapsShrinkOnlyBy(i, m, packet, timeoutMs, q.n);
      PutSettles(i, m, packet, timeoutMs, q.n);
    }
  }

  lemma {:induction false} FindRelisted(ns: seq<int>, lost: seq<Lost>, n: int)
    requires n in ns
    ensures Find(Relisted(ns, lost), n) == Find(lost, n)
  {
    FindNumber(lost, ns[0]);
    if ns[0] != n {
      FindRelisted(ns[1..], lost, n);
    }
  }

  lemma StepDiscipline(u: IdealTrace, e: Event, q: Asked)
    requires Good(u.state) && StepAdmissible(u.state, e)
    requires Settled(u.state, q.n) || StillNoted(u.state.lost, q)
    ensures var i := IdealStep(u, e).state; Settled(i, q.n) || StillNoted(i.lost, q)
  {
    if Settled(u.state, q.n) {
      SettledStays(u.state, e, q.n);
    } else {
      match e
      case Arrive(m, packet, timeoutMs) =>
        if !Late(u.state, m) {
          PutKeepsNoted(u.state, m, packet, timeoutMs, q);
        }
      case CollectAt(now) =>
      case ReportAt(now) =>
        NotedKeeps(u.state.lost, now, q);
    }
  }

  lemma {:induction false} NotedFind(lost: seq<Lost>, now: nat, n: int)
    ensures Find(Noted(lost, now), n) ==
            if n in LostNumbers(lost) && Wants(Find(lost, n), now) then Lost(n, true, now) else Find(lost, n)
    ensures LostNumbers(Noted(lost, now)) == LostNumbers(lost)
  {
    if lost != [] {
      NotedFind(lost[1..], now, n);
      assert Noted(lost, now)[1..] == Noted(lost[1..], now);
      assert LostNumbers(lost) == [lost[0].n] + LostNumbers(lost[1..]);
    }
  }

  lemma NotedKeeps(lost: seq<Lost>, now: nat, q: Asked)
    requires StillNoted(lost, q)
    ensures StillNoted(Noted(lost, now), q)
  {
    NotedFind(lost, now, q.n);
  }

  /** A number requested in a report is noted from then on, and was not requested
      in the last 50 ms. */
  lemma WantedNoted(lost: seq<Lost>, now: nat, n: int)
    requires Descending(LostNumbers(lost)) && n in Wanted(lost, now)
    ensures StillNoted(Noted(lost, now), Asked(n, now))
    ensures n in LostNumbers(lost) && Wants(Find(lost, n), now)
  {
    WantedIncreases(lost, now);
    var k :| 0 <= k < |lost| && lost[k].n == n && Wants(lost[k], now);
    assert LostNumbers(lost)[k] == n;
    FindAt(lost, k);
    NotedFind(lost, now, n);
  }

  lemma {:induction false} FindAt(lost: seq<Lost>, k: nat)
    requires Descending(LostNumbers(lost)) && k < |lost|
    ensures Find(lost, lost[k].n) == lost[k]
  {
    if k > 0 {
      assert LostNumbers(lost)[0] > LostNumbers(lost)[k];
      assert LostNumbers(lost) == [lost[0].n] + LostNumbers(lost[1..]);
      TailDescends(LostNumbers(lost));
      FindAt(lost[1..], k - 1);
    }
  }

  /** A request made by this report. */
  lemma NewRequest(u: IdealTrace, now: nat, v: IdealTrace, b: nat)
    requires Good(u.state) && v == IdealStep(u, ReportAt(now)) && |u.asked| <= b < |v.asked|
    ensures v.asked[b].at == now && StillNoted(v.state.lost, v.asked[b])
    ensures v.asked[b].n in LostNumbers(u.state.lost) && Wants(Find(u.state.lost, v.asked[b].n), now)
    ensures forall a :: |u.asked| <= a < b ==> v.asked[a].n < v.asked[b].n
  {
    hide StillNoted, Wants, Find, Noted, LostNumbers;
    var wanted := Wanted(u.state.lost, now);
    WantedIncreases(u.state.lost, now);
    assert v.asked[b] == Asked(wanted[b - |u.asked|], now);
    WantedNoted(u.state.lost, now, wanted[b - |u.asked|]);
  }

  /** A request repeated by this report was last made at least 50 ms ago. */
  lemma RepeatSpaced(u: IdealTrace, q: Asked, now: nat)
    requires Settled(u.state, q.n) || StillNoted(u.state.lost, q)
    requires q.n in LostNumbers(u.state.lost) && Wants(Find(u.state.lost, q.n), now)
    ensures now >= q.at + C.NACK_INTERVAL_MS
  {
  }

  lemma ReportDiscipline(u: IdealTrace, now: nat)
    requires Good(u.state) && Disciplined(u)
    ensures Disciplined(IdealStep(u, ReportAt(now)))
  {
    hide Settled, StillNoted, Good, Wants, Find, LostNumbers;
    var v := IdealStep(u, ReportAt(now));
    forall a | 0 <= a < |v.asked| ensures Settled(v.state, v.asked[a].n) || StillNoted(v.state.lost, v.asked[a]) {
      if a < |u.asked| {
        StepDiscipline(u, ReportAt(now), u.asked[a]);
      } else {
        NewRequest(u, now, v, a);
      }
    }
    forall a, b | 0 <= a < b < |v.asked| && v.asked[a].n == v.asked[b].n
      ensures v.asked[b].at >= v.asked[a].at + C.NACK_INTERVAL_MS
    {
      if b >= |u.asked| {
        NewRequest(u, now, v, b);
        RepeatSpaced(u, u.asked[a], now);
      }
    }
  }

  /** Two requests for one number are at least 50 ms apart, over any run. */
  lemma {:induction false} AskedSpaced(events: seq<Event>)
    requires Admissible(events)
    ensures Disciplined(IdealRun(events))
  {
    if events != [] {
      var before, e := events[..|events| - 1], events[|events| - 1];
      AskedSpaced(before);
      RunRefines(before);
      var u := IdealRun(before);
      if e.ReportAt? {
        ReportDiscipline(u, e.now);
      } else {
        forall a | 0 <= a < |u.asked|
          ensures Settled(IdealStep(u, e).state, u.asked[a].n) || StillNoted(IdealStep(u, e).state.lost, u.asked[a])
        {
          StepDiscipline(u, e, u.asked[a]);
        }
      }
    }
  }

  lemma AdmissiblePrefix(events: seq<Event>, k: nat)
    requires Admissible(events) && k <= |events|
    ensures Admissible(events[..k])
  {
    if k < |events| {
      AdmissiblePrefix(events[..|events| - 1], k);
      assert events[..|events| - 1][..k] == events[..k];
    } else {
      assert events[..k] == events;
    }
  }

  /** No request from position `from` on is for `n`. */
  predicate NotAsked(asked: seq<Asked>, from: nat, n: int) {
    from <= |asked| && forall a :: from <= a < |asked| ==> asked[a].n != n
  }

  lemma SettledNotAsked(u: IdealTrace, e: Event, from: nat, n: int)
    requires Good(u.state) && StepAdmissible(u.state, e) && Settled(u.state, n) && NotAsked(u.asked, from, n)
    ensures Settled(IdealStep(u, e).state, n) && NotAsked(IdealStep(u, e).asked, from, n)
  {
    SettledStays(u.state, e, n);
    if e.ReportAt? {
      NotWanted(u.state.lost, e.now, n);
    }
  }

  /** Once a packet is accepted at position `k`, neither its own number nor any
      number held or delivered past by then is requested again. */
  lemma {:induction false} NeverAskedAgain(events: seq<Event>, k: nat, n: int)
    requires Admissible(events) && k < |events| && events[k].Arrive?
    requires var i := IdealRun(events[..k]).state;
             !Late(i, events[k].n) && (n == events[k].n || n in HeldNumbers(i.held) || Late(i, n))
    ensures Settled(IdealRun(events).state, n)
    ensures NotAsked(IdealRun(events).asked, |IdealRun(events[..k]).asked|, n)
  {
    hide Settled, Late, HeldNumbers, Good;
    var before, e := events[..|events| - 1], events[|events| - 1];
    RunRefines(before);
    if k == |before| {
      assert events[..k] == before;
      PutSettles(IdealRun(before).state, e.n, e.packet, e.timeoutMs, n);
    } else {
      assert before[..k] == events[..k];
      NeverAskedAgain(before, k, n);
      SettledNotAsked(IdealRun(before), e, |IdealRun(events[..k]).asked|, n);
    }
  }

  lemma NotWanted(lost: seq<Lost>, now: nat, n: int)
    requires n !in LostNumbers(lost)
    ensures n !in Wanted(lost, now)
  {
    if lost != [] {
      assert LostNumbers(lost) == [lost[0].n] + LostNumbers(lost[1..]);
      NotWanted(lost[1..], now, n);
    }
  }

  // ---------- counters ----------

  /** Every number that was ever in the loss list of a run. */
  function EverListed(events: seq<Event>): set<int> {
    (if events == [] then {} else EverListed(events[..|events| - 1])) + SetOf(LostNumbers(IdealRun(events).state.lost))
  }

  /** `cumulativeLoss` counts each number that was ever missing once. */
  lemma {:induction false} EverIsEverListed(events: seq<Event>)
    requires Admissible(events)
    ensures IdealRun(events).state.ever == EverListed(events)
  {
    hide Gaps, Inserted, Late, Run, FirstDue;
    if events != [] {
      var before, e := events[..|events| - 1], events[|events| - 1];
      EverIsEverListed(before);
      RunRefines(events);
      var i, j := IdealRun(before).state, IdealRun(events).state;
      if e.Arrive? && !Late(i, e.n) {
        RelistedNumbers(Gaps(Inserted(i, e.n, e.packet, e.timeoutMs)), i.lost);
      } else {
        assert j.ever == i.ever;
        assert SetOf(LostNumbers(j.lost)) <= j.ever;
      }
    }
  }

  lemma CumulativeLossCounts(events: seq<Event>)
    requires Clean(events)
    ensures Run(events).state.cumulativeLoss == C.Counter32(|EverListed(events)|)
  {
    hide C.Counter32, C.Bumped, Run, IdealRun, EverListed, Clean, Admissible;
    CleanIsAdmissible(events);
    CleanRunRefines(events);
    EverIsEverListed(events);
    C.BumpedValue(0, |EverListed(events)|);
  }

  // ---------- accepted packets ----------

  predicate Accepted(events: seq<Event>, k: nat)
    requires k < |events|
  {
    events[k].Arrive? && !Late(IdealRun(events[..k]).state, events[k].n)
  }

  lemma AcceptedPrefix(events: seq<Event>, k: nat, m: nat)
    requires k < m <= |events|
    ensures Accepted(events[..m], k) <==> Accepted(events, k)
  {
    assert events[..m][..k] == events[..k];
  }

  // ---------- 16-bit conclusions ----------

  /** The program's own lists: what it has delivered, in order, and what it still
      caches, are images of one strictly increasing set of admitted numbers. */
  lemma CacheRunSafe(events: seq<Event>)
    requires Admissible(events)
    ensures var u := IdealRun(events);
            && Run(events).delivered == Packets(u.delivered)
            && Run(events).state.cached == CachedOf(u.state.held)
            && Increasing(u.delivered + Reversed(u.state.held))
            && multiset(u.delivered) + multiset(u.state.held) == multiset(Admitted(events))
  {
    RunRefines(events);
    DeliveredInOrder(events);
    Conserved(events);
    var u := IdealRun(events);
    ReversedIncreases(u.state.held);
    OrderedConcat(u.delivered, Reversed(u.state.held));
  }
}