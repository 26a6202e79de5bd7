/** Whether the receiver asks for packets it holds: exactly when an accepted packet leaves
    a gap that ends at number 0 beside another held packet, or is listed twice. */
module ReceiverHeld {
  import opened SeqComparison
  import opened RtpPackets
  import opened ReceiverIdeal
  import opened ReceiverLosses
  import opened ReceiverRuns
  import opened ReceiverStraddle
  import opened ReceiverRequests
  import C = ReceiverCache

  // ---------- what a gap that ends at number 0 lists ----------

  lemma ZeroGapVisits(this_: Seq16, v: Seq16)
    requires v != 0 && !IsNextSeq(this_, 0)
    ensures v in C.GapTo(0, this_)
  {
    DownMember(MAX_SEQ, 0, v);
  }

  lemma ZeroEndVisits(marks: seq<int>, k: nat, v: Seq16)
    requires ZeroEndAt(marks, k) && 0 < marks[k] - marks[k + 1] <= HALF_RANGE && v != 0
    ensures v in SeqGaps(WrapAll(marks))
  {
    hide Wrap, C.GapTo, SeqGaps;
    WrapAllAt(marks, k);
    WrapAllAt(marks, k + 1);
    NextBridge(marks[k + 1], marks[k]);
    var pre, post := GapAt(WrapAll(marks), k);
    ZeroGapVisits(Wrap(marks[k + 1]), v);
  }

  /** An accepted packet that leaves a gap ending at number 0 lists every number but 0 after
      the last delivery, whatever was listed before and whatever is held or was ever sent. */
  lemma ZeroEndListsAll(s: C.CacheState, i: Ideal, n: int, packet: RtpPacket, timeoutMs: nat, v: Seq16)
    requires Valid(i) && Core(s, i) && InWindow(i, n) && packet.seqNum == Wrap(n) && !Late(i, n)
    requires !NoZeroEnd(Marks(Inserted(i, n, packet, timeoutMs)))
    requires v != 0 && (i.last.Some? ==> IsSeqBefore(Wrap(i.last.value), v))
    ensures Lists(C.AfterPut(s, packet, timeoutMs).losses, v)
  {
    hide Wrap, C.AfterPut, C.AllGaps, C.Merged, C.Pruned, C.EraseLoss, NoZeroEnd, SeqGaps;
    var j := Inserted(i, n, packet, timeoutMs);
    var k := FindZeroEnd(Marks(j));
    InsertedValid(i, n, packet, timeoutMs);
    MarksDescend(j);
    MarkSpan(Marks(j), k);
    ZeroEndVisits(Marks(j), k, v);
    PutVisits(s, i, n, packet, timeoutMs, SeqGaps(WrapAll(Marks(j))));
    PutLists(s, packet, timeoutMs, SeqGaps(WrapAll(Marks(j))), v);
  }

  /** The numbers the gap filler visits after an insertion. */
  lemma PutVisits(s: C.CacheState, i: Ideal, n: int, packet: RtpPacket, timeoutMs: nat, gaps: seq<Seq16>)
    requires Valid(i) && Core(s, i) && InWindow(i, n) && packet.seqNum == Wrap(n) && !Late(i, n)
    requires gaps == SeqGaps(WrapAll(Marks(Inserted(i, n, packet, timeoutMs))))
    ensures !C.Rejects(s, packet.seqNum)
    ensures C.InsertCached(s.cached, C.CachedPacket(packet, timeoutMs)) == CachedOf(Inserted(i, n, packet, timeoutMs).held)
    ensures C.AllGaps(s.(cached := C.InsertCached(s.cached, C.CachedPacket(packet, timeoutMs)))) == gaps
  {
    hide C.AllGaps, C.InsertCached, Wrap, SeqGaps;
    var j := Inserted(i, n, packet, timeoutMs);
    RejectsLate(s, i, n);
    InsertedValid(i, n, packet, timeoutMs);
    WindowNear(i, n);
    InsertRefines(i.held, Held(n, packet, timeoutMs));
    VisitedFromMarks(s, j, CachedOf(j.held));
  }

  /** What is listed afterwards: what was, less one entry of the packet's own number, and
      what was visited, as far as it comes after the last delivery. */
  lemma PutLists(s: C.CacheState, packet: RtpPacket, timeoutMs: nat, gaps: seq<Seq16>, v: Seq16)
    requires !C.Rejects(s, packet.seqNum)
    requires C.AllGaps(s.(cached := C.InsertCached(s.cached, C.CachedPacket(packet, timeoutMs)))) == gaps
    ensures var losses := C.AfterPut(s, packet, timeoutMs).losses;
            && (Lists(losses, v) ==> Lists(C.EraseLoss(s.losses, packet.seqNum), v) || v in gaps)
            && ((s.hasCallback ==> IsSeqBefore(s.latestCallback, v)) ==>
                  (Lists(losses, v) <==> Lists(C.EraseLoss(s.losses, packet.seqNum), v) || v in gaps))
  {
    hide C.Merged, C.Pruned, C.AllGaps, C.InsertCached, C.EraseLoss, Lists;
    var erased := C.EraseLoss(s.losses, packet.seqNum);
    AcceptedLosses(s, packet, timeoutMs);
    MergedFrom(erased, gaps, v);
    PrunedFrom(C.Merged(erased, gaps), s.latestCallback, v);
  }

  /** Erasing takes one entry. */
  lemma {:induction false} ErasedExactly(losses: seq<C.LossSeq>, n: Seq16, v: Seq16)
    ensures Lists(C.EraseLoss(losses, n), v) <==> if v == n then ListsTwice(losses, v) else Lists(losses, v)
  {
    if losses != [] {
      var rest := losses[1..];
      assert losses == [losses[0]] + rest;
      ErasedExactly(rest, n, v);
      ListsCons(losses[0], rest, v);
      TwiceSplit(losses[0], rest, v);
      TwiceIsListed(rest, v);
      ListsCons(losses[0], C.EraseLoss(rest, n), v);
    }
  }

  lemma TwiceIsListed(losses: seq<C.LossSeq>, v: Seq16)
    ensures ListsTwice(losses, v) ==> Lists(losses, v)
  {
  }

  // ---------- held numbers ----------

  /** No number of a cached packet is in the loss list. */
  predicate NoneListed(s: C.CacheState) {
    forall k :: 0 <= k < |s.cached| ==> !Lists(s.losses, s.cached[k].Seq())
  }

  lemma HeldSeq(held: seq<Held>, k: nat)
    requires Numbered(held) && k < |held|
    ensures CachedOf(held)[k].Seq() == Wrap(held[k].n)
  {
    CachedAt(held, k);
  }

  /** A held number lies after the last delivery, and no missing number shares its bits. */
  lemma HeldApart(j: Ideal, k: nat)
    requires Valid(j) && k < |j.held|
    ensures j.last.Some? ==> IsSeqBefore(Wrap(j.last.value), Wrap(j.held[k].n))
    ensures forall m :: m in Gaps(j) ==> Wrap(m) != Wrap(j.held[k].n)
  {
    hide Gaps, Wrap;
    HeldWithin(j, k);
    if j.last.Some? {
      AfterBridge(j.last.value, j.held[k].n);
    }
    forall m | m in Gaps(j) ensures Wrap(m) != Wrap(j.held[k].n) {
      GapsExactly(j, m);
      assert HeldNumbers(j.held)[k] == j.held[k].n;
      WrapInjective(m, j.held[k].n);
    }
  }

  lemma HeldWithin(j: Ideal, k: nat)
    requires Valid(j) && k < |j.held|
    ensures Oldest(j.held) <= j.held[k].n <= Newest(j.held) && j.top == Newest(j.held)
    ensures j.last.Some? ==> j.last.value < j.held[k].n <= j.last.value + HALF_RANGE
    ensures Newest(j.held) - Oldest(j.held) <= HALF_RANGE
  {
  }

  lemma WrapsInto(ns: seq<int>, v: Seq16)
    requires v in WrapAll(ns)
    ensures exists m :: m in ns && Wrap(m) == v
  {
    var k :| 0 <= k < |WrapAll(ns)| && WrapAll(ns)[k] == v;
    WrapAllAt(ns, k);
    assert ns[k] in ns;
  }

  /** One packet's own part of the condition. */
  predicate Harmless(s: C.CacheState, i: Ideal, n: int, packet: RtpPacket, timeoutMs: nat) {
    var j := Inserted(i, n, packet, timeoutMs);
    && (NoZeroEnd(Marks(j)) || |j.held| == 1)
    && !ListsTwice(s.losses, packet.seqNum)
  }

  lemma ZeroEndHeld(j: Ideal) returns (z: nat)
    requires Valid(j) && !NoZeroEnd(Marks(j))
    ensures z < |j.held| && Wrap(j.held[z].n) == 0
  {
    z := FindZeroEnd(Marks(j));
  }

  lemma OtherNotZero(j: Ideal, z: nat, k: nat)
    requires Valid(j) && z < |j.held| && k < |j.held| && k != z && Wrap(j.held[z].n) == 0
    ensures Wrap(j.held[k].n) != 0
  {
    HeldWithin(j, z);
    HeldWithin(j, k);
    WrapInjective(j.held[z].n, j.held[k].n);
  }

  /** Any other packet held beside one that ends a gap at number 0 is listed. */
  lemma OtherIsListed(s: C.CacheState, i: Ideal, n: int, packet: RtpPacket, timeoutMs: nat)
    requires Valid(i) && Core(s, i) && InWindow(i, n) && packet.seqNum == Wrap(n) && !Late(i, n)
    requires var j := Inserted(i, n, packet, timeoutMs); !NoZeroEnd(Marks(j)) && |j.held| != 1
    ensures !NoneListed(C.AfterPut(s, packet, timeoutMs))
  {
    hide Wrap, NoZeroEnd, C.AfterPut, C.AllGaps, C.InsertCached, SeqGaps, Gaps;
    var j := Inserted(i, n, packet, timeoutMs);
    InsertedValid(i, n, packet, timeoutMs);
    var z := ZeroEndHeld(j);
    var k := if z == 0 then 1 else 0;
    OtherNotZero(j, z, k);
    HeldApart(j, k);
    PutVisits(s, i, n, packet, timeoutMs, SeqGaps(WrapAll(Marks(j))));
    PutCaches(s, packet, timeoutMs);
    HeldSeq(j.held, k);
    ZeroEndListsAll(s, i, n, packet, timeoutMs, Wrap(j.held[k].n));
    assert Lists(C.AfterPut(s, packet, timeoutMs).losses, C.AfterPut(s, packet, timeoutMs).cached[k].Seq());
  }

  lemma PutCaches(s: C.CacheState, packet: RtpPacket, timeoutMs: nat)
    requires !C.Rejects(s, packet.seqNum)
    ensures C.AfterPut(s, packet, timeoutMs).cached == C.InsertCached(s.cached, C.CachedPacket(packet, timeoutMs))
  {
    AcceptedFields(s, packet, timeoutMs);
  }

  lemma OwnPlace(i: Ideal, n: int, packet: RtpPacket, timeoutMs: nat) returns (k: nat)
    ensures k < |Inserted(i, n, packet, timeoutMs).held| && Inserted(i, n, packet, timeoutMs).held[k].n == n
  {
    var j := Inserted(i, n, packet, timeoutMs);
    InsertNumbers(i.held, Held(n, packet, timeoutMs), n);
    k :| 0 <= k < |j.held| && HeldNumbers(j.held)[k] == n;
  }

  /** A number listed twice stays listed when its packet comes. */
  lemma TwiceStays(s: C.CacheState, i: Ideal, n: int, packet: RtpPacket, timeoutMs: nat)
    requires Valid(i) && Core(s, i) && InWindow(i, n) && packet.seqNum == Wrap(n) && !Late(i, n)
    requires ListsTwice(s.losses, packet.seqNum)
    ensures !NoneListed(C.AfterPut(s, packet, timeoutMs))
  {
    hide Wrap, C.AfterPut, C.AllGaps, C.InsertCached, SeqGaps, Gaps, C.EraseLoss, ListsTwice;
    var j := Inserted(i, n, packet, timeoutMs);
    var gaps := SeqGaps(WrapAll(Marks(j)));
    InsertedValid(i, n, packet, timeoutMs);
    var k := OwnPlace(i, n, packet, timeoutMs);
    HeldApart(j, k);
    PutVisits(s, i, n, packet, timeoutMs, gaps);
    PutCaches(s, packet, timeoutMs);
    HeldSeq(j.held, k);
    ErasedExactly(s.losses, packet.seqNum, packet.seqNum);
    PutLists(s, packet, timeoutMs, gaps, packet.seqNum);
    assert Lists(C.AfterPut(s, packet, timeoutMs).losses, C.AfterPut(s, packet, timeoutMs).cached[k].Seq());
  }

  lemma VisitedAreGaps(j: Ideal)
    requires Valid(j) && NoZeroEnd(Marks(j))
    ensures SeqGaps(WrapAll(Marks(j))) == WrapAll(Gaps(j))
  {
    MarksDescend(j);
    GapsRefine(Marks(j));
  }

  /** Otherwise what was not listed is not listed. */
  lemma HarmlessKeeps(s: C.CacheState, i: Ideal, n: int, packet: RtpPacket, timeoutMs: nat, k: nat)
    requires Valid(i) && Core(s, i) && InWindow(i, n) && packet.seqNum == Wrap(n) && !Late(i, n)
    requires NoneListed(s) && !Lists(s.losses, 0) && Harmless(s, i, n, packet, timeoutMs)
    requires k < |Inserted(i, n, packet, timeoutMs).held|
    ensures !Lists(C.AfterPut(s, packet, timeoutMs).losses, Wrap(Inserted(i, n, packet, timeoutMs).held[k].n))
  {
    hide Wrap, C.AfterPut, C.AllGaps, C.InsertCached, SeqGaps, Gaps, C.EraseLoss, ListsTwice, Lists, NoZeroEnd;
    var j := Inserted(i, n, packet, timeoutMs);
    InsertedValid(i, n, packet, timeoutMs);
    var gaps := SeqGaps(WrapAll(Marks(j)));
    var v := Wrap(j.held[k].n);
    PutVisits(s, i, n, packet, timeoutMs, gaps);
    PutLists(s, packet, timeoutMs, gaps, v);
    ErasedExactly(s.losses, packet.seqNum, v);
    KeptUnlisted(s, i, n, packet, timeoutMs, k);
    if NoZeroEnd(Marks(j)) {
      VisitedAreGaps(j);
      HeldApart(j, k);
      if v in gaps {
        WrapsInto(Gaps(j), v);
      }
    } else {
      var z := ZeroEndHeld(j);
      PutNeverLists(s, packet, timeoutMs);
    }
  }

  lemma KeptUnlisted(s: C.CacheState, i: Ideal, n: int, packet: RtpPacket, timeoutMs: nat, k: nat)
    requires Valid(i) && Core(s, i) && packet.seqNum == Wrap(n) && NoneListed(s)
    requires k < |Inserted(i, n, packet, timeoutMs).held|
    ensures var m := Inserted(i, n, packet, timeoutMs).held[k].n; Wrap(m) == packet.seqNum || !Lists(s.losses, Wrap(m))
  {
    hide Lists, Wrap;
    var h := Held(n, packet, timeoutMs);
    var m := InsertHeld(i.held, h)[k].n;
    assert HeldNumbers(InsertHeld(i.held, h))[k] == m;
    InsertNumbers(i.held, h, m);
    if m != n {
      var a :| 0 <= a < |i.held| && HeldNumbers(i.held)[a] == m;
      HeldSeq(i.held, a);
    }
  }

  /** The exact condition for one accepted packet, when no held number is listed before:
      none is listed afterwards if and only if the packet leaves no gap that ends at
      number 0 beside another held packet, and its own number was not listed twice. */
  lemma HeldListedExactly(s: C.CacheState, i: Ideal, n: int, packet: RtpPacket, timeoutMs: nat)
    requires Valid(i) && Core(s, i) && InWindow(i, n) && packet.seqNum == Wrap(n) && !Late(i, n)
    requires NoneListed(s) && !Lists(s.losses, 0)
    ensures NoneListed(C.AfterPut(s, packet, timeoutMs)) <==> Harmless(s, i, n, packet, timeoutMs)
  {
    hide Wrap, C.AfterPut, C.InsertCached, ListsTwice, Lists, NoZeroEnd, Core, Inserted;
    var j := Inserted(i, n, packet, timeoutMs);
    if !NoZeroEnd(Marks(j)) && |j.held| != 1 {
      OtherIsListed(s, i, n, packet, timeoutMs);
    } else if ListsTwice(s.losses, packet.seqNum) {
      TwiceStays(s, i, n, packet, timeoutMs);
    } else {
      PutVisits(s, i, n, packet, timeoutMs, SeqGaps(WrapAll(Marks(j))));
      PutCaches(s, packet, timeoutMs);
      InsertedValid(i, n, packet, timeoutMs);
      forall k | 0 <= k < |j.held| ensures !Lists(C.AfterPut(s, packet, timeoutMs).losses, CachedOf(j.held)[k].Seq()) {
        HarmlessKeeps(s, i, n, packet, timeoutMs, k);
        HeldSeq(j.held, k);
      }
    }
  }

  // ---------- whole runs ----------

  /** No report at `now` would ask for a packet that is cached. */
  predicate AsksNoneHeld(s: C.CacheState, now: nat) {
    forall k :: 0 <= k < |s.cached| ==> s.cached[k].Seq() !in C.Requests(s.losses, now)
  }

  /** Whatever was received so far, and whenever it is asked, a report names no held number. */
  ghost predicate NeverAsksHeld(events: seq<Event>) {
    forall k, now: nat :: 0 <= k <= |events| ==> AsksNoneHeld(Run(events[..k]).state, now)
  }

  ghost predicate NeverListsHeld(events: seq<Event>) {
    forall k :: 0 <= k <= |events| ==> NoneListed(Run(events[..k]).state)
  }

  lemma {:induction false} RequestsListed(losses: seq<C.LossSeq>, now: nat, v: Seq16)
    ensures v in C.Requests(losses, now) ==> Lists(losses, v)
    ensures (forall k :: 0 <= k < |losses| ==> C.WantsNack(losses[k], now)) ==> (v in C.Requests(losses, now) <==> Lists(losses, v))
  {
    if losses != [] {
      assert losses == [losses[0]] + losses[1..];
      RequestsListed(losses[1..], now, v);
      ListsCons(losses[0], losses[1..], v);
    }
  }

  /** What is listed is asked for sooner or later. */
  lemma AskedIsListed(s: C.CacheState, now: nat)
    ensures NoneListed(s) ==> AsksNoneHeld(s, now)
    ensures now == LateEnough(s.losses) && AsksNoneHeld(s, now) ==> NoneListed(s)
  {
    forall k | 0 <= k < |s.cached|
      ensures s.cached[k].Seq() in C.Requests(s.losses, now) ==> Lists(s.losses, s.cached[k].Seq())
      ensures now == LateEnough(s.losses) && Lists(s.losses, s.cached[k].Seq()) ==> s.cached[k].Seq() in C.Requests(s.losses, now)
    {
      RequestsListed(s.losses, now, s.cached[k].Seq());
    }
  }

  lemma AsksAreLists(events: seq<Event>)
    ensures NeverAsksHeld(events) <==> NeverListsHeld(events)
  {
    hide Run, NoneListed, AsksNoneHeld;
    forall k, now: nat | 0 <= k <= |events| && NoneListed(Run(events[..k]).state) ensures AsksNoneHeld(Run(events[..k]).state, now) {
      AskedIsListed(Run(events[..k]).state, now);
    }
    if NeverAsksHeld(events) {
      forall k | 0 <= k <= |events| ensures NoneListed(Run(events[..k]).state) {
        var now := LateEnough(Run(events[..k]).state.losses);
        assert AsksNoneHeld(Run(events[..k]).state, now);
        AskedIsListed(Run(events[..k]).state, now);
      }
    }
  }

  predicate StepHarmless(s: C.CacheState, i: Ideal, e: Event) {
    e.Arrive? && !Late(i, e.n) ==> Harmless(s, i, e.n, e.packet, e.timeoutMs)
  }

  /** Every accepted packet is harmless. */
  predicate Orderly(events: seq<Event>) {
    events != [] ==>
      var before := events[..|events| - 1];
      Orderly(before) && StepHarmless(Run(before).state, IdealRun(before).state, events[|events| - 1])
  }

  lemma CollectUnlisted(s: C.CacheState, now: nat)
    requires NoneListed(s)
    ensures NoneListed(C.AfterGet(s, now))
  {
    hide Lists;
  }

  lemma ReportUnlisted(s: C.CacheState, now: nat)
    requires NoneListed(s)
    ensures NoneListed(C.AfterNack(s, now))
  {
    hide Lists;
    forall k | 0 <= k < |s.cached| ensures !Lists(C.AllNoted(s.losses, now), s.cached[k].Seq()) {
      NotedLists(s.losses, now, s.cached[k].Seq());
    }
  }

  lemma LateKeeps(s: C.CacheState, i: Ideal, n: int, packet: RtpPacket, timeoutMs: nat)
    requires Core(s, i) && InWindow(i, n) && packet.seqNum == Wrap(n) && Late(i, n)
    ensures C.AfterPut(s, packet, timeoutMs) == s
  {
    RejectsLate(s, i, n);
  }

  lemma StepExactly(t: Trace, i: Ideal, e: Event)
    requires Valid(i) && Core(t.state, i) && StepAdmissible(i, e) && NoneListed(t.state) && !Lists(t.state.losses, 0)
    ensures NoneListed(Step(t, e).state) <==> StepHarmless(t.state, i, e)
  {
    hide NoneListed, Harmless, Core, Valid, InWindow, C.AfterPut, Lists;
    match e
    case Arrive(n, packet, timeoutMs) =>
      if Late(i, n) {
        LateKeeps(t.state, i, n, packet, timeoutMs);
      } else {
        HeldListedExactly(t.state, i, n, packet, timeoutMs);
      }
    case CollectAt(now) =>
      CollectUnlisted(t.state, now);
    case ReportAt(now) =>
      ReportUnlisted(t.state, now);
  }

  lemma NothingListed()
    ensures NoneListed(C.EMPTY)
  {
  }

  lemma ListsPrefix(events: seq<Event>)
    requires events != []
    ensures NeverListsHeld(events) <==> NeverListsHeld(events[..|events| - 1]) && NoneListed(Run(events).state)
  {
    hide Run, NoneListed;
    var before := events[..|events| - 1];
    forall k | 0 <= k <= |before| ensures before[..k] == events[..k] {
    }
    assert events[..|events|] == events;
    if NeverListsHeld(events) {
      forall k | 0 <= k <= |before| ensures NoneListed(Run(before[..k]).state) {
        assert NoneListed(Run(events[..k]).state);
      }
    }
    if NeverListsHeld(before) && NoneListed(Run(events).state) {
      forall k | 0 <= k <= |events| ensures NoneListed(Run(events[..k]).state) {
        assert k <= |before| ==> NoneListed(Run(before[..k]).state);
      }
    }
  }

  lemma {:induction false} ListsExactly(events: seq<Event>)
    requires Admissible(events)
    ensures NeverListsHeld(events) <==> Orderly(events)
  {
    hide NoneListed, Run, IdealRun, StepHarmless, Lists, Step, Good;
    if events == [] {
      NothingListed();
      EmptyRun();
      assert events[..0] == [];
    } else {
      var before, e := events[..|events| - 1], events[|events| - 1];
      ListsExactly(before);
      ListsPrefix(events);
      if NeverListsHeld(before) {
        assert before[..|before|] == before;
        RunRefines(before);
        ZeroNeverListed(before);
        LastStep(events);
        GoodIsValid(IdealRun(before).state);
        StepExactly(Run(before), IdealRun(before).state, e);
      }
    }
  }

  lemma GoodIsValid(i: Ideal)
    requires Good(i)
    ensures Valid(i)
  {
  }

  lemma EmptyRun()
    ensures Run([]).state == C.EMPTY
  {
  }

  lemma LastStep(events: seq<Event>)
    requires events != []
    ensures Run(events) == Step(Run(events[..|events| - 1]), events[|events| - 1])
  {
  }

  /** The exact condition over whole runs: no report at any moment asks for a packet that
      is cached if and only if no accepted packet leaves a gap that ends at number 0 beside
      another held packet, or was listed twice when it came. */
  lemma HeldAskedExactly(events: seq<Event>)
    requires Admissible(events)
    ensures NeverAsksHeld(events) <==> Orderly(events)
  {
    hide NeverAsksHeld, NeverListsHeld, Orderly;
    AsksAreLists(events);
    ListsExactly(events);
  }

  lemma CleanListsOnce(events: seq<Event>, v: Seq16)
    requires Clean(events)
    ensures !ListsTwice(Run(events).state.losses, v)
  {
    hide Clean, Run, ListsTwice, Distinct;
    var losses := Run(events).state.losses;
    ReportIncreases(events, LateEnough(losses));
    if ListsTwice(losses, v) {
      TwiceRequested(losses, LateEnough(losses), v);
    }
  }

  /** Runs in which no accepted packet leaves a gap that ends at number 0 are among them. */
  lemma {:induction false} CleanIsOrderly(events: seq<Event>)
    requires Clean(events)
    ensures Orderly(events)
  {
    hide Run, IdealRun, ListsTwice, NoZeroEnd;
    if events != [] {
      var before, e := events[..|events| - 1], events[|events| - 1];
      CleanIsOrderly(before);
      if e.Arrive? {
        CleanListsOnce(before, e.packet.seqNum);
      }
    }
  }
}
