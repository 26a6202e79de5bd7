/** The receiver's side of the repair loop: its reports are lists the NACK packet carries
    whole, and packets that come back leave the loss list, they and no others. */
module RepairReceiver {
  import opened SeqComparison
  import opened RtpPackets
  import opened SeqLemmas
  import opened ReceiverIdeal
  import opened ReceiverLosses
  import opened ReceiverRuns
  import opened ReceiverTheorems
  import opened ReceiverRequests
  import NackItems
  import C = ReceiverCache

  // ---------- a report ----------

  lemma NearbyCircular(ns: seq<int>)
    requires Ascending(ns) && forall m, n :: m in ns && n in ns ==> m - n < HALF_RANGE
    ensures NackItems.Circular(WrapAll(ns))
  {
    forall k | 0 < k < |ns| ensures IsSeqAfter(WrapAll(ns)[k - 1], WrapAll(ns)[k]) {
      WrapAllAt(ns, k - 1);
      WrapAllAt(ns, k);
      assert ns[k - 1] in ns && ns[k] in ns;
      AfterBridge(ns[k - 1], ns[k]);
    }
  }

  /** On a clean run the list of every report is one that packing and unpacking carry. */
  lemma ReportIsCircular(events: seq<Event>, now: nat)
    requires Clean(events)
    ensures NackItems.Circular(C.Requests(Run(events).state.losses, now))
    ensures NackItems.Unpacked(NackItems.Packed(C.Requests(Run(events).state.losses, now))) == C.Requests(Run(events).state.losses, now)
  {
    ReportIncreases(events, now);
    NearbyCircular(Reported(events, now));
    NackItems.PackRoundTrip(C.Requests(Run(events).state.losses, now));
  }

  // ---------- no gap ends at number 0 ----------

  /** Number 0 above another mark has the number before it among the marks. */
  predicate Followed(marks: seq<int>)
    requires marks != []
  {
    forall x :: x in marks && Wrap(x) == 0 && x > marks[|marks| - 1] ==> x - 1 in marks
  }

  lemma FollowedAt(marks: seq<int>, k: nat)
    requires marks != [] && Descending(marks) && Followed(marks) && k + 1 < |marks| && Wrap(marks[k]) == 0
    ensures marks[k] == marks[k + 1] + 1
  {
    var x := marks[k];
    assert x in marks && x > marks[|marks| - 1];
    assert x - 1 in marks;
    var b :| 0 <= b < |marks| && marks[b] == marks[k] - 1;
    assert b > k && marks[k + 1] >= marks[b];
  }

  lemma NoZeroEndIs(marks: seq<int>)
    requires marks != [] && Descending(marks)
    ensures NoZeroEnd(marks) <==> Followed(marks)
  {
    hide Wrap;
    if NoZeroEnd(marks) {
      forall x | x in marks && Wrap(x) == 0 && x > marks[|marks| - 1] ensures x - 1 in marks {
        var k :| 0 <= k < |marks| && marks[k] == x;
        assert marks[k + 1] in marks;
      }
    }
    if Followed(marks) {
      forall k | 0 <= k && k + 1 < |marks| ensures marks[k] == marks[k + 1] + 1 || Wrap(marks[k]) != 0 {
        if Wrap(marks[k]) == 0 {
          FollowedAt(marks, k);
        }
      }
    }
  }

  ghost predicate Tidy(i: Ideal) {
    Valid(i) && (Marks(i) != [] ==> Followed(Marks(i)))
  }

  lemma InMarks(i: Ideal, m: int)
    ensures m in Marks(i) <==> m in HeldNumbers(i.held) || i.last == Some(m)
  {
  }

  lemma InsertedMarks(i: Ideal, n: int, packet: RtpPacket, timeoutMs: nat, m: int)
    ensures m in Marks(Inserted(i, n, packet, timeoutMs)) <==> m in Marks(i) || m == n
  {
    var h := Held(n, packet, timeoutMs);
    InMarks(i, m);
    InMarks(Inserted(i, n, packet, timeoutMs), m);
    InsertNumbers(i.held, h, m);
  }

  lemma CollectTidy(i: Ideal, now: nat)
    requires Tidy(i)
    ensures Tidy(Collect(i, now))
  {
    var j := Collect(i, now);
    CollectValid(i, now);
    var k := FirstDue(i, now, 0);
    if k < |i.held| {
      MarksCut(i, k);
      CutFollowed(Marks(i), k);
    }
  }

  lemma MarksCut(i: Ideal, k: nat)
    requires k < |i.held|
    ensures Marks(i.(held := i.held[..k], last := Some(i.held[k].n))) == Marks(i)[..k + 1]
  {
    assert HeldNumbers(i.held[..k]) == HeldNumbers(i.held)[..k];
  }

  lemma CutFollowed(marks: seq<int>, k: nat)
    requires k < |marks| && Descending(marks) && Followed(marks)
    ensures Followed(marks[..k + 1])
  {
    NoZeroEndIs(marks);
    NoZeroEndIs(marks[..k + 1]);
  }

  lemma {:induction false} CleanTidy(events: seq<Event>)
    requires Clean(events)
    ensures Tidy(IdealRun(events).state)
  {
    if events != [] {
      var before, e := events[..|events| - 1], events[|events| - 1];
      CleanTidy(before);
      CleanIsAdmissible(events);
      RunRefines(events);
      RunRefines(before);
      StepTidy(IdealRun(before), e);
    }
  }

  lemma StepTidy(u: IdealTrace, e: Event)
    requires Tidy(u.state) && StepClean(u.state, e) && Valid(IdealStep(u, e).state)
    ensures Tidy(IdealStep(u, e).state)
  {
    hide Inserted, Relisted, Gaps, Valid, InWindow;
    match e
    case Arrive(n, packet, timeoutMs) =>
      if !Late(u.state, n) {
        PutTidy(u.state, n, packet, timeoutMs);
      }
    case CollectAt(now) =>
      CollectTidy(u.state, now);
    case ReportAt(now) =>
  }

  lemma PutTidy(i: Ideal, n: int, packet: RtpPacket, timeoutMs: nat)
    requires Valid(Put(i, n, packet, timeoutMs)) && !Late(i, n) && NoZeroEnd(Marks(Inserted(i, n, packet, timeoutMs)))
    ensures Tidy(Put(i, n, packet, timeoutMs))
  {
    hide Relisted, Gaps, Followed;
    var j := Put(i, n, packet, timeoutMs);
    assert Marks(j) == Marks(Inserted(i, n, packet, timeoutMs));
    MarksDescend(j);
    if Marks(j) != [] {
      NoZeroEndIs(Marks(j));
    }
  }

  // ---------- packets that come back ----------

  lemma SoughtInWindow(i: Ideal, n: int)
    requires Valid(i) && IsSought(i, n)
    ensures InWindow(i, n) && !Late(i, n) && i.held != []
  {
    if i.last.None? {
      forall k | 0 <= k < |i.held| ensures -HALF_RANGE <= n - i.held[k].n <= HALF_RANGE {
        assert Oldest(i.held) <= i.held[k].n <= Newest(i.held);
      }
    }
  }

  lemma LowestStays(i: Ideal, n: int, packet: RtpPacket, timeoutMs: nat)
    requires Valid(i) && IsSought(i, n) && Valid(Inserted(i, n, packet, timeoutMs))
    ensures var marks, more := Marks(i), Marks(Inserted(i, n, packet, timeoutMs));
            marks != [] && more != [] && more[|more| - 1] == marks[|marks| - 1]
  {
    SoughtInWindow(i, n);
    MarksDescend(i);
    MarksDescend(Inserted(i, n, packet, timeoutMs));
    InsertOldest(i.held, Held(n, packet, timeoutMs));
  }

  /** A packet that comes back leaves no gap that ends at number 0. */
  lemma BackIsTidy(i: Ideal, n: int, packet: RtpPacket, timeoutMs: nat)
    requires Tidy(i) && IsSought(i, n) && Valid(Inserted(i, n, packet, timeoutMs))
    ensures NoZeroEnd(Marks(Inserted(i, n, packet, timeoutMs)))
  {
    hide Inserted, Valid, Wrap;
    var j := Inserted(i, n, packet, timeoutMs);
    var marks, more := Marks(i), Marks(j);
    LowestStays(i, n, packet, timeoutMs);
    MarksDescend(j);
    forall x | x in more && Wrap(x) == 0 && x > more[|more| - 1] ensures x - 1 in more {
      InsertedMarks(i, n, packet, timeoutMs, x);
      InsertedMarks(i, n, packet, timeoutMs, x - 1);
    }
    NoZeroEndIs(more);
  }

  /** It is no longer missing, and nothing else changes about what is. */
  lemma BackIsFound(i: Ideal, n: int, packet: RtpPacket, timeoutMs: nat, m: int)
    requires Valid(i) && IsSought(i, n)
    ensures IsSought(Inserted(i, n, packet, timeoutMs), m) <==> IsSought(i, m) && m != n
  {
    var h := Held(n, packet, timeoutMs);
    SoughtInWindow(i, n);
    InsertNumbers(i.held, h, m);
    InsertOldest(i.held, h);
  }

  ghost predicate Back(i: Ideal, e: Event) {
    e.Arrive? && e.packet.seqNum == Wrap(e.n) && IsSought(i, e.n)
  }

  lemma BackStep(u: IdealTrace, e: Event)
    requires Good(u.state) && Tidy(u.state) && Back(u.state, e)
    ensures StepClean(u.state, e) && !Late(u.state, e.n)
    ensures forall m :: IsSought(IdealStep(u, e).state, m) <==> IsSought(u.state, m) && m != e.n
  {
    hide Inserted, Relisted, Gaps, Valid, LossesExact, EverKnown, InWindow;
    SoughtInWindow(u.state, e.n);
    InsertedValid(u.state, e.n, e.packet, e.timeoutMs);
    BackIsTidy(u.state, e.n, e.packet, e.timeoutMs);
    forall m ensures IsSought(IdealStep(u, e).state, m) <==> IsSought(u.state, m) && m != e.n {
      BackIsFound(u.state, e.n, e.packet, e.timeoutMs, m);
    }
  }

  /** None of the first `k` events brings number `m`. */
  predicate NotAmong(back: seq<Event>, k: nat, m: int)
    requires k <= |back| && forall a :: 0 <= a < |back| ==> back[a].Arrive?
  {
    forall a :: 0 <= a < k ==> back[a].n != m
  }

  /** Packets rebuilt for sought numbers come back, each once. */
  ghost predicate AllBack(i: Ideal, back: seq<Event>) {
    && (forall k :: 0 <= k < |back| ==> Back(i, back[k]))
    && (forall a, b :: 0 <= a < b < |back| ==> back[a].n != back[b].n)
  }

  /** After the first `k` came back, the others are sought. */
  ghost predicate Remaining(i: Ideal, j: Ideal, back: seq<Event>, k: nat)
    requires AllBack(i, back) && k <= |back|
  {
    forall m :: IsSought(j, m) <==> IsSought(i, m) && NotAmong(back, k, m)
  }

  lemma NextBack(i: Ideal, j: Ideal, back: seq<Event>, k: nat)
    requires AllBack(i, back) && k < |back| && Remaining(i, j, back, k)
    ensures Back(j, back[k])
  {
    hide IsSought;
    assert Back(i, back[k]) && NotAmong(back, k, back[k].n);
  }

  lemma RemainingStep(i: Ideal, j: Ideal, next: Ideal, back: seq<Event>, k: nat)
    requires AllBack(i, back) && k < |back| && Remaining(i, j, back, k)
    requires forall m :: IsSought(next, m) <==> IsSought(j, m) && m != back[k].n
    ensures Remaining(i, next, back, k + 1)
  {
    hide IsSought;
  }

  lemma CleanStep(before: seq<Event>, e: Event)
    requires Clean(before) && StepClean(IdealRun(before).state, e)
    ensures Clean(before + [e]) && IdealRun(before + [e]) == IdealStep(IdealRun(before), e)
  {
    hide StepClean, IdealStep;
    var all := before + [e];
    assert all[..|all| - 1] == before && all[|all| - 1] == e;
  }

  lemma {:induction false} BackRun(events: seq<Event>, back: seq<Event>, k: nat)
    requires Clean(events) && AllBack(IdealRun(events).state, back) && k <= |back|
    ensures Clean(events + back[..k])
    ensures Remaining(IdealRun(events).state, IdealRun(events + back[..k]).state, back, k)
    ensures k > 0 ==> !Late(IdealRun(events + back[..k - 1]).state, back[k - 1].n)
  {
    hide IsSought, Late, Clean, IdealRun, StepClean, IdealStep, Good, Tidy, AllBack;
    if k == 0 {
      assert events + back[..0] == events;
    } else {
      var i, before := IdealRun(events).state, events + back[..k - 1];
      BackRun(events, back, k - 1);
      CleanTidy(before);
      CleanIsAdmissible(before);
      RunRefines(before);
      NextBack(i, IdealRun(before).state, back, k - 1);
      BackStep(IdealRun(before), back[k - 1]);
      CleanStep(before, back[k - 1]);
      assert before + [back[k - 1]] == events + back[..k];
      RemainingStep(i, IdealRun(before).state, IdealRun(events + back[..k]).state, back, k - 1);
    }
  }

  /** What comes back leaves the loss list. After a clean run, let packets arrive for some
      of the sought numbers, in any order, each once. Then the 16-bit loss list is strictly
      descending and holds exactly the sought numbers that did not come back. */
  lemma RepairedLeave(events: seq<Event>, back: seq<Event>, ns: seq<int>)
    requires Clean(events) && AllBack(IdealRun(events).state, back) && back != []
    requires ns == LostNumbers(IdealRun(events + back).state.lost)
    ensures Clean(events + back) && |Run(events + back).state.losses| == |ns|
    ensures forall k :: 0 <= k < |ns| ==> Run(events + back).state.losses[k].seqNum == Wrap(ns[k])
    ensures Descending(ns) && forall m :: m in ns <==> IsSought(IdealRun(events).state, m) && NotAmong(back, |back|, m)
  {
    hide IsSought, Late, Run, IdealRun, Clean;
    BackRun(events, back, |back|);
    assert back[..|back|] == back;
    var all := events + back;
    assert all[..|all| - 1] == events + back[..|back| - 1] && all[|all| - 1] == back[|back| - 1];
    LossListExact(all, ns);
  }
}
