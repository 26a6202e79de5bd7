/** Deliveries and loss requests, and whole runs of the receiver cache. */
module ReceiverRuns {
  import opened SeqComparison
  import opened RtpPackets
  import opened ReceiverIdeal
  import opened ReceiverLosses
  import C = ReceiverCache

  // ---------- collecting ----------

  /** Position `k` ends the run that continues the last delivery, or has timed out. */
  predicate Due(i: Ideal, now: nat, k: nat)
    requires k < |i.held|
  {
    i.held[k].timeoutMs <= now || (i.last.Some? && i.held[k].n - i.last.value == |i.held| - k)
  }

  function FirstDue(i: Ideal, now: nat, k: nat): (r: nat)
    requires k <= |i.held|
    ensures k <= r <= |i.held|
    ensures r < |i.held| ==> Due(i, now, r)
    ensures forall j :: k <= j < r ==> !Due(i, now, j)
    decreases |i.held| - k
  {
    if k == |i.held| || Due(i, now, k) then k else FirstDue(i, now, k + 1)
  }

  function Reversed<T>(s: seq<T>): (r: seq<T>)
    ensures |r| == |s|
    ensures forall k :: 0 <= k < |s| ==> r[k] == s[|s| - 1 - k]
  {
    if s == [] then [] else Reversed(s[1..]) + [s[0]]
  }

  function Collected(i: Ideal, now: nat): seq<Held> {
    Reversed(i.held[FirstDue(i, now, 0)..])
  }

  function Collect(i: Ideal, now: nat): Ideal {
    var k := FirstDue(i, now, 0);
    if k == |i.held| then i else i.(held := i.held[..k], last := Some(i.held[k].n))
  }

  function Packets(held: seq<Held>): (r: seq<RtpPacket>)
    ensures |r| == |held|
  {
    seq(|held|, k requires 0 <= k < |held| => held[k].packet)
  }

  lemma NumbersSpread(held: seq<Held>, k: nat, z: nat)
    requires Numbered(held) && k <= z < |held|
    ensures held[k].n - held[z].n >= z - k
    decreases z - k
  {
    if k < z {
      NumbersSpread(held, k + 1, z);
    }
  }

  lemma NumberedPrefix(held: seq<Held>, k: nat)
    requires Numbered(held) && k <= |held|
    ensures Numbered(held[..k])
  {
  }

  /** The counted run is the contiguous one. */
  lemma {:induction false} ReadyMeaning(held: seq<Held>, last: int, k: nat)
    requires Numbered(held) && k < |held|
    requires last < Oldest(held) && Newest(held) <= last + HALF_RANGE
    ensures held[k].n - last == |held| - k <==> k >= |held| - C.ReadyCount(CachedOf(held), Wrap(last))
  {
    var z := |held| - 1;
    CachedAt(held, z);
    NumbersSpread(held, k, z);
    assert Oldest(held) <= Newest(held);
    NextBridge(last, held[z].n);
    if held[z].n == last + 1 {
      var init := held[..z];
      CachedSplit(held, z);
      NumberedPrefix(held, z);
      if k < z {
        assert init[k] == held[k] && Oldest(init) == held[z - 1].n && Newest(init) == Newest(held);
        ReadyMeaning(init, last + 1, k);
      }
    }
  }

  lemma {:induction false} DueRefines(s: C.CacheState, i: Ideal, now: nat, k: nat)
    requires Valid(i) && Core(s, i) && k <= C.ReadyIndex(s)
    ensures C.DueFrom(s.cached, C.ReadyIndex(s), now, k) == FirstDue(i, now, k)
    decreases |i.held| - k
  {
    if k < |i.held| {
      CachedAt(i.held, k);
      if i.last.Some? {
        ReadyMeaning(i.held, i.last.value, k);
      }
      if k < C.ReadyIndex(s) && s.cached[k].timeoutMs > now {
        DueRefines(s, i, now, k + 1);
      }
    }
  }

  lemma {:induction false} PacketsRefine(held: seq<Held>)
    ensures C.OldestFirst(CachedOf(held)) == Packets(Reversed(held))
  {
    if held != [] {
      PacketsRefine(held[1..]);
      assert CachedOf(held)[1..] == CachedOf(held[1..]);
    }
  }

  /** GetPackets delivers what Collect does and leaves what Collect leaves. */
  lemma CollectRefines(s: C.CacheState, i: Ideal, now: nat)
    requires Valid(i) && Core(s, i)
    ensures Core(C.AfterGet(s, now), Collect(i, now)) && Valid(Collect(i, now))
    ensures C.AfterGet(s, now).losses == s.losses && C.AfterGet(s, now).cumulativeLoss == s.cumulativeLoss
    ensures C.Delivered(s, now) == Packets(Collected(i, now))
  {
    hide Due, CachedOf, C.DueFrom, C.ReadyIndex;
    DueRefines(s, i, now, 0);
    var k := FirstDue(i, now, 0);
    CachedSplit(i.held, k);
    PacketsRefine(i.held[k..]);
    if k < |i.held| {
      CachedAt(i.held, k);
      CollectValid(i, now);
    }
  }

  lemma CollectValid(i: Ideal, now: nat)
    requires Valid(i)
    ensures Valid(Collect(i, now))
  {
    var k := FirstDue(i, now, 0);
    if k < |i.held| {
      NumberedPrefix(i.held, k);
      var rest := i.held[..k];
      if rest != [] {
        assert Newest(rest) == Newest(i.held) && Oldest(rest) == i.held[k - 1].n;
        assert i.held[k - 1].n > i.held[k].n >= Oldest(i.held);
      } else {
        assert i.held[k].n == Newest(i.held);
      }
    }
  }

  // ---------- what a collection leaves ----------

  /** `n` belongs to the ready run: everything after the last delivery up to it is held. */
  predicate Ready(i: Ideal, n: int) {
    i.last.Some? && forall m :: i.last.value < m <= n ==> m in HeldNumbers(i.held)
  }

  predicate TimedOut(i: Ideal, now: nat, k: nat)
    requires k < |i.held|
  {
    i.held[k].timeoutMs <= now
  }

  /** In the ready run positions count numbers. */
  lemma {:induction false} ReadyCounts(i: Ideal, k: nat, x: nat)
    requires Valid(i) && k <= x < |i.held| && Ready(i, i.held[k].n)
    ensures i.held[x].n - i.last.value == |i.held| - x
    decreases |i.held| - x
  {
    var floor := i.last.value;
    NumbersSpread(i.held, k, x);
    NumbersSpread(i.held, x, |i.held| - 1);
    if x + 1 < |i.held| {
      ReadyCounts(i, k, x + 1);
      floor := i.held[x + 1].n;
    }
    assert floor < i.held[x].n;
    assert floor + 1 in HeldNumbers(i.held);
    var y :| 0 <= y < |i.held| && HeldNumbers(i.held)[y] == floor + 1;
    if y < x {
      assert i.held[y].n > i.held[x].n;
    }
  }

  lemma CountsReady(i: Ideal, k: nat)
    requires Valid(i) && k < |i.held| && i.last.Some? && i.held[k].n - i.last.value == |i.held| - k
    ensures Ready(i, i.held[k].n)
  {
    forall m | i.last.value < m <= i.held[k].n ensures m in HeldNumbers(i.held) {
      var x := i.last.value + |i.held| - m;
      NumbersSpread(i.held, k, x);
      NumbersSpread(i.held, x, |i.held| - 1);
      assert HeldNumbers(i.held)[x] == m;
    }
  }

  /** A packet is due when it has timed out or ends a ready run. */
  lemma DueExactly(i: Ideal, now: nat, k: nat)
    requires Valid(i) && k < |i.held|
    ensures Due(i, now, k) <==> TimedOut(i, now, k) || Ready(i, i.held[k].n)
  {
    if Ready(i, i.held[k].n) {
      ReadyCounts(i, k, k);
    } else if i.last.Some? && i.held[k].n - i.last.value == |i.held| - k {
      CountsReady(i, k);
    }
  }

  /** Nothing that stays has timed out, and nothing of the run contiguous with the
      previous last delivery stays. */
  lemma CollectComplete(i: Ideal, now: nat)
    requires Valid(i)
    ensures forall k :: 0 <= k < |Collect(i, now).held| ==> Collect(i, now).held[k].timeoutMs > now
    ensures forall n :: n in HeldNumbers(Collect(i, now).held) ==> !Ready(i, n)
  {
    hide Ready, Valid;
    var rest := Collect(i, now).held;
    forall k | 0 <= k < |rest| ensures rest[k].timeoutMs > now && !Ready(i, rest[k].n) {
      assert rest[k] == i.held[k] && !Due(i, now, k);
      DueExactly(i, now, k);
    }
  }

  /** Exactly what is handed out: a held packet goes, and is in the delivery, if and only
      if it or a newer one has timed out or belongs to the ready run. */
  lemma DeliveredExactly(i: Ideal, now: nat, k: nat)
    requires Valid(i) && k < |i.held|
    ensures i.held[k] in Collected(i, now) <==> exists a :: 0 <= a <= k && (TimedOut(i, now, a) || Ready(i, i.held[a].n))
    ensures i.held[k] in Collect(i, now).held <==> i.held[k] !in Collected(i, now)
  {
    hide Ready, TimedOut, Valid;
    var d := FirstDue(i, now, 0);
    DistinctHeld(i, k, d);
    ReversedHas(i.held[d..], i.held[k]);
    DueFound(i, now, k);
  }

  lemma ReversedHas<T>(s: seq<T>, x: T)
    ensures x in Reversed(s) <==> x in s
  {
    if k :| 0 <= k < |s| && s[k] == x {
      assert Reversed(s)[|s| - 1 - k] == x;
    }
  }

  lemma DueFound(i: Ideal, now: nat, k: nat)
    requires Valid(i) && k < |i.held|
    ensures FirstDue(i, now, 0) <= k <==> exists a :: 0 <= a <= k && (TimedOut(i, now, a) || Ready(i, i.held[a].n))
  {
    hide Ready, TimedOut, Valid, Due;
    var d := FirstDue(i, now, 0);
    forall a | 0 <= a <= k ensures Due(i, now, a) <==> TimedOut(i, now, a) || Ready(i, i.held[a].n) {
      DueExactly(i, now, a);
    }
  }

  lemma DistinctHeld(i: Ideal, k: nat, d: nat)
    requires Valid(i) && k < |i.held| && d <= |i.held|
    ensures i.held[k] in i.held[..d] <==> k < d
    ensures i.held[k] in i.held[d..] <==> k >= d
  {
    assert forall a :: 0 <= a < |i.held| && a != k ==> i.held[a].n != i.held[k].n;
    if k >= d {
      assert i.held[d..][k - d] == i.held[k];
    }
  }

  /** The newest packet that has timed out is followed at once by a held one that the
      ready run does not reach. */
  predicate CutShort(i: Ideal, now: nat, k: nat) {
    && 0 < k < |i.held| && TimedOut(i, now, k) && (forall a :: 0 <= a < k ==> !TimedOut(i, now, a))
    && i.held[k - 1].n == i.held[k].n + 1 && !Ready(i, i.held[k - 1].n)
  }

  lemma CutShortIsFirst(i: Ideal, now: nat, k: nat)
    requires Valid(i) && CutShort(i, now, k)
    ensures FirstDue(i, now, 0) == k
  {
    var d := FirstDue(i, now, 0);
    DueExactly(i, now, k);
    if d < k {
      DueExactly(i, now, d);
      NumbersSpread(i.held, d, k - 1);
    }
  }

  lemma FirstIsCutShort(i: Ideal, now: nat, k: nat)
    requires Valid(i) && k == FirstDue(i, now, 0) && 0 < k < |i.held| && i.held[k - 1].n == i.held[k].n + 1
    ensures CutShort(i, now, k)
  {
    DueExactly(i, now, k);
    forall a | 0 <= a < k ensures !TimedOut(i, now, a) {
      assert !Due(i, now, a);
    }
    assert !Due(i, now, k - 1);
    DueExactly(i, now, k - 1);
    if !TimedOut(i, now, k) {
      ReadyNext(i, k);
    }
  }

  lemma ReadyNext(i: Ideal, k: nat)
    requires Valid(i) && 0 < k < |i.held| && Ready(i, i.held[k].n) && i.held[k - 1].n == i.held[k].n + 1
    ensures Ready(i, i.held[k - 1].n)
  {
    assert HeldNumbers(i.held)[k - 1] == i.held[k - 1].n;
  }

  /** A packet that continues the *new* last delivery does stay behind: exactly when the
      newest packet that has timed out is followed at once by a held one that the ready
      run does not reach. */
  lemma LeftBehindExactly(i: Ideal, now: nat)
    requires Valid(i)
    ensures var j := Collect(i, now);
            j.last.Some? && j.last.value + 1 in HeldNumbers(j.held) <==> exists k :: CutShort(i, now, k)
  {
    hide CutShort, Ready, Valid;
    var k := FirstDue(i, now, 0);
    var j := Collect(i, now);
    if c :| CutShort(i, now, c) {
      CutShortIsFirst(i, now, c);
      CutShortNext(i, now, c);
      assert HeldNumbers(j.held)[k - 1] == j.last.value + 1;
    }
    if j.last.Some? && j.last.value + 1 in HeldNumbers(j.held) {
      var m :| 0 <= m < |j.held| && HeldNumbers(j.held)[m] == j.last.value + 1;
      LeftBehindAt(i, now, k, m);
    }
  }

  lemma CutShortNext(i: Ideal, now: nat, k: nat)
    requires CutShort(i, now, k)
    ensures 0 < k < |i.held| && i.held[k - 1].n == i.held[k].n + 1
  {
  }

  /** The packet right after the previous last delivery does not stay. */
  lemma NextIsGone(i: Ideal, now: nat, m: nat)
    requires Valid(i) && m < |Collect(i, now).held| && i.last.Some?
    ensures Collect(i, now).held[m].n != i.last.value + 1
  {
    hide Valid, Ready;
    var rest := Collect(i, now).held;
    assert rest[m] == i.held[m] && HeldNumbers(rest)[m] == rest[m].n;
    if i.held[m].n == i.last.value + 1 {
      ReadyFirst(i, m);
    }
    CollectComplete(i, now);
  }

  lemma ReadyFirst(i: Ideal, k: nat)
    requires k < |i.held| && i.last.Some? && i.held[k].n == i.last.value + 1
    ensures Ready(i, i.held[k].n)
  {
    assert HeldNumbers(i.held)[k] == i.held[k].n;
  }

  lemma LeftBehindAt(i: Ideal, now: nat, k: nat, m: nat)
    requires Valid(i) && k == FirstDue(i, now, 0) && m < |Collect(i, now).held|
    requires Collect(i, now).last == Some(Collect(i, now).held[m].n - 1)
    ensures CutShort(i, now, k)
  {
    hide CutShort, Ready;
    if i.last.Some? {
      NextIsGone(i, now, m);
    }
    assert k < |i.held|;
    NumbersSpread(i.held, m, k);
    FirstIsCutShort(i, now, k);
  }

  // ---------- reporting losses ----------

  predicate Wants(l: Lost, now: nat) {
    !l.notified || l.lastNotifyMs + C.NACK_INTERVAL_MS <= now
  }

  function Noted(lost: seq<Lost>, now: nat): (r: seq<Lost>)
    ensures |r| == |lost|
    ensures forall k :: 0 <= k < |r| ==> r[k] == if Wants(lost[k], now) then Lost(lost[k].n, true, now) else lost[k]
  {
    seq(|lost|, k requires 0 <= k < |lost| => if Wants(lost[k], now) then Lost(lost[k].n, true, now) else lost[k])
  }

  function Wanted(lost: seq<Lost>, now: nat): seq<int> {
    if lost == [] then []
    else Wanted(lost[1..], now) + if Wants(lost[0], now) then [lost[0].n] else []
  }

  function Report(i: Ideal, now: nat): Ideal {
    i.(lost := Noted(i.lost, now))
  }

  lemma LossAt(lost: seq<Lost>, k: nat)
    requires k < |lost|
    ensures LossesOf(lost)[k] == LossOf(lost[k])
  {
    if k > 0 {
      LossAt(lost[1..], k - 1);
    }
  }

  lemma {:induction false} WantedRefines(lost: seq<Lost>, now: nat)
    ensures C.Requests(LossesOf(lost), now) == WrapAll(Wanted(lost, now))
  {
    if lost != [] {
      WantedRefines(lost[1..], now);
      assert LossesOf(lost)[1..] == LossesOf(lost[1..]);
      WrapAllConcat(Wanted(lost[1..], now), if Wants(lost[0], now) then [lost[0].n] else []);
      assert Wants(lost[0], now) ==> WrapAll([lost[0].n]) == [Wrap(lost[0].n)];
    }
  }

  lemma ReportRefines(s: C.CacheState, i: Ideal, now: nat)
    requires Core(s, i)
    ensures Core(C.AfterNack(s, now), Report(i, now))
    ensures C.AfterNack(s, now).cumulativeLoss == s.cumulativeLoss
    ensures s.losses == LossesOf(i.lost) ==>
              && C.AfterNack(s, now).losses == LossesOf(Report(i, now).lost)
              && C.Requests(s.losses, now) == WrapAll(Wanted(i.lost, now))
  {
    if s.losses == LossesOf(i.lost) {
      WantedRefines(i.lost, now);
      var noted := Noted(i.lost, now);
      forall k | 0 <= k < |noted| ensures C.AllNoted(s.losses, now)[k] == LossesOf(noted)[k] {
        LossAt(i.lost, k);
        LossAt(noted, k);
      }
    }
  }

  /** A request names listed numbers only, strictly increasing. */
  lemma {:induction false} WantedIncreases(lost: seq<Lost>, now: nat)
    requires Descending(LostNumbers(lost))
    ensures forall a, b :: 0 <= a < b < |Wanted(lost, now)| ==> Wanted(lost, now)[a] < Wanted(lost, now)[b]
    ensures forall m :: m in Wanted(lost, now) ==> exists k :: 0 <= k < |lost| && lost[k].n == m && Wants(lost[k], now)
  {
    if lost != [] {
      var rest := lost[1..];
      assert LostNumbers(lost) == [lost[0].n] + LostNumbers(rest);
      TailDescends(LostNumbers(lost));
      WantedIncreases(rest, now);
      forall m | m in Wanted(rest, now)
        ensures m < lost[0].n
        ensures exists k :: 0 <= k < |lost| && lost[k].n == m && Wants(lost[k], now)
      {
        var k :| 0 <= k < |rest| && rest[k].n == m && Wants(rest[k], now);
        assert LostNumbers(lost)[0] > LostNumbers(lost)[k + 1];
        assert lost[k + 1].n == m;
      }
      var w := Wanted(rest, now);
      assert forall a :: 0 <= a < |w| ==> w[a] in w;
    }
  }

  // ---------- what every step keeps ----------

  /** Every number that was ever sought is still listed, or held, or delivered
      past; every listed number was sought. */
  ghost predicate EverKnown(i: Ideal) {
    && (forall m :: m in i.ever ==> m < i.top)
    && (forall m :: m in i.ever && i.last.None? ==> i.held != [] && Oldest(i.held) < m)
    && (forall m :: m in i.ever && m in Gaps(i) ==> m in LostNumbers(i.lost))
    && (forall m :: m in LostNumbers(i.lost) ==> m in i.ever)
  }

  ghost predicate Good(i: Ideal) {
    Valid(i) && LossesExact(i) && EverKnown(i)
  }

  lemma {:induction false} RelistedNumbers(ns: seq<int>, lost: seq<Lost>)
    ensures LostNumbers(Relisted(ns, lost)) == ns
  {
    forall k | 0 <= k < |ns| ensures LostNumbers(Relisted(ns, lost))[k] == ns[k] {
      FindNumber(lost, ns[k]);
    }
  }

  lemma FindNumber(lost: seq<Lost>, n: int)
    ensures Find(lost, n).n == n
    ensures n in LostNumbers(lost) ==> Find(lost, n) in lost
  {
    if lost != [] {
      assert LostNumbers(lost) == [lost[0].n] + LostNumbers(lost[1..]);
      FindNumber(lost[1..], n);
    }
  }

  /** After an accepted packet the loss list holds exactly what is sought. */
  lemma PutExact(i: Ideal, n: int, packet: RtpPacket, timeoutMs: nat)
    requires Valid(i) && InWindow(i, n) && !Late(i, n) && packet.seqNum == Wrap(n)
    ensures var j := Put(i, n, packet, timeoutMs);
            && Valid(j) && LossesExact(j)
            && Descending(LostNumbers(j.lost))
            && forall m :: m in LostNumbers(j.lost) <==> IsSought(j, m)
  {
    var j := Put(i, n, packet, timeoutMs);
    var k := Inserted(i, n, packet, timeoutMs);
    InsertedValid(i, n, packet, timeoutMs);
    ValidUntouched(k, j);
    RelistedNumbers(Gaps(k), i.lost);
    MarksDescend(j);
    GapsDescend(j);
    assert Gaps(j) == Gaps(k);
    forall m ensures m in LostNumbers(j.lost) <==> IsSought(j, m) {
      GapsExactly(j, m);
    }
    forall l | 0 <= l < |j.lost| ensures j.lost[l].n in Gaps(j) && j.top - HALF_RANGE <= j.lost[l].n < j.top {
      assert LostNumbers(j.lost)[l] in Gaps(j);
      GapsExactly(j, j.lost[l].n);
    }
  }

  function SetOf(ns: seq<int>): set<int> { set m | m in ns }

  lemma SetOfCons(ns: seq<int>)
    requires ns != []
    ensures SetOf(ns) == {ns[0]} + SetOf(ns[1..])
  {
    assert ns == [ns[0]] + ns[1..];
  }

  lemma AddOne(s: set<int>, x: int)
    ensures |s + {x}| == |s| + if x in s then 0 else 1
  {
    if x in s {
      assert s + {x} == s;
    }
  }

  /** The set `ever` grows by the newly sought numbers only. */
  lemma {:induction false} EverCount(ever: set<int>, ns: seq<int>, lost: seq<Lost>)
    requires Descending(ns)
    requires forall m :: m in ns ==> (m in ever <==> m in LostNumbers(lost))
    ensures |ever + SetOf(ns)| == |ever| + NewCount(ns, lost)
  {
    if ns == [] {
      assert ever + SetOf(ns) == ever;
    } else {
      TailDescends(ns);
      EverCount(ever, ns[1..], lost);
      var smaller := ever + SetOf(ns[1..]);
      SetOfCons(ns);
      assert ever + SetOf(ns) == smaller + {ns[0]};
      AddOne(smaller, ns[0]);
    }
  }

  lemma PutKeepsEver(i: Ideal, n: int, packet: RtpPacket, timeoutMs: nat)
    requires Good(i) && InWindow(i, n) && !Late(i, n) && packet.seqNum == Wrap(n)
    ensures EverKnown(Put(i, n, packet, timeoutMs))
    ensures |Put(i, n, packet, timeoutMs).ever| == |i.ever| + NewCount(Gaps(Inserted(i, n, packet, timeoutMs)), i.lost)
  {
    var j := Put(i, n, packet, timeoutMs);
    var k := Inserted(i, n, packet, timeoutMs);
    InsertedValid(i, n, packet, timeoutMs);
    RelistedNumbers(Gaps(k), i.lost);
    InsertOldest(i.held, Held(n, packet, timeoutMs));
    MarksDescend(k);
    GapsDescend(k);
    assert Gaps(j) == Gaps(k);
    forall m | m in Gaps(k) ensures m in i.ever <==> m in LostNumbers(i.lost) {
      GapsExactly(k, m);
      GapsExactly(i, m);
      InsertNumbers(i.held, Held(n, packet, timeoutMs), m);
    }
    EverCount(i.ever, Gaps(k), i.lost);
    assert j.ever == i.ever + SetOf(Gaps(k));
    forall m | m in j.ever ensures m < j.top && (j.last.None? ==> Oldest(j.held) < m) {
      if m in Gaps(k) {
        GapsExactly(k, m);
      }
    }
  }

  lemma PutGood(i: Ideal, n: int, packet: RtpPacket, timeoutMs: nat)
    requires Good(i) && InWindow(i, n) && packet.seqNum == Wrap(n)
    ensures Good(Put(i, n, packet, timeoutMs))
    ensures |Put(i, n, packet, timeoutMs).ever| == |i.ever| + Added(i, n, packet, timeoutMs)
  {
    if !Late(i, n) {
      PutExact(i, n, packet, timeoutMs);
      PutKeepsEver(i, n, packet, timeoutMs);
    }
  }

  /** A delivery settles what lies before it and leaves the rest as it was. */
  lemma CollectMissing(i: Ideal, now: nat, m: int)
    requires Valid(i)
    ensures IsMissing(Collect(i, now), m) <==> IsMissing(i, m) && !Late(Collect(i, now), m)
  {
    var k := FirstDue(i, now, 0);
    var j := Collect(i, now);
    CollectValid(i, now);
    if k < |i.held| {
      assert HeldNumbers(j.held) == HeldNumbers(i.held)[..k];
      assert forall a :: k <= a < |i.held| ==> HeldNumbers(i.held)[a] <= i.held[k].n;
      assert i.held[k].n >= Oldest(i.held);
      if IsMissing(j, m) {
        assert m !in HeldNumbers(i.held);
      }
      if IsMissing(i, m) {
        assert m !in HeldNumbers(j.held);
      }
    }
  }

  lemma CollectGood(i: Ideal, now: nat)
    requires Good(i)
    ensures Good(Collect(i, now))
  {
    var j := Collect(i, now);
    CollectValid(i, now);
    forall m ensures m in Gaps(j) ==> m in Gaps(i) {
      CollectMissing(i, now, m);
      GapsExactly(i, m);
      GapsExactly(j, m);
    }
    forall k | 0 <= k < |j.lost| ensures j.lost[k].n in Gaps(j) || Late(j, j.lost[k].n) {
      CollectMissing(i, now, j.lost[k].n);
      GapsExactly(i, j.lost[k].n);
      GapsExactly(j, j.lost[k].n);
    }
  }

  lemma ReportGood(i: Ideal, now: nat)
    requires Good(i)
    ensures Good(Report(i, now))
  {
    hide Missing, HeldNumbers, Numbered, Oldest, Newest;
    var j := Report(i, now);
    assert LostNumbers(j.lost) == LostNumbers(i.lost);
    ValidUntouched(i, j);
    assert Marks(j) == Marks(i);
    forall k | 0 <= k < |j.lost| ensures j.lost[k].n == i.lost[k].n {
    }
  }

  // ---------- runs ----------

  datatype Event =
    | Arrive(n: int, packet: RtpPacket, timeoutMs: nat)
    | CollectAt(now: nat)
    | ReportAt(now: nat)

  datatype Request = Request(seqNum: Seq16, at: nat)

  datatype Asked = Asked(n: int, at: nat)

  /** What a run of the 16-bit cache leads to. */
  datatype Trace = Trace(state: C.CacheState, delivered: seq<RtpPacket>, requests: seq<Request>)

  datatype IdealTrace = IdealTrace(state: Ideal, delivered: seq<Held>, asked: seq<Asked>)

  function RequestsAt(seqs: seq<Seq16>, now: nat): (r: seq<Request>)
    ensures |r| == |seqs|
  {
    seq(|seqs|, k requires 0 <= k < |seqs| => Request(seqs[k], now))
  }

  function AskedAt(ns: seq<int>, now: nat): (r: seq<Asked>)
    ensures |r| == |ns|
    ensures forall k :: 0 <= k < |r| ==> r[k] == Asked(ns[k], now)
  {
    seq(|ns|, k requires 0 <= k < |ns| => Asked(ns[k], now))
  }

  function Step(t: Trace, e: Event): Trace {
    match e
    case Arrive(_, packet, timeoutMs) => t.(state := C.AfterPut(t.state, packet, timeoutMs))
    case CollectAt(now) =>
      Trace(C.AfterGet(t.state, now), t.delivered + C.Delivered(t.state, now), t.requests)
    case ReportAt(now) =>
      Trace(C.AfterNack(t.state, now), t.delivered, t.requests + RequestsAt(C.Requests(t.state.losses, now), now))
  }

  function IdealStep(t: IdealTrace, e: Event): IdealTrace {
    match e
    case Arrive(n, packet, timeoutMs) => t.(state := Put(t.state, n, packet, timeoutMs))
    case CollectAt(now) => IdealTrace(Collect(t.state, now), t.delivered + Collected(t.state, now), t.asked)
    case ReportAt(now) => IdealTrace(Report(t.state, now), t.delivered, t.asked + AskedAt(Wanted(t.state.lost, now), now))
  }

  function Run(events: seq<Event>): Trace {
    if events == [] then Trace(C.EMPTY, [], [])
    else Step(Run(events[..|events| - 1]), events[|events| - 1])
  }

  function IdealRun(events: seq<Event>): IdealTrace {
    if events == [] then IdealTrace(NOTHING, [], [])
    else IdealStep(IdealRun(events[..|events| - 1]), events[|events| - 1])
  }

  /** Each arrival carries its 16-bit number and comes within the window. */
  predicate StepAdmissible(i: Ideal, e: Event) {
    e.Arrive? ==> e.packet.seqNum == Wrap(e.n) && InWindow(i, e.n)
  }

  /** Moreover no gap it leaves ends at number 0. */
  predicate StepClean(i: Ideal, e: Event) {
    && StepAdmissible(i, e)
    && (e.Arrive? && !Late(i, e.n) ==> NoZeroEnd(Marks(Inserted(i, e.n, e.packet, e.timeoutMs))))
  }

  predicate Admissible(events: seq<Event>) {
    events != [] ==>
      var before := events[..|events| - 1];
      Admissible(before) && StepAdmissible(IdealRun(before).state, events[|events| - 1])
  }

  predicate Clean(events: seq<Event>) {
    events != [] ==>
      var before := events[..|events| - 1];
      Clean(before) && StepClean(IdealRun(before).state, events[|events| - 1])
  }

  /** In every run the window allows, the ideal state is good, the 16-bit cache
      represents it, and both deliver the same packets. */
  lemma {:induction false} RunRefines(events: seq<Event>)
    requires Admissible(events)
    ensures Good(IdealRun(events).state)
    ensures Core(Run(events).state, IdealRun(events).state)
    ensures Run(events).delivered == Packets(IdealRun(events).delivered)
  {
    if events != [] {
      var before := events[..|events| - 1];
      RunRefines(before);
      StepRefines(Run(before), IdealRun(before), events[|events| - 1]);
    }
  }

  lemma PacketsJoin(a: seq<Held>, b: seq<Held>)
    ensures Packets(a + b) == Packets(a) + Packets(b)
  {
  }

  lemma StepRefines(t: Trace, u: IdealTrace, e: Event)
    requires Good(u.state) && Core(t.state, u.state) && StepAdmissible(u.state, e)
    requires t.delivered == Packets(u.delivered)
    ensures Good(IdealStep(u, e).state) && Core(Step(t, e).state, IdealStep(u, e).state)
    ensures Step(t, e).delivered == Packets(IdealStep(u, e).delivered)
  {
    match e
    case Arrive(n, packet, timeoutMs) =>
      PutCoreRefines(t.state, u.state, n, packet, timeoutMs);
      PutGood(u.state, n, packet, timeoutMs);
    case CollectAt(now) =>
      CollectRefines(t.state, u.state, now);
      CollectGood(u.state, now);
      PacketsJoin(u.delivered, Collected(u.state, now));
    case ReportAt(now) =>
      ReportRefines(t.state, u.state, now);
      ReportGood(u.state, now);
  }
}
