/** What becomes of the packets the FEC decoder holds: over whole runs nothing it
    cached or rebuilt is lost or released twice, and how it can stop releasing. */
module FecConservation {
  import opened SeqComparison
  import opened RtpPackets
  import opened SeqLemmas
  import opened FecStream
  import opened FecIdeal
  import opened FecTurn
  import opened FecRefinement
  import opened FecPass
  import opened FecRelease
  import opened FecRuns
  import D = FecDecoder

  // ---------- what a call holds ----------

  function SetOf(ns: seq<int>): set<int> {
    set m | m in ns
  }

  /** What is cached after the arrivals and the recovery of a call. */
  function Gathered(stream: Stream, cfg: D.Config, i: Ideal, ns: seq<int>): Ideal
    requires CacheNumbers(i, ns).nums != [] && AllSent(stream, CacheNumbers(i, ns).nums)
  {
    RecoverAll(stream, cfg, CacheNumbers(i, ns))
  }

  /** Every number that is cached or rebuilt at any time in a run. */
  ghost function Held(stream: Stream, cfg: D.Config, i: Ideal, calls: seq<seq<int>>): set<int>
    requires RunOk(stream, cfg, i, calls)
    decreases |calls|
  {
    if calls == [] then SetOf(i.nums)
    else SetOf(Gathered(stream, cfg, i, calls[0]).nums) + Held(stream, cfg, DecodeNumbers(stream, cfg, i, calls[0]).0, calls[1..])
  }

  /** Cached and not released yet. */
  function Waiting(i: Ideal): set<int> {
    set m | m in i.nums && !FecIdeal.Released(i.last, m)
  }

  lemma {:induction false} CacheKeeps(i: Ideal, ns: seq<int>)
    requires Ascending(i.nums)
    ensures Ascending(CacheNumbers(i, ns).nums) && CacheNumbers(i, ns).last == i.last
    ensures forall m :: m in CacheNumbers(i, ns).nums <==> m in i.nums || (m in ns && (i.last.None? || i.last.value <= m))
    decreases |ns|
  {
    if ns != [] {
      var before, n := ns[..|ns| - 1], ns[|ns| - 1];
      CacheKeeps(i, before);
      PlaceMembers(CacheNumbers(i, before).nums, n);
      assert ns == before + [n];
    }
  }

  lemma {:induction false} PassKeeps(stream: Stream, i: Ideal, top: int, fs: seq<int>)
    requires Ascending(i.nums)
    ensures var j := RecoverNumbers(stream, i, top, fs);
            && Ascending(j.nums) && j.last == i.last
            && (forall m :: m in i.nums ==> m in j.nums)
            && (forall m :: m in j.nums ==> m in i.nums || (m <= top && !FecIdeal.Released(i.last, m)))
    decreases fs
  {
    if fs != [] {
      var j := RecoverNumber(stream, i, top, fs[0]);
      if j != i {
        var m := RecoveredNumber(stream, i, top, fs[0]);
        PlaceMembers(i.nums, m);
      }
      PassKeeps(stream, j, top, fs[1..]);
    }
  }

  /** Caching and recovery only add, and rebuild nothing released. */
  lemma GatheredKeeps(stream: Stream, cfg: D.Config, i: Ideal, ns: seq<int>)
    requires Ascending(i.nums) && CacheNumbers(i, ns).nums != [] && AllSent(stream, CacheNumbers(i, ns).nums)
    ensures var j := Gathered(stream, cfg, i, ns);
            && Ascending(j.nums) && j.nums != [] && j.last == i.last
            && (forall m :: m in i.nums ==> m in j.nums)
            && (forall m :: m in j.nums && FecIdeal.Released(i.last, m) ==> m in i.nums || i.last == Some(m))
  {
    hide CacheNumbers, RecoverNumbers, FecNumbers;
    CacheKeeps(i, ns);
    var c := CacheNumbers(i, ns);
    PassKeeps(stream, c, c.nums[|c.nums| - 1], FecNumbers(stream, cfg, c.nums));
  }

  // ---------- what a release settles ----------

  /** Among cached numbers, those that count as released are those handed out. */
  predicate Settled(i: Ideal, done: set<int>) {
    && (i.last.Some? ==> i.last.value in done)
    && (forall m :: m in done ==> FecIdeal.Released(i.last, m))
    && (forall m :: m in i.nums && FecIdeal.Released(i.last, m) ==> m in done)
  }

  /** Of the numbers that remain, a release hands out a first part: up to its newest one. */
  lemma ContinuedIsPrefix(last: Option<int>, late: seq<int>, rest: seq<int>, m: int)
    requires Ascending(rest) && m in rest && (late != [] ==> late[|late| - 1] < rest[0])
    requires late + Continued(last, late, rest) != []
    requires var out := late + Continued(last, late, rest); m <= out[|out| - 1]
    ensures m in Continued(last, late, rest)
  {
    ContinuedShape(last, late, rest);
    var run := Continued(last, late, rest);
    var k :| 0 <= k < |rest| && rest[k] == m;
    assert rest[0] <= rest[k];
    assert forall a :: 0 <= a < k ==> rest[a] < rest[k];
    if k < |run| {
      assert run[k] == m;
    }
  }

  /** A release hands out, keeps waiting or finds released before all that is cached. */
  lemma EmitSettles(i: Ideal, cfg: D.Config, done: set<int>)
    requires i.nums != [] && Ascending(i.nums) && Settled(i, done)
    ensures var (j, out) := EmitNumbers(i, cfg);
            && Settled(j, done + SetOf(out)) && Ascending(j.nums)
            && SetOf(out) <= SetOf(i.nums) <= done + SetOf(out) + SetOf(j.nums)
  {
    var (j, out) := EmitNumbers(i, cfg);
    var k := OutOfRange(i.nums, i.nums[|i.nums| - 1], cfg.maxDifference);
    EmitAscends(i, cfg);
    EmitDrops(i, cfg, k);
    forall m | m in i.nums && FecIdeal.Released(j.last, m) && !FecIdeal.Released(i.last, m) ensures m in out {
      HandedOut(i, cfg, k, m);
    }
    forall m | m in out ensures FecIdeal.Released(j.last, m) {
      UpToLast(out, m);
    }
    SplitMembers(i.nums, k);
  }

  lemma HandedOut(i: Ideal, cfg: D.Config, k: nat, m: int)
    requires i.nums != [] && Ascending(i.nums) && k == OutOfRange(i.nums, i.nums[|i.nums| - 1], cfg.maxDifference)
    requires m in i.nums && FecIdeal.Released(EmitNumbers(i, cfg).0.last, m) && !FecIdeal.Released(i.last, m)
    ensures m in EmitNumbers(i, cfg).1
  {
    hide OutOfRange, Late, Continued;
    SplitMembers(i.nums, k);
    SplitOrdered(i.nums, k);
    HandedOutOf(i.last, i.nums[..k], i.nums[k..], m);
  }

  lemma SplitOrdered(nums: seq<int>, k: nat)
    requires Ascending(nums) && k <= |nums|
    ensures Ascending(nums[..k]) && Ascending(nums[k..])
    ensures k < |nums| ==> forall x :: x in nums[..k] ==> x < nums[k..][0]
  {
  }

  /** An unreleased number that counts as released after handing out was handed out. */
  lemma HandedOutOf(last: Option<int>, older: seq<int>, rest: seq<int>, m: int)
    requires Ascending(older) && Ascending(rest) && (rest != [] ==> forall x :: x in older ==> x < rest[0])
    requires (m in older || m in rest) && !FecIdeal.Released(last, m)
    requires var out := Late(last, older) + Continued(last, Late(last, older), rest);
             m in older || (out != [] && m <= out[|out| - 1])
    ensures m in Late(last, older) + Continued(last, Late(last, older), rest)
  {
    hide Late, Continued;
    var late := Late(last, older);
    LateAscends(last, older);
    if m !in older {
      assert late != [] ==> late[|late| - 1] in late;
      ContinuedIsPrefix(last, late, rest, m);
    }
  }

  // ---------- runs ----------

  lemma CallSettles(stream: Stream, cfg: D.Config, i: Ideal, ns: seq<int>, done: set<int>)
    requires Ascending(i.nums) && Settled(i, done)
    requires CacheNumbers(i, ns).nums != [] && AllSent(stream, CacheNumbers(i, ns).nums)
    ensures var (j, out) := DecodeNumbers(stream, cfg, i, ns);
            && Settled(j, done + SetOf(out)) && Ascending(j.nums)
            && SetOf(out) <= SetOf(Gathered(stream, cfg, i, ns).nums) <= done + SetOf(out) + SetOf(j.nums)
  {
    hide EmitNumbers, RecoverAll, CacheNumbers;
    GatheredKeeps(stream, cfg, i, ns);
    EmitSettles(Gathered(stream, cfg, i, ns), cfg, done);
  }

  lemma HeldFirst(stream: Stream, cfg: D.Config, i: Ideal, calls: seq<seq<int>>)
    requires Ascending(i.nums) && RunOk(stream, cfg, i, calls)
    ensures SetOf(i.nums) <= Held(stream, cfg, i, calls)
  {
    if calls != [] {
      GatheredKeeps(stream, cfg, i, calls[0]);
    }
  }

  lemma {:induction false} RunConserves(stream: Stream, cfg: D.Config, i: Ideal, calls: seq<seq<int>>, done: set<int>)
    requires Ascending(i.nums) && Settled(i, done) && RunOk(stream, cfg, i, calls)
    ensures var (j, out) := DecodeRun(stream, cfg, i, calls);
            && done + SetOf(out) + Waiting(j) == done + Held(stream, cfg, i, calls)
            && Settled(j, done + SetOf(out))
    decreases |calls|
  {
    hide DecodeNumbers, Gathered, CacheNumbers;
    if calls != [] {
      var (j, out) := DecodeNumbers(stream, cfg, i, calls[0]);
      CallSettles(stream, cfg, i, calls[0], done);
      RunConserves(stream, cfg, j, calls[1..], done + SetOf(out));
      HeldFirst(stream, cfg, j, calls[1..]);
      var (last, rest) := DecodeRun(stream, cfg, j, calls[1..]);
      SetsJoin(out, rest, done);
      SetsCovered(SetOf(Gathered(stream, cfg, i, calls[0]).nums), done, SetOf(out), Held(stream, cfg, j, calls[1..]));
    } else {
      assert done + Waiting(i) == done + SetOf(i.nums);
    }
  }

  lemma SetsJoin(a: seq<int>, b: seq<int>, done: set<int>)
    ensures done + SetOf(a + b) == done + SetOf(a) + SetOf(b)
  {
  }

  lemma SetsCovered(gathered: set<int>, done: set<int>, out: set<int>, held: set<int>)
    requires out <= gathered <= done + out + held
    ensures done + out + held == done + (gathered + held)
  {
  }

  /** Conservation, over every run of calls on an honest stream: what the program has
      released are the packets of `released`, each once; what it still has in its cache
      are the packets of `cached`; and every number it ever cached or rebuilt is either
      released or cached and not released yet, never both. */
  lemma Conserved(stream: Stream, cfg: D.Config, calls: seq<seq<int>>, batches: seq<seq<RtpPacket>>)
    requires Honest(stream, cfg) && RunOk(stream, cfg, FRESH, calls) && Given(stream, calls, batches)
    ensures SafeRun(D.EMPTY, cfg, batches)
    ensures var (j, released) := DecodeRun(stream, cfg, FRESH, calls);
            && Ascending(released) && AllSent(stream, released) && AllSent(stream, j.nums) && Ascending(j.nums)
            && RunOutput(D.EMPTY, cfg, batches) == PacketsFor(stream, released)
            && D.PacketsOf(StateAfter(D.EMPTY, cfg, batches).cached) == PacketsFor(stream, j.nums)
            && SetOf(released) + Waiting(j) == Held(stream, cfg, FRESH, calls)
            && SetOf(released) !! Waiting(j)
  {
    hide Related, Honest, SafeRun, RunOutput, StateAfter;
    EmptyRelated(stream, cfg);
    var found := RunRefines(stream, cfg, D.EMPTY, FRESH, map[], calls, batches);
    RunConserves(stream, cfg, FRESH, calls, {});
    CachedPackets(stream, cfg, StateAfter(D.EMPTY, cfg, batches), DecodeRun(stream, cfg, FRESH, calls).0, found);
  }

  lemma CachedPackets(stream: Stream, cfg: D.Config, s: D.DecoderState, i: Ideal, found: map<int, seq<int>>)
    requires Honest(stream, cfg) && Related(stream, cfg, s, i, found)
    ensures AllSent(stream, i.nums) && Ascending(i.nums) && D.PacketsOf(s.cached) == PacketsFor(stream, i.nums)
  {
    SlotsOf(stream, cfg, s, i);
  }

  // ---------- releasing nothing ----------

  /** The place of the oldest cached packet within range of the newest, or of the
      newest when no other is. */
  function OldestInRange(nums: seq<int>, range: Seq16): (k: nat)
    requires nums != []
    ensures k < |nums|
  {
    var k := OutOfRange(nums, nums[|nums| - 1], range);
    if k == |nums| then |nums| - 1 else k
  }

  lemma ReleasedBelow(last: Option<int>, nums: seq<int>, k: nat, a: nat)
    requires Ascending(nums) && a <= k < |nums| && FecIdeal.Released(last, nums[k])
    ensures FecIdeal.Released(last, nums[a])
  {
  }

  lemma NothingIdeally(i: Ideal, cfg: D.Config)
    requires i.nums != [] && Ascending(i.nums)
    ensures EmitNumbers(i, cfg).1 == [] <==> FecIdeal.Released(i.last, i.nums[OldestInRange(i.nums, cfg.maxDifference)])
  {
    hide OutOfRange, Late, Continued;
    var k := OutOfRange(i.nums, i.nums[|i.nums| - 1], cfg.maxDifference);
    var o := OldestInRange(i.nums, cfg.maxDifference);
    var older := i.nums[..k];
    LateAscends(i.last, older);
    if FecIdeal.Released(i.last, i.nums[o]) {
      forall m | m in older ensures FecIdeal.Released(i.last, m) {
        var a :| 0 <= a < k && i.nums[a] == m;
        ReleasedBelow(i.last, i.nums, o, a);
      }
      NoneLate(i.last, older);
      assert k < |i.nums| ==> i.nums[k..][0] == i.nums[o];
      ContinuedNone(i.last, i.nums[k..]);
    } else if k == |i.nums| {
      assert older[o] in older;
    } else {
      assert i.nums[k..][0] == i.nums[o];
      ContinuedSome(i.last, Late(i.last, older), i.nums[k..]);
    }
  }

  lemma {:induction false} NoneLate(last: Option<int>, nums: seq<int>)
    requires forall m :: m in nums ==> FecIdeal.Released(last, m)
    ensures Late(last, nums) == []
  {
    if nums != [] {
      NoneLate(last, nums[..|nums| - 1]);
    }
  }

  lemma ContinuedNone(last: Option<int>, rest: seq<int>)
    requires rest == [] || FecIdeal.Released(last, rest[0])
    ensures Continued(last, [], rest) == []
  {
  }

  lemma ContinuedSome(last: Option<int>, late: seq<int>, rest: seq<int>)
    requires rest != [] && !FecIdeal.Released(last, rest[0])
    ensures late + Continued(last, late, rest) != []
  {
  }

  /** The end of a call releases nothing if and only if the oldest cached packet within
      range of the newest (the newest, when no other is) was released before, whatever
      else is ready. */
  lemma NothingExactly(stream: Stream, cfg: D.Config, s: D.DecoderState, i: Ideal, found: map<int, seq<int>>, lo: int)
    requires Honest(stream, cfg) && Related(stream, cfg, s, i, found) && Window(stream, cfg, i, lo) && s.cached != []
    ensures var k := D.EvictCount(s.cached, s.cached[|s.cached| - 1].Seq(), cfg.maxDifference);
            var oldest := if k == |s.cached| then k - 1 else k;
            D.Emitted(s, cfg, []).1 == [] <==> !D.NotYetOutput(s, s.cached[oldest].Seq())
  {
    hide Honest, D.Emitted, EmitNumbers, Related;
    var result := D.Emitted(s, cfg, []);
    OldestCarries(stream, cfg, s, i, found, lo);
    EmittedRefines(stream, cfg, s, i, found, lo, result.0, result.1);
    NothingIdeally(i, cfg);
  }

  lemma OldestCarries(stream: Stream, cfg: D.Config, s: D.DecoderState, i: Ideal, found: map<int, seq<int>>, lo: int)
    requires Honest(stream, cfg) && Related(stream, cfg, s, i, found) && Window(stream, cfg, i, lo) && s.cached != []
    ensures |s.cached| == |i.nums| && Ascending(i.nums)
    ensures var k := D.EvictCount(s.cached, s.cached[|s.cached| - 1].Seq(), cfg.maxDifference);
            var oldest := if k == |s.cached| then k - 1 else k;
            oldest == OldestInRange(i.nums, cfg.maxDifference)
            && (D.NotYetOutput(s, s.cached[oldest].Seq()) <==> !FecIdeal.Released(i.last, i.nums[oldest]))
  {
    hide Honest, SlotOk, Records;
    WindowCarries(stream, cfg, s, i, found, lo);
    ComparedFrom(stream, cfg, s, i, lo);
    OldestCompared(s, i, lo, cfg.maxDifference);
  }

  lemma ComparedFrom(stream: Stream, cfg: D.Config, s: D.DecoderState, i: Ideal, lo: int)
    requires Shape(stream, cfg, s, i) && Window(stream, cfg, i, lo)
    ensures Compared(s, i.last, lo)
  {
  }

  lemma OldestCompared(s: D.DecoderState, i: Ideal, lo: int, range: Seq16)
    requires Carrying(s.cached, i.nums, lo) && Ascending(i.nums) && i.nums != [] && Compared(s, i.last, lo)
    ensures var k := D.EvictCount(s.cached, s.cached[|s.cached| - 1].Seq(), range);
            var oldest := if k == |s.cached| then k - 1 else k;
            oldest == OldestInRange(i.nums, range)
            && (D.NotYetOutput(s, s.cached[oldest].Seq()) <==> !FecIdeal.Released(i.last, i.nums[oldest]))
  {
    hide D.EvictCount, OutOfRange, D.NotYetOutput, Wrap;
    var top := i.nums[|i.nums| - 1];
    forall m | m in i.nums ensures m <= top {
    }
    EvictCountRefines(s.cached, i.nums, lo, top, range);
    NotYetBridge(s, i.last, lo, i.nums[OldestInRange(i.nums, range)]);
  }

  // ---------- stalling ----------

  /** The oldest of at least two cached numbers is released, and all are in its range. */
  predicate Stalled(i: Ideal, oldest: int, range: Seq16) {
    && Ascending(i.nums) && |i.nums| >= 2 && i.nums[0] == oldest && FecIdeal.Released(i.last, oldest)
    && i.nums[|i.nums| - 1] <= oldest + range
  }

  lemma OldestStays(stream: Stream, cfg: D.Config, i: Ideal, ns: seq<int>, oldest: int)
    requires Stalled(i, oldest, cfg.maxDifference) && (forall n :: n in ns ==> n <= oldest + cfg.maxDifference)
    requires CacheNumbers(i, ns).nums != [] && AllSent(stream, CacheNumbers(i, ns).nums)
    ensures Stalled(Gathered(stream, cfg, i, ns), oldest, cfg.maxDifference) && Gathered(stream, cfg, i, ns).last == i.last
  {
    hide CacheNumbers, RecoverNumbers, FecNumbers;
    CacheKeeps(i, ns);
    var c := CacheNumbers(i, ns);
    var top := c.nums[|c.nums| - 1];
    assert top in c.nums && oldest in c.nums;
    FirstAndSecond(i.nums, c.nums, oldest);
    PassKeeps(stream, c, top, FecNumbers(stream, cfg, c.nums));
    var g := Gathered(stream, cfg, i, ns);
    FirstAndSecond(c.nums, g.nums, oldest);
    assert g.nums[|g.nums| - 1] in g.nums;
  }

  lemma FirstAndSecond(nums: seq<int>, more: seq<int>, oldest: int)
    requires Ascending(nums) && Ascending(more) && |nums| >= 2 && nums[0] == oldest
    requires (forall m :: m in nums ==> m in more) && (forall m :: m in more ==> m >= oldest)
    ensures |more| >= 2 && more[0] == oldest
  {
    assert nums[0] in nums && nums[1] in nums;
    var a :| 0 <= a < |more| && more[a] == nums[0];
    var b :| 0 <= b < |more| && more[b] == nums[1];
    assert more[0] in more;
  }

  lemma StalledCall(stream: Stream, cfg: D.Config, i: Ideal, ns: seq<int>, oldest: int)
    requires Stalled(i, oldest, cfg.maxDifference) && (forall n :: n in ns ==> n <= oldest + cfg.maxDifference)
    requires CacheNumbers(i, ns).nums != [] && AllSent(stream, CacheNumbers(i, ns).nums)
    ensures DecodeNumbers(stream, cfg, i, ns).1 == []
    ensures Stalled(DecodeNumbers(stream, cfg, i, ns).0, oldest, cfg.maxDifference)
  {
    hide CacheNumbers, RecoverAll;
    OldestStays(stream, cfg, i, ns, oldest);
    var g := Gathered(stream, cfg, i, ns);
    NothingIdeally(g, cfg);
    assert OutOfRange(g.nums, g.nums[|g.nums| - 1], cfg.maxDifference) == 0;
    assert g.nums[0..] == g.nums;
  }

  lemma {:induction false} StalledRun(stream: Stream, cfg: D.Config, i: Ideal, calls: seq<seq<int>>, oldest: int)
    requires Stalled(i, oldest, cfg.maxDifference) && RunOk(stream, cfg, i, calls)
    requires forall k :: 0 <= k < |calls| ==> forall n :: n in calls[k] ==> n <= oldest + cfg.maxDifference
    ensures DecodeRun(stream, cfg, i, calls).1 == []
    decreases |calls|
  {
    hide DecodeNumbers, Stalled, CacheNumbers;
    if calls != [] {
      StalledCall(stream, cfg, i, calls[0], oldest);
      StalledRun(stream, cfg, DecodeNumbers(stream, cfg, i, calls[0]).0, calls[1..], oldest);
    }
  }

  lemma PairStalls(stream: Stream, cfg: D.Config, calls: seq<seq<int>>)
    requires 0 in stream.sent && 1 in stream.sent && !stream.IsFec(cfg, 0) && !stream.IsFec(cfg, 1)
    requires cfg.maxDifference > 0 && calls != [] && calls[0] == [0, 1] && RunOk(stream, cfg, FRESH, calls)
    requires forall k :: 0 < k < |calls| ==> forall n :: n in calls[k] ==> n <= cfg.maxDifference
    ensures DecodeRun(stream, cfg, FRESH, calls).1 == [0, 1]
  {
    hide EmitNumbers, RecoverAll, CacheNumbers;
    PairCached();
    PairNotFec(cfg, stream);
    PairEmitted(cfg);
    StalledRun(stream, cfg, Ideal([0, 1], Some(1)), calls[1..], 0);
  }

  /** How the decoder stalls, from its start: after one call with packets 0 and 1 it
      releases nothing more, however many calls follow and whatever they bring, as long
      as nothing newer than the cache range arrives. */
  lemma StallsFromStart(stream: Stream, cfg: D.Config, calls: seq<seq<int>>, batches: seq<seq<RtpPacket>>)
    requires Honest(stream, cfg) && 0 in stream.sent && 1 in stream.sent && !stream.IsFec(cfg, 0) && !stream.IsFec(cfg, 1)
    requires cfg.maxDifference > 0 && calls != [] && calls[0] == [0, 1]
    requires RunOk(stream, cfg, FRESH, calls) && Given(stream, calls, batches)
    requires forall k :: 0 < k < |calls| ==> forall n :: n in calls[k] ==> n <= cfg.maxDifference
    ensures SafeRun(D.EMPTY, cfg, batches) && RunOutput(D.EMPTY, cfg, batches) == [stream.sent[0], stream.sent[1]]
  {
    hide Honest, RunOutput, RunOk, DecodeRun, Given;
    FecRunSafe(stream, cfg, calls, batches);
    PairStalls(stream, cfg, calls);
  }

  lemma ThirdCached()
    ensures CacheNumbers(Ideal([0, 1], Some(1)), [2]) == Ideal([0, 1, 2], Some(1))
  {
    var ns := [2];
    assert ns[..0] == [];
    assert Place([0, 1][1..], 2) == [1, 2] by {
      assert [0, 1][1..] == [1] && [1][1..] == [];
    }
  }

  lemma ThirdCall(cfg: D.Config, p: RtpPacket, q: RtpPacket, r: RtpPacket, stream: Stream)
    requires Pair(cfg, p, q) && HonestPacket(cfg, r, 2) && r.PayloadType() != cfg.fecType
    requires stream == Stream(map[0 := p, 1 := q, 2 := r], map[])
    ensures Honest(stream, cfg) && CallOk(stream, cfg, FRESH, [0, 1], 0)
    ensures CallOk(stream, cfg, Ideal([0, 1], Some(1)), [2], 0)
  {
    hide HonestPacket, CacheNumbers, Place;
    PairCached();
    ThirdCached();
  }

  /** The shortest such run: the packet after the first two is at hand and not released. */
  lemma ThirdWithheld(cfg: D.Config, p: RtpPacket, q: RtpPacket, r: RtpPacket)
    requires Pair(cfg, p, q) && HonestPacket(cfg, r, 2) && r.PayloadType() != cfg.fecType && cfg.maxDifference >= 2
    ensures SafeRun(D.EMPTY, cfg, [[p, q], [r]]) && RunOutput(D.EMPTY, cfg, [[p, q], [r]]) == [p, q]
  {
    hide Honest, RunOutput, CallOk, CacheNumbers, EmitNumbers, RecoverAll, SafeRun;
    var stream := Stream(map[0 := p, 1 := q, 2 := r], map[]);
    var calls := [[0, 1], [2]];
    ThirdCall(cfg, p, q, r, stream);
    PairCached();
    ThirdCached();
    PairNotFec(cfg, stream);
    PairEmitted(cfg);
    assert calls[1..] == [[2]] && [[2]][1..] == [];
    assert RunOk(stream, cfg, Ideal([0, 1], Some(1)), [[2]]);
    StallsFromStart(stream, cfg, calls, [[p, q], [r]]);
  }
}
