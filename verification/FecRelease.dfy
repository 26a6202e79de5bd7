/** What a call releases: the packets that leave the cache range, then copies of the
    run that continues them. Both come out as the ideal decoder's numbers. */
module FecRelease {
  import opened SeqComparison
  import opened RtpPackets
  import opened SeqLemmas
  import opened FecStream
  import opened FecIdeal
  import opened FecTurn
  import opened FecPass
  import D = FecDecoder

  /** How many numbers, from the oldest, are out of range of the newest; the newest
      itself is when nothing older stops the walk. */
  function OutOfRange(nums: seq<int>, top: int, range: Seq16): (k: nat)
    ensures k <= |nums|
  {
    if nums == [] || 0 < top - nums[0] <= range then 0 else 1 + OutOfRange(nums[1..], top, range)
  }

  /** Those not released yet. */
  function Late(last: Option<int>, nums: seq<int>): seq<int> {
    if nums == [] then []
    else Late(last, nums[..|nums| - 1]) + if FecIdeal.Released(last, nums[|nums| - 1]) then [] else [nums[|nums| - 1]]
  }

  /** The numbers that follow `n` without a gap. */
  function Following(nums: seq<int>, n: int): seq<int> {
    if nums == [] || nums[0] != n + 1 then [] else [nums[0]] + Following(nums[1..], nums[0])
  }

  /** The run of cached numbers that continues the evicted ones, or starts afresh. */
  function Continued(last: Option<int>, late: seq<int>, rest: seq<int>): seq<int> {
    if late != [] then Following(rest, late[|late| - 1])
    else if rest == [] || FecIdeal.Released(last, rest[0]) then []
    else [rest[0]] + Following(rest[1..], rest[0])
  }

  function EmitNumbers(i: Ideal, cfg: D.Config): (r: (Ideal, seq<int>))
    requires i.nums != []
  {
    var k := OutOfRange(i.nums, i.nums[|i.nums| - 1], cfg.maxDifference);
    var late := Late(i.last, i.nums[..k]);
    var out := late + Continued(i.last, late, i.nums[k..]);
    (Ideal(i.nums[k..], if out == [] then i.last else Some(out[|out| - 1])), out)
  }

  // ---------- in order, above what was released ----------

  predicate Above(last: Option<int>, ns: seq<int>) {
    forall k :: 0 <= k < |ns| ==> !FecIdeal.Released(last, ns[k])
  }

  lemma {:induction false} LateAscends(last: Option<int>, nums: seq<int>)
    requires Ascending(nums)
    ensures Ascending(Late(last, nums)) && Above(last, Late(last, nums))
    ensures forall m :: m in Late(last, nums) <==> m in nums && !FecIdeal.Released(last, m)
  {
    if nums != [] {
      var before := nums[..|nums| - 1];
      assert nums == before + [nums[|nums| - 1]];
      LateAscends(last, before);
      var late := Late(last, before);
      forall k | 0 <= k < |late| ensures late[k] < nums[|nums| - 1] {
        assert late[k] in before;
      }
    }
  }

  lemma {:induction false} FollowingAscends(nums: seq<int>, n: int)
    ensures Ascending(Following(nums, n))
    ensures forall k :: 0 <= k < |Following(nums, n)| ==> Following(nums, n)[k] == n + 1 + k
    ensures |Following(nums, n)| <= |nums| && forall k :: 0 <= k < |Following(nums, n)| ==> Following(nums, n)[k] == nums[k]
  {
    if nums != [] && nums[0] == n + 1 {
      FollowingAscends(nums[1..], nums[0]);
    }
  }

  lemma ContinuedShape(last: Option<int>, late: seq<int>, rest: seq<int>)
    ensures var run := Continued(last, late, rest);
            && (forall k :: 0 <= k < |run| ==> run[k] == run[0] + k)
            && (run != [] && late != [] ==> run[0] == late[|late| - 1] + 1)
            && (run != [] && late == [] ==> !FecIdeal.Released(last, run[0]))
            && |run| <= |rest| && forall k :: 0 <= k < |run| ==> run[k] == rest[k]
  {
    if late != [] {
      FollowingAscends(rest, late[|late| - 1]);
    } else if rest != [] {
      FollowingAscends(rest[1..], rest[0]);
    }
  }

  lemma ContinuedAscends(last: Option<int>, late: seq<int>, rest: seq<int>)
    requires Ascending(late) && Above(last, late)
    ensures Ascending(late + Continued(last, late, rest))
    ensures Above(last, late + Continued(last, late, rest))
    ensures forall m :: m in Continued(last, late, rest) ==> m in rest
  {
    ContinuedShape(last, late, rest);
  }

  /** Each call's releases increase strictly and lie above everything released before. */
  lemma EmitAscends(i: Ideal, cfg: D.Config)
    requires i.nums != [] && Ascending(i.nums)
    ensures var out := EmitNumbers(i, cfg).1;
            && Ascending(out) && Above(i.last, out) && (forall m :: m in out ==> m in i.nums)
            && (out != [] ==> EmitNumbers(i, cfg).0.last == Some(out[|out| - 1]))
            && (out == [] ==> EmitNumbers(i, cfg).0.last == i.last)
  {
    hide OutOfRange, Late, Continued;
    var k := OutOfRange(i.nums, i.nums[|i.nums| - 1], cfg.maxDifference);
    SplitAt(i.nums, k);
    LateAscends(i.last, i.nums[..k]);
    ContinuedAscends(i.last, Late(i.last, i.nums[..k]), i.nums[k..]);
    SplitMembers(i.nums, k);
  }

  lemma SplitMembers(nums: seq<int>, k: nat)
    requires k <= |nums|
    ensures forall m :: m in nums <==> m in nums[..k] || m in nums[k..]
  {
    assert nums == nums[..k] + nums[k..];
  }

  // ---------- exactly what a call releases and keeps ----------

  /** A number leaves the cache: neither it nor an older one is within range of the
      newest, which does not count as within range of itself. */
  predicate Gone(nums: seq<int>, range: Seq16, m: int)
    requires nums != []
  {
    m in nums && forall n :: n in nums && n <= m ==> !(0 < nums[|nums| - 1] - n <= range)
  }

  /** Where a release can start: at an unreleased number that leaves, or at an unreleased
      one that stays when everything older leaves and was released before. */
  predicate Opens(i: Ideal, range: Seq16, s: int)
    requires i.nums != []
  {
    && s in i.nums && !FecIdeal.Released(i.last, s)
    && (Gone(i.nums, range, s)
        || forall n :: n in i.nums && n < s ==> Gone(i.nums, range, n) && FecIdeal.Released(i.last, n))
  }

  /** Everything from `s` to `m` is cached. */
  predicate Unbroken(nums: seq<int>, s: int, m: int) {
    s <= m && forall x :: s <= x <= m ==> x in nums
  }

  lemma {:induction false} OutOfRangeAt(nums: seq<int>, top: int, range: Seq16, a: nat)
    requires a < |nums|
    ensures a < OutOfRange(nums, top, range) <==> forall b :: 0 <= b <= a ==> !(0 < top - nums[b] <= range)
  {
    if a > 0 && !(0 < top - nums[0] <= range) {
      OutOfRangeAt(nums[1..], top, range, a - 1);
      assert forall b :: 0 <= b < |nums[1..]| ==> nums[1..][b] == nums[b + 1];
      assert forall b :: 1 <= b <= a ==> nums[b] == nums[1..][b - 1];
    }
  }

  lemma GoneAt(nums: seq<int>, range: Seq16, a: nat)
    requires Ascending(nums) && a < |nums|
    ensures Gone(nums, range, nums[a]) <==> a < OutOfRange(nums, nums[|nums| - 1], range)
  {
    OutOfRangeAt(nums, nums[|nums| - 1], range, a);
    if a < OutOfRange(nums, nums[|nums| - 1], range) {
      forall n | n in nums && n <= nums[a] ensures !(0 < nums[|nums| - 1] - n <= range) {
        var b :| 0 <= b < |nums| && nums[b] == n;
      }
    } else {
      var b :| 0 <= b <= a && 0 < nums[|nums| - 1] - nums[b] <= range;
      assert nums[b] in nums && nums[b] <= nums[a];
    }
  }

  /** What stays. */
  lemma KeptExactly(i: Ideal, cfg: D.Config, m: int)
    requires i.nums != [] && Ascending(i.nums)
    ensures m in EmitNumbers(i, cfg).0.nums <==> m in i.nums && !Gone(i.nums, cfg.maxDifference, m)
  {
    hide OutOfRange, Late, Continued, Gone;
    var k := OutOfRange(i.nums, i.nums[|i.nums| - 1], cfg.maxDifference);
    GoneSplit(i.nums, cfg.maxDifference, k, m);
  }

  lemma GoneSplit(nums: seq<int>, range: Seq16, k: nat, m: int)
    requires nums != [] && Ascending(nums) && k == OutOfRange(nums, nums[|nums| - 1], range)
    ensures m in nums[..k] <==> m in nums && Gone(nums, range, m)
    ensures m in nums[k..] <==> m in nums && !Gone(nums, range, m)
  {
    hide OutOfRange, Gone;
    SplitMembers(nums, k);
    if a :| 0 <= a < |nums| && nums[a] == m {
      GoneAt(nums, range, a);
      if a < k {
        assert nums[..k][a] == m;
        forall b | 0 <= b < |nums[k..]| ensures nums[k..][b] != m {
          assert nums[k..][b] == nums[k + b];
        }
      } else {
        assert nums[k..][a - k] == m;
        forall b | 0 <= b < k ensures nums[..k][b] != m {
          assert nums[..k][b] == nums[b];
        }
      }
    }
  }

  lemma {:induction false} FollowingExactly(nums: seq<int>, n: int, m: int)
    requires Ascending(nums) && (nums != [] ==> n < nums[0])
    ensures m in Following(nums, n) <==> Unbroken(nums, n + 1, m)
  {
    if nums != [] {
      var rest := nums[1..];
      assert forall a :: 0 <= a < |rest| ==> rest[a] == nums[a + 1];
      assert nums == [nums[0]] + rest;
      if nums[0] == n + 1 {
        FollowingExactly(rest, n + 1, m);
        assert Following(nums, n) == [n + 1] + Following(rest, n + 1);
        if m > n + 1 {
          assert Unbroken(nums, n + 1, m) <==> Unbroken(rest, n + 2, m) by {
            assert forall x :: n + 2 <= x ==> (x in nums <==> x in rest);
          }
        }
      } else if m >= n + 1 {
        assert n + 1 !in nums;
      }
    }
  }

  /** A release starts at most one way: after what leaves unreleased, or afresh. */
  lemma OpensWhere(i: Ideal, range: Seq16, k: nat, late: seq<int>, rest: seq<int>, s: int)
    requires i.nums != [] && Ascending(i.nums) && k == OutOfRange(i.nums, i.nums[|i.nums| - 1], range)
    requires late == Late(i.last, i.nums[..k]) && rest == i.nums[k..]
    ensures Opens(i, range, s) <==> s in late || (late == [] && rest != [] && s == rest[0] && !FecIdeal.Released(i.last, s))
  {
    hide OutOfRange, Gone, Late;
    LateAscends(i.last, i.nums[..k]);
    forall n ensures n in i.nums[..k] <==> n in i.nums && Gone(i.nums, range, n)
             ensures n in rest <==> n in i.nums && !Gone(i.nums, range, n)
    {
      GoneSplit(i.nums, range, k, n);
    }
    assert forall n :: n in rest ==> rest[0] <= n;
    if late == [] && rest != [] {
      assert rest[0] in rest;
      forall n | n in i.nums && n < rest[0] ensures Gone(i.nums, range, n) && FecIdeal.Released(i.last, n) {
        assert n !in rest;
      }
    }
    if late != [] {
      assert late[0] in late;
    }
  }

  /** The run of numbers that remain, once the numbers before it are settled. */
  lemma ContinuedExactly(last: Option<int>, late: seq<int>, rest: seq<int>, m: int)
    requires Ascending(rest) && (late != [] && rest != [] ==> late[|late| - 1] < rest[0])
    ensures m in Continued(last, late, rest) <==>
            if late != [] then Unbroken(rest, late[|late| - 1] + 1, m)
            else rest != [] && !FecIdeal.Released(last, rest[0]) && Unbroken(rest, rest[0], m)
  {
    hide Following;
    if late != [] {
      FollowingExactly(rest, late[|late| - 1], m);
    } else if rest != [] {
      var tail := rest[1..];
      assert rest == [rest[0]] + tail;
      assert forall a :: 0 <= a < |tail| ==> tail[a] == rest[a + 1];
      FollowingExactly(tail, rest[0], m);
      assert forall x :: x in rest <==> x == rest[0] || x in tail;
      assert forall x :: x in tail ==> x > rest[0];
    }
  }

  lemma LateUpTo(last: Option<int>, nums: seq<int>, late: seq<int>)
    requires Ascending(nums) && late == Late(last, nums) && late != []
    ensures forall m :: m in nums && m > late[0] ==> m in late && m <= late[|late| - 1]
    ensures late[|late| - 1] in late && late[0] in late && forall m :: m in late ==> late[0] <= m
  {
    LateAscends(last, nums);
    assert late[0] in late;
    forall m | m in nums && m > late[0] ensures m in late && m <= late[|late| - 1] {
      assert !FecIdeal.Released(last, m);
    }
  }

  lemma ReachedFrom(nums: seq<int>, last: Option<int>, k: nat, late: seq<int>, rest: seq<int>, m: int)
    requires Ascending(nums) && k <= |nums| && late == Late(last, nums[..k]) && rest == nums[k..]
    ensures m in late + Continued(last, late, rest) <==>
            exists s :: (s in late || (late == [] && rest != [] && s == rest[0] && !FecIdeal.Released(last, s))) && Unbroken(nums, s, m)
  {
    hide Late, Continued;
    LateAscends(last, nums[..k]);
    SplitMembers(nums, k);
    assert forall x, y :: x in nums[..k] && y in rest ==> x < y;
    assert forall y :: y in rest ==> rest[0] <= y;
    assert Ascending(rest);
    if late != [] {
      LateUpTo(last, nums[..k], late);
      if rest != [] { assert rest[0] in rest; }
      ContinuedExactly(last, late, rest, m);
      ReachedFromLate(nums, k, late, rest, m);
    } else {
      ContinuedExactly(last, late, rest, m);
      if rest != [] {
        assert forall x :: x in nums && x >= rest[0] ==> x in rest;
        assert Unbroken(nums, rest[0], m) <==> Unbroken(rest, rest[0], m);
      }
    }
  }

  lemma ReachedFromLate(nums: seq<int>, k: nat, late: seq<int>, rest: seq<int>, m: int)
    requires late != [] && k <= |nums| && forall x :: x in nums <==> x in nums[..k] || x in rest
    requires (forall x, y :: x in nums[..k] && y in rest ==> x < y) && forall x :: x in late ==> x in nums[..k]
    requires forall x :: x in nums[..k] && x > late[0] ==> x in late && x <= late[|late| - 1]
    requires forall x :: x in late ==> late[0] <= x
    ensures (m in late || Unbroken(rest, late[|late| - 1] + 1, m)) <==> exists s :: s in late && Unbroken(nums, s, m)
  {
    var e := late[|late| - 1];
    assert e in late;
    if m in late {
      assert Unbroken(nums, m, m);
    } else if Unbroken(rest, e + 1, m) {
      assert Unbroken(nums, e, m);
    }
    if s :| s in late && Unbroken(nums, s, m) {
      if m in nums[..k] {
        assert m in late;
      } else {
        forall x | e + 1 <= x <= m ensures x in rest {
          assert x in nums;
        }
      }
    }
  }

  /** What a call releases: the cached numbers that an unbroken run joins to a place where
      a release can start. */
  lemma ReleasedExactly(i: Ideal, cfg: D.Config, m: int)
    requires i.nums != [] && Ascending(i.nums)
    ensures m in EmitNumbers(i, cfg).1 <==> exists s :: Opens(i, cfg.maxDifference, s) && Unbroken(i.nums, s, m)
  {
    hide OutOfRange, Late, Continued, Unbroken, Opens;
    var k := OutOfRange(i.nums, i.nums[|i.nums| - 1], cfg.maxDifference);
    var late, rest := Late(i.last, i.nums[..k]), i.nums[k..];
    ReachedFrom(i.nums, i.last, k, late, rest, m);
    forall s ensures Opens(i, cfg.maxDifference, s) <==>
                     s in late || (late == [] && rest != [] && s == rest[0] && !FecIdeal.Released(i.last, s))
    {
      OpensWhere(i, cfg.maxDifference, k, late, rest, s);
    }
  }

  // ---------- the program's loops ----------

  lemma CarryingDrop(cached: seq<D.CachedPacket>, nums: seq<int>, lo: int, k: nat)
    requires Carrying(cached, nums, lo) && Ascending(nums) && k <= |nums|
    ensures Carrying(cached[k..], nums[k..], lo) && Ascending(nums[k..])
    ensures Carrying(cached[..k], nums[..k], lo) && Ascending(nums[..k])
  {
  }

  lemma {:induction false} EvictCountRefines(cached: seq<D.CachedPacket>, nums: seq<int>, lo: int, top: int, range: Seq16)
    requires Carrying(cached, nums, lo) && Ascending(nums) && Near(lo, top)
    requires forall m :: m in nums ==> m <= top
    ensures D.EvictCount(cached, Wrap(top), range) == OutOfRange(nums, top, range)
  {
    if nums != [] {
      CarryingTail(cached, nums, lo);
      assert nums[0] in nums;
      InRangeBridge(nums[0], top, range);
      EvictCountRefines(cached[1..], nums[1..], lo, top, range);
    }
  }

  /** The packets sent under `ns` are what was cached for them. */
  ghost predicate Slots(stream: Stream, cfg: D.Config, cached: seq<D.CachedPacket>, nums: seq<int>) {
    && |cached| == |nums| && AllSent(stream, nums)
    && forall k :: 0 <= k < |nums| ==>
         cached[k].packet == stream.sent[nums[k]] && Copied(cached[k].packet) == cached[k].packet
         && cached[k].Seq() == Wrap(nums[k])
  }

  /** What the program compares with when it releases. */
  ghost predicate Compared(s: D.DecoderState, last: Option<int>, lo: int) {
    && s.hasOutput == last.Some? && (last.Some? ==> Near(lo, last.value) && s.lastOutput == Wrap(last.value))
  }

  lemma NotYetBridge(s: D.DecoderState, last: Option<int>, lo: int, n: int)
    requires Compared(s, last, lo) && Near(lo, n)
    ensures D.NotYetOutput(s, Wrap(n)) <==> !FecIdeal.Released(last, n)
  {
    if last.Some? {
      AfterBridge(last.value, n);
    }
  }

  lemma {:induction false} EvictedRefines(stream: Stream, cfg: D.Config, s: D.DecoderState, last: Option<int>, lo: int,
                                          cached: seq<D.CachedPacket>, nums: seq<int>)
    requires Compared(s, last, lo) && Slots(stream, cfg, cached, nums) && forall k :: 0 <= k < |nums| ==> Near(lo, nums[k])
    ensures AllSent(stream, Late(last, nums))
    ensures D.EvictedOutput(s, cached) == PacketsFor(stream, Late(last, nums))
  {
    if nums != [] {
      var n := |nums| - 1;
      EvictedRefines(stream, cfg, s, last, lo, cached[..n], nums[..n]);
      NotYetBridge(s, last, lo, nums[n]);
      var late := Late(last, nums[..n]);
      if FecIdeal.Released(last, nums[n]) {
        EmptyRight(late);
        EmptyRight(PacketsFor(stream, late));
      } else {
        PacketsConcat(stream, late, [nums[n]]);
        assert PacketsFor(stream, [nums[n]]) == [cached[n].packet];
      }
    }
  }

  lemma PacketsConcat(stream: Stream, a: seq<int>, b: seq<int>)
    requires AllSent(stream, a) && AllSent(stream, b)
    ensures AllSent(stream, a + b) && PacketsFor(stream, a + b) == PacketsFor(stream, a) + PacketsFor(stream, b)
  {
  }

  lemma ReleasedStep(s: D.DecoderState, cached: seq<D.CachedPacket>, out: seq<RtpPacket>)
    requires cached != []
    ensures (if out == [] then !D.NotYetOutput(s, cached[0].Seq()) else !IsNextSeq(out[|out| - 1].seqNum, cached[0].Seq())) ==>
              D.Released(s, cached, out) == out
    ensures !(if out == [] then !D.NotYetOutput(s, cached[0].Seq()) else !IsNextSeq(out[|out| - 1].seqNum, cached[0].Seq())) ==>
              D.Released(s, cached, out) == D.Released(s, cached[1..], out + [Copied(cached[0].packet)])
  {
  }

  lemma SlotsTail(stream: Stream, cfg: D.Config, cached: seq<D.CachedPacket>, nums: seq<int>)
    requires Slots(stream, cfg, cached, nums) && nums != []
    ensures Slots(stream, cfg, cached[1..], nums[1..])
  {
  }

  /** Continuing a run that ends with number `n`. */
  lemma {:induction false} FollowingRefines(stream: Stream, cfg: D.Config, s: D.DecoderState, lo: int,
                                            cached: seq<D.CachedPacket>, nums: seq<int>, out: seq<RtpPacket>, n: int)
    requires Slots(stream, cfg, cached, nums) && Near(lo, n) && forall k :: 0 <= k < |nums| ==> Near(lo, nums[k])
    requires out != [] && out[|out| - 1].seqNum == Wrap(n)
    ensures AllSent(stream, Following(nums, n))
    ensures D.Released(s, cached, out) == out + PacketsFor(stream, Following(nums, n))
    decreases |nums|
  {
    if nums == [] {
      EmptyRight(out);
    } else {
      NextBridge(n, nums[0]);
      ReleasedStep(s, cached, out);
      if nums[0] == n + 1 {
        var p := cached[0].packet;
        SlotsTail(stream, cfg, cached, nums);
        FollowingRefines(stream, cfg, s, lo, cached[1..], nums[1..], out + [p], nums[0]);
        var rest := Following(nums[1..], nums[0]);
        PacketsConcat(stream, [nums[0]], rest);
        assert PacketsFor(stream, [nums[0]]) == [p];
        Assoc(out, [p], PacketsFor(stream, rest));
      } else {
        EmptyRight(out);
      }
    }
  }

  lemma LastPacket(stream: Stream, late: seq<int>)
    requires AllSent(stream, late) && late != []
    ensures PacketsFor(stream, late)[|late| - 1] == stream.sent[late[|late| - 1]]
  {
  }

  /** The copies released after the evicted packets. */
  lemma ContinuedRefines(stream: Stream, cfg: D.Config, s: D.DecoderState, last: Option<int>, lo: int,
                         cached: seq<D.CachedPacket>, nums: seq<int>, late: seq<int>)
    requires Compared(s, last, lo) && Slots(stream, cfg, cached, nums)
    requires forall k :: 0 <= k < |nums| ==> Near(lo, nums[k])
    requires AllSent(stream, late) && (late != [] ==>
               Near(lo, late[|late| - 1]) && stream.sent[late[|late| - 1]].seqNum == Wrap(late[|late| - 1]))
    ensures AllSent(stream, Continued(last, late, nums))
    ensures D.Released(s, cached, PacketsFor(stream, late)) == PacketsFor(stream, late) + PacketsFor(stream, Continued(last, late, nums))
  {
    var out := PacketsFor(stream, late);
    if late != [] {
      LastPacket(stream, late);
      FollowingRefines(stream, cfg, s, lo, cached, nums, out, late[|late| - 1]);
    } else if nums == [] {
      EmptyRight(out);
    } else {
      NotYetBridge(s, last, lo, nums[0]);
      ReleasedStep(s, cached, out);
      if FecIdeal.Released(last, nums[0]) {
        EmptyRight(out);
      } else {
        var p := cached[0].packet;
        SlotsTail(stream, cfg, cached, nums);
        EmptyLeft([p]);
        FollowingRefines(stream, cfg, s, lo, cached[1..], nums[1..], [p], nums[0]);
        PacketsConcat(stream, [nums[0]], Following(nums[1..], nums[0]));
        assert PacketsFor(stream, [nums[0]]) == [p];
        assert out == [];
        EmptyLeft(PacketsFor(stream, Continued(last, late, nums)));
      }
    }
  }

  // ---------- the relation after a release ----------

  /** The ideal decoder with its `k` oldest numbers gone and `last` released. */
  ghost predicate Dropped(i: Ideal, j: Ideal, k: nat) {
    && k <= |i.nums| && j.nums == i.nums[k..]
    && (forall a :: 0 <= a < k ==> FecIdeal.Released(j.last, i.nums[a]))
    && (i.last.Some? ==> j.last.Some? && i.last.value <= j.last.value)
  }

  lemma ReleasedStays(i: Ideal, j: Ideal, k: nat, m: int)
    requires Dropped(i, j, k) && FecIdeal.Released(i.last, m)
    ensures FecIdeal.Released(j.last, m)
  {
  }

  lemma KeptOrReleased(i: Ideal, j: Ideal, k: nat, m: int)
    requires Dropped(i, j, k) && m in i.nums
    ensures m in j.nums || FecIdeal.Released(j.last, m)
  {
    SplitMembers(i.nums, k);
    if m in i.nums[..k] {
      var a :| 0 <= a < k && i.nums[a] == m;
    }
  }

  lemma SpentDropped(ns: seq<int>, i: Ideal, j: Ideal, k: nat)
    requires Dropped(i, j, k) && Spent(ns, i)
    ensures Spent(ns, j)
  {
    if m :| m in ns && FecIdeal.Released(i.last, m) {
      ReleasedStays(i, j, k, m);
    } else {
      forall m | m in ns ensures m in j.nums || FecIdeal.Released(j.last, m) {
        KeptOrReleased(i, j, k, m);
      }
    }
  }

  lemma PointsDropped(cached: seq<D.CachedPacket>, i: Ideal, j: Ideal, k: nat, id: nat, m: int)
    requires |cached| == |i.nums| && Dropped(i, j, k) && PointsTo(cached, i.nums, id, m)
    ensures FecIdeal.Released(j.last, m) || PointsTo(cached[k..], j.nums, id, m)
  {
    var a :| 0 <= a < |cached| && cached[a].id == id && i.nums[a] == m;
    if a >= k {
      assert cached[k..][a - k].id == id && j.nums[a - k] == m;
    }
  }

  lemma FecDropped(stream: Stream, c: D.CachedPacket, n: int, found: map<int, seq<int>>,
                   cached: seq<D.CachedPacket>, i: Ideal, j: Ideal, k: nat)
    requires |cached| == |i.nums| && Dropped(i, j, k) && FecOk(stream, c, n, found, cached, i)
    ensures FecOk(stream, c, n, found, cached[k..], j)
  {
    if c.isFec && n in stream.groups {
      if c.invalidFec {
        SpentDropped(stream.groups[n].ns, i, j, k);
      } else {
        var seen := found[n];
        forall a | 0 <= a < |seen| ensures FecIdeal.Released(j.last, seen[a]) || PointsTo(cached[k..], j.nums, c.media[a], seen[a]) {
          if FecIdeal.Released(i.last, seen[a]) {
            ReleasedStays(i, j, k, seen[a]);
          } else {
            PointsDropped(cached, i, j, k, c.media[a], seen[a]);
          }
        }
      }
    }
  }

  lemma IdsDropped(cached: seq<D.CachedPacket>, nextId: nat, k: nat)
    requires IdsOk(cached, nextId) && k <= |cached|
    ensures IdsOk(cached[k..], nextId)
  {
  }

  lemma ShapeDropped(stream: Stream, cfg: D.Config, s: D.DecoderState, i: Ideal, t: D.DecoderState, j: Ideal, k: nat)
    requires Shape(stream, cfg, s, i) && Dropped(i, j, k)
    requires t.cached == s.cached[k..] && t.nextId == s.nextId
    requires t.hasOutput == j.last.Some? && t.lastOutput == (if j.last.Some? then Wrap(j.last.value) else 0)
    ensures Shape(stream, cfg, t, j)
  {
    IdsDropped(s.cached, s.nextId, k);
    forall a | 0 <= a < |j.nums| ensures SlotOk(stream, cfg, t.cached[a], j.nums[a]) {
      assert SlotOk(stream, cfg, s.cached[k + a], i.nums[k + a]);
    }
  }

  /** Dropping the oldest packets and releasing keeps the relation: what is dropped
      has been released, so no group can need it again. */
  lemma RelatedDropped(stream: Stream, cfg: D.Config, s: D.DecoderState, i: Ideal, found: map<int, seq<int>>,
                       t: D.DecoderState, j: Ideal, k: nat)
    requires Related(stream, cfg, s, i, found) && Dropped(i, j, k)
    requires t.cached == s.cached[k..] && t.nextId == s.nextId
    requires t.hasOutput == j.last.Some? && t.lastOutput == (if j.last.Some? then Wrap(j.last.value) else 0)
    ensures Related(stream, cfg, t, j, found)
  {
    ShapeDropped(stream, cfg, s, i, t, j, k);
    forall a | 0 <= a < |j.nums| ensures FecOk(stream, t.cached[a], j.nums[a], found, t.cached, j) {
      assert t.cached[a] == s.cached[k + a] && j.nums[a] == i.nums[k + a];
      FecDropped(stream, s.cached[k + a], i.nums[k + a], found, s.cached, i, j, k);
    }
  }

  lemma LastAdvances(i: Ideal, j: Ideal, out: seq<int>)
    requires Above(i.last, out) && j.last == if out == [] then i.last else Some(out[|out| - 1])
    ensures i.last.Some? ==> j.last.Some? && i.last.value <= j.last.value
  {
  }

  lemma UpToLast(out: seq<int>, m: int)
    requires Ascending(out) && m in out
    ensures m <= out[|out| - 1]
  {
  }

  /** What is evicted has been released, now or before. */
  lemma EvictedReleased(i: Ideal, cfg: D.Config, k: nat, m: int)
    requires i.nums != [] && Ascending(i.nums) && k == OutOfRange(i.nums, i.nums[|i.nums| - 1], cfg.maxDifference)
    requires m in i.nums[..k]
    ensures FecIdeal.Released(EmitNumbers(i, cfg).0.last, m)
  {
    hide OutOfRange, Late, Continued;
    EmitAscends(i, cfg);
    var out := EmitNumbers(i, cfg).1;
    if FecIdeal.Released(i.last, m) {
      LastAdvances(i, EmitNumbers(i, cfg).0, out);
    } else {
      LateAscends(i.last, i.nums[..k]);
      UpToLast(out, m);
    }
  }

  /** Everything evicted counts as released afterwards. */
  lemma EmitDrops(i: Ideal, cfg: D.Config, k: nat)
    requires i.nums != [] && Ascending(i.nums) && k == OutOfRange(i.nums, i.nums[|i.nums| - 1], cfg.maxDifference)
    ensures Dropped(i, EmitNumbers(i, cfg).0, k)
  {
    EmitAscends(i, cfg);
    LastAdvances(i, EmitNumbers(i, cfg).0, EmitNumbers(i, cfg).1);
    forall a | 0 <= a < k ensures FecIdeal.Released(EmitNumbers(i, cfg).0.last, i.nums[a]) {
      assert i.nums[..k][a] == i.nums[a];
      EvictedReleased(i, cfg, k, i.nums[a]);
    }
  }

  // ---------- the whole release ----------

  lemma SlotsOf(stream: Stream, cfg: D.Config, s: D.DecoderState, i: Ideal)
    requires Honest(stream, cfg) && Shape(stream, cfg, s, i)
    ensures Slots(stream, cfg, s.cached, i.nums)
  {
    forall k | 0 <= k < |i.nums|
      ensures i.nums[k] in stream.sent && s.cached[k].packet == stream.sent[i.nums[k]]
      ensures Copied(s.cached[k].packet) == s.cached[k].packet && s.cached[k].Seq() == Wrap(i.nums[k])
    {
      assert SlotOk(stream, cfg, s.cached[k], i.nums[k]);
      assert HonestPacket(cfg, stream.sent[i.nums[k]], i.nums[k]);
    }
  }

  lemma SlotsSplit(stream: Stream, cfg: D.Config, cached: seq<D.CachedPacket>, nums: seq<int>, k: nat)
    requires Slots(stream, cfg, cached, nums) && k <= |nums|
    ensures Slots(stream, cfg, cached[..k], nums[..k]) && Slots(stream, cfg, cached[k..], nums[k..])
  {
  }

  /** What the two loops release of `older` evicted and `newer` remaining packets. */
  lemma ReleasedPackets(stream: Stream, cfg: D.Config, s: D.DecoderState, last: Option<int>, lo: int,
                        older: seq<D.CachedPacket>, olderNums: seq<int>, newer: seq<D.CachedPacket>, newerNums: seq<int>,
                        late: seq<int>)
    requires Compared(s, last, lo) && late == Late(last, olderNums)
    requires Slots(stream, cfg, older, olderNums) && Carrying(older, olderNums, lo) && Ascending(olderNums)
    requires Slots(stream, cfg, newer, newerNums) && Carrying(newer, newerNums, lo)
    ensures var all := late + Continued(last, late, newerNums);
            AllSent(stream, all) && D.Released(s, newer, D.EvictedOutput(s, older)) == PacketsFor(stream, all)
  {
    EvictedRefines(stream, cfg, s, last, lo, older, olderNums);
    LateLast(stream, cfg, older, olderNums, last, lo);
    ContinuedRefines(stream, cfg, s, last, lo, newer, newerNums, late);
    PacketsConcat(stream, late, Continued(last, late, newerNums));
  }

  /** The packets a call releases are the ones sent under the ideal decoder's numbers. */
  lemma EmittedPackets(stream: Stream, cfg: D.Config, s: D.DecoderState, i: Ideal, lo: int, top: int, k: nat)
    requires Compared(s, i.last, lo) && Slots(stream, cfg, s.cached, i.nums) && Carrying(s.cached, i.nums, lo)
    requires Ascending(i.nums) && i.nums != [] && top == i.nums[|i.nums| - 1]
    requires k == OutOfRange(i.nums, top, cfg.maxDifference)
    ensures AllSent(stream, EmitNumbers(i, cfg).1)
    ensures s.cached[|s.cached| - 1].Seq() == Wrap(top)
    ensures D.EvictCount(s.cached, Wrap(top), cfg.maxDifference) == k
    ensures D.Released(s, s.cached[k..], D.EvictedOutput(s, s.cached[..k])) == PacketsFor(stream, EmitNumbers(i, cfg).1)
  {
    EvictCountRefines(s.cached, i.nums, lo, top, cfg.maxDifference);
    SlotsSplit(stream, cfg, s.cached, i.nums, k);
    CarryingDrop(s.cached, i.nums, lo, k);
    ReleasedPackets(stream, cfg, s, i.last, lo, s.cached[..k], i.nums[..k], s.cached[k..], i.nums[k..], Late(i.last, i.nums[..k]));
  }

  lemma LateLast(stream: Stream, cfg: D.Config, cached: seq<D.CachedPacket>, nums: seq<int>, last: Option<int>, lo: int)
    requires Slots(stream, cfg, cached, nums) && Carrying(cached, nums, lo) && Ascending(nums)
    ensures var late := Late(last, nums);
            late != [] ==> Near(lo, late[|late| - 1]) && late[|late| - 1] in stream.sent
                           && stream.sent[late[|late| - 1]].seqNum == Wrap(late[|late| - 1])
  {
    LateAscends(last, nums);
    var late := Late(last, nums);
    if late != [] {
      assert late[|late| - 1] in nums;
      var k :| 0 <= k < |nums| && nums[k] == late[|late| - 1];
    }
  }

  lemma LastNumber(stream: Stream, cfg: D.Config, ns: seq<int>)
    requires Honest(stream, cfg) && AllSent(stream, ns) && ns != []
    ensures PacketsFor(stream, ns)[|ns| - 1].seqNum == Wrap(ns[|ns| - 1])
  {
    assert HonestPacket(cfg, stream.sent[ns[|ns| - 1]], ns[|ns| - 1]);
  }

  /** A call's release does what the ideal decoder does. */
  lemma EmittedRefines(stream: Stream, cfg: D.Config, s: D.DecoderState, i: Ideal, found: map<int, seq<int>>, lo: int,
                       t: D.DecoderState, packets: seq<RtpPacket>)
    requires Honest(stream, cfg) && Related(stream, cfg, s, i, found) && Window(stream, cfg, i, lo) && i.nums != []
    requires (t, packets) == D.Emitted(s, cfg, [])
    ensures Related(stream, cfg, t, EmitNumbers(i, cfg).0, found)
    ensures AllSent(stream, EmitNumbers(i, cfg).1) && packets == PacketsFor(stream, EmitNumbers(i, cfg).1)
  {
    var top := i.nums[|i.nums| - 1];
    var k := OutOfRange(i.nums, top, cfg.maxDifference);
    WindowCarries(stream, cfg, s, i, found, lo);
    SlotsOf(stream, cfg, s, i);
    EmittedPackets(stream, cfg, s, i, lo, top, k);
    EmitDrops(i, cfg, k);
    EmptyLeft(D.EvictedOutput(s, s.cached[..k]));
    EmittedState(stream, cfg, s, i, t, packets, k);
    RelatedDropped(stream, cfg, s, i, found, t, EmitNumbers(i, cfg).0, k);
  }

  lemma EmittedState(stream: Stream, cfg: D.Config, s: D.DecoderState, i: Ideal,
                     t: D.DecoderState, packets: seq<RtpPacket>, k: nat)
    requires Honest(stream, cfg) && i.nums != [] && s.hasOutput == i.last.Some?
    requires s.lastOutput == (if i.last.Some? then Wrap(i.last.value) else 0)
    requires AllSent(stream, EmitNumbers(i, cfg).1) && packets == PacketsFor(stream, EmitNumbers(i, cfg).1)
    requires k <= |s.cached| && t == D.WithOutput(s.(cached := s.cached[k..]), packets)
    ensures t.cached == s.cached[k..] && t.nextId == s.nextId
    ensures var last := EmitNumbers(i, cfg).0.last;
            t.hasOutput == last.Some? && t.lastOutput == (if last.Some? then Wrap(last.value) else 0)
  {
    var out := EmitNumbers(i, cfg).1;
    if out != [] {
      LastNumber(stream, cfg, out);
    }
  }
}
