/** What the decoder hands out of a protected batch that lost a burst. */
module FecDelivery {
  import opened SeqComparison
  import opened RtpPackets
  import opened SeqLemmas
  import opened FecStream
  import opened FecIdeal
  import opened FecPass
  import opened FecRelease
  import opened FecRuns
  import opened FecConservation
  import opened FecBurst
  import D = FecDecoder

  // ---------- runs of consecutive numbers ----------

  function Range(base: int, size: nat): (ns: seq<int>)
    ensures |ns| == size && forall k :: 0 <= k < size ==> ns[k] == base + k
  {
    seq(size, k requires 0 <= k < size => base + k)
  }

  lemma InRangeOf(base: int, size: nat, m: int)
    ensures m in Range(base, size) <==> base <= m < base + size
  {
    if base <= m < base + size {
      assert Range(base, size)[m - base] == m;
    }
  }

  lemma {:induction false} AscendingFrom(nums: seq<int>, base: int, k: nat)
    requires Ascending(nums) && k < |nums| && forall m :: m in nums ==> base <= m
    ensures base + k <= nums[k]
  {
    if k > 0 {
      AscendingFrom(nums, base, k - 1);
    } else {
      assert nums[0] in nums;
    }
  }

  lemma {:induction false} AscendingTo(nums: seq<int>, end: int, k: nat)
    requires Ascending(nums) && k < |nums| && forall m :: m in nums ==> m < end
    ensures nums[k] <= end - (|nums| - k)
    decreases |nums| - k
  {
    if k < |nums| - 1 {
      AscendingTo(nums, end, k + 1);
    } else {
      assert nums[k] in nums;
    }
  }

  /** As many ascending numbers as there is room for are all the numbers there are. */
  lemma FillsRange(nums: seq<int>, base: int, size: nat)
    requires Ascending(nums) && |nums| == size && forall m :: m in nums ==> base <= m < base + size
    ensures nums == Range(base, size)
  {
    forall k | 0 <= k < size ensures nums[k] == base + k {
      AscendingFrom(nums, base, k);
      AscendingTo(nums, base + size, k);
    }
  }

  lemma {:induction false} PlaceAtLeast(nums: seq<int>, base: int, size: nat, j: nat) returns (k: nat)
    requires Ascending(nums) && j < size && forall m :: base <= m < base + size ==> m in nums
    ensures j <= k < |nums| && nums[k] == base + j
  {
    assert base + j in nums;
    k :| 0 <= k < |nums| && nums[k] == base + j;
    if j > 0 {
      var before := PlaceAtLeast(nums, base, size, j - 1);
    }
  }

  lemma CoversRange(nums: seq<int>, base: int, size: nat)
    requires Ascending(nums) && forall m :: m in nums <==> base <= m < base + size
    ensures nums == Range(base, size)
  {
    if size > 0 {
      var k := PlaceAtLeast(nums, base, size, size - 1);
    }
    if nums != [] {
      assert nums[|nums| - 1] in nums;
      AscendingFrom(nums, base, |nums| - 1);
    }
    FillsRange(nums, base, size);
  }

  // ---------- a batch that arrives but for a burst ----------

  /** The last `n` of the `fec` FEC packets of a batch. */
  function Mains(base: int, media: nat, fec: nat, n: nat): (ns: seq<int>)
    ensures |ns| == n && forall r :: 0 <= r < n ==> ns[r] == base + media + fec - n + r
  {
    Range(base + media + fec - n, n)
  }

  /** The FEC packet `x` of those before the last `n` repeats the group of the `x`-th of these. */
  ghost predicate Repeats(stream: Stream, base: int, media: nat, fec: nat, n: nat, x: nat) {
    && base + media + x in stream.groups && base + media + fec - n + x in stream.groups
    && stream.groups[base + media + x].ns == stream.groups[base + media + fec - n + x].ns
  }

  /** `fec` FEC packets follow `media` media packets from `base` on; the last `n` are
      interleaved and the ones before repeat the first of these. */
  ghost predicate BatchSent(stream: Stream, cfg: D.Config, base: int, media: nat, fec: nat, n: nat) {
    && n <= fec <= 2 * n
    && Interleaved(stream, base, media, Mains(base, media, fec, n)) && FecsSent(stream, cfg, Range(base + media, fec))
    && forall x: nat :: x < fec - n ==> Repeats(stream, base, media, fec, n, x)
  }

  lemma MainsSent(stream: Stream, cfg: D.Config, base: int, media: nat, fec: nat, n: nat)
    requires BatchSent(stream, cfg, base, media, fec, n)
    ensures FecsSent(stream, cfg, Mains(base, media, fec, n))
  {
    hide Interleaved;
    var fecs, all := Mains(base, media, fec, n), Range(base + media, fec);
    forall r | 0 <= r < n ensures fecs[r] in stream.sent && stream.IsFec(cfg, fecs[r]) {
      assert all[fec - n + r] == fecs[r];
    }
  }

  /** Every FEC packet of the batch has the group of one of the last `n`. */
  lemma MainOf(stream: Stream, cfg: D.Config, base: int, media: nat, fec: nat, n: nat, f: int) returns (r: nat)
    requires BatchSent(stream, cfg, base, media, fec, n) && base + media <= f < base + media + fec
    ensures r < n && f in stream.groups && Mains(base, media, fec, n)[r] in stream.groups
    ensures stream.groups[f].ns == stream.groups[Mains(base, media, fec, n)[r]].ns
  {
    var x: nat := f - base - media;
    if x < fec - n {
      r := x;
      assert Repeats(stream, base, media, fec, n, x);
    } else {
      r := x - (fec - n);
      assert Mains(base, media, fec, n)[r] == f;
    }
  }

  /** What arrives, in any order and with repetitions: the batch but for `length` media
      packets from `first` on. */
  ghost predicate AllBut(ns: seq<int>, base: int, size: nat, first: int, length: nat) {
    forall m :: m in ns <==> base <= m < base + size && !(first <= m < first + length)
  }

  /** The decoder will rebuild `m` when it can: it has a payload, and its number is not
      one that counts as before 0 while nothing has been released. */
  ghost predicate Startable(stream: Stream, last: Option<int>, m: int) {
    && (last.Some? || Wrap(m) <= 0x8000)
    && m in stream.sent && stream.sent[m].payload.Some?
  }

  ghost predicate BatchArrives(stream: Stream, cfg: D.Config, i: Ideal, ns: seq<int>, base: int, media: nat, fec: nat, n: nat,
                               first: int, length: nat) {
    && BatchSent(stream, cfg, base, media, fec, n)
    && i.nums == [] && (i.last.Some? ==> i.last.value < base)
    && base <= first && first + length <= base + media && length <= n
    && AllBut(ns, base, media + fec, first, length)
  }

  lemma MediaNotFec(stream: Stream, cfg: D.Config, base: int, media: nat, fec: nat, n: nat, m: int)
    requires Honest(stream, cfg) && BatchSent(stream, cfg, base, media, fec, n) && base <= m < base + media
    ensures m in stream.sent && !stream.IsFec(cfg, m)
  {
    hide HonestPacket, Interleaved;
    MainsSent(stream, cfg, base, media, fec, n);
    var f := Owner(stream, base, media, Mains(base, media, fec, n), m);
    assert HonestGroup(stream, cfg, f);
  }

  /** What is cached of the batch when recovery begins. */
  lemma BatchCached(stream: Stream, cfg: D.Config, i: Ideal, ns: seq<int>, base: int, media: nat, fec: nat, n: nat, first: int, length: nat)
    requires BatchArrives(stream, cfg, i, ns, base, media, fec, n, first, length)
    ensures var c := CacheNumbers(i, ns);
            && Ascending(c.nums) && c.nums != [] && c.last == i.last && c.nums[|c.nums| - 1] == base + media + fec - 1
            && forall m :: m in c.nums <==> base <= m < base + media + fec && !(first <= m < first + length)
  {
    hide CacheNumbers, BatchSent;
    CacheKeeps(i, ns);
    BatchNotEmpty(stream, cfg, base, media, fec, n);
    NewestIs(CacheNumbers(i, ns).nums, base + media + fec - 1);
  }

  lemma BatchNotEmpty(stream: Stream, cfg: D.Config, base: int, media: nat, fec: nat, n: nat)
    requires BatchSent(stream, cfg, base, media, fec, n)
    ensures 0 < n <= media && n <= fec
  {
  }

  lemma NewestIs(nums: seq<int>, top: int)
    requires Ascending(nums) && top in nums && forall m :: m in nums ==> m <= top
    ensures nums != [] && nums[|nums| - 1] == top
  {
    assert nums[|nums| - 1] in nums;
  }

  /** Its lost packets are a burst in the sense of the recovery theorem. */
  lemma BatchIsBurst(c: Ideal, base: int, media: nat, fec: nat, n: nat, first: int, length: nat)
    requires base <= first && first + length <= base + media && n <= fec
    requires forall m :: m in c.nums <==> base <= m < base + media + fec && !(first <= m < first + length)
    ensures BurstLost(c, base, media, Mains(base, media, fec, n), first, length)
  {
    var fecs := Mains(base, media, fec, n);
    forall r | 0 <= r < n ensures fecs[r] in c.nums {
      assert base <= fecs[r] < base + media + fec;
    }
  }

  lemma FecsLast(stream: Stream, cfg: D.Config, c: Ideal, base: int, media: nat, fec: nat, n: nat, m: int)
    requires Honest(stream, cfg) && BatchSent(stream, cfg, base, media, fec, n) && base <= m < base + media
    requires forall x :: x in c.nums ==> base <= x < base + media + fec
    ensures OneGroup(stream, cfg, c, Together(stream, base, media, Mains(base, media, fec, n), m), m)
  {
    hide Honest;
    var ns := Together(stream, base, media, Mains(base, media, fec, n), m);
    forall f | f in c.nums && f in stream.sent && stream.IsFec(cfg, f) && f in stream.groups && m in stream.groups[f].ns
      ensures stream.groups[f].ns == ns
    {
      if f < base + media {
        MediaNotFec(stream, cfg, base, media, fec, n, f);
      } else {
        var r := MainOf(stream, cfg, base, media, fec, n, f);
        PlaceOf(stream, base, media, Mains(base, media, fec, n), r, m);
      }
    }
  }

  lemma PlaceOf(stream: Stream, base: int, media: nat, fecs: seq<int>, r: nat, m: int)
    requires Interleaved(stream, base, media, fecs) && r < |fecs| && m in stream.groups[fecs[r]].ns
    ensures base <= m < base + media && r == (m - base) % |fecs|
  {
  }

  lemma BatchInTime(stream: Stream, c: Ideal, base: int, media: nat, fec: nat, n: nat, m: int)
    requires 0 < n && base <= m < base + media && (c.last.Some? ==> c.last.value < base)
    ensures InTime(stream, c, base + media + fec - 1, base, media, n, m) <==> Startable(stream, c.last, m)
  {
    GroupEnds(base, media, n, m, m);
  }

  /** Nothing but the batch is in the cache after recovery. */
  lemma BatchAlone(stream: Stream, cfg: D.Config, c: Ideal, base: int, media: nat, fec: nat, n: nat, m: int)
    requires Honest(stream, cfg) && BatchSent(stream, cfg, base, media, fec, n) && c.nums != [] && AllSent(stream, c.nums)
    requires (forall x :: x in c.nums ==> base <= x < base + media + fec) && !(base <= m < base + media + fec)
    ensures m !in RecoverAll(stream, cfg, c).nums
  {
    hide Closed, RecoverNumbers, FecNumbers;
    var top := c.nums[|c.nums| - 1];
    forall f | f in FecNumbers(stream, cfg, c.nums) ensures Closed(stream, c, top, f, m) {
      FecNumbersMember(stream, cfg, c.nums, f);
      OwnGroup(stream, cfg, base, media, fec, n, f, m);
      NotProtected(stream, c, top, f, m);
    }
    NeverRebuilt(stream, c, top, FecNumbers(stream, cfg, c.nums), m);
  }

  lemma OwnGroup(stream: Stream, cfg: D.Config, base: int, media: nat, fec: nat, n: nat, f: int, m: int)
    requires Honest(stream, cfg) && BatchSent(stream, cfg, base, media, fec, n) && f in stream.sent && stream.IsFec(cfg, f)
    requires base <= f < base + media + fec && !(base <= m < base + media + fec)
    ensures !(f in stream.groups && m in stream.groups[f].ns)
  {
    hide Honest;
    if f < base + media {
      MediaNotFec(stream, cfg, base, media, fec, n, f);
    } else {
      var r := MainOf(stream, cfg, base, media, fec, n, f);
      OwnMembers(stream, base, media, Mains(base, media, fec, n), r, m);
    }
  }

  lemma OwnMembers(stream: Stream, base: int, media: nat, fecs: seq<int>, r: nat, m: int)
    requires Interleaved(stream, base, media, fecs) && r < |fecs| && !(base <= m < base + media)
    ensures fecs[r] in stream.groups && m !in stream.groups[fecs[r]].ns
  {
  }

  /** After recovery the batch is complete, and nothing else is cached, if and only if
      every lost packet is startable. */
  lemma BatchGathered(stream: Stream, cfg: D.Config, i: Ideal, ns: seq<int>, base: int, media: nat, fec: nat, n: nat, first: int, length: nat)
    requires Honest(stream, cfg) && BatchArrives(stream, cfg, i, ns, base, media, fec, n, first, length)
    requires CacheNumbers(i, ns).nums != [] && AllSent(stream, CacheNumbers(i, ns).nums)
    ensures var g := Gathered(stream, cfg, i, ns);
            && Ascending(g.nums) && g.last == i.last && (forall m :: m in g.nums ==> base <= m < base + media + fec)
            && (forall m :: base <= m < base + media + fec ==>
                  (m in g.nums <==> first <= m < first + length ==> Startable(stream, i.last, m)))
  {
    hide CacheNumbers, RecoverAll, BatchSent, BurstLost, InTime, Startable, Honest;
    var c := CacheNumbers(i, ns);
    BatchCached(stream, cfg, i, ns, base, media, fec, n, first, length);
    BatchNotEmpty(stream, cfg, base, media, fec, n);
    BatchIsBurst(c, base, media, fec, n, first, length);
    GatheredKeeps(stream, cfg, i, ns);
    forall m ensures
      (m in RecoverAll(stream, cfg, c).nums <==>
       base <= m < base + media + fec && (first <= m < first + length ==> Startable(stream, i.last, m))) {
      MemberGathered(stream, cfg, i, c, base, media, fec, n, first, length, m);
    }
  }

  lemma MemberGathered(stream: Stream, cfg: D.Config, i: Ideal, c: Ideal, base: int, media: nat, fec: nat, n: nat, first: int, length: nat, m: int)
    requires Honest(stream, cfg) && BatchSent(stream, cfg, base, media, fec, n) && 0 < n && length <= n
    requires BurstLost(c, base, media, Mains(base, media, fec, n), first, length) && base <= first && first + length <= base + media
    requires Ascending(c.nums) && c.nums != [] && AllSent(stream, c.nums) && c.nums[|c.nums| - 1] == base + media + fec - 1
    requires c.last == i.last && (i.last.Some? ==> i.last.value < base)
    requires forall x :: x in c.nums <==> base <= x < base + media + fec && !(first <= x < first + length)
    ensures m in RecoverAll(stream, cfg, c).nums <==>
            base <= m < base + media + fec && (first <= m < first + length ==> Startable(stream, i.last, m))
  {
    hide BurstLost, InTime, Startable, RecoverNumbers, FecNumbers, Interleaved, FecsSent, Honest;
    if !(base <= m < base + media + fec) {
      BatchAlone(stream, cfg, c, base, media, fec, n, m);
    } else if first <= m < first + length {
      FecsLast(stream, cfg, c, base, media, fec, n, m);
      MainsSent(stream, cfg, base, media, fec, n);
      RebuiltExactly(stream, cfg, c, base, media, Mains(base, media, fec, n), first, length, m);
      BatchInTime(stream, c, base, media, fec, n, m);
    } else {
      PassKeeps(stream, c, c.nums[|c.nums| - 1], FecNumbers(stream, cfg, c.nums));
    }
  }

  // ---------- what is handed out ----------

  lemma {:induction false} FollowingAll(nums: seq<int>, base: int, size: nat)
    requires nums == Range(base, size)
    ensures Following(nums, base - 1) == nums
    decreases size
  {
    if size > 0 {
      assert nums[1..] == Range(base + 1, size - 1);
      FollowingAll(nums[1..], base + 1, size - 1);
    }
  }

  /** A complete run of numbers within the cache range is handed out whole. */
  lemma RangeEmitted(last: Option<int>, base: int, size: nat, cfg: D.Config)
    requires 2 <= size <= cfg.maxDifference + 1 && (last.Some? ==> last.value < base)
    ensures EmitNumbers(Ideal(Range(base, size), last), cfg).1 == Range(base, size)
  {
    hide Following, Late;
    var nums := Range(base, size);
    assert OutOfRange(nums, nums[size - 1], cfg.maxDifference) == 0;
    assert nums[..0] == [] && nums[0..] == nums;
    NoneLate(last, []);
    RangeContinued(last, base, size);
    EmptyLeft(nums);
  }

  lemma RangeContinued(last: Option<int>, base: int, size: nat)
    requires size > 0 && (last.Some? ==> last.value < base)
    ensures Continued(last, [], Range(base, size)) == Range(base, size)
  {
    var nums := Range(base, size);
    assert nums[1..] == Range(base + 1, size - 1);
    FollowingAll(nums[1..], base + 1, size - 1);
    assert nums == [nums[0]] + nums[1..];
  }

  /** Ideally, a call hands out the whole batch exactly when every lost packet is startable. */
  lemma BatchEmitted(stream: Stream, cfg: D.Config, i: Ideal, ns: seq<int>, base: int, media: nat, fec: nat, n: nat, first: int, length: nat)
    requires Honest(stream, cfg) && BatchArrives(stream, cfg, i, ns, base, media, fec, n, first, length)
    requires CacheNumbers(i, ns).nums != [] && AllSent(stream, CacheNumbers(i, ns).nums)
    requires media + fec <= cfg.maxDifference + 1
    ensures var out := DecodeNumbers(stream, cfg, i, ns).1;
            && (out == Range(base, media + fec) <==> forall m :: first <= m < first + length ==> Startable(stream, i.last, m))
            && Ascending(out) && forall m :: m in out ==> base <= m < base + media + fec
  {
    hide CacheNumbers, RecoverAll, EmitNumbers, Startable, BatchSent, Honest;
    var g := Gathered(stream, cfg, i, ns);
    BatchNotEmpty(stream, cfg, base, media, fec, n);
    BatchGathered(stream, cfg, i, ns, base, media, fec, n, first, length);
    EmitAscends(g, cfg);
    if forall m :: first <= m < first + length ==> Startable(stream, i.last, m) {
      CoversRange(g.nums, base, media + fec);
      RangeEmitted(i.last, base, media + fec, cfg);
    } else {
      var m :| first <= m < first + length && !Startable(stream, i.last, m);
      InRangeOf(base, media + fec, m);
    }
  }

  lemma SamePackets(stream: Stream, out: seq<int>, base: int, size: nat)
    requires Ascending(out) && AllSent(stream, out) && AllSent(stream, Range(base, size))
    requires forall m :: m in out ==> base <= m < base + size
    ensures PacketsFor(stream, out) == PacketsFor(stream, Range(base, size)) <==> out == Range(base, size)
  {
    if PacketsFor(stream, out) == PacketsFor(stream, Range(base, size)) {
      assert |out| == size;
      FillsRange(out, base, size);
    }
  }

  lemma BatchAllSent(stream: Stream, cfg: D.Config, base: int, media: nat, fec: nat, n: nat)
    requires Honest(stream, cfg) && BatchSent(stream, cfg, base, media, fec, n)
    ensures AllSent(stream, Range(base, media + fec))
  {
    hide Interleaved, Honest;
    var all := Range(base, media + fec);
    forall k | 0 <= k < media + fec ensures all[k] in stream.sent {
      if k < media {
        MediaNotFec(stream, cfg, base, media, fec, n, base + k);
      } else {
        assert Range(base + media, fec)[k - media] == base + k;
      }
    }
  }

  /** Delivery of a protected batch. With an empty cache, let one call bring the FEC
      packets of an interleaved batch and all its media packets but a burst no longer
      than the number of interleaved FEC packets, in any order. If the batch fits the cache range,
      the call hands out the whole batch, in order and byte for byte as it was sent, if
      and only if each lost packet has a payload and, before any release, a 16-bit
      number of at most 32768. */
  lemma BatchDelivered(stream: Stream, cfg: D.Config, s: D.DecoderState, i: Ideal, found: map<int, seq<int>>, lo: int,
                       ns: seq<int>, packets: seq<RtpPacket>, base: int, media: nat, fec: nat, n: nat, first: int, length: nat)
    requires Honest(stream, cfg) && Related(stream, cfg, s, i, found)
    requires CallOk(stream, cfg, i, ns, lo) && packets == PacketsFor(stream, ns)
    requires BatchArrives(stream, cfg, i, ns, base, media, fec, n, first, length) && media + fec <= cfg.maxDifference + 1
    ensures AllSent(stream, Range(base, media + fec)) && D.Decodable(s, cfg, packets)
    ensures D.Decoded(s, cfg, packets, []).1 == PacketsFor(stream, Range(base, media + fec)) <==>
            forall m :: first <= m < first + length ==> Startable(stream, i.last, m)
  {
    hide Honest, Related, CallOk, D.Decoded, DecodeNumbers, CacheNumbers, Startable, D.Decodable, BatchSent;
    var f, t, handed := CallRefines(stream, cfg, s, i, found, lo, ns, packets);
    BatchCached(stream, cfg, i, ns, base, media, fec, n, first, length);
    BatchEmitted(stream, cfg, i, ns, base, media, fec, n, first, length);
    BatchAllSent(stream, cfg, base, media, fec, n);
    SamePackets(stream, DecodeNumbers(stream, cfg, i, ns).1, base, media + fec);
  }
}
