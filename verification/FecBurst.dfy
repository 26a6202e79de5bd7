/** Interleaved groups let one recovery pass rebuild a burst no longer than the number
    of FEC packets; exactly which of its packets are rebuilt. */
module FecBurst {
  import opened SeqComparison
  import opened RtpPackets
  import opened SeqLemmas
  import opened FecXor
  import opened FecStream
  import opened FecIdeal
  import opened FecScan
  import opened FecRefinement
  import opened FecPass
  import D = FecDecoder

  // ---------- one pass rebuilds what lacks one member ----------

  /** A group from which the decoder can rebuild whatever it lacks. */
  predicate Rebuildable(stream: Stream, i: Ideal, top: int, f: int) {
    && f in stream.groups && Usable(stream.groups[f].ns, i, top)
    && var lacking := Lacking(stream.groups[f].ns, i.nums);
       |lacking| <= 1 && forall m :: m in lacking ==> CanStart(i, m) && m in stream.sent && stream.sent[m].payload.Some?
  }

  predicate Grown(i: Ideal, j: Ideal) {
    i.last == j.last && forall m :: m in i.nums ==> m in j.nums
  }

  lemma {:induction false} LackingShrinks(ns: seq<int>, nums: seq<int>, more: seq<int>)
    requires forall m :: m in nums ==> m in more
    ensures |Lacking(ns, more)| <= |Lacking(ns, nums)|
    ensures forall m :: m in Lacking(ns, more) ==> m in Lacking(ns, nums)
  {
    if ns != [] {
      LackingShrinks(ns[1..], nums, more);
    }
  }

  lemma RebuildableStill(stream: Stream, i: Ideal, j: Ideal, top: int, f: int)
    requires Rebuildable(stream, i, top, f) && Grown(i, j)
    ensures Rebuildable(stream, j, top, f)
  {
    LackingShrinks(stream.groups[f].ns, i.nums, j.nums);
  }

  lemma {:induction false} PlaceKeeps(nums: seq<int>, n: int)
    ensures n in Place(nums, n) && forall m :: m in nums ==> m in Place(nums, n)
  {
    if nums != [] && nums[0] != n && n > nums[0] {
      PlaceKeeps(nums[1..], n);
    }
  }

  lemma RecoverGrows(stream: Stream, i: Ideal, top: int, f: int)
    ensures Grown(i, RecoverNumber(stream, i, top, f))
    ensures Rebuildable(stream, i, top, f) ==> forall m :: m in stream.groups[f].ns ==> m in RecoverNumber(stream, i, top, f).nums
  {
    if f in stream.groups {
      var ns := stream.groups[f].ns;
      var lacking := Lacking(ns, i.nums);
      forall m | m in ns && m !in i.nums ensures m in lacking {
        LackingMembers(ns, i.nums, m);
      }
      if |lacking| == 1 {
        PlaceKeeps(i.nums, lacking[0]);
      }
    }
  }

  lemma {:induction false} PassGrows(stream: Stream, i: Ideal, top: int, fs: seq<int>)
    ensures Grown(i, RecoverNumbers(stream, i, top, fs))
    decreases fs
  {
    if fs != [] {
      RecoverGrows(stream, i, top, fs[0]);
      PassGrows(stream, RecoverNumber(stream, i, top, fs[0]), top, fs[1..]);
    }
  }

  /** Whatever the order of the FEC packets, a group that lacks at most one member
      when the pass begins is complete when it ends. */
  lemma {:induction false} RebuiltInPass(stream: Stream, i: Ideal, top: int, fs: seq<int>, f: int)
    requires f in fs && Rebuildable(stream, i, top, f)
    ensures forall m :: m in stream.groups[f].ns ==> m in RecoverNumbers(stream, i, top, fs).nums
    decreases fs
  {
    var j := RecoverNumber(stream, i, top, fs[0]);
    RecoverGrows(stream, i, top, fs[0]);
    if fs[0] == f {
      PassGrows(stream, j, top, fs[1..]);
    } else {
      RebuildableStill(stream, i, j, top, f);
      RebuiltInPass(stream, j, top, fs[1..], f);
    }
  }

  // ---------- bursts ----------

  /** `media` packets from `base` on, protected by the interleaved matrix: FEC packet
      `fecs[r]` protects the packets whose place is `r` modulo the number of FEC packets. */
  ghost predicate Interleaved(stream: Stream, base: int, media: nat, fecs: seq<int>) {
    && 0 < |fecs| <= media
    && forall r :: 0 <= r < |fecs| ==>
         && fecs[r] in stream.groups
         && forall m :: m in stream.groups[fecs[r]].ns <==> base <= m < base + media && (m - base) % |fecs| == r
  }

  /** The FEC packet that protects `m`. */
  lemma Owner(stream: Stream, base: int, media: nat, fecs: seq<int>, m: int) returns (f: int)
    requires Interleaved(stream, base, media, fecs) && base <= m < base + media
    ensures f in fecs && f in stream.groups && m in stream.groups[f].ns
  {
    f := fecs[(m - base) % |fecs|];
  }

  /** All FEC packets of the batch are cached and of its media packets only `length`
      consecutive ones are lost: the others are cached or were released before. */
  ghost predicate BurstLost(i: Ideal, base: int, media: nat, fecs: seq<int>, first: int, length: nat) {
    && base <= first && first + length <= base + media
    && (forall m :: base <= m < base + media && !(first <= m < first + length) ==> m in i.nums || FecIdeal.Released(i.last, m))
    && (forall m :: first <= m < first + length ==> m !in i.nums)
    && (forall r :: 0 <= r < |fecs| ==> fecs[r] in i.nums)
  }

  /** The packets protected together with `m`. */
  ghost function Together(stream: Stream, base: int, media: nat, fecs: seq<int>, m: int): seq<int>
    requires Interleaved(stream, base, media, fecs)
  {
    stream.groups[fecs[(m - base) % |fecs|]].ns
  }

  /** Every cached FEC packet that protects `m` protects exactly the packets `ns`. */
  ghost predicate OneGroup(stream: Stream, cfg: D.Config, i: Ideal, ns: seq<int>, m: int) {
    forall f :: f in i.nums && f in stream.sent && stream.IsFec(cfg, f) && f in stream.groups && m in stream.groups[f].ns ==>
      stream.groups[f].ns == ns
  }

  /** The oldest and the newest packet protected together with `m`. */
  function OldestWith(base: int, fec: nat, m: int): int
    requires fec > 0
  {
    base + (m - base) % fec
  }

  function NewestWith(base: int, media: nat, fec: nat, m: int): int
    requires fec > 0
  {
    base + media - 1 - (base + media - 1 - m) % fec
  }

  /** What a caller can check before the call: nothing protected together with `m` has
      been released or is newer than the newest cached packet, `m` has a payload, and
      before any release its 16-bit number is not one the program takes to be before 0. */
  ghost predicate InTime(stream: Stream, i: Ideal, top: int, base: int, media: nat, fec: nat, m: int)
    requires fec > 0
  {
    && !FecIdeal.Released(i.last, OldestWith(base, fec, m)) && NewestWith(base, media, fec, m) <= top
    && CanStart(i, m) && m in stream.sent && stream.sent[m].payload.Some?
  }

  lemma SameRemainder(n: nat, x: int, q: int)
    requires n > 0
    ensures (x + n * q) % n == x % n
  {
    var a, b := (x + n * q) / n, x / n;
    assert n * (b + q - a) == (x + n * q) % n - x % n by {
      assert n * (b + q - a) == n * b + n * q - n * a;
    }
    if b + q - a != 0 {
      NonZeroMultiple(n, b + q - a);
    }
  }

  /** Both ends of the group of `m` lie in the batch and around every member. */
  lemma GroupEnds(base: int, media: nat, fec: nat, m: int, x: int)
    requires fec > 0 && base <= m < base + media
    requires base <= x < base + media && (x - base) % fec == (m - base) % fec
    ensures OldestWith(base, fec, m) <= x <= NewestWith(base, media, fec, m)
    ensures base <= OldestWith(base, fec, m) && NewestWith(base, media, fec, m) < base + media
    ensures (OldestWith(base, fec, m) - base) % fec == (m - base) % fec
    ensures (NewestWith(base, media, fec, m) - base) % fec == (m - base) % fec
  {
    OldestRemainder(fec, m - base);
    NewestRemainder(fec, m - base, media - 1);
    WithinBlock(fec, OldestWith(base, fec, m) - base, x - base);
    WithinBlock(fec, x - base, NewestWith(base, media, fec, m) - base);
  }

  lemma OldestRemainder(n: nat, a: nat)
    requires n > 0
    ensures 0 <= a % n <= a && a % n < n && (a % n) % n == a % n
  {
    assert a == n * (a / n) + a % n;
    SameRemainder(n, a % n, a / n);
  }

  lemma NewestRemainder(n: nat, a: nat, last: nat)
    requires n > 0 && a <= last
    ensures last - n < last - (last - a) % n && a <= last - (last - a) % n <= last
    ensures (last - (last - a) % n) % n == a % n
  {
    var q := (last - a) / n;
    assert last - a == n * q + (last - a) % n;
    SameRemainder(n, a, q);
    assert last - (last - a) % n == a + n * q;
    assert q >= 0 ==> n * q >= 0;
  }

  /** Of two numbers with one remainder the later cannot come first by less than `n`. */
  lemma WithinBlock(n: nat, a: int, b: int)
    requires n > 0 && a % n == b % n && b > a - n
    ensures a <= b
  {
    if b < a {
      OneInBurst(n, b, a);
    }
  }

  lemma OneInBurst(n: nat, a: int, b: int)
    requires n > 0 && a % n == b % n && 0 <= b - a < n
    ensures a == b
  {
    var q := b / n - a / n;
    assert b - a == n * q by {
      assert b == n * (b / n) + b % n && a == n * (a / n) + a % n;
    }
    if q != 0 {
      NonZeroMultiple(n, q);
    }
  }

  /** A burst no longer than the number of FEC packets takes at most one packet from
      each group none of which is released. */
  lemma BurstTakesOne(stream: Stream, i: Ideal, base: int, media: nat, fecs: seq<int>, first: int, length: nat, m: int)
    requires Interleaved(stream, base, media, fecs) && BurstLost(i, base, media, fecs, first, length) && length <= |fecs|
    requires first <= m < first + length && !FecIdeal.Released(i.last, OldestWith(base, |fecs|, m))
    requires Ascending(stream.groups[fecs[(m - base) % |fecs|]].ns)
    ensures Lacking(stream.groups[fecs[(m - base) % |fecs|]].ns, i.nums) == [m]
  {
    hide BurstLost;
    var ns := stream.groups[fecs[(m - base) % |fecs|]].ns;
    LackingAscends(ns, i.nums);
    forall x | x in Lacking(ns, i.nums) ensures x == m {
      TakenAlone(stream, i, base, media, fecs, first, length, m, x);
    }
    MemberOfOwn(stream, i, base, media, fecs, first, length, m);
    LackingMembers(ns, i.nums, m);
    OnlyOne(Lacking(ns, i.nums), m);
  }

  lemma MemberOfOwn(stream: Stream, i: Ideal, base: int, media: nat, fecs: seq<int>, first: int, length: nat, m: int)
    requires Interleaved(stream, base, media, fecs) && BurstLost(i, base, media, fecs, first, length)
    requires first <= m < first + length
    ensures m in stream.groups[fecs[(m - base) % |fecs|]].ns && m !in i.nums
  {
  }

  lemma TakenAlone(stream: Stream, i: Ideal, base: int, media: nat, fecs: seq<int>, first: int, length: nat, m: int, x: int)
    requires Interleaved(stream, base, media, fecs) && BurstLost(i, base, media, fecs, first, length) && length <= |fecs|
    requires first <= m < first + length && !FecIdeal.Released(i.last, OldestWith(base, |fecs|, m))
    requires x in Lacking(stream.groups[fecs[(m - base) % |fecs|]].ns, i.nums)
    ensures x == m
  {
    LackingMembers(stream.groups[fecs[(m - base) % |fecs|]].ns, i.nums, x);
    GroupEnds(base, media, |fecs|, m, x);
    if x < m {
      OneInBurst(|fecs|, x - base, m - base);
    } else {
      OneInBurst(|fecs|, m - base, x - base);
    }
  }

  lemma OnlyOne(ns: seq<int>, m: int)
    requires Ascending(ns) && m in ns && forall x :: x in ns ==> x == m
    ensures ns == [m]
  {
    assert |ns| >= 2 ==> ns[0] < ns[1];
    forall k | 0 <= k < |ns| ensures ns[k] == m {
      assert ns[k] in ns;
    }
  }

  /** A lost packet in time is one the pass can rebuild. */
  lemma BurstRebuildable(stream: Stream, i: Ideal, top: int, base: int, media: nat, fecs: seq<int>, first: int, length: nat, m: int)
    requires Interleaved(stream, base, media, fecs) && BurstLost(i, base, media, fecs, first, length) && length <= |fecs|
    requires first <= m < first + length && InTime(stream, i, top, base, media, |fecs|, m)
    requires Ascending(stream.groups[fecs[(m - base) % |fecs|]].ns)
    ensures Rebuildable(stream, i, top, fecs[(m - base) % |fecs|])
  {
    var ns := stream.groups[fecs[(m - base) % |fecs|]].ns;
    BurstTakesOne(stream, i, base, media, fecs, first, length, m);
    forall x | x in ns ensures !FecIdeal.Released(i.last, x) && x <= top {
      GroupEnds(base, media, |fecs|, m, x);
    }
  }

  // ---------- what a pass cannot rebuild ----------

  /** A group from which the decoder would never rebuild `m`. */
  predicate Closed(stream: Stream, i: Ideal, top: int, f: int, m: int) {
    f in stream.groups && m in stream.groups[f].ns ==>
      !(Usable(stream.groups[f].ns, i, top) && CanStart(i, m) && m in stream.sent && stream.sent[m].payload.Some?)
  }

  lemma {:induction false} PlaceOnly(nums: seq<int>, n: int, m: int)
    requires m in Place(nums, n)
    ensures m in nums || m == n
  {
    if nums != [] && nums[0] != n && n > nums[0] && m != nums[0] {
      PlaceOnly(nums[1..], n, m);
    }
  }

  lemma ClosedTurn(stream: Stream, i: Ideal, top: int, f: int, m: int)
    requires m !in i.nums && Closed(stream, i, top, f, m)
    ensures m !in RecoverNumber(stream, i, top, f).nums
  {
    if m in RecoverNumber(stream, i, top, f).nums {
      var ns := stream.groups[f].ns;
      PlaceOnly(i.nums, Lacking(ns, i.nums)[0], m);
      LackingMembers(ns, i.nums, m);
    }
  }

  /** What no group can give back stays missing. */
  lemma {:induction false} NeverRebuilt(stream: Stream, i: Ideal, top: int, fs: seq<int>, m: int)
    requires m !in i.nums && forall f :: f in fs ==> Closed(stream, i, top, f, m)
    ensures m !in RecoverNumbers(stream, i, top, fs).nums
    decreases fs
  {
    if fs != [] {
      var j := RecoverNumber(stream, i, top, fs[0]);
      ClosedTurn(stream, i, top, fs[0], m);
      RecoverGrows(stream, i, top, fs[0]);
      forall f | f in fs[1..] ensures Closed(stream, j, top, f, m) {
        assert f in fs && Closed(stream, i, top, f, m);
      }
      NeverRebuilt(stream, j, top, fs[1..], m);
    }
  }

  /** A lost packet not in time is closed in every FEC packet of its group. */
  lemma LateCloses(stream: Stream, i: Ideal, top: int, base: int, media: nat, fecs: seq<int>, m: int, f: int)
    requires Interleaved(stream, base, media, fecs) && base <= m < base + media
    requires f in stream.groups && stream.groups[f].ns == Together(stream, base, media, fecs, m)
    requires !InTime(stream, i, top, base, media, |fecs|, m)
    ensures Closed(stream, i, top, f, m)
  {
    GroupEnds(base, media, |fecs|, m, m);
    assert OldestWith(base, |fecs|, m) in stream.groups[f].ns;
    assert NewestWith(base, media, |fecs|, m) in stream.groups[f].ns;
  }

  // ---------- burst recovery ----------

  /** The FEC packets of a batch are on the wire. */
  ghost predicate FecsSent(stream: Stream, cfg: D.Config, fecs: seq<int>) {
    forall r :: 0 <= r < |fecs| ==> fecs[r] in stream.sent && stream.IsFec(cfg, fecs[r])
  }

  lemma InTimeRebuilt(stream: Stream, cfg: D.Config, i: Ideal, top: int, base: int, media: nat, fecs: seq<int>, first: int, length: nat, m: int)
    requires Honest(stream, cfg) && AllSent(stream, i.nums)
    requires Interleaved(stream, base, media, fecs) && BurstLost(i, base, media, fecs, first, length) && length <= |fecs|
    requires FecsSent(stream, cfg, fecs) && first <= m < first + length && InTime(stream, i, top, base, media, |fecs|, m)
    ensures m in RecoverNumbers(stream, i, top, FecNumbers(stream, cfg, i.nums)).nums
  {
    hide InTime, RecoverNumbers, FecNumbers, HonestPacket, Rebuildable;
    var f := fecs[(m - base) % |fecs|];
    assert HonestGroup(stream, cfg, f);
    BurstRebuildable(stream, i, top, base, media, fecs, first, length, m);
    FecNumbersMember(stream, cfg, i.nums, f);
    RebuiltInPass(stream, i, top, FecNumbers(stream, cfg, i.nums), f);
  }

  lemma LateNotRebuilt(stream: Stream, cfg: D.Config, i: Ideal, top: int, base: int, media: nat, fecs: seq<int>, first: int, length: nat, m: int)
    requires AllSent(stream, i.nums)
    requires Interleaved(stream, base, media, fecs) && BurstLost(i, base, media, fecs, first, length)
    requires first <= m < first + length && !InTime(stream, i, top, base, media, |fecs|, m) && OneGroup(stream, cfg, i, Together(stream, base, media, fecs, m), m)
    ensures m !in RecoverNumbers(stream, i, top, FecNumbers(stream, cfg, i.nums)).nums
  {
    hide InTime, RecoverNumbers, FecNumbers, Closed, Interleaved;
    forall g | g in FecNumbers(stream, cfg, i.nums) ensures Closed(stream, i, top, g, m) {
      FecNumbersMember(stream, cfg, i.nums, g);
      assert g in stream.sent;
      if g in stream.groups && m in stream.groups[g].ns {
        LateCloses(stream, i, top, base, media, fecs, m, g);
      } else {
        NotProtected(stream, i, top, g, m);
      }
    }
    NeverRebuilt(stream, i, top, FecNumbers(stream, cfg, i.nums), m);
  }

  lemma NotProtected(stream: Stream, i: Ideal, top: int, f: int, m: int)
    requires !(f in stream.groups && m in stream.groups[f].ns)
    ensures Closed(stream, i, top, f, m)
  {
  }

  /** One ideal pass rebuilds a packet of the burst exactly when it is in time. */
  lemma RebuiltExactly(stream: Stream, cfg: D.Config, i: Ideal, base: int, media: nat, fecs: seq<int>, first: int, length: nat, m: int)
    requires Honest(stream, cfg) && i.nums != [] && AllSent(stream, i.nums)
    requires Interleaved(stream, base, media, fecs) && BurstLost(i, base, media, fecs, first, length) && length <= |fecs|
    requires FecsSent(stream, cfg, fecs) && first <= m < first + length && OneGroup(stream, cfg, i, Together(stream, base, media, fecs, m), m)
    ensures m in RecoverAll(stream, cfg, i).nums <==> InTime(stream, i, i.nums[|i.nums| - 1], base, media, |fecs|, m)
  {
    hide InTime, RecoverNumbers, FecNumbers, Interleaved, BurstLost, FecsSent, Honest;
    var top := i.nums[|i.nums| - 1];
    if InTime(stream, i, top, base, media, |fecs|, m) {
      InTimeRebuilt(stream, cfg, i, top, base, media, fecs, first, length, m);
    } else {
      LateNotRebuilt(stream, cfg, i, top, base, media, fecs, first, length, m);
    }
  }

  predicate CachedAs(cached: seq<D.CachedPacket>, p: RtpPacket) {
    exists k :: 0 <= k < |cached| && cached[k].packet == p
  }

  /** In play, a packet is in the cache exactly when its number is. */
  lemma CachedExactly(stream: Stream, cfg: D.Config, s: D.DecoderState, i: Ideal, lo: int, m: int)
    requires Honest(stream, cfg) && Shape(stream, cfg, s, i) && Window(stream, cfg, i, lo) && Near(lo, m) && m in stream.sent
    ensures CachedAs(s.cached, stream.sent[m]) <==> m in i.nums
  {
    assert HonestPacket(cfg, stream.sent[m], m);
    if m in i.nums {
      var k :| 0 <= k < |i.nums| && i.nums[k] == m;
      assert SlotOk(stream, cfg, s.cached[k], i.nums[k]);
    }
    if CachedAs(s.cached, stream.sent[m]) {
      var k :| 0 <= k < |s.cached| && s.cached[k].packet == stream.sent[m];
      assert SlotOk(stream, cfg, s.cached[k], i.nums[k]) && InPlay(stream, cfg, i.nums[k], lo);
      assert HonestPacket(cfg, stream.sent[i.nums[k]], i.nums[k]);
      WrapInjective(i.nums[k], m);
    }
  }

  /** Burst recovery. When all FEC packets of an interleaved batch are cached, no more
      consecutive media packets are lost than there are FEC packets, and whatever other
      cached FEC packet protects a lost one protects its whole group, one pass of
      the program's recovery puts a lost packet into the cache, as it was sent, if and
      only if it is in time. */
  lemma BurstRecovered(stream: Stream, cfg: D.Config, s: D.DecoderState, i: Ideal, found: map<int, seq<int>>, lo: int,
                       base: int, media: nat, fecs: seq<int>, first: int, length: nat, m: int)
    requires Honest(stream, cfg) && Related(stream, cfg, s, i, found) && Window(stream, cfg, i, lo) && s.cached != []
    requires Interleaved(stream, base, media, fecs) && BurstLost(i, base, media, fecs, first, length) && length <= |fecs|
    requires FecsSent(stream, cfg, fecs) && first <= m < first + length && OneGroup(stream, cfg, i, Together(stream, base, media, fecs, m), m)
    ensures m in stream.sent
    ensures CachedAs(D.Recovered(s, cfg).cached, stream.sent[m]) <==>
            InTime(stream, i, i.nums[|i.nums| - 1], base, media, |fecs|, m)
  {
    hide CachedAs, BurstLost, InTime, SafePass, RecoverAll, Honest;
    var after := RecoveredRefines(stream, cfg, s, i, found, lo);
    BurstSent(stream, cfg, i, lo, base, media, fecs, first, length, m);
    RebuiltExactly(stream, cfg, i, base, media, fecs, first, length, m);
    CachedExactly(stream, cfg, D.Recovered(s, cfg), RecoverAll(stream, cfg, i), lo, m);
  }

  lemma BurstSent(stream: Stream, cfg: D.Config, i: Ideal, lo: int, base: int, media: nat, fecs: seq<int>,
                  first: int, length: nat, m: int)
    requires Honest(stream, cfg) && Window(stream, cfg, i, lo)
    requires Interleaved(stream, base, media, fecs) && BurstLost(i, base, media, fecs, first, length)
    requires FecsSent(stream, cfg, fecs) && first <= m < first + length
    ensures m in stream.sent && Near(lo, m)
  {
    hide HonestPacket, Interleaved;
    var f := Owner(stream, base, media, fecs, m);
    assert HonestGroup(stream, cfg, f) && InPlay(stream, cfg, f, lo);
  }
}
