/** Caching what arrives and one recovery pass over all cached FEC packets, both as
    refinements of the ideal decoder. */
module FecPass {
  import opened SeqComparison
  import opened RtpPackets
  import opened SeqLemmas
  import opened FecStream
  import opened FecIdeal
  import opened FecScan
  import opened FecRefinement
  import opened FecTurn
  import D = FecDecoder

  // ---------- caching ----------

  function CacheNumbers(i: Ideal, ns: seq<int>): Ideal {
    if ns == [] then i else CacheNumber(CacheNumbers(i, ns[..|ns| - 1]), ns[|ns| - 1])
  }

  /** What is cached afterwards: what was, and what came unless something newer had been
      released, in ascending order. */
  lemma {:induction false} CachedNumbers(i: Ideal, ns: seq<int>, m: int)
    requires Ascending(i.nums)
    ensures var j := CacheNumbers(i, ns);
            && Ascending(j.nums) && j.last == i.last
            && (m in j.nums <==> m in i.nums || (m in ns && !(i.last.Some? && m < i.last.value)))
    decreases |ns|
  {
    if ns != [] {
      var before, n := ns[..|ns| - 1], ns[|ns| - 1];
      CachedNumbers(i, before, m);
      PlaceMembers(CacheNumbers(i, before).nums, n);
      assert ns == before + [n];
    }
  }

  predicate AllSent(stream: Stream, ns: seq<int>) {
    forall k :: 0 <= k < |ns| ==> ns[k] in stream.sent
  }

  function PacketsFor(stream: Stream, ns: seq<int>): (r: seq<RtpPacket>)
    requires AllSent(stream, ns)
    ensures |r| == |ns|
    ensures forall k :: 0 <= k < |ns| ==> r[k] == stream.sent[ns[k]]
  {
    seq(|ns|, k requires 0 <= k < |ns| => stream.sent[ns[k]])
  }

  lemma CacheNumberKeeps(stream: Stream, cfg: D.Config, i: Ideal, lo: int, n: int)
    requires Ascending(i.nums) && Window(stream, cfg, i, lo) && InPlay(stream, cfg, n, lo)
    ensures Ascending(CacheNumber(i, n).nums) && Window(stream, cfg, CacheNumber(i, n), lo)
  {
    PlaceMembers(i.nums, n);
  }

  lemma CacheOneRefines(stream: Stream, cfg: D.Config, s: D.DecoderState, i: Ideal, found: map<int, seq<int>>, lo: int, n: int)
    returns (found': map<int, seq<int>>)
    requires Honest(stream, cfg) && Related(stream, cfg, s, i, found)
    requires Window(stream, cfg, i, lo) && InPlay(stream, cfg, n, lo)
    ensures Related(stream, cfg, D.CacheOne(s, cfg, stream.sent[n]), CacheNumber(i, n), found')
  {
    hide FecOk, SlotOk, Place, D.Placed, Serialized;
    var p := stream.sent[n];
    assert HonestPacket(cfg, p, n);
    found' := found;
    if i.last.Some? {
      AfterBridge(n, i.last.value);
    }
    if i.last.None? || n >= i.last.value {
      var added := D.NewCached(cfg, s.nextId, p, stream.Image(n));
      WindowCarries(stream, cfg, s, i, found, lo);
      PlacedAt(s.cached, i.nums, lo, added, n);
      PlaceAt(i.nums, n);
      if n !in i.nums {
        AddRelated(stream, cfg, s, i, found, added, n);
        found' := found[n := []];
      }
    }
  }

  ghost predicate AllInPlay(stream: Stream, cfg: D.Config, ns: seq<int>, lo: int) {
    forall k :: 0 <= k < |ns| ==> InPlay(stream, cfg, ns[k], lo)
  }

  /** The last arrival of a call, with the ones before it in the states `t` and `j`. */
  lemma CacheLast(stream: Stream, cfg: D.Config, s: D.DecoderState, i: Ideal, t: D.DecoderState, j: Ideal,
                  ns: seq<int>, packets: seq<RtpPacket>)
    requires AllSent(stream, ns) && packets == PacketsFor(stream, ns) && ns != []
    requires t == D.CacheAll(s, cfg, packets[..|ns| - 1]) && j == CacheNumbers(i, ns[..|ns| - 1])
    ensures D.CacheAll(s, cfg, packets) == D.CacheOne(t, cfg, stream.sent[ns[|ns| - 1]])
    ensures CacheNumbers(i, ns) == CacheNumber(j, ns[|ns| - 1])
  {
  }

  lemma ArrivedBefore(stream: Stream, cfg: D.Config, ns: seq<int>, packets: seq<RtpPacket>, lo: int)
    requires AllInPlay(stream, cfg, ns, lo) && AllSent(stream, ns) && packets == PacketsFor(stream, ns) && ns != []
    ensures var before := ns[..|ns| - 1];
            AllInPlay(stream, cfg, before, lo) && AllSent(stream, before) && packets[..|ns| - 1] == PacketsFor(stream, before)
    ensures InPlay(stream, cfg, ns[|ns| - 1], lo)
  {
  }

  /** What arrives in one call is cached as the ideal decoder would. */
  lemma {:induction false} CacheAllRefines(stream: Stream, cfg: D.Config, s: D.DecoderState, i: Ideal,
                                           found: map<int, seq<int>>, lo: int, ns: seq<int>, packets: seq<RtpPacket>)
    returns (found': map<int, seq<int>>)
    requires Honest(stream, cfg) && Related(stream, cfg, s, i, found) && Window(stream, cfg, i, lo)
    requires AllInPlay(stream, cfg, ns, lo) && AllSent(stream, ns) && packets == PacketsFor(stream, ns)
    ensures Related(stream, cfg, D.CacheAll(s, cfg, packets), CacheNumbers(i, ns), found')
    ensures Window(stream, cfg, CacheNumbers(i, ns), lo)
    decreases |ns|
  {
    found' := found;
    if ns != [] {
      ArrivedBefore(stream, cfg, ns, packets, lo);
      var t, j := D.CacheAll(s, cfg, packets[..|ns| - 1]), CacheNumbers(i, ns[..|ns| - 1]);
      var f := CacheAllRefines(stream, cfg, s, i, found, lo, ns[..|ns| - 1], packets[..|ns| - 1]);
      CacheLast(stream, cfg, s, i, t, j, ns, packets);
      found' := CacheArrival(stream, cfg, t, j, f, lo, ns[|ns| - 1]);
    }
  }

  lemma CacheArrival(stream: Stream, cfg: D.Config, s: D.DecoderState, i: Ideal, found: map<int, seq<int>>, lo: int, n: int)
    returns (found': map<int, seq<int>>)
    requires Honest(stream, cfg) && Related(stream, cfg, s, i, found)
    requires Window(stream, cfg, i, lo) && InPlay(stream, cfg, n, lo)
    ensures Related(stream, cfg, D.CacheOne(s, cfg, stream.sent[n]), CacheNumber(i, n), found')
    ensures Window(stream, cfg, CacheNumber(i, n), lo)
  {
    CacheNumberKeeps(stream, cfg, i, lo, n);
    found' := CacheOneRefines(stream, cfg, s, i, found, lo, n);
  }

  // ---------- a recovery pass ----------

  function RecoverNumbers(stream: Stream, i: Ideal, top: int, fs: seq<int>): (j: Ideal)
    ensures i.nums != [] ==> j.nums != []
    decreases fs
  {
    if fs == [] then i else RecoverNumbers(stream, RecoverNumber(stream, i, top, fs[0]), top, fs[1..])
  }

  /** A FEC packet is still there when its turn comes, and none of the packets it
      points to has been erased when it is used to recover. */
  predicate SafeTurn(s: D.DecoderState, lastSeq: Seq16, id: nat) {
    && s.cached != [] && !D.Dangling(s.cached, id)
    && var c := D.PointedTo(s.cached, id);
       !c.invalidFec && D.Attempts(s, D.ScanOf(s, lastSeq, c)) ==> !D.SomeDangling(s.cached, D.ScanOf(s, lastSeq, c).media)
  }

  predicate SafePass(s: D.DecoderState, cfg: D.Config, lastSeq: Seq16, ids: seq<nat>)
    decreases ids
  {
    ids == [] ||
    (SafeTurn(s, lastSeq, ids[0]) && SafePass(D.RecoverOne(s, cfg, lastSeq, ids[0]), cfg, lastSeq, ids[1..]))
  }

  /** A pointer `id` leads to the cached FEC packet `f`. */
  ghost predicate InLine(cached: seq<D.CachedPacket>, nums: seq<int>, id: nat, f: int)
    requires |cached| == |nums|
  {
    exists k :: 0 <= k < |cached| && cached[k].id == id && nums[k] == f && cached[k].isFec
  }

  /** The pointers gathered before the pass lead to the FEC packets `fs`. */
  ghost predicate Queue(cached: seq<D.CachedPacket>, nums: seq<int>, ids: seq<nat>, fs: seq<int>)
    requires |cached| == |nums|
  {
    |ids| == |fs| && forall a :: 0 <= a < |ids| ==> InLine(cached, nums, ids[a], fs[a])
  }

  lemma {:induction false} PlacedKeeps(cached: seq<D.CachedPacket>, r: D.CachedPacket, c: D.CachedPacket)
    requires c in cached
    ensures c in D.Placed(cached, r)
  {
    if cached[0].Seq() != r.Seq() && !IsSeqBefore(r.Seq(), cached[0].Seq()) && c != cached[0] {
      PlacedKeeps(cached[1..], r, c);
    }
  }

  predicate Same(a: D.CachedPacket, b: D.CachedPacket) {
    a.id == b.id && a.packet == b.packet && a.isFec == b.isFec
  }

  predicate Holds(cached: seq<D.CachedPacket>, c: D.CachedPacket) {
    exists k :: 0 <= k < |cached| && Same(cached[k], c)
  }

  lemma UpdateHolds(cached: seq<D.CachedPacket>, k: nat, d: D.CachedPacket, c: D.CachedPacket)
    requires k < |cached| && Same(d, cached[k]) && c in cached
    ensures Holds(cached[k := d], c)
    ensures exists e :: e in cached[k := d] && Same(e, c)
  {
    var a :| 0 <= a < |cached| && cached[a] == c;
    var cached' := cached[k := d];
    assert Same(cached'[a], c);
    assert cached'[a] in cached';
  }

  lemma InHolds(cached: seq<D.CachedPacket>, e: D.CachedPacket, c: D.CachedPacket)
    requires e in cached && Same(e, c)
    ensures Holds(cached, c)
  {
    var a :| 0 <= a < |cached| && cached[a] == e;
    assert Same(cached[a], c);
  }

  /** Nothing leaves the cache in a turn. */
  lemma TurnHolds(s: D.DecoderState, cfg: D.Config, lastSeq: Seq16, k: nat, c: D.CachedPacket)
    requires k < |s.cached| && c in s.cached
    ensures Holds(D.RecoverAt(s, cfg, lastSeq, k).cached, c)
  {
    if s.cached[k].invalidFec {
      InHolds(s.cached, c, c);
    } else {
      var noted := D.Noted(s.cached[k], D.ScanOf(s, lastSeq, s.cached[k]));
      var retired := noted.(invalidFec := true);
      UpdateHolds(s.cached, k, noted, c);
      UpdateHolds(s.cached, k, retired, c);
      var after := D.RecoverAt(s, cfg, lastSeq, k).cached;
      if after != s.cached[k := noted] {
        var e :| e in s.cached[k := retired] && Same(e, c);
        var r :| after == D.Placed(s.cached[k := retired], r);
        PlacedKeeps(s.cached[k := retired], r, e);
        InHolds(after, e, c);
      }
    }
  }

  lemma InLineStill(cached: seq<D.CachedPacket>, nums: seq<int>, cached': seq<D.CachedPacket>, nums': seq<int>,
                    lo: int, id: nat, f: int)
    requires Carrying(cached, nums, lo) && Carrying(cached', nums', lo)
    requires forall c :: c in cached ==> Holds(cached', c)
    requires InLine(cached, nums, id, f)
    ensures InLine(cached', nums', id, f)
  {
    var b :| 0 <= b < |cached| && cached[b].id == id && nums[b] == f && cached[b].isFec;
    assert Holds(cached', cached[b]);
    var b' :| 0 <= b' < |cached'| && Same(cached'[b'], cached[b]);
    WrapInjective(nums[b], nums'[b']);
  }

  /** The queued FEC packets stay queued through a turn. */
  lemma QueueStill(stream: Stream, cfg: D.Config, s: D.DecoderState, i: Ideal, found: map<int, seq<int>>,
                   s': D.DecoderState, i': Ideal, found': map<int, seq<int>>,
                   lo: int, lastSeq: Seq16, k: nat, ids: seq<nat>, fs: seq<int>)
    requires Honest(stream, cfg) && Related(stream, cfg, s, i, found) && Related(stream, cfg, s', i', found')
    requires Window(stream, cfg, i, lo) && Window(stream, cfg, i', lo)
    requires k < |s.cached| && s' == D.RecoverAt(s, cfg, lastSeq, k)
    requires Queue(s.cached, i.nums, ids, fs)
    ensures Queue(s'.cached, i'.nums, ids, fs)
  {
    WindowCarries(stream, cfg, s, i, found, lo);
    WindowCarries(stream, cfg, s', i', found', lo);
    forall c | c in s.cached ensures Holds(s'.cached, c) {
      TurnHolds(s, cfg, lastSeq, k, c);
    }
    QueueCarried(s.cached, i.nums, s'.cached, i'.nums, lo, ids, fs);
  }

  lemma QueueCarried(cached: seq<D.CachedPacket>, nums: seq<int>, cached': seq<D.CachedPacket>, nums': seq<int>,
                     lo: int, ids: seq<nat>, fs: seq<int>)
    requires Carrying(cached, nums, lo) && Carrying(cached', nums', lo)
    requires forall c :: c in cached ==> Holds(cached', c)
    requires Queue(cached, nums, ids, fs)
    ensures Queue(cached', nums', ids, fs)
  {
    forall a | 0 <= a < |ids| ensures InLine(cached', nums', ids[a], fs[a]) {
      InLineStill(cached, nums, cached', nums', lo, ids[a], fs[a]);
    }
  }

  ghost predicate GroupInPlay(stream: Stream, cfg: D.Config, f: int, lo: int) {
    f in stream.groups ==> forall m :: m in stream.groups[f].ns ==> InPlay(stream, cfg, m, lo)
  }

  lemma MembersInPlay(stream: Stream, cfg: D.Config, f: int, lo: int)
    requires Honest(stream, cfg) && InPlay(stream, cfg, f, lo) && stream.IsFec(cfg, f)
    ensures GroupInPlay(stream, cfg, f, lo)
  {
    assert HonestGroup(stream, cfg, f);
  }

  /** What an ideal turn adds, if anything. */
  lemma RecoveredNumber(stream: Stream, i: Ideal, top: int, f: int) returns (m: int)
    requires RecoverNumber(stream, i, top, f) != i
    ensures f in stream.groups && m in stream.groups[f].ns && m !in i.nums && m <= top && !FecIdeal.Released(i.last, m)
    ensures RecoverNumber(stream, i, top, f) == i.(nums := Place(i.nums, m))
  {
    m := Lacking(stream.groups[f].ns, i.nums)[0];
    LackingMembers(stream.groups[f].ns, i.nums, m);
  }

  /** A turn leaves everything in play and the newest number the newest. */
  lemma RecoverNumberKeeps(stream: Stream, cfg: D.Config, i: Ideal, lo: int, top: int, f: int, j: Ideal)
    requires Ascending(i.nums) && Window(stream, cfg, i, lo) && GroupInPlay(stream, cfg, f, lo)
    requires i.nums != [] && i.nums[|i.nums| - 1] == top
    requires j == RecoverNumber(stream, i, top, f)
    ensures Ascending(j.nums) && Window(stream, cfg, j, lo) && j.nums != [] && j.nums[|j.nums| - 1] == top
    ensures j.last == i.last
  {
    if j != i {
      var m := RecoveredNumber(stream, i, top, f);
      CacheNumberWindow(stream, cfg, i, lo, m, top);
    }
  }

  lemma CacheNumberWindow(stream: Stream, cfg: D.Config, i: Ideal, lo: int, m: int, top: int)
    requires Ascending(i.nums) && Window(stream, cfg, i, lo) && InPlay(stream, cfg, m, lo)
    requires i.nums != [] && i.nums[|i.nums| - 1] == top && m <= top
    ensures var nums := Place(i.nums, m);
            Ascending(nums) && Window(stream, cfg, i.(nums := nums), lo) && nums != [] && nums[|nums| - 1] == top
  {
    PlaceMembers(i.nums, m);
    var nums := Place(i.nums, m);
    assert top in nums;
    var k :| 0 <= k < |nums| && nums[k] == top;
    assert nums[|nums| - 1] in nums;
  }

  /** What a pass keeps: related caches with everything in play, and the newest number `top`. */
  ghost predicate Passing(stream: Stream, cfg: D.Config, s: D.DecoderState, i: Ideal, found: map<int, seq<int>>,
                          lo: int, top: int) {
    && Related(stream, cfg, s, i, found) && Window(stream, cfg, i, lo)
    && i.nums != [] && i.nums[|i.nums| - 1] == top
  }

  lemma TurnGroupInPlay(stream: Stream, cfg: D.Config, s: D.DecoderState, i: Ideal, lo: int, k: nat)
    requires Honest(stream, cfg) && Shape(stream, cfg, s, i) && Window(stream, cfg, i, lo)
    requires k < |s.cached| && s.cached[k].isFec
    ensures GroupInPlay(stream, cfg, i.nums[k], lo)
  {
    assert SlotOk(stream, cfg, s.cached[k], i.nums[k]);
    assert i.nums[k] in i.nums;
    MembersInPlay(stream, cfg, i.nums[k], lo);
  }

  lemma InLineAt(cached: seq<D.CachedPacket>, nums: seq<int>, nextId: nat, id: nat, f: int) returns (k: nat)
    requires |cached| == |nums| && IdsOk(cached, nextId) && InLine(cached, nums, id, f)
    ensures k < |cached| && nums[k] == f && cached[k].isFec && D.IndexOfId(cached, id) == Some(k)
  {
    k :| 0 <= k < |cached| && cached[k].id == id && nums[k] == f && cached[k].isFec;
    IndexFinds(cached, nextId, k);
  }

  /** The queued packet whose turn it is. */
  lemma QueueHead(stream: Stream, cfg: D.Config, s: D.DecoderState, i: Ideal, found: map<int, seq<int>>,
                  lo: int, top: int, id: nat, f: int) returns (k: nat)
    requires Honest(stream, cfg) && Passing(stream, cfg, s, i, found, lo, top) && InLine(s.cached, i.nums, id, f)
    ensures k < |s.cached| && i.nums[k] == f && D.IndexOfId(s.cached, id) == Some(k)
    ensures Turn(stream, cfg, s, i, found, lo, top, k)
    ensures GroupInPlay(stream, cfg, f, lo)
  {
    k := InLineAt(s.cached, i.nums, s.nextId, id, f);
    TurnGroupInPlay(stream, cfg, s, i, lo, k);
  }

  lemma TurnIsSafe(s: D.DecoderState, lastSeq: Seq16, id: nat, k: nat)
    requires k < |s.cached| && D.IndexOfId(s.cached, id) == Some(k)
    requires !s.cached[k].invalidFec && D.Attempts(s, D.ScanOf(s, lastSeq, s.cached[k])) ==>
               !D.SomeDangling(s.cached, D.ScanOf(s, lastSeq, s.cached[k]).media)
    ensures SafeTurn(s, lastSeq, id)
  {
  }

  /** What a turn leaves for the next one. */
  lemma TurnLeaves(stream: Stream, cfg: D.Config, s: D.DecoderState, i: Ideal, found: map<int, seq<int>>,
                   lo: int, top: int, k: nat, ids: seq<nat>, fs: seq<int>,
                   s': D.DecoderState, j: Ideal, found': map<int, seq<int>>)
    requires Honest(stream, cfg) && Passing(stream, cfg, s, i, found, lo, top) && Queue(s.cached, i.nums, ids, fs)
    requires k < |s.cached| && GroupInPlay(stream, cfg, i.nums[k], lo)
    requires s' == D.RecoverAt(s, cfg, Wrap(top), k) && j == RecoverNumber(stream, i, top, i.nums[k])
    requires Related(stream, cfg, s', j, found')
    ensures Passing(stream, cfg, s', j, found', lo, top) && Queue(s'.cached, j.nums, ids, fs) && j.last == i.last
  {
    RecoverNumberKeeps(stream, cfg, i, lo, top, i.nums[k], j);
    QueueStill(stream, cfg, s, i, found, s', j, found', lo, Wrap(top), k, ids, fs);
  }

  lemma PassStep(stream: Stream, cfg: D.Config, s: D.DecoderState, i: Ideal, found: map<int, seq<int>>,
                 lo: int, top: int, ids: seq<nat>, fs: seq<int>, s': D.DecoderState, j: Ideal)
    returns (found': map<int, seq<int>>)
    requires Honest(stream, cfg) && Passing(stream, cfg, s, i, found, lo, top) && Queue(s.cached, i.nums, ids, fs) && ids != []
    requires s' == D.RecoverOne(s, cfg, Wrap(top), ids[0]) && j == RecoverNumber(stream, i, top, fs[0])
    ensures Passing(stream, cfg, s', j, found', lo, top) && Queue(s'.cached, j.nums, ids, fs) && j.last == i.last
    ensures SafeTurn(s, Wrap(top), ids[0])
  {
    var k := QueueHead(stream, cfg, s, i, found, lo, top, ids[0], fs[0]);
    found' := TurnRefines(stream, cfg, s, i, found, lo, top, k);
    TurnIsSafe(s, Wrap(top), ids[0], k);
    TurnLeaves(stream, cfg, s, i, found, lo, top, k, ids, fs, s', j, found');
  }

  lemma QueueTail(cached: seq<D.CachedPacket>, nums: seq<int>, ids: seq<nat>, fs: seq<int>)
    requires |cached| == |nums| && Queue(cached, nums, ids, fs) && ids != []
    ensures Queue(cached, nums, ids[1..], fs[1..])
  {
    var more, rest := ids[1..], fs[1..];
    forall a | 0 <= a < |more| ensures InLine(cached, nums, more[a], rest[a]) {
      assert more[a] == ids[a + 1] && rest[a] == fs[a + 1];
    }
  }

  /** A recovery pass does what the ideal decoder does with the FEC packets in turn,
      and is safe throughout. */
  lemma {:induction false} PassRefines(stream: Stream, cfg: D.Config, s: D.DecoderState, i: Ideal, found: map<int, seq<int>>,
                                       lo: int, top: int, ids: seq<nat>, fs: seq<int>)
    returns (found': map<int, seq<int>>)
    requires Honest(stream, cfg) && Passing(stream, cfg, s, i, found, lo, top) && Queue(s.cached, i.nums, ids, fs)
    ensures Passing(stream, cfg, D.RecoverEach(s, cfg, Wrap(top), ids), RecoverNumbers(stream, i, top, fs), found', lo, top)
    ensures RecoverNumbers(stream, i, top, fs).last == i.last
    ensures SafePass(s, cfg, Wrap(top), ids)
    decreases |ids|
  {
    found' := found;
    if ids != [] {
      var s', j := D.RecoverOne(s, cfg, Wrap(top), ids[0]), RecoverNumber(stream, i, top, fs[0]);
      var f := PassStep(stream, cfg, s, i, found, lo, top, ids, fs, s', j);
      QueueTail(s'.cached, j.nums, ids, fs);
      found' := PassRefines(stream, cfg, s', j, f, lo, top, ids[1..], fs[1..]);
    }
  }

  /** The FEC packets among the cached numbers. */
  function FecNumbers(stream: Stream, cfg: D.Config, nums: seq<int>): seq<int>
    requires AllSent(stream, nums)
  {
    if nums == [] then []
    else (if stream.IsFec(cfg, nums[0]) then [nums[0]] else []) + FecNumbers(stream, cfg, nums[1..])
  }

  lemma FecNumbersMember(stream: Stream, cfg: D.Config, nums: seq<int>, f: int)
    requires AllSent(stream, nums)
    ensures f in FecNumbers(stream, cfg, nums) <==> f in nums && stream.IsFec(cfg, f)
  {
    if nums != [] {
      FecNumbersMember(stream, cfg, nums[1..], f);
      assert nums == [nums[0]] + nums[1..];
      forall k | 0 <= k < |nums| ensures nums[k] in stream.sent {
      }
    }
  }

  /** The pointers gathered before a pass. */
  lemma {:induction false} QueueFrom(stream: Stream, cfg: D.Config, cached: seq<D.CachedPacket>, nums: seq<int>)
    requires |cached| == |nums| && AllSent(stream, nums)
    requires forall k :: 0 <= k < |nums| ==> cached[k].isFec == stream.IsFec(cfg, nums[k])
    ensures Queue(cached, nums, D.FecIds(cached), FecNumbers(stream, cfg, nums))
  {
    if nums != [] {
      QueueFrom(stream, cfg, cached[1..], nums[1..]);
      var more, rest := D.FecIds(cached[1..]), FecNumbers(stream, cfg, nums[1..]);
      var ids, fs := D.FecIds(cached), FecNumbers(stream, cfg, nums);
      var d := if cached[0].isFec then 1 else 0;
      forall a | 0 <= a < |ids| ensures InLine(cached, nums, ids[a], fs[a]) {
        if a >= d {
          assert ids[a] == more[a - d] && fs[a] == rest[a - d];
          assert InLine(cached[1..], nums[1..], more[a - d], rest[a - d]);
          var k :| 0 <= k < |cached[1..]| && cached[1..][k].id == more[a - d] && nums[1..][k] == rest[a - d] && cached[1..][k].isFec;
          assert cached[k + 1] == cached[1..][k] && nums[k + 1] == nums[1..][k];
        } else {
          assert cached[0].id == ids[a];
        }
      }
    }
  }

  /** Recovery as a whole. */
  function RecoverAll(stream: Stream, cfg: D.Config, i: Ideal): (j: Ideal)
    requires i.nums != [] && AllSent(stream, i.nums)
    ensures j.nums != []
  {
    RecoverNumbers(stream, i, i.nums[|i.nums| - 1], FecNumbers(stream, cfg, i.nums))
  }

  lemma QueueGathered(stream: Stream, cfg: D.Config, s: D.DecoderState, i: Ideal)
    requires Shape(stream, cfg, s, i)
    ensures AllSent(stream, i.nums) && Queue(s.cached, i.nums, D.FecIds(s.cached), FecNumbers(stream, cfg, i.nums))
  {
    forall k | 0 <= k < |i.nums| ensures i.nums[k] in stream.sent && s.cached[k].isFec == stream.IsFec(cfg, i.nums[k]) {
      assert SlotOk(stream, cfg, s.cached[k], i.nums[k]);
    }
    QueueFrom(stream, cfg, s.cached, i.nums);
  }

  lemma RecoveredRefines(stream: Stream, cfg: D.Config, s: D.DecoderState, i: Ideal, found: map<int, seq<int>>, lo: int)
    returns (found': map<int, seq<int>>)
    requires Honest(stream, cfg) && Related(stream, cfg, s, i, found) && Window(stream, cfg, i, lo) && s.cached != []
    ensures AllSent(stream, i.nums)
    ensures var top := i.nums[|i.nums| - 1];
            && Passing(stream, cfg, D.Recovered(s, cfg), RecoverAll(stream, cfg, i), found', lo, top)
            && RecoverAll(stream, cfg, i).last == i.last
            && s.cached[|s.cached| - 1].Seq() == Wrap(top)
            && SafePass(s, cfg, Wrap(top), D.FecIds(s.cached))
  {
    var top := i.nums[|i.nums| - 1];
    QueueGathered(stream, cfg, s, i);
    WindowCarries(stream, cfg, s, i, found, lo);
    found' := PassRefines(stream, cfg, s, i, found, lo, top, D.FecIds(s.cached), FecNumbers(stream, cfg, i.nums));
  }
}
