/** The decoder as it would be with unbounded numbers and no bookkeeping: it knows
    which numbers it has and which it released last, and looks every group up
    afresh. Here: what relates the program's cache to it, and caching. */
module FecIdeal {
  import opened SeqComparison
  import opened RtpPackets
  import opened SeqLemmas
  import opened FecStream
  import D = FecDecoder

  datatype Ideal = Ideal(nums: seq<int>, last: Option<int>)

  /** Every number in play lies in one half of the number space. */
  predicate Near(lo: int, n: int) {
    lo <= n <= lo + HALF_RANGE
  }

  /** A number in play: it, and the group it stands for if it is a FEC packet's. */
  ghost predicate InPlay(stream: Stream, cfg: D.Config, n: int, lo: int) {
    && n in stream.sent && Near(lo, n)
    && (stream.IsFec(cfg, n) && n in stream.groups ==> forall m :: m in stream.groups[n].ns ==> Near(lo, m))
  }

  /** Everything the decoder holds is in play around `lo`. */
  ghost predicate Window(stream: Stream, cfg: D.Config, i: Ideal, lo: int) {
    && (forall n :: n in i.nums ==> InPlay(stream, cfg, n, lo))
    && (i.last.Some? ==> Near(lo, i.last.value))
  }

  function Place(nums: seq<int>, n: int): (r: seq<int>)
    ensures r != []
  {
    if nums == [] then [n]
    else if nums[0] == n then nums
    else if n < nums[0] then [n] + nums
    else [nums[0]] + Place(nums[1..], n)
  }

  function CacheNumber(i: Ideal, n: int): Ideal {
    if i.last.Some? && n < i.last.value then i else i.(nums := Place(i.nums, n))
  }

  lemma {:induction false} PlaceMembers(nums: seq<int>, n: int)
    requires Ascending(nums)
    ensures Ascending(Place(nums, n))
    ensures forall m :: m in Place(nums, n) <==> m in nums || m == n
  {
    if nums != [] {
      var rest := nums[1..];
      assert nums == [nums[0]] + rest;
      assert Ascending(rest) by { assert forall a :: 0 <= a < |rest| ==> rest[a] == nums[a + 1]; }
      if n > nums[0] {
        PlaceMembers(rest, n);
        assert forall m :: m in rest ==> m > nums[0];
        AscendingCons(nums[0], Place(rest, n));
      } else if n < nums[0] {
        AscendingCons(n, nums);
      }
    }
  }

  lemma AscendingCons(x: int, ns: seq<int>)
    requires Ascending(ns) && forall m :: m in ns ==> x < m
    ensures Ascending([x] + ns)
  {
    var r := [x] + ns;
    forall a, b | 0 <= a < b < |r| ensures r[a] < r[b] {
      assert r[b] == ns[b - 1] && ns[b - 1] in ns;
      assert a > 0 ==> r[a] == ns[a - 1];
    }
  }

  // ---------- what relates the two ----------

  /** The group number that carries a key. */
  function NumberOf(ns: seq<int>, key: Seq16): int {
    if ns == [] then 0 else if Wrap(ns[0]) == key then ns[0] else NumberOf(ns[1..], key)
  }

  lemma NumberOfKey(ns: seq<int>, k: nat)
    requires Ascending(ns) && k < |ns| && ns[|ns| - 1] - ns[0] < SEQ_SPACE
    ensures NumberOf(ns, Wrap(ns[k])) == ns[k]
  {
    WrapInjective(ns[0], ns[k]);
    if k > 0 {
      assert forall a :: 0 <= a < |ns[1..]| ==> ns[1..][a] == ns[a + 1];
      NumberOfKey(ns[1..], k - 1);
    }
  }

  /** A pointer stored under `id` leads to the packet numbered `n`. */
  ghost predicate PointsTo(cached: seq<D.CachedPacket>, nums: seq<int>, id: nat, n: int)
    requires |cached| == |nums|
  {
    exists k :: 0 <= k < |cached| && cached[k].id == id && nums[k] == n
  }

  predicate Released(last: Option<int>, n: int) {
    last.Some? && n <= last.value
  }

  predicate Distinct(ns: seq<int>) {
    forall a, b :: 0 <= a < b < |ns| ==> ns[a] != ns[b]
  }

  /** The bookkeeping of a live FEC packet: `found` lists the members marked as
      seen, in the order of the stored pointers; each pointer still leads to its
      packet unless that packet was already released. */
  ghost predicate RecordOk(c: D.CachedPacket, ns: seq<int>, found: seq<int>, cached: seq<D.CachedPacket>, i: Ideal)
    requires |cached| == |i.nums|
  {
    && |found| == |c.media| && Distinct(found)
    && (forall m :: m in found ==> m in ns)
    && (forall j :: 0 <= j < |c.members| ==> (c.members[j].received <==> NumberOf(ns, c.members[j].key) in found))
    && (forall a :: 0 <= a < |found| ==> Released(i.last, found[a]) || PointsTo(cached, i.nums, c.media[a], found[a]))
  }

  /** A group that can recover nothing any more. */
  predicate Spent(ns: seq<int>, i: Ideal) {
    (exists m :: m in ns && Released(i.last, m)) || (forall m :: m in ns ==> m in i.nums)
  }

  ghost predicate SameKeys(members: seq<D.MapEntry>, others: seq<D.MapEntry>) {
    |members| == |others| && forall j :: 0 <= j < |members| ==> members[j].key == others[j].key
  }

  /** A cached packet is the one sent under its number. */
  ghost predicate SlotOk(stream: Stream, cfg: D.Config, c: D.CachedPacket, n: int) {
    && n in stream.sent
    && c.packet == stream.sent[n] && c.buffer == stream.Image(n)
    && c.isFec == stream.IsFec(cfg, n)
    && (c.isFec ==> n in stream.groups && SameKeys(c.members, D.ProtectedMembers(stream.Image(n))))
  }

  ghost predicate FecOk(stream: Stream, c: D.CachedPacket, n: int, found: map<int, seq<int>>,
                        cached: seq<D.CachedPacket>, i: Ideal)
    requires |cached| == |i.nums|
  {
    c.isFec && n in stream.groups ==>
      n in found &&
      if c.invalidFec then Spent(stream.groups[n].ns, i)
      else RecordOk(c, stream.groups[n].ns, found[n], cached, i)
  }

  ghost predicate Shape(stream: Stream, cfg: D.Config, s: D.DecoderState, i: Ideal) {
    && |s.cached| == |i.nums| && Ascending(i.nums)
    && (forall k :: 0 <= k < |i.nums| ==> SlotOk(stream, cfg, s.cached[k], i.nums[k]))
    && IdsOk(s.cached, s.nextId)
    && s.hasOutput == i.last.Some?
    && s.lastOutput == (if i.last.Some? then Wrap(i.last.value) else 0)
  }

  ghost predicate Records(stream: Stream, s: D.DecoderState, i: Ideal, found: map<int, seq<int>>)
    requires |s.cached| == |i.nums|
  {
    forall k :: 0 <= k < |i.nums| ==> FecOk(stream, s.cached[k], i.nums[k], found, s.cached, i)
  }

  ghost predicate Related(stream: Stream, cfg: D.Config, s: D.DecoderState, i: Ideal, found: map<int, seq<int>>) {
    Shape(stream, cfg, s, i) && Records(stream, s, i, found)
  }

  // ---------- placing a packet ----------

  /** Where a number belongs in an ascending list. */
  function PlaceIndex(nums: seq<int>, n: int): (p: nat)
    ensures p <= |nums|
  {
    if nums == [] || n <= nums[0] then 0 else 1 + PlaceIndex(nums[1..], n)
  }

  function InsertAt<T>(s: seq<T>, p: nat, x: T): (r: seq<T>)
    requires p <= |s|
    ensures |r| == |s| + 1
  {
    s[..p] + [x] + s[p..]
  }

  lemma InsertAtCons<T>(y: T, s: seq<T>, p: nat, x: T)
    requires p <= |s|
    ensures InsertAt([y] + s, p + 1, x) == [y] + InsertAt(s, p, x)
  {
    var t := [y] + s;
    assert t[..p + 1] == [y] + s[..p] && t[p + 1..] == s[p..];
  }

  lemma {:induction false} PlaceAt(nums: seq<int>, n: int)
    requires Ascending(nums)
    ensures n !in nums ==> Place(nums, n) == InsertAt(nums, PlaceIndex(nums, n), n)
    ensures n in nums ==> Place(nums, n) == nums
  {
    if nums != [] {
      var rest := nums[1..];
      assert nums == [nums[0]] + rest;
      assert forall a :: 0 <= a < |rest| ==> rest[a] == nums[a + 1];
      if n > nums[0] {
        PlaceAt(rest, n);
        InsertAtCons(nums[0], rest, PlaceIndex(rest, n), n);
      } else {
        assert forall m :: m in rest ==> m > nums[0];
      }
    }
  }

  ghost predicate Carrying(cached: seq<D.CachedPacket>, nums: seq<int>, lo: int) {
    |cached| == |nums| && forall k :: 0 <= k < |nums| ==> cached[k].Seq() == Wrap(nums[k]) && Near(lo, nums[k])
  }

  lemma CarryingTail(cached: seq<D.CachedPacket>, nums: seq<int>, lo: int)
    requires Carrying(cached, nums, lo) && Ascending(nums) && nums != []
    ensures Carrying(cached[1..], nums[1..], lo) && Ascending(nums[1..])
    ensures forall m :: m in nums[1..] ==> m > nums[0]
    ensures forall m :: m in nums <==> m == nums[0] || m in nums[1..]
  {
    var rest, more := nums[1..], cached[1..];
    assert nums == [nums[0]] + rest;
    assert forall a :: 0 <= a < |rest| ==> rest[a] == nums[a + 1] && more[a] == cached[a + 1];
  }

  /** The program's walk places a packet where its number belongs. */
  lemma {:induction false} PlacedAt(cached: seq<D.CachedPacket>, nums: seq<int>, lo: int, c: D.CachedPacket, n: int)
    requires Carrying(cached, nums, lo) && Ascending(nums)
    requires Near(lo, n) && c.Seq() == Wrap(n)
    ensures D.Places(cached, Wrap(n)) <==> n !in nums
    ensures n !in nums ==> D.Placed(cached, c) == InsertAt(cached, PlaceIndex(nums, n), c)
  {
    hide Wrap;
    if nums != [] {
      var rest, more := nums[1..], cached[1..];
      CarryingTail(cached, nums, lo);
      AfterBridge(n, nums[0]);
      if n > nums[0] {
        PlacedAt(more, rest, lo, c, n);
        assert cached == [cached[0]] + more;
        InsertAtCons(cached[0], more, PlaceIndex(rest, n), c);
      } else if n < nums[0] {
        assert InsertAt(cached, 0, c) == [c] + cached;
      }
    } else {
      assert InsertAt(cached, 0, c) == [c];
    }
  }

  // ---------- adding a packet keeps the relation ----------

  lemma InsertAtIndex<T>(s: seq<T>, p: nat, x: T, k: nat)
    requires p <= |s| && k <= |s|
    ensures InsertAt(s, p, x)[k] == if k < p then s[k] else if k == p then x else s[k - 1]
  {
  }

  lemma PointsStill(cached: seq<D.CachedPacket>, nums: seq<int>, p: nat, c: D.CachedPacket, n: int, id: nat, m: int)
    requires |cached| == |nums| && p <= |nums| && PointsTo(cached, nums, id, m)
    ensures PointsTo(InsertAt(cached, p, c), InsertAt(nums, p, n), id, m)
  {
    var k :| 0 <= k < |cached| && cached[k].id == id && nums[k] == m;
    var k' := if k < p then k else k + 1;
    InsertAtIndex(cached, p, c, k');
    InsertAtIndex(nums, p, n, k');
    assert InsertAt(cached, p, c)[k'].id == id && InsertAt(nums, p, n)[k'] == m;
  }

  lemma InsertAtMember(nums: seq<int>, p: nat, n: int, m: int)
    requires p <= |nums|
    ensures m in InsertAt(nums, p, n) <==> m in nums || m == n
  {
    SplitAt(nums, p);
    assert m in nums <==> m in nums[..p] || m in nums[p..];
  }

  /** A new packet's record is empty. */
  lemma NewRecord(stream: Stream, cfg: D.Config, c: D.CachedPacket, n: int, cached: seq<D.CachedPacket>, i: Ideal)
    requires Honest(stream, cfg) && n in stream.sent && stream.IsFec(cfg, n) && |cached| == |i.nums|
    requires c.members == D.ProtectedMembers(stream.Image(n)) && c.media == []
    ensures n in stream.groups && RecordOk(c, stream.groups[n].ns, [], cached, i)
  {
    KeysOfGroup(stream, cfg, n);
  }

  /** A record stays right when a packet is added. */
  lemma RecordStill(c: D.CachedPacket, ns: seq<int>, found: seq<int>, cached: seq<D.CachedPacket>, i: Ideal,
                    p: nat, added: D.CachedPacket, n: int)
    requires |cached| == |i.nums| && p <= |i.nums| && RecordOk(c, ns, found, cached, i)
    ensures RecordOk(c, ns, found, InsertAt(cached, p, added), i.(nums := InsertAt(i.nums, p, n)))
  {
    var j := i.(nums := InsertAt(i.nums, p, n));
    forall a | 0 <= a < |found|
      ensures Released(j.last, found[a]) || PointsTo(InsertAt(cached, p, added), j.nums, c.media[a], found[a])
    {
      if !Released(i.last, found[a]) {
        PointsStill(cached, i.nums, p, added, n, c.media[a], found[a]);
      }
    }
  }

  lemma SpentStill(ns: seq<int>, i: Ideal, p: nat, n: int)
    requires p <= |i.nums| && Spent(ns, i)
    ensures Spent(ns, i.(nums := InsertAt(i.nums, p, n)))
  {
    forall m | m in ns && m in i.nums ensures m in InsertAt(i.nums, p, n) {
      InsertAtMember(i.nums, p, n, m);
    }
  }

  lemma FecStill(stream: Stream, c: D.CachedPacket, m: int, found: map<int, seq<int>>, found': map<int, seq<int>>,
                 cached: seq<D.CachedPacket>, i: Ideal, p: nat, added: D.CachedPacket, n: int)
    requires |cached| == |i.nums| && p <= |i.nums| && FecOk(stream, c, m, found, cached, i)
    requires m in found ==> m in found' && found'[m] == found[m]
    ensures FecOk(stream, c, m, found', InsertAt(cached, p, added), i.(nums := InsertAt(i.nums, p, n)))
  {
    if c.isFec && m in stream.groups {
      if c.invalidFec {
        SpentStill(stream.groups[m].ns, i, p, n);
      } else {
        RecordStill(c, stream.groups[m].ns, found[m], cached, i, p, added, n);
      }
    }
  }

  lemma SlotsStill(stream: Stream, cfg: D.Config, s: D.DecoderState, i: Ideal, added: D.CachedPacket, n: int, p: nat)
    requires Shape(stream, cfg, s, i) && p <= |i.nums|
    requires SlotOk(stream, cfg, added, n)
    ensures forall k :: 0 <= k < |i.nums| + 1 ==> SlotOk(stream, cfg, InsertAt(s.cached, p, added)[k], InsertAt(i.nums, p, n)[k])
  {
    forall k | 0 <= k < |i.nums| + 1
      ensures SlotOk(stream, cfg, InsertAt(s.cached, p, added)[k], InsertAt(i.nums, p, n)[k])
    {
      InsertAtIndex(s.cached, p, added, k);
      InsertAtIndex(i.nums, p, n, k);
    }
  }

  /** Identities are handed out in order. */
  predicate IdsOk(cached: seq<D.CachedPacket>, nextId: nat) {
    && (forall a, b :: 0 <= a < b < |cached| ==> cached[a].id != cached[b].id)
    && (forall k :: 0 <= k < |cached| ==> cached[k].id < nextId)
  }

  lemma IdsStill(cached: seq<D.CachedPacket>, nextId: nat, added: D.CachedPacket, p: nat)
    requires IdsOk(cached, nextId) && p <= |cached| && added.id == nextId
    ensures IdsOk(InsertAt(cached, p, added), nextId + 1)
  {
    var cached' := InsertAt(cached, p, added);
    forall k | 0 <= k < |cached'| ensures cached'[k] == if k < p then cached[k] else if k == p then added else cached[k - 1] {
      InsertAtIndex(cached, p, added, k);
    }
  }

  lemma ShapeStill(stream: Stream, cfg: D.Config, s: D.DecoderState, i: Ideal, added: D.CachedPacket, n: int)
    requires Shape(stream, cfg, s, i) && n !in i.nums
    requires SlotOk(stream, cfg, added, n) && added.id == s.nextId
    ensures var p := PlaceIndex(i.nums, n);
            Shape(stream, cfg, s.(cached := InsertAt(s.cached, p, added), nextId := s.nextId + 1),
                  i.(nums := InsertAt(i.nums, p, n)))
  {
    var p := PlaceIndex(i.nums, n);
    PlaceAt(i.nums, n);
    PlaceMembers(i.nums, n);
    SlotsStill(stream, cfg, s, i, added, n, p);
    IdsStill(s.cached, s.nextId, added, p);
  }

  /** Adding the packet sent under `n`, with no record yet, keeps the relation. */
  lemma AddRelated(stream: Stream, cfg: D.Config, s: D.DecoderState, i: Ideal, found: map<int, seq<int>>,
                   added: D.CachedPacket, n: int)
    requires Honest(stream, cfg) && Related(stream, cfg, s, i, found) && n !in i.nums && n in stream.sent
    requires added == D.NewCached(cfg, s.nextId, stream.sent[n], stream.Image(n))
    ensures var p := PlaceIndex(i.nums, n);
            Related(stream, cfg, s.(cached := InsertAt(s.cached, p, added), nextId := s.nextId + 1),
                    i.(nums := InsertAt(i.nums, p, n)), found[n := []])
  {
    var p := PlaceIndex(i.nums, n);
    var cached', i' := InsertAt(s.cached, p, added), i.(nums := InsertAt(i.nums, p, n));
    if added.isFec {
      FecPartOf(stream, cfg, n);
      NewRecord(stream, cfg, added, n, cached', i');
    }
    ShapeStill(stream, cfg, s, i, added, n);
    forall k | 0 <= k < |i'.nums| ensures FecOk(stream, cached'[k], i'.nums[k], found[n := []], cached', i') {
      InsertAtIndex(s.cached, p, added, k);
      InsertAtIndex(i.nums, p, n, k);
      if k != p {
        var k' := if k < p then k else k - 1;
        assert i.nums[k'] in i.nums;
        FecStill(stream, s.cached[k'], i.nums[k'], found, found[n := []], s.cached, i, p, added, n);
      }
    }
  }
}