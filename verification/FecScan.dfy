/** One FEC packet's scan of its group: the stored marks and pointers agree with a
    fresh look at the cache, and a complete scan finds exactly what is missing. */
module FecScan {
  import opened SeqComparison
  import opened SeqLemmas
  import opened FecCodec
  import opened FecStream
  import opened FecIdeal
  import D = FecDecoder

  /** A cached FEC packet's keys are its group's numbers, each once. */
  ghost predicate KeysName(members: seq<D.MapEntry>, ns: seq<int>) {
    && SortedKeys(members)
    && Ascending(ns) && (ns != [] ==> ns[|ns| - 1] - ns[0] < MAX_MEDIA)
    && forall key :: HasKey(members, key) <==> exists k :: 0 <= k < |ns| && Wrap(ns[k]) == key
  }

  /** What a scan compares its keys with, in unwrapped numbers. */
  ghost predicate Context(s: D.DecoderState, i: Ideal, ns: seq<int>, lo: int, top: int) {
    && Carrying(s.cached, i.nums, lo) && Ascending(i.nums)
    && (forall m :: m in ns ==> Near(lo, m)) && Near(lo, top)
    && (i.last.Some? ==> Near(lo, i.last.value))
    && s.hasOutput == i.last.Some? && (i.last.Some? ==> s.lastOutput == Wrap(i.last.value))
  }

  /** The group number a member stands for. */
  lemma MemberNumber(members: seq<D.MapEntry>, ns: seq<int>, j: nat)
    requires KeysName(members, ns) && j < |members|
    ensures NumberOf(ns, members[j].key) in ns
    ensures Wrap(NumberOf(ns, members[j].key)) == members[j].key
  {
    assert HasKey(members, members[j].key);
    var k :| 0 <= k < |ns| && Wrap(ns[k]) == members[j].key;
    NumberOfKey(ns, k);
  }

  lemma NumberMember(members: seq<D.MapEntry>, ns: seq<int>, m: int) returns (j: nat)
    requires KeysName(members, ns) && m in ns
    ensures j < |members| && members[j].key == Wrap(m) && NumberOf(ns, members[j].key) == m
  {
    var k :| 0 <= k < |ns| && ns[k] == m;
    assert HasKey(members, Wrap(m));
    j :| 0 <= j < |members| && members[j].key == Wrap(m);
    NumberOfKey(ns, k);
  }

  lemma DistinctMembers(members: seq<D.MapEntry>, ns: seq<int>, a: nat, b: nat)
    requires KeysName(members, ns) && a < b < |members|
    ensures NumberOf(ns, members[a].key) != NumberOf(ns, members[b].key)
  {
    MemberNumber(members, ns, a);
    MemberNumber(members, ns, b);
    assert members[a].key < members[b].key;
  }

  /** The program's comparisons for one key, in unwrapped numbers. */
  lemma KeyCompared(s: D.DecoderState, i: Ideal, ns: seq<int>, lo: int, top: int, m: int)
    requires Context(s, i, ns, lo, top) && m in ns
    ensures s.hasOutput && !IsSeqAfter(s.lastOutput, Wrap(m)) <==> Released(i.last, m)
    ensures IsSeqAfter(Wrap(top), Wrap(m)) <==> m > top
    ensures var k := D.FindSeq(s.cached, Wrap(m));
            if k.Some? then i.nums[k.value] == m else m !in i.nums
  {
    if i.last.Some? {
      AfterBridge(i.last.value, m);
    }
    AfterBridge(top, m);
    forall k | 0 <= k < |i.nums| ensures s.cached[k].Seq() == Wrap(m) <==> i.nums[k] == m {
      WrapInjective(i.nums[k], m);
    }
  }

  /** One of the first `j` members stands for `m`. */
  ghost predicate Passed(members: seq<D.MapEntry>, ns: seq<int>, j: nat, m: int)
    requires j <= |members|
  {
    exists b :: 0 <= b < j && NumberOf(ns, members[b].key) == m
  }

  /** State of a scan at member `j`: `found` for the stored pointers, `lacking` for
      the numbers noted as missing. */
  ghost predicate ScanOk(s: D.DecoderState, i: Ideal, c: D.CachedPacket, ns: seq<int>, top: int, scan: D.Scan, j: nat,
                         found: seq<int>, lacking: seq<int>)
    requires |s.cached| == |i.nums|
  {
    && j <= |scan.members| && SameKeys(scan.members, c.members)
    && RecordOk(c.(members := scan.members, media := scan.media), ns, found, s.cached, i)
    && |scan.missing| == |lacking| && (forall a :: 0 <= a < |lacking| ==> scan.missing[a] == Wrap(lacking[a]))
    && (forall a :: 0 <= a < |lacking| ==> lacking[a] in ns && lacking[a] !in i.nums)
    && (forall a :: 0 <= a < |lacking| ==> Passed(c.members, ns, j, lacking[a]))
    && (forall b :: 0 <= b < j ==>
          var m := NumberOf(ns, c.members[b].key);
          !Released(i.last, m) && m <= top && (m in found || m in lacking))
    && Distinct(lacking)
    && scan.verdict.Complete?
  }

  lemma SameKeysName(members: seq<D.MapEntry>, others: seq<D.MapEntry>, ns: seq<int>)
    requires SameKeys(members, others) && KeysName(others, ns)
    ensures KeysName(members, ns)
  {
    forall key ensures HasKey(members, key) <==> HasKey(others, key) {
      if j :| 0 <= j < |members| && members[j].key == key { assert others[j].key == key; }
      if j :| 0 <= j < |others| && others[j].key == key { assert members[j].key == key; }
    }
  }

  lemma PassedEarlier(members: seq<D.MapEntry>, ns: seq<int>, j: nat, m: int)
    requires KeysName(members, ns) && j < |members| && Passed(members, ns, j, m)
    ensures Passed(members, ns, j + 1, m) && m != NumberOf(ns, members[j].key)
  {
    var b :| 0 <= b < j && NumberOf(ns, members[b].key) == m;
    DistinctMembers(members, ns, b, j);
  }

  /** A number that is in the cache is marked and pointed to. */
  lemma MarkStep(s: D.DecoderState, i: Ideal, c: D.CachedPacket, ns: seq<int>, lo: int, top: int, scan: D.Scan, j: nat,
                 found: seq<int>, lacking: seq<int>, k: nat)
    requires KeysName(c.members, ns) && Context(s, i, ns, lo, top)
    requires ScanOk(s, i, c, ns, top, scan, j, found, lacking) && j < |scan.members| && k < |s.cached|
    requires var m := NumberOf(ns, c.members[j].key);
             i.nums[k] == m && !Released(i.last, m) && m <= top && !scan.members[j].received
    ensures var m := NumberOf(ns, c.members[j].key);
            ScanOk(s, i, c, ns, top,
                   scan.(members := scan.members[j := D.MapEntry(scan.members[j].key, true)],
                         media := scan.media + [s.cached[k].id]), j + 1, found + [m], lacking)
  {
    hide Wrap, NumberOf;
    var m := NumberOf(ns, c.members[j].key);
    MemberNumber(c.members, ns, j);
    assert m !in found;
    var found' := found + [m];
    var members' := scan.members[j := D.MapEntry(scan.members[j].key, true)];
    var media' := scan.media + [s.cached[k].id];
    var c' := c.(members := members', media := media');
    assert Distinct(found');
    forall b | 0 <= b < |members'| ensures members'[b].received <==> NumberOf(ns, members'[b].key) in found' {
      if b < j {
        DistinctMembers(c.members, ns, b, j);
      } else if b > j {
        DistinctMembers(c.members, ns, j, b);
      }
    }
    forall a | 0 <= a < |lacking| ensures Passed(c.members, ns, j + 1, lacking[a]) {
      PassedEarlier(c.members, ns, j, lacking[a]);
    }
    assert PointsTo(s.cached, i.nums, s.cached[k].id, m);
    forall a | 0 <= a < |found'| ensures Released(i.last, found'[a]) || PointsTo(s.cached, i.nums, media'[a], found'[a]) {
      if a < |found| {
        assert found'[a] == found[a] && media'[a] == scan.media[a];
      }
    }
    forall b | 0 <= b < j + 1
      ensures var q := NumberOf(ns, c.members[b].key);
              !Released(i.last, q) && q <= top && (q in found' || q in lacking)
    {
    }
  }

  /** A number that is not in the cache is noted as missing. */
  lemma LackStep(s: D.DecoderState, i: Ideal, c: D.CachedPacket, ns: seq<int>, lo: int, top: int, scan: D.Scan, j: nat,
                 found: seq<int>, lacking: seq<int>)
    requires KeysName(c.members, ns) && Context(s, i, ns, lo, top)
    requires ScanOk(s, i, c, ns, top, scan, j, found, lacking) && j < |scan.members|
    requires var m := NumberOf(ns, c.members[j].key);
             m !in i.nums && !Released(i.last, m) && m <= top
    ensures var m := NumberOf(ns, c.members[j].key);
            ScanOk(s, i, c, ns, top, scan.(missing := scan.missing + [c.members[j].key]), j + 1, found, lacking + [m])
  {
    hide PointsTo, Wrap, KeysName;
    var m := NumberOf(ns, c.members[j].key);
    MemberNumber(c.members, ns, j);
    var lacking' := lacking + [m];
    forall a | 0 <= a < |lacking|
      ensures lacking[a] != m && Passed(c.members, ns, j + 1, lacking[a])
    {
      PassedEarlier(c.members, ns, j, lacking[a]);
    }
    assert Passed(c.members, ns, j + 1, m);
  }

  /** A number marked earlier is still in the cache. */
  lemma PassStep(s: D.DecoderState, i: Ideal, c: D.CachedPacket, ns: seq<int>, lo: int, top: int, scan: D.Scan, j: nat,
                 found: seq<int>, lacking: seq<int>)
    requires KeysName(c.members, ns) && Context(s, i, ns, lo, top)
    requires ScanOk(s, i, c, ns, top, scan, j, found, lacking) && j < |scan.members| && scan.members[j].received
    requires var m := NumberOf(ns, c.members[j].key); !Released(i.last, m) && m <= top
    ensures ScanOk(s, i, c, ns, top, scan, j + 1, found, lacking)
  {
    forall a | 0 <= a < |lacking| ensures Passed(c.members, ns, j + 1, lacking[a]) {
      PassedEarlier(c.members, ns, j, lacking[a]);
    }
  }

  /** What a scan's outcome means. */
  ghost predicate Outcome(s: D.DecoderState, i: Ideal, c: D.CachedPacket, ns: seq<int>, top: int, r: D.Scan,
                          found: seq<int>, lacking: seq<int>)
    requires |s.cached| == |i.nums|
  {
    match r.verdict
    case Complete => ScanOk(s, i, c, ns, top, r, |r.members|, found, lacking)
    case Stale =>
      && SameKeys(r.members, c.members)
      && RecordOk(c.(members := r.members, media := r.media), ns, found, s.cached, i)
      && exists m :: m in ns && Released(i.last, m)
    case Beyond =>
      && SameKeys(r.members, c.members)
      && RecordOk(c.(members := r.members, media := r.media), ns, found, s.cached, i)
      && exists m :: m in ns && m > top
  }

  /** One member that does not stop the scan. */
  lemma ScanStep(s: D.DecoderState, i: Ideal, c: D.CachedPacket, ns: seq<int>, lo: int, top: int,
                 scan: D.Scan, j: nat, found: seq<int>, lacking: seq<int>)
    returns (next: D.Scan, found': seq<int>, lacking': seq<int>)
    requires KeysName(c.members, ns) && Context(s, i, ns, lo, top)
    requires ScanOk(s, i, c, ns, top, scan, j, found, lacking) && j < |scan.members|
    requires var m := NumberOf(ns, c.members[j].key); !Released(i.last, m) && m <= top
    ensures ScanOk(s, i, c, ns, top, next, j + 1, found', lacking') && |next.members| == |scan.members|
    ensures D.Scanned(s, Wrap(top), scan, j) == D.Scanned(s, Wrap(top), next, j + 1)
  {
    var key := scan.members[j].key;
    var m := NumberOf(ns, key);
    MemberNumber(c.members, ns, j);
    KeyCompared(s, i, ns, lo, top, m);
    var k := D.FindSeq(s.cached, key);
    next, found', lacking' := scan, found, lacking;
    if scan.members[j].received {
      PassStep(s, i, c, ns, lo, top, scan, j, found, lacking);
    } else if k.Some? {
      MarkStep(s, i, c, ns, lo, top, scan, j, found, lacking, k.value);
      next := scan.(members := scan.members[j := D.MapEntry(key, true)], media := scan.media + [s.cached[k.value].id]);
      found' := found + [m];
    } else {
      LackStep(s, i, c, ns, lo, top, scan, j, found, lacking);
      next := scan.(missing := scan.missing + [key]);
      lacking' := lacking + [m];
    }
  }

  /** One member that stops the scan. */
  lemma ScanStops(s: D.DecoderState, i: Ideal, c: D.CachedPacket, ns: seq<int>, lo: int, top: int,
                  scan: D.Scan, j: nat, found: seq<int>, lacking: seq<int>, r: D.Scan)
    requires KeysName(c.members, ns) && Context(s, i, ns, lo, top)
    requires ScanOk(s, i, c, ns, top, scan, j, found, lacking) && j < |scan.members|
    requires var m := NumberOf(ns, c.members[j].key); Released(i.last, m) || m > top
    requires r == D.Scanned(s, Wrap(top), scan, j)
    ensures Outcome(s, i, c, ns, top, r, found, lacking)
  {
    MemberNumber(c.members, ns, j);
    KeyCompared(s, i, ns, lo, top, NumberOf(ns, c.members[j].key));
  }

  lemma ScanEnds(s: D.DecoderState, i: Ideal, c: D.CachedPacket, ns: seq<int>, top: int,
                 scan: D.Scan, j: nat, found: seq<int>, lacking: seq<int>, r: D.Scan)
    requires |s.cached| == |i.nums| && ScanOk(s, i, c, ns, top, scan, j, found, lacking) && j == |scan.members|
    requires r == D.Scanned(s, Wrap(top), scan, j)
    ensures Outcome(s, i, c, ns, top, r, found, lacking)
  {
  }

  lemma {:induction false} ScanRefines(s: D.DecoderState, i: Ideal, c: D.CachedPacket, ns: seq<int>, lo: int, top: int,
                                       scan: D.Scan, j: nat, found: seq<int>, lacking: seq<int>, r: D.Scan)
    returns (found': seq<int>, lacking': seq<int>)
    requires KeysName(c.members, ns) && Context(s, i, ns, lo, top)
    requires ScanOk(s, i, c, ns, top, scan, j, found, lacking) && r == D.Scanned(s, Wrap(top), scan, j)
    ensures Outcome(s, i, c, ns, top, r, found', lacking')
    decreases |scan.members| - j
  {
    found', lacking' := found, lacking;
    if j == |scan.members| {
      ScanEnds(s, i, c, ns, top, scan, j, found, lacking, r);
      return;
    }
    var m := NumberOf(ns, c.members[j].key);
    if Released(i.last, m) || m > top {
      ScanStops(s, i, c, ns, lo, top, scan, j, found, lacking, r);
    } else {
      var next, seen, without := ScanStep(s, i, c, ns, lo, top, scan, j, found, lacking);
      found', lacking' := ScanRefines(s, i, c, ns, lo, top, next, j + 1, seen, without, r);
    }
  }

  // ---------- what a complete scan knows ----------

  /** The members of a group that are not in the cache. */
  function Lacking(ns: seq<int>, nums: seq<int>): seq<int> {
    if ns == [] then []
    else (if ns[0] in nums then [] else [ns[0]]) + Lacking(ns[1..], nums)
  }

  lemma LackingMembers(ns: seq<int>, nums: seq<int>, m: int)
    ensures m in Lacking(ns, nums) <==> m in ns && m !in nums
  {
    if ns != [] {
      LackingMembers(ns[1..], nums, m);
      assert ns == [ns[0]] + ns[1..];
    }
  }

  lemma LackingAscends(ns: seq<int>, nums: seq<int>)
    requires Ascending(ns)
    ensures Ascending(Lacking(ns, nums))
  {
    if ns != [] {
      var rest := ns[1..];
      assert forall a :: 0 <= a < |rest| ==> rest[a] == ns[a + 1];
      LackingAscends(rest, nums);
      forall m | m in Lacking(rest, nums) ensures ns[0] < m {
        LackingMembers(rest, nums, m);
      }
      if ns[0] !in nums {
        AscendingCons(ns[0], Lacking(rest, nums));
      } else {
        EmptyLeft(Lacking(rest, nums));
      }
    }
  }

  /** A group every member of which can still be used. */
  predicate Usable(ns: seq<int>, i: Ideal, top: int) {
    forall m :: m in ns ==> !Released(i.last, m) && m <= top
  }

  /** A complete scan has marked exactly the cached members and lacks exactly the
      others, each once. */
  lemma CompleteScan(s: D.DecoderState, i: Ideal, c: D.CachedPacket, ns: seq<int>, lo: int, top: int, r: D.Scan,
                     found: seq<int>, lacking: seq<int>)
    requires KeysName(c.members, ns) && Context(s, i, ns, lo, top)
    requires ScanOk(s, i, c, ns, top, r, |r.members|, found, lacking)
    ensures Usable(ns, i, top)
    ensures forall m :: m in found <==> m in ns && m in i.nums
    ensures forall m :: m in lacking <==> m in Lacking(ns, i.nums)
  {
    forall m | m in ns
      ensures !Released(i.last, m) && m <= top && (m in found || m in lacking)
      ensures m in found ==> m in i.nums
    {
      var j := NumberMember(c.members, ns, m);
      if m in found {
        var a :| 0 <= a < |found| && found[a] == m;
        assert PointsTo(s.cached, i.nums, r.media[a], m);
        var k :| 0 <= k < |s.cached| && s.cached[k].id == r.media[a] && i.nums[k] == m;
      }
    }
    forall m ensures m in lacking <==> m in Lacking(ns, i.nums) {
      LackingMembers(ns, i.nums, m);
    }
  }

  lemma DistinctSameSize(a: seq<int>, b: seq<int>)
    requires Distinct(a) && Distinct(b) && forall m :: m in a <==> m in b
    ensures multiset(a) == multiset(b) && |a| == |b|
  {
    forall m ensures multiset(a)[m] == multiset(b)[m] {
      DistinctCount(a, m);
      DistinctCount(b, m);
    }
    assert multiset(a) == multiset(b);
    assert |multiset(a)| == |a| && |multiset(b)| == |b|;
  }

  lemma {:induction false} DistinctCount(a: seq<int>, m: int)
    requires Distinct(a)
    ensures multiset(a)[m] == if m in a then 1 else 0
  {
    if a != [] {
      var rest := a[1..];
      assert a == [a[0]] + rest;
      assert Distinct(rest) by { assert forall k :: 0 <= k < |rest| ==> rest[k] == a[k + 1]; }
      DistinctCount(rest, m);
      forall k | 0 <= k < |rest| ensures rest[k] != a[0] {
        assert a[k + 1] != a[0];
      }
    }
  }
}