/** The loss list: what the sweep of `ReceiverCache` computes, in terms of the
    numbers that are really missing. */
module ReceiverLosses {
  import opened SeqComparison
  import opened RtpPackets
  import opened SeqLemmas
  import opened ReceiverIdeal
  import C = ReceiverCache

  // ---------- the visited numbers ----------

  lemma WrapAllConcat(a: seq<int>, b: seq<int>)
    ensures WrapAll(a + b) == WrapAll(a) + WrapAll(b)
  {
    if a == [] {
      EmptyLeft(b);
      EmptyLeft(WrapAll(b));
    } else {
      assert (a + b)[1..] == a[1..] + b;
      WrapAllConcat(a[1..], b);
    }
  }

  /** No gap between neighbouring marks straddles 65535/0: the guard of the gap
      filler's first branch, wherever it is called. */
  predicate NoStraddle(marks: seq<int>) {
    forall k :: 0 <= k && k + 1 < |marks| ==> marks[k] == marks[k + 1] + 1 || Wrap(marks[k + 1]) < Wrap(marks[k])
  }

  /** No gap ends at a number 0: the gap filler's second branch then starts from
      a number above 0, wherever it is taken. */
  predicate NoZeroEnd(marks: seq<int>) {
    forall k :: 0 <= k && k + 1 < |marks| ==> marks[k] == marks[k + 1] + 1 || Wrap(marks[k]) != 0
  }

  /** The gaps of the cache and the callback gap, as one list of neighbours. */
  function SeqGaps(marks: seq<Seq16>): seq<Seq16> {
    if |marks| < 2 then [] else C.GapTo(marks[0], marks[1]) + SeqGaps(marks[1..])
  }

  lemma {:induction false} AllGapsOfMarks(held: seq<Held>, tail: seq<int>)
    requires Numbered(held) && held != [] && |tail| <= 1
    ensures SeqGaps(WrapAll(HeldNumbers(held) + tail)) ==
            C.CachedGaps(CachedOf(held)) + if tail == [] then [] else C.GapTo(Wrap(Oldest(held)), Wrap(tail[0]))
  {
    var rest := held[1..];
    var marks := HeldNumbers(held) + tail;
    HeldNumbersCons(held);
    assert marks[1..] == HeldNumbers(rest) + tail;
    if rest == [] {
      if tail != [] {
        assert marks == [held[0].n, tail[0]];
        EmptyLeft(C.GapTo(Wrap(Oldest(held)), Wrap(tail[0])));
        EmptyRight(C.GapTo(Wrap(Oldest(held)), Wrap(tail[0])));
      }
    } else {
      AllGapsOfMarks(rest, tail);
      assert marks[1] == rest[0].n;
      Assoc(C.GapTo(Wrap(held[0].n), Wrap(rest[0].n)), C.CachedGaps(CachedOf(rest)),
            if tail == [] then [] else C.GapTo(Wrap(Oldest(held)), Wrap(tail[0])));
      assert CachedOf(held)[1..] == CachedOf(rest);
    }
  }

  lemma {:induction false} DownRefines(from: int, to: int, cycle: int)
    requires cycle % SEQ_SPACE == 0 && cycle <= to && from < cycle + SEQ_SPACE
    ensures C.Down(from - cycle, to - cycle) == WrapAll(DownInt(from, to))
    decreases from - to
  {
    if from > to {
      DownRefines(from - 1, to, cycle);
      WrapShift(from, cycle);
      assert DownInt(from, to)[1..] == DownInt(from - 1, to);
    }
  }

  /** Between two marks in one cycle the gap filler visits what is between them. */
  lemma PlainGapRefines(newer: int, older: int)
    requires 1 < newer - older <= HALF_RANGE && Wrap(older) < Wrap(newer)
    ensures C.GapTo(Wrap(newer), Wrap(older)) == WrapAll(Sought(DownInt(newer - 1, older)))
  {
    NextBridge(older, newer);
    var cycle := newer - Wrap(newer);
    OriginAligned(newer);
    WrapDistance(older, newer);
    assert Wrap(newer) - Wrap(older) == newer - older;
    DownRefines(newer - 1, older, cycle);
    AllSought(newer - 1, older, cycle);
  }

  lemma NotZeroInside(m: int, cycle: int)
    requires cycle % SEQ_SPACE == 0 && cycle < m < cycle + SEQ_SPACE
    ensures Wrap(m) != 0
  {
    WrapShift(m, cycle);
  }

  lemma AllSought(from: int, to: int, cycle: int)
    requires cycle % SEQ_SPACE == 0 && cycle <= to && from < cycle + SEQ_SPACE
    ensures Sought(DownInt(from, to)) == DownInt(from, to)
  {
    hide Wrap, DownInt, Sought;
    var ns := DownInt(from, to);
    forall m | m in ns ensures Wrap(m) != 0 {
      DownIntMember(from, to, m);
      NotZeroInside(m, cycle);
    }
    SoughtAll(ns);
  }

  lemma {:induction false} DownSplits(from: int, mid: int, to: int)
    requires to <= mid <= from
    ensures DownInt(from, to) == DownInt(from, mid) + DownInt(mid, to)
    decreases from - mid
  {
    if from == mid {
      EmptyLeft(DownInt(mid, to));
    } else {
      DownSplits(from - 1, mid, to);
      Assoc([from], DownInt(from - 1, mid), DownInt(mid, to));
    }
  }

  lemma StraddlingVisits(newer: int, older: int, z: int)
    requires 1 < newer - older <= HALF_RANGE && z % SEQ_SPACE == 0 && older < z < newer
    ensures C.GapTo(Wrap(newer), Wrap(older)) == WrapAll(DownInt(newer - 1, z)) + WrapAll(DownInt(z - 1, older))
  {
    hide C.Down, DownInt, WrapAll;
    NextBridge(older, newer);
    WrapShift(newer, z);
    WrapShift(older, z - SEQ_SPACE);
    DownRefines(newer - 1, z, z);
    DownRefines(z - 1, older, z - SEQ_SPACE);
  }

  lemma StraddlingSought(newer: int, older: int, z: int)
    requires 1 < newer - older <= HALF_RANGE && z % SEQ_SPACE == 0 && older < z < newer
    ensures Sought(DownInt(newer - 1, older)) == DownInt(newer - 1, z) + DownInt(z - 1, older)
  {
    hide Sought, DownInt;
    var upper, lower := DownInt(newer - 1, z), DownInt(z - 1, older);
    AllSought(newer - 1, z, z);
    AllSought(z - 1, older, z - SEQ_SPACE);
    DownSplits(newer - 1, z, older);
    SoughtConcat(upper, DownInt(z, older));
    DownSteps(z, older);
    SoughtSkips(z, lower);
  }

  lemma DownSteps(from: int, to: int)
    requires to < from
    ensures DownInt(from, to) == [from] + DownInt(from - 1, to)
  {
  }

  /** Between two marks in neighbouring cycles it visits all but number 0. */
  lemma StraddlingGapRefines(newer: int, older: int, z: int)
    requires 1 < newer - older <= HALF_RANGE && z % SEQ_SPACE == 0 && older < z < newer
    ensures C.GapTo(Wrap(newer), Wrap(older)) == WrapAll(Sought(DownInt(newer - 1, older)))
  {
    StraddlingVisits(newer, older, z);
    StraddlingSought(newer, older, z);
    WrapAllConcat(DownInt(newer - 1, z), DownInt(z - 1, older));
  }

  lemma SoughtSkips(z: int, ns: seq<int>)
    requires Wrap(z) == 0
    ensures Sought([z] + ns) == Sought(ns)
  {
    assert ([z] + ns)[1..] == ns;
    EmptyLeft(Sought(ns));
  }

  /** The gap filler visits what is sought between two marks. */
  lemma GapRefines(newer: int, older: int)
    requires 0 < newer - older <= HALF_RANGE
    requires newer == older + 1 || Wrap(newer) != 0
    ensures C.GapTo(Wrap(newer), Wrap(older)) == WrapAll(Sought(DownInt(newer - 1, older)))
  {
    if newer == older + 1 {
      NextBridge(older, newer);
    } else if Wrap(older) < Wrap(newer) {
      PlainGapRefines(newer, older);
    } else {
      var z := newer - Wrap(newer);
      OriginAligned(newer);
      WrapDistance(older, newer);
      StraddlingGapRefines(newer, older, z);
    }
  }

  lemma {:induction false} GapsRefine(marks: seq<int>)
    requires Descending(marks) && NoZeroEnd(marks)
    requires marks != [] ==> marks[0] - marks[|marks| - 1] <= HALF_RANGE
    ensures SeqGaps(WrapAll(marks)) == WrapAll(Sought(Missing(marks)))
  {
    if |marks| >= 2 {
      var rest := marks[1..];
      assert forall k :: 0 <= k < |rest| ==> rest[k] == marks[k + 1];
      assert marks[1] >= marks[|marks| - 1];
      GapsRefine(rest);
      GapRefines(marks[0], marks[1]);
      SoughtConcat(DownInt(marks[0] - 1, marks[1]), Missing(rest));
      WrapAllConcat(Sought(DownInt(marks[0] - 1, marks[1])), Sought(Missing(rest)));
    }
  }

  // ---------- the sweep ----------

  lemma RelistSkip(ns: seq<int>, lost: seq<Lost>)
    requires lost != [] && lost[0].n !in ns
    ensures Relisted(ns, lost) == Relisted(ns, lost[1..])
  {
    if ns != [] {
      RelistSkip(ns[1..], lost);
    }
  }

  lemma FindAbsent(lost: seq<Lost>, n: int)
    requires forall k :: 0 <= k < |lost| ==> lost[k].n != n
    ensures Find(lost, n) == Lost(n, false, 0)
  {
    if lost != [] {
      FindAbsent(lost[1..], n);
    }
  }

  /** How many of `ns` are not listed yet. */
  function NewCount(ns: seq<int>, lost: seq<Lost>): nat {
    if ns == [] then 0
    else NewCount(ns[1..], lost) + if ns[0] in LostNumbers(lost) then 0 else 1
  }

  lemma NewCountSkip(ns: seq<int>, lost: seq<Lost>)
    requires lost != [] && lost[0].n !in ns
    ensures NewCount(ns, lost) == NewCount(ns, lost[1..])
  {
    if ns != [] {
      NewCountSkip(ns[1..], lost);
      assert LostNumbers(lost) == [lost[0].n] + LostNumbers(lost[1..]);
    }
  }

  /** The prune that ends a sweep once something has been delivered. */
  function Kept(losses: seq<C.LossSeq>, pruned: bool, base: int): seq<C.LossSeq> {
    if pruned then C.Pruned(losses, Wrap(base)) else losses
  }

  lemma KeptCons(x: C.LossSeq, losses: seq<C.LossSeq>, n: int, pruned: bool, base: int)
    requires x.seqNum == Wrap(n) && base - HALF_RANGE <= n <= base + HALF_RANGE
    ensures Kept([x] + losses, pruned, base) ==
            if pruned && n <= base then Kept(losses, pruned, base) else [x] + Kept(losses, pruned, base)
  {
    AfterBridge(base, n);
    assert ([x] + losses)[1..] == losses;
    EmptyLeft(C.Pruned(losses, Wrap(base)));
  }

  /** Side conditions of a sweep: `base` is the last delivery (or the oldest
      cached number before there is one), `ns` what is missing above it. */
  ghost predicate Sweepable(lost: seq<Lost>, ns: seq<int>, pruned: bool, base: int) {
    && Descending(LostNumbers(lost)) && Descending(ns)
    && (forall k :: 0 <= k < |ns| ==> base < ns[k] <= base + HALF_RANGE)
    && (forall k :: 0 <= k < |lost| ==> base - HALF_RANGE <= lost[k].n <= base + HALF_RANGE)
    && (forall k :: 0 <= k < |lost| ==> lost[k].n in ns || (pruned && lost[k].n <= base))
  }

  lemma SweepableTail(lost: seq<Lost>, ns: seq<int>, pruned: bool, base: int)
    requires Sweepable(lost, ns, pruned, base)
    ensures lost != [] ==> Descending(LostNumbers(lost[1..]))
    ensures ns != [] ==> Descending(ns[1..])
  {
    if lost != [] { assert LostNumbers(lost) == [lost[0].n] + LostNumbers(lost[1..]); TailDescends(LostNumbers(lost)); }
    if ns != [] { TailDescends(ns); }
  }

  lemma TailDescends(ns: seq<int>)
    requires Descending(ns) && ns != []
    ensures Descending(ns[1..]) && forall m :: m in ns[1..] ==> m < ns[0]
  {
    forall a, b | 0 <= a < b < |ns[1..]| ensures ns[1..][a] > ns[1..][b] {
      assert ns[a + 1] > ns[b + 1];
    }
    forall m | m in ns[1..] ensures m < ns[0] {
      var k :| 0 <= k < |ns[1..]| && ns[1..][k] == m;
      assert ns[k + 1] == m;
    }
  }

  ghost predicate SweepDone(lost: seq<Lost>, ns: seq<int>, pruned: bool, base: int) {
    var merged := C.Merged(LossesOf(lost), WrapAll(ns));
    && Kept(merged, pruned, base) == LossesOf(Relisted(ns, lost))
    && |merged| == |lost| + NewCount(ns, lost)
  }

  lemma {:induction false} NothingMissing(lost: seq<Lost>, pruned: bool, base: int)
    requires Sweepable(lost, [], pruned, base)
    ensures SweepDone(lost, [], pruned, base)
  {
    if lost != [] {
      var rest := lost[1..];
      SweepableTail(lost, [], pruned, base);
      assert lost[0].n <= base;
      NothingMissing(rest, pruned, base);
      KeptCons(LossOf(lost[0]), LossesOf(rest), lost[0].n, pruned, base);
    }
  }

  /** A missing number that is not listed is inserted before the insert position. */
  lemma InsertCase(lost: seq<Lost>, ns: seq<int>, pruned: bool, base: int)
    requires Sweepable(lost, ns, pruned, base) && ns != []
    requires lost != [] ==> Wrap(ns[0]) != Wrap(lost[0].n) && !IsSeqBefore(Wrap(ns[0]), Wrap(lost[0].n))
    requires forall k :: 0 <= k < |lost| ==> lost[k].n != ns[0]
    requires SweepDone(lost, ns[1..], pruned, base)
    ensures SweepDone(lost, ns, pruned, base)
  {
    FindAbsent(lost, ns[0]);
    var later := C.Merged(LossesOf(lost), WrapAll(ns[1..]));
    assert C.Merged(LossesOf(lost), WrapAll(ns)) == [C.Fresh(Wrap(ns[0]))] + later;
    KeptCons(C.Fresh(Wrap(ns[0])), later, ns[0], pruned, base);
    assert ns[0] !in LostNumbers(lost);
  }

  /** A delivered number is passed by and pruned afterwards. */
  lemma PassCase(lost: seq<Lost>, ns: seq<int>, pruned: bool, base: int)
    requires Sweepable(lost, ns, pruned, base) && ns != [] && lost != []
    requires pruned && lost[0].n <= base
    requires Wrap(ns[0]) != Wrap(lost[0].n) && IsSeqBefore(Wrap(ns[0]), Wrap(lost[0].n))
    requires SweepDone(lost[1..], ns, pruned, base)
    ensures SweepDone(lost, ns, pruned, base)
  {
    var later := C.Merged(LossesOf(lost[1..]), WrapAll(ns));
    assert LossesOf(lost)[1..] == LossesOf(lost[1..]);
    assert C.Merged(LossesOf(lost), WrapAll(ns)) == [LossOf(lost[0])] + later;
    KeptCons(LossOf(lost[0]), later, lost[0].n, pruned, base);
    assert lost[0].n !in ns;
    RelistSkip(ns, lost);
    NewCountSkip(ns, lost);
  }

  /** A missing number that is listed is left alone; the next visit moves on. */
  lemma ListedCase(lost: seq<Lost>, ns: seq<int>, pruned: bool, base: int)
    requires Sweepable(lost, ns, pruned, base) && ns != [] && lost != [] && lost[0].n == ns[0]
    requires SweepDone(lost[1..], ns[1..], pruned, base)
    ensures SweepDone(lost, ns, pruned, base)
  {
    var rest, more := lost[1..], ns[1..];
    TailDescends(ns);
    assert LossesOf(lost)[1..] == LossesOf(rest);
    var later := C.Merged(LossesOf(rest), WrapAll(more));
    assert C.Merged(LossesOf(lost), WrapAll(ns)) == [LossOf(lost[0])] + later by {
      if more != [] {
        AfterBridge(more[0], lost[0].n);
      }
    }
    KeptCons(LossOf(lost[0]), later, lost[0].n, pruned, base);
    assert lost[0].n !in more;
    RelistSkip(more, lost);
    NewCountSkip(more, lost);
    assert LostNumbers(lost)[0] == ns[0];
  }

  /** The sweep and the prune leave exactly the missing numbers, newest first,
      each with what was known of it. */
  lemma {:induction false} SweepExact(lost: seq<Lost>, ns: seq<int>, pruned: bool, base: int)
    requires Sweepable(lost, ns, pruned, base)
    ensures SweepDone(lost, ns, pruned, base)
    decreases |lost| + |ns|
  {
    SweepableTail(lost, ns, pruned, base);
    if ns == [] {
      NothingMissing(lost, pruned, base);
    } else if lost == [] {
      SweepExact(lost, ns[1..], pruned, base);
      InsertCase(lost, ns, pruned, base);
    } else if lost[0].n == ns[0] {
      ListedRest(lost, ns, pruned, base);
      SweepExact(lost[1..], ns[1..], pruned, base);
      ListedCase(lost, ns, pruned, base);
    } else {
      WrapInjective(ns[0], lost[0].n);
      NotListed(lost, ns, pruned, base);
      if IsSeqBefore(Wrap(ns[0]), Wrap(lost[0].n)) {
        assert lost[0].n <= base by { if lost[0].n > base { AfterBridge(ns[0], lost[0].n); } }
        SweepExact(lost[1..], ns, pruned, base);
        PassCase(lost, ns, pruned, base);
      } else {
        SweepExact(lost, ns[1..], pruned, base);
        InsertCase(lost, ns, pruned, base);
      }
    }
  }

  lemma NotListed(lost: seq<Lost>, ns: seq<int>, pruned: bool, base: int)
    requires Sweepable(lost, ns, pruned, base) && ns != [] && lost != [] && lost[0].n != ns[0]
    ensures forall k :: 0 <= k < |lost| ==> lost[k].n < ns[0]
    ensures Sweepable(lost, ns[1..], pruned, base)
    ensures Sweepable(lost[1..], ns, pruned, base)
  {
    SweepableTail(lost, ns, pruned, base);
    TailDescends(ns);
    assert ns == [ns[0]] + ns[1..];
    assert LostNumbers(lost)[0] == lost[0].n;
    forall k | 0 <= k < |lost| ensures lost[k].n < ns[0] {
      assert lost[k].n <= lost[0].n by { assert LostNumbers(lost)[k] == lost[k].n; }
    }
  }

  lemma ListedRest(lost: seq<Lost>, ns: seq<int>, pruned: bool, base: int)
    requires Sweepable(lost, ns, pruned, base) && ns != [] && lost != [] && lost[0].n == ns[0]
    ensures Sweepable(lost[1..], ns[1..], pruned, base)
  {
    SweepableTail(lost, ns, pruned, base);
    assert ns == [ns[0]] + ns[1..];
    forall k | 0 <= k < |lost[1..]| ensures lost[1..][k].n != ns[0] {
      assert LostNumbers(lost)[0] > LostNumbers(lost)[k + 1];
    }
  }

  // ---------- erasing the number that arrived ----------

  function Without(lost: seq<Lost>, n: int): seq<Lost> {
    if lost == [] then []
    else if lost[0].n == n then lost[1..]
    else [lost[0]] + Without(lost[1..], n)
  }

  lemma {:induction false} EraseRefines(lost: seq<Lost>, n: int)
    requires forall k :: 0 <= k < |lost| ==> -SEQ_SPACE < lost[k].n - n < SEQ_SPACE
    ensures C.EraseLoss(LossesOf(lost), Wrap(n)) == LossesOf(Without(lost, n))
  {
    if lost != [] {
      WrapInjective(lost[0].n, n);
      EraseRefines(lost[1..], n);
      assert LossesOf(lost)[1..] == LossesOf(lost[1..]);
    }
  }

  lemma {:induction false} WithoutMembers(lost: seq<Lost>, n: int)
    requires Descending(LostNumbers(lost))
    ensures Descending(LostNumbers(Without(lost, n)))
    ensures forall x :: x in Without(lost, n) <==> x in lost && x.n != n
  {
    if lost != [] {
      var rest := lost[1..];
      assert LostNumbers(lost) == [lost[0].n] + LostNumbers(rest);
      TailDescends(LostNumbers(lost));
      WithoutMembers(rest, n);
      forall x | x in rest ensures x.n < lost[0].n {
        var k :| 0 <= k < |rest| && rest[k] == x;
        assert LostNumbers(lost)[0] > LostNumbers(lost)[k + 1];
      }
      assert lost == [lost[0]] + rest;
      if lost[0].n != n {
        var w := Without(rest, n);
        assert LostNumbers(Without(lost, n)) == [lost[0].n] + LostNumbers(w);
        forall k | 0 <= k < |w| ensures w[k].n < lost[0].n { assert w[k] in w; }
        ConsDescends(lost[0].n, LostNumbers(w));
      }
    }
  }

  lemma ConsDescends(x: int, ns: seq<int>)
    requires Descending(ns) && forall k :: 0 <= k < |ns| ==> ns[k] < x
    ensures Descending([x] + ns)
  {
  }

  lemma {:induction false} RelistWithout(ns: seq<int>, lost: seq<Lost>, n: int)
    requires n !in ns
    ensures Relisted(ns, Without(lost, n)) == Relisted(ns, lost)
  {
    if ns != [] {
      FindWithout(lost, n, ns[0]);
      RelistWithout(ns[1..], lost, n);
    }
  }

  lemma {:induction false} FindWithout(lost: seq<Lost>, n: int, m: int)
    requires m != n
    ensures Find(Without(lost, n), m) == Find(lost, m)
  {
    if lost != [] && lost[0].n != n {
      FindWithout(lost[1..], n, m);
    }
  }

  // ---------- the missing numbers before and after ----------

  lemma MarksDescend(i: Ideal)
    requires Valid(i)
    ensures Descending(Marks(i))
    ensures Marks(i) != [] ==> Marks(i)[0] - Marks(i)[|Marks(i)| - 1] <= HALF_RANGE
    ensures i.started ==> Marks(i) != [] && Marks(i)[0] == i.top
    ensures i.last.Some? ==> Marks(i)[|Marks(i)| - 1] == i.last.value
    ensures i.last.None? && i.held != [] ==> Marks(i)[|Marks(i)| - 1] == Oldest(i.held)
  {
    NumbersDescend(i.held);
  }

  /** What is missing, without the list structure. */
  predicate IsMissing(i: Ideal, m: int) {
    && (if i.last.Some? then i.last.value < m else i.held != [] && Oldest(i.held) < m)
    && m < i.top && m !in HeldNumbers(i.held)
  }

  predicate IsSought(i: Ideal, m: int) {
    IsMissing(i, m) && Wrap(m) != 0
  }

  lemma GapsExactly(i: Ideal, m: int)
    requires Valid(i)
    ensures m in Gaps(i) <==> IsSought(i, m)
    ensures m in Missing(Marks(i)) <==> IsMissing(i, m)
  {
    MarksDescend(i);
    MissingExactly(Marks(i), m);
    SoughtMembers(Missing(Marks(i)), m);
    assert m in Marks(i) <==> m in HeldNumbers(i.held) || i.last == Some(m);
  }

  lemma GapsShrinkOnlyBy(i: Ideal, n: int, packet: RtpPacket, timeoutMs: nat, m: int)
    requires Valid(i) && InWindow(i, n) && !Late(i, n) && packet.seqNum == Wrap(n)
    ensures IsMissing(i, m) && m != n ==> IsMissing(Inserted(i, n, packet, timeoutMs), m)
    ensures !IsMissing(Inserted(i, n, packet, timeoutMs), n)
  {
    var h := Held(n, packet, timeoutMs);
    InsertNumbers(i.held, h, m);
    InsertNumbers(i.held, h, n);
    InsertOldest(i.held, h);
  }

  lemma GapsDescend(i: Ideal)
    requires Valid(i)
    ensures Descending(Gaps(i))
  {
    MarksDescend(i);
    MissingDescends(Marks(i));
    SoughtDescends(Missing(Marks(i)));
  }

  lemma GapBounds(j: Ideal, m: int, base: int)
    requires Valid(j) && j.started && base == Marks(j)[|Marks(j)| - 1] && m in Gaps(j)
    ensures base < m <= base + HALF_RANGE
  {
    MarksDescend(j);
    GapsExactly(j, m);
  }

  /** Where a listed number lies once a packet is inserted. */
  lemma ListedBounds(i: Ideal, n: int, packet: RtpPacket, timeoutMs: nat, base: int, l: nat)
    requires Valid(i) && LossesExact(i) && InWindow(i, n) && !Late(i, n) && packet.seqNum == Wrap(n)
    requires var j := Inserted(i, n, packet, timeoutMs); Valid(j) && Marks(j) != [] && base == Marks(j)[|Marks(j)| - 1]
    requires l < |i.lost|
    ensures -SEQ_SPACE < i.lost[l].n - n < SEQ_SPACE
    ensures base - HALF_RANGE <= i.lost[l].n <= base + HALF_RANGE
    ensures i.lost[l].n != n ==>
              i.lost[l].n in Gaps(Inserted(i, n, packet, timeoutMs)) || (i.last.Some? && i.lost[l].n <= base)
  {
    var j := Inserted(i, n, packet, timeoutMs);
    var m := i.lost[l].n;
    MarksDescend(j);
    GapsExactly(i, m);
    GapsExactly(j, m);
    GapsShrinkOnlyBy(i, n, packet, timeoutMs, m);
    InsertOldest(i.held, Held(n, packet, timeoutMs));
  }

  /** A sweep after an insertion meets its side conditions. */
  lemma PutSweepable(i: Ideal, n: int, packet: RtpPacket, timeoutMs: nat, base: int)
    requires Valid(i) && LossesExact(i) && InWindow(i, n) && !Late(i, n) && packet.seqNum == Wrap(n)
    requires var j := Inserted(i, n, packet, timeoutMs); Marks(j) != [] && base == Marks(j)[|Marks(j)| - 1]
    ensures Sweepable(Without(i.lost, n), Gaps(Inserted(i, n, packet, timeoutMs)), i.last.Some?, base)
    ensures forall k :: 0 <= k < |i.lost| ==> -SEQ_SPACE < i.lost[k].n - n < SEQ_SPACE
  {
    hide InWindow, Gaps, Late;
    var j := Inserted(i, n, packet, timeoutMs);
    InsertedValid(i, n, packet, timeoutMs);
    MarksDescend(j);
    GapsDescend(j);
    WithoutMembers(i.lost, n);
    var ns := Gaps(j);
    forall k | 0 <= k < |ns| ensures base < ns[k] <= base + HALF_RANGE {
      assert ns[k] in ns;
      GapBounds(j, ns[k], base);
    }
    forall k | 0 <= k < |i.lost| ensures -SEQ_SPACE < i.lost[k].n - n < SEQ_SPACE {
      ListedBounds(i, n, packet, timeoutMs, base, k);
    }
    var w := Without(i.lost, n);
    forall k | 0 <= k < |w|
      ensures base - HALF_RANGE <= w[k].n <= base + HALF_RANGE
      ensures w[k].n in ns || (i.last.Some? && w[k].n <= base)
    {
      assert w[k] in w;
      var l :| 0 <= l < |i.lost| && i.lost[l] == w[k];
      ListedBounds(i, n, packet, timeoutMs, base, l);
    }
  }

  // ---------- PutPacket refines Put: the loss list ----------

  /** What PutPacket does to the loss list, in the concrete operations' terms. */
  ghost predicate SweptTo(s: C.CacheState, t: C.CacheState, erased: seq<C.LossSeq>, gaps: seq<Seq16>) {
    var merged := C.Merged(erased, gaps);
    && t.losses == (if s.hasCallback then C.Pruned(merged, s.latestCallback) else merged)
    && t.cumulativeLoss == C.Bumped(s.cumulativeLoss, |merged| - |erased|)
  }

  lemma AcceptedLosses(s: C.CacheState, packet: RtpPacket, timeoutMs: nat)
    requires !C.Rejects(s, packet.seqNum)
    ensures SweptTo(s, C.AfterPut(s, packet, timeoutMs), C.EraseLoss(s.losses, packet.seqNum),
                    C.AllGaps(s.(cached := C.InsertCached(s.cached, C.CachedPacket(packet, timeoutMs)))))
  {
    hide C.Merged, C.Pruned, C.InsertCached, C.EraseLoss;
  }

  /** The outcome of a sweep over `erased` and `gaps`, in ideal terms. */
  ghost predicate SweepResult(erased: seq<C.LossSeq>, gaps: seq<Seq16>, last: Option<int>, listed: seq<Lost>, added: nat) {
    var merged := C.Merged(erased, gaps);
    && (if last.Some? then C.Pruned(merged, Wrap(last.value)) else merged) == LossesOf(listed)
    && |merged| - |erased| == added
  }

  lemma AcceptedSweep(i: Ideal, n: int, packet: RtpPacket, timeoutMs: nat, j: Ideal)
    requires Valid(i) && LossesExact(i)
    requires InWindow(i, n) && packet.seqNum == Wrap(n) && !Late(i, n)
    requires j == Inserted(i, n, packet, timeoutMs)
    ensures SweepResult(C.EraseLoss(LossesOf(i.lost), Wrap(n)), WrapAll(Gaps(j)), i.last,
                        Relisted(Gaps(j), i.lost), NewCount(Gaps(j), i.lost))
  {
    InsertedValid(i, n, packet, timeoutMs);
    MarksDescend(j);
    var base := Marks(j)[|Marks(j)| - 1];
    PutSweepable(i, n, packet, timeoutMs, base);
    EraseRefines(i.lost, n);
    SweepExact(Without(i.lost, n), Gaps(j), i.last.Some?, base);
    GapsShrinkOnlyBy(i, n, packet, timeoutMs, n);
    GapsExactly(j, n);
    RelistWithout(Gaps(j), i.lost, n);
    NewCountWithout(Gaps(j), i.lost, n);
  }

  lemma SweptMeans(s: C.CacheState, t: C.CacheState, erased: seq<C.LossSeq>, gaps: seq<Seq16>,
                   last: Option<int>, listed: seq<Lost>, added: nat)
    requires SweptTo(s, t, erased, gaps) && SweepResult(erased, gaps, last, listed, added)
    requires s.hasCallback == last.Some? && (last.Some? ==> s.latestCallback == Wrap(last.value))
    ensures t.losses == LossesOf(listed) && t.cumulativeLoss == C.Bumped(s.cumulativeLoss, added)
  {
    hide LossesOf, C.Bumped, Wrap;
  }

  /** How many numbers a packet makes newly missing. */
  function Added(i: Ideal, n: int, packet: RtpPacket, timeoutMs: nat): nat {
    if Late(i, n) then 0 else NewCount(Gaps(Inserted(i, n, packet, timeoutMs)), i.lost)
  }

  lemma RejectsLate(s: C.CacheState, i: Ideal, n: int)
    requires Core(s, i) && InWindow(i, n)
    ensures C.Rejects(s, Wrap(n)) <==> Late(i, n)
  {
    if i.last.Some? {
      AfterBridge(i.last.value, n);
    }
  }

  /** The loss list after PutPacket is the ideal one when no gap ends at number 0. */
  lemma PutLossesRefine(s: C.CacheState, i: Ideal, n: int, packet: RtpPacket, timeoutMs: nat)
    requires Valid(i) && Core(s, i) && s.losses == LossesOf(i.lost) && LossesExact(i)
    requires InWindow(i, n) && packet.seqNum == Wrap(n)
    requires !Late(i, n) ==> NoZeroEnd(Marks(Inserted(i, n, packet, timeoutMs)))
    ensures C.AfterPut(s, packet, timeoutMs).losses == LossesOf(Put(i, n, packet, timeoutMs).lost)
    ensures C.AfterPut(s, packet, timeoutMs).cumulativeLoss == C.Bumped(s.cumulativeLoss, Added(i, n, packet, timeoutMs))
  {
    RejectsLate(s, i, n);
    if !Late(i, n) {
      InsertedGaps(s, i, n, packet, timeoutMs);
      AcceptedLosses(s, packet, timeoutMs);
      AcceptedSweep(i, n, packet, timeoutMs, Inserted(i, n, packet, timeoutMs));
      var gaps := Gaps(Inserted(i, n, packet, timeoutMs));
      SweptMeans(s, C.AfterPut(s, packet, timeoutMs), C.EraseLoss(s.losses, packet.seqNum), WrapAll(gaps),
                 i.last, Relisted(gaps, i.lost), NewCount(gaps, i.lost));
    }
  }

  lemma NewCountWithout(ns: seq<int>, lost: seq<Lost>, n: int)
    requires n !in ns && Descending(LostNumbers(lost))
    ensures NewCount(ns, Without(lost, n)) == NewCount(ns, lost)
  {
    if ns != [] {
      NewCountWithout(ns[1..], lost, n);
      WithoutNumbers(lost, n, ns[0]);
    }
  }

  lemma WithoutNumbers(lost: seq<Lost>, n: int, m: int)
    requires Descending(LostNumbers(lost)) && m != n
    ensures m in LostNumbers(Without(lost, n)) <==> m in LostNumbers(lost)
  {
    WithoutMembers(lost, n);
    var w := Without(lost, n);
    if m in LostNumbers(lost) {
      var k :| 0 <= k < |lost| && LostNumbers(lost)[k] == m;
      assert lost[k] in w;
      var l :| 0 <= l < |w| && w[l] == lost[k];
      assert LostNumbers(w)[l] == m;
    }
    if m in LostNumbers(w) {
      var k :| 0 <= k < |w| && LostNumbers(w)[k] == m;
      assert w[k] in lost;
      var l :| 0 <= l < |lost| && lost[l] == w[k];
      assert LostNumbers(lost)[l] == m;
    }
  }

  /** The numbers PutPacket visits are the sought ones. */
  lemma InsertedGaps(s: C.CacheState, i: Ideal, n: int, packet: RtpPacket, timeoutMs: nat)
    requires Valid(i) && Core(s, i) && InWindow(i, n) && !Late(i, n) && packet.seqNum == Wrap(n)
    requires NoZeroEnd(Marks(Inserted(i, n, packet, timeoutMs)))
    ensures var cached := C.InsertCached(s.cached, C.CachedPacket(packet, timeoutMs));
            C.AllGaps(s.(cached := cached)) == WrapAll(Gaps(Inserted(i, n, packet, timeoutMs)))
  {
    var j := Inserted(i, n, packet, timeoutMs);
    InsertedValid(i, n, packet, timeoutMs);
    WindowNear(i, n);
    InsertRefines(i.held, Held(n, packet, timeoutMs));
    MarksDescend(j);
    GapsRefine(Marks(j));
    CachedAt(j.held, |j.held| - 1);
    AllGapsOfMarks(j.held, if i.last.Some? then [i.last.value] else []);
  }
}