/** The receiver as it would be with unbounded sequence numbers, and the proof
    that the 16-bit cache of `ReceiverCache` behaves like it. */
module ReceiverIdeal {
  import opened SeqComparison
  import opened RtpPackets
  import opened SeqLemmas
  import C = ReceiverCache

  datatype Held = Held(n: int, packet: RtpPacket, timeoutMs: nat)

  datatype Lost = Lost(n: int, notified: bool, lastNotifyMs: nat)

  /** `last` is the number delivered last, `top` the highest accepted so far,
      `origin` the start of the cycle the first accepted number lies in, `ever`
      every number that was missing at some time. */
  datatype Ideal = Ideal(
    held: seq<Held>, lost: seq<Lost>, last: Option<int>,
    started: bool, top: int, origin: int, ever: set<int>)

  const NOTHING := Ideal([], [], None, false, 0, 0, {})

  // ---------- numbers ----------

  predicate Descending(ns: seq<int>) {
    forall a, b :: 0 <= a < b < |ns| ==> ns[a] > ns[b]
  }

  function HeldNumbers(held: seq<Held>): (r: seq<int>)
    ensures |r| == |held|
  {
    seq(|held|, k requires 0 <= k < |held| => held[k].n)
  }

  function LostNumbers(lost: seq<Lost>): (r: seq<int>)
    ensures |r| == |lost|
  {
    seq(|lost|, k requires 0 <= k < |lost| => lost[k].n)
  }

  /** from, from - 1, ..., to + 1. */
  function DownInt(from: int, to: int): (r: seq<int>)
    ensures forall k :: 0 <= k < |r| ==> r[k] == from - k
    ensures |r| == if from > to then from - to else 0
    decreases from - to
  {
    if from <= to then [] else [from] + DownInt(from - 1, to)
  }

  /** The numbers strictly between neighbours of a descending list. */
  function Missing(marks: seq<int>): seq<int> {
    if |marks| < 2 then [] else DownInt(marks[0] - 1, marks[1]) + Missing(marks[1..])
  }

  lemma DownIntMember(from: int, to: int, m: int)
    ensures m in DownInt(from, to) <==> to < m <= from
  {
    if to < m <= from {
      assert DownInt(from, to)[from - m] == m;
    }
  }

  /** What `Missing` lists, as a set. */
  lemma {:induction false} MissingExactly(marks: seq<int>, m: int)
    requires Descending(marks)
    ensures m in Missing(marks) <==> marks != [] && marks[|marks| - 1] < m < marks[0] && m !in marks
  {
    if |marks| >= 2 {
      var rest := marks[1..];
      MissingExactly(rest, m);
      DownIntMember(marks[0] - 1, marks[1], m);
      assert m in marks <==> m == marks[0] || m in rest;
      assert m in rest ==> m <= marks[1];
    }
  }

  /** And it lists them strictly descending. */
  lemma {:induction false} MissingDescends(marks: seq<int>)
    requires Descending(marks)
    ensures Descending(Missing(marks))
  {
    if |marks| >= 2 {
      var rest := marks[1..];
      MissingDescends(rest);
      var later := Missing(rest);
      forall k | 0 <= k < |later| ensures later[k] < marks[1] {
        MissingExactly(rest, later[k]);
        assert later[k] in later;
      }
      DescendingConcat(DownInt(marks[0] - 1, marks[1]), later, marks[1]);
    }
  }

  lemma DescendingConcat(a: seq<int>, b: seq<int>, cut: int)
    requires Descending(a) && Descending(b)
    requires forall k :: 0 <= k < |a| ==> a[k] > cut
    requires forall k :: 0 <= k < |b| ==> b[k] < cut
    ensures Descending(a + b)
  {
  }

  /** The numbers a loss list can hold: the gap filler never visits number 0. */
  function Sought(ns: seq<int>): seq<int> {
    if ns == [] then [] else (if Wrap(ns[0]) == 0 then [] else [ns[0]]) + Sought(ns[1..])
  }

  lemma {:induction false} SoughtMembers(ns: seq<int>, m: int)
    ensures m in Sought(ns) <==> m in ns && Wrap(m) != 0
  {
    if ns != [] {
      SoughtMembers(ns[1..], m);
      assert ns == [ns[0]] + ns[1..];
    }
  }

  lemma {:induction false} SoughtDescends(ns: seq<int>)
    requires Descending(ns)
    ensures Descending(Sought(ns))
  {
    hide Wrap;
    if ns != [] {
      var rest := ns[1..];
      assert forall k :: 0 <= k < |rest| ==> rest[k] == ns[k + 1];
      SoughtDescends(rest);
      forall m | m in Sought(rest) ensures m < ns[0] {
        SoughtMembers(rest, m);
      }
      DescendingCons(ns[0], Sought(rest));
      EmptyLeft(Sought(rest));
    }
  }

  lemma DescendingCons(x: int, ns: seq<int>)
    requires Descending(ns) && forall m :: m in ns ==> m < x
    ensures Descending([x] + ns)
  {
    forall k | 0 <= k < |ns| ensures ns[k] < x {
      assert ns[k] in ns;
    }
  }

  lemma {:induction false} SoughtConcat(a: seq<int>, b: seq<int>)
    ensures Sought(a + b) == Sought(a) + Sought(b)
  {
    if a == [] {
      EmptyLeft(b);
      EmptyLeft(Sought(b));
    } else {
      assert (a + b)[1..] == a[1..] + b;
      SoughtConcat(a[1..], b);
      Assoc(if Wrap(a[0]) == 0 then [] else [a[0]], Sought(a[1..]), Sought(b));
    }
  }

  /** All numbers but those numbered 0 are kept. */
  lemma {:induction false} SoughtAll(ns: seq<int>)
    ensures Sought(ns) == ns <==> forall m :: m in ns ==> Wrap(m) != 0
  {
    if ns != [] {
      SoughtAll(ns[1..]);
      SoughtShorter(ns[1..]);
      assert ns == [ns[0]] + ns[1..];
    }
  }

  lemma {:induction false} SoughtShorter(ns: seq<int>)
    ensures |Sought(ns)| <= |ns|
  {
    if ns != [] {
      SoughtShorter(ns[1..]);
    }
  }

  // ---------- the ideal operations ----------

  function InsertHeld(held: seq<Held>, h: Held): (r: seq<Held>)
    ensures r != []
  {
    if held == [] then [h]
    else if held[0].n == h.n then held
    else if held[0].n < h.n then [h] + held
    else [held[0]] + InsertHeld(held[1..], h)
  }

  function Find(lost: seq<Lost>, n: int): Lost {
    if lost == [] then Lost(n, false, 0)
    else if lost[0].n == n then lost[0]
    else Find(lost[1..], n)
  }

  /** The entries for exactly the numbers `ns`, keeping what is known of each. */
  function Relisted(ns: seq<int>, lost: seq<Lost>): (r: seq<Lost>)
    ensures |r| == |ns|
    ensures forall k :: 0 <= k < |r| ==> r[k] == Find(lost, ns[k])
  {
    if ns == [] then [] else [Find(lost, ns[0])] + Relisted(ns[1..], lost)
  }

  /** The numbers that are accounted for: what is held, then the last delivery. */
  function Marks(i: Ideal): seq<int> {
    HeldNumbers(i.held) + if i.last.Some? then [i.last.value] else []
  }

  /** What the loss list should hold: the missing numbers other than number 0. */
  function Gaps(i: Ideal): seq<int> {
    Sought(Missing(Marks(i)))
  }

  predicate Late(i: Ideal, n: int) {
    i.last.Some? && n <= i.last.value
  }

  function Inserted(i: Ideal, n: int, packet: RtpPacket, timeoutMs: nat): Ideal {
    i.(held := InsertHeld(i.held, Held(n, packet, timeoutMs)),
       started := true,
       top := if i.started && i.top >= n then i.top else n,
       origin := if i.started then i.origin else n - Wrap(n))
  }

  function Put(i: Ideal, n: int, packet: RtpPacket, timeoutMs: nat): Ideal {
    if Late(i, n) then i
    else
      var j := Inserted(i, n, packet, timeoutMs);
      j.(lost := Relisted(Gaps(j), i.lost), ever := i.ever + set m | m in Gaps(j))
  }

  // ---------- what holds of every ideal state ----------

  ghost predicate Numbered(held: seq<Held>) {
    && (forall a, b :: 0 <= a < b < |held| ==> held[a].n > held[b].n)
    && (forall k :: 0 <= k < |held| ==> held[k].packet.seqNum == Wrap(held[k].n))
  }

  function Newest(held: seq<Held>): int requires held != [] { held[0].n }

  function Oldest(held: seq<Held>): int requires held != [] { held[|held| - 1].n }

  /** The cache holds one packet per number, newest first, all after the last
      delivery and within half the space. */
  ghost predicate Valid(i: Ideal) {
    && Numbered(i.held)
    && (i.last.Some? && i.held != [] ==> i.last.value < Oldest(i.held) && Newest(i.held) <= i.last.value + HALF_RANGE)
    && (i.last.None? && i.held != [] ==> Newest(i.held) - Oldest(i.held) <= HALF_RANGE)
    && (i.started <==> i.last.Some? || i.held != [])
    && (i.held != [] ==> i.top == Newest(i.held))
    && (i.held == [] && i.started ==> i.last == Some(i.top))
    && i.origin % SEQ_SPACE == 0
  }

  /** Everything sought is listed, newest first; whatever else is listed is
      already delivered past. */
  ghost predicate LossesExact(i: Ideal) {
    && Descending(LostNumbers(i.lost))
    && (forall k :: 0 <= k < |i.lost| ==> i.top - HALF_RANGE <= i.lost[k].n < i.top)
    && (forall k :: 0 <= k < |i.lost| ==> i.lost[k].n in Gaps(i) || Late(i, i.lost[k].n))
    && (forall m :: m in Gaps(i) ==> m in LostNumbers(i.lost))
  }

  /** The next packet's number is within half the space of what it is compared with. */
  predicate InWindow(i: Ideal, n: int) {
    if i.last.Some? then -HALF_RANGE <= n - i.last.value <= HALF_RANGE
    else forall k :: 0 <= k < |i.held| ==> -HALF_RANGE <= n - i.held[k].n <= HALF_RANGE
  }

  // ---------- the 16-bit state of an ideal state ----------

  function CachedOf(held: seq<Held>): (r: seq<C.CachedPacket>)
    ensures |r| == |held|
  {
    if held == [] then [] else [C.CachedPacket(held[0].packet, held[0].timeoutMs)] + CachedOf(held[1..])
  }

  function LossOf(l: Lost): C.LossSeq {
    C.LossSeq(Wrap(l.n), l.notified, l.lastNotifyMs)
  }

  function LossesOf(lost: seq<Lost>): (r: seq<C.LossSeq>)
    ensures |r| == |lost|
  {
    if lost == [] then [] else [LossOf(lost[0])] + LossesOf(lost[1..])
  }

  /** Everything but the loss list. */
  ghost predicate Core(s: C.CacheState, i: Ideal) {
    && s.cached == CachedOf(i.held)
    && s.hasCallback == i.last.Some?
    && (i.last.Some? ==> s.latestCallback == Wrap(i.last.value))
    && s.hasCached == i.started
    && (i.started ==> s.extendedHighest == (i.top - i.origin) % 0x1_0000_0000)
  }

  /** The loss list and its counter. */
  ghost predicate Losses(s: C.CacheState, i: Ideal) {
    && s.losses == LossesOf(i.lost)
    && s.cumulativeLoss == C.Bumped(0, |i.ever|)
  }

  lemma CachedAt(held: seq<Held>, k: nat)
    requires k < |held|
    ensures CachedOf(held)[k] == C.CachedPacket(held[k].packet, held[k].timeoutMs)
  {
    if k > 0 {
      CachedAt(held[1..], k - 1);
    }
  }

  lemma {:induction false} CachedConcat(a: seq<Held>, b: seq<Held>)
    ensures CachedOf(a + b) == CachedOf(a) + CachedOf(b)
  {
    if a == [] {
      EmptyLeft(b);
      EmptyLeft(CachedOf(b));
    } else {
      assert (a + b)[1..] == a[1..] + b;
      CachedConcat(a[1..], b);
      Assoc([C.CachedPacket(a[0].packet, a[0].timeoutMs)], CachedOf(a[1..]), CachedOf(b));
    }
  }

  lemma CachedSplit(held: seq<Held>, k: nat)
    requires k <= |held|
    ensures CachedOf(held)[..k] == CachedOf(held[..k]) && CachedOf(held)[k..] == CachedOf(held[k..])
  {
    hide CachedOf;
    SplitAt(held, k);
    CachedConcat(held[..k], held[k..]);
  }

  // ---------- PutPacket refines Put: the cache ----------

  predicate Near(held: seq<Held>, n: int) {
    forall k :: 0 <= k < |held| ==> -HALF_RANGE <= n - held[k].n <= HALF_RANGE
  }

  lemma {:induction false} WalkRefines(held: seq<Held>, h: Held)
    requires Numbered(held) && Near(held, h.n) && h.packet.seqNum == Wrap(h.n)
    requires held != [] && h.n >= held[|held| - 1].n
    ensures C.InsertWalk(CachedOf(held), C.CachedPacket(h.packet, h.timeoutMs)) == CachedOf(InsertHeld(held, h))
  {
    AfterBridge(held[0].n, h.n);
    var rest := held[1..];
    if held[0].n > h.n {
      WalkRefines(rest, h);
      assert CachedOf(held)[1..] == CachedOf(rest);
      var r := [held[0]] + InsertHeld(rest, h);
      assert r[1..] == InsertHeld(rest, h);
    } else if held[0].n < h.n {
      assert ([h] + held)[1..] == held;
    }
  }

  lemma {:induction false} InsertAtEnd(held: seq<Held>, h: Held)
    requires forall k :: 0 <= k < |held| ==> held[k].n > h.n
    ensures InsertHeld(held, h) == held + [h]
  {
    if held != [] {
      InsertAtEnd(held[1..], h);
    }
  }

  lemma {:induction false} CachedAppend(held: seq<Held>, h: Held)
    ensures CachedOf(held + [h]) == CachedOf(held) + [C.CachedPacket(h.packet, h.timeoutMs)]
  {
    if held != [] {
      assert (held + [h])[1..] == held[1..] + [h];
      CachedAppend(held[1..], h);
    }
  }

  lemma InsertRefines(held: seq<Held>, h: Held)
    requires Numbered(held) && Near(held, h.n) && h.packet.seqNum == Wrap(h.n)
    ensures C.InsertCached(CachedOf(held), C.CachedPacket(h.packet, h.timeoutMs)) == CachedOf(InsertHeld(held, h))
  {
    hide C.InsertWalk, Wrap, CachedOf, InsertHeld;
    if held == [] {
      InsertAtEnd(held, h);
      CachedAppend(held, h);
    } else {
      var z := |held| - 1;
      CachedAt(held, z);
      AfterBridge(h.n, held[z].n);
      if h.n < held[z].n {
        InsertAtEnd(held, h);
        CachedAppend(held, h);
      } else {
        WalkRefines(held, h);
      }
    }
  }

  lemma {:induction false} InsertMembers(held: seq<Held>, h: Held)
    ensures forall x :: x in InsertHeld(held, h) ==> x == h || x in held
    ensures Newest(InsertHeld(held, h)) == if held == [] || Newest(held) < h.n then h.n else Newest(held)
  {
    if held != [] && held[0].n > h.n {
      InsertMembers(held[1..], h);
    }
  }

  lemma {:induction false} InsertOldest(held: seq<Held>, h: Held)
    requires forall a, b :: 0 <= a < b < |held| ==> held[a].n > held[b].n
    ensures Oldest(InsertHeld(held, h)) == if held == [] || Oldest(held) > h.n then h.n else Oldest(held)
  {
    if held != [] && held[0].n > h.n {
      InsertOldest(held[1..], h);
    }
  }

  lemma {:induction false} InsertKeeps(held: seq<Held>, h: Held)
    requires Numbered(held) && h.packet.seqNum == Wrap(h.n)
    ensures Numbered(InsertHeld(held, h))
  {
    if held != [] && held[0].n > h.n {
      InsertKeeps(held[1..], h);
      InsertMembers(held[1..], h);
      NumberedCons(held[0], InsertHeld(held[1..], h));
    }
  }

  lemma NumberedCons(x: Held, r: seq<Held>)
    requires Numbered(r) && x.packet.seqNum == Wrap(x.n)
    requires r != [] ==> x.n > r[0].n
    ensures Numbered([x] + r)
  {
  }

  lemma HeldNumbersCons(held: seq<Held>)
    requires held != []
    ensures HeldNumbers(held) == [held[0].n] + HeldNumbers(held[1..])
  {
  }

  lemma {:induction false} InsertNumbers(held: seq<Held>, h: Held, n: int)
    ensures n in HeldNumbers(InsertHeld(held, h)) <==> n == h.n || n in HeldNumbers(held)
  {
    HeldNumbersCons(InsertHeld(held, h));
    if held != [] {
      HeldNumbersCons(held);
      if held[0].n > h.n {
        InsertNumbers(held[1..], h, n);
      }
    }
  }

  lemma NumbersDescend(held: seq<Held>)
    requires Numbered(held)
    ensures Descending(HeldNumbers(held))
  {
  }

  lemma WrapShift(x: int, origin: int)
    requires origin % SEQ_SPACE == 0
    ensures Wrap(x - origin) == Wrap(x)
  {
  }

  lemma OriginAligned(n: int)
    ensures (n - Wrap(n)) % SEQ_SPACE == 0
  {
  }

  lemma WindowNear(i: Ideal, n: int)
    requires Valid(i) && InWindow(i, n) && !Late(i, n)
    ensures Near(i.held, n)
  {
  }

  /** Accepting a packet in the window keeps the ideal state well-formed. */
  lemma InsertedValid(i: Ideal, n: int, packet: RtpPacket, timeoutMs: nat)
    requires Valid(i) && InWindow(i, n) && !Late(i, n) && packet.seqNum == Wrap(n)
    ensures Valid(Inserted(i, n, packet, timeoutMs))
  {
    var h := Held(n, packet, timeoutMs);
    InsertKeeps(i.held, h);
    InsertMembers(i.held, h);
    InsertOldest(i.held, h);
    if i.held != [] {
      assert i.held[0].n == Newest(i.held) && i.held[|i.held| - 1].n == Oldest(i.held);
    }
    OriginAligned(n);
  }

  lemma HighestRefines(s: C.CacheState, i: Ideal, n: int)
    requires Valid(i) && Core(s, i) && InWindow(i, n) && !Late(i, n)
    ensures var top := if i.started && i.top >= n then i.top else n;
            var origin := if i.started then i.origin else n - Wrap(n);
            C.HighestAfter(s, Wrap(n)) == (top - origin) % 0x1_0000_0000
  {
    if i.started {
      var t := i.top - i.origin;
      ExtendedSplit(t);
      assert Wrap(t) == Wrap(i.top) by { WrapShift(i.top, i.origin); }
      if i.last.Some? { assert i.last.value <= i.top <= i.last.value + HALF_RANGE; }
      AfterBridge(i.top, n);
      if i.top < n {
        ExtendedStep(t, n - i.top);
        assert Wrap(n - i.origin) == Wrap(n) by { WrapShift(n, i.origin); }
      }
    }
  }

  lemma ExtendedSplit(t: int)
    ensures var e := t % 0x1_0000_0000;
            e % SEQ_SPACE == Wrap(t) && e / SEQ_SPACE == (t / SEQ_SPACE) % SEQ_SPACE
  {
    assert t == SEQ_SPACE * (t / SEQ_SPACE) + t % SEQ_SPACE;
    var c := t / SEQ_SPACE;
    assert c == SEQ_SPACE * (c / SEQ_SPACE) + c % SEQ_SPACE;
  }

  /** A step of less than half a cycle carries into the cycle count exactly when
      the 16-bit part gets smaller. */
  lemma ExtendedStep(t: int, step: int)
    requires 0 < step <= HALF_RANGE
    ensures var cycles := t % 0x1_0000_0000 / SEQ_SPACE;
            (t + step) % 0x1_0000_0000 ==
            (if Wrap(t + step) < Wrap(t) then (cycles + 1) % SEQ_SPACE else cycles) * SEQ_SPACE + Wrap(t + step)
  {
    ExtendedSplit(t);
    ExtendedSplit(t + step);
    var q := t / SEQ_SPACE;
    var carry := if Wrap(t) + step < SEQ_SPACE then 0 else 1;
    assert (t + step) / SEQ_SPACE == q + carry && Wrap(t + step) == Wrap(t) + step - carry * SEQ_SPACE;
    ModSuccessor(q);
    var e' := (t + step) % 0x1_0000_0000;
    assert e' == SEQ_SPACE * (e' / SEQ_SPACE) + e' % SEQ_SPACE;
  }

  lemma ModSuccessor(q: int)
    ensures (q % SEQ_SPACE + 1) % SEQ_SPACE == (q + 1) % SEQ_SPACE
  {
  }

  lemma AcceptedFields(s: C.CacheState, packet: RtpPacket, timeoutMs: nat)
    requires !C.Rejects(s, packet.seqNum)
    ensures var t := C.AfterPut(s, packet, timeoutMs);
            && t.cached == C.InsertCached(s.cached, C.CachedPacket(packet, timeoutMs))
            && t.hasCallback == s.hasCallback && t.latestCallback == s.latestCallback && t.hasCached
            && t.extendedHighest == C.HighestAfter(s, packet.seqNum)
            && t.extendedFirst == C.FirstAfter(s, packet.seqNum)
  {
  }

  lemma CoreOfFields(s: C.CacheState, t: C.CacheState, i: Ideal, j: Ideal)
    requires Core(s, i) && j.last == i.last && j.started
    requires t.cached == CachedOf(j.held)
    requires t.hasCallback == s.hasCallback && t.latestCallback == s.latestCallback && t.hasCached
    requires t.extendedHighest == (j.top - j.origin) % 0x1_0000_0000
    ensures Core(t, j)
  {
  }

  lemma ValidUntouched(i: Ideal, j: Ideal)
    requires Valid(i) && j == i.(lost := j.lost, ever := j.ever)
    ensures Valid(j)
  {
  }

  lemma AcceptedCore(s: C.CacheState, i: Ideal, n: int, packet: RtpPacket, timeoutMs: nat, t: C.CacheState, j: Ideal)
    requires Valid(i) && Core(s, i) && InWindow(i, n) && !Late(i, n) && packet.seqNum == Wrap(n)
    requires t.cached == C.InsertCached(s.cached, C.CachedPacket(packet, timeoutMs))
    requires t.hasCallback == s.hasCallback && t.latestCallback == s.latestCallback && t.hasCached
    requires t.extendedHighest == C.HighestAfter(s, packet.seqNum)
    requires j == Inserted(i, n, packet, timeoutMs).(lost := j.lost, ever := j.ever)
    ensures Core(t, j) && Valid(j)
  {
    hide C.InsertCached, C.HighestAfter, InsertHeld, Numbered, InWindow, Late, Wrap, Newest, Oldest;
    InsertedValid(i, n, packet, timeoutMs);
    ValidUntouched(Inserted(i, n, packet, timeoutMs), j);
    WindowNear(i, n);
    InsertRefines(i.held, Held(n, packet, timeoutMs));
    HighestRefines(s, i, n);
    CoreOfFields(s, t, i, j);
  }

  /** PutPacket does to the cache, the delivery mark and the extended highest
      number what Put does to the ideal ones. */
  lemma PutCoreRefines(s: C.CacheState, i: Ideal, n: int, packet: RtpPacket, timeoutMs: nat)
    requires Valid(i) && Core(s, i) && InWindow(i, n) && packet.seqNum == Wrap(n)
    ensures Core(C.AfterPut(s, packet, timeoutMs), Put(i, n, packet, timeoutMs))
    ensures Valid(Put(i, n, packet, timeoutMs))
  {
    if i.last.Some? {
      AfterBridge(i.last.value, n);
    }
    if !Late(i, n) {
      AcceptedFields(s, packet, timeoutMs);
      AcceptedCore(s, i, n, packet, timeoutMs, C.AfterPut(s, packet, timeoutMs), Put(i, n, packet, timeoutMs));
    }
  }
}