/** The extended highest sequence number: exact over every run in which each packet the
    program accepts is near the highest one before it, whatever is delivered, lost or
    refused meanwhile. */
module ReceiverExtended {
  import opened ByteIo
  import opened SeqComparison
  import opened RtpPackets
  import opened ReceiverIdeal
  import opened ReceiverRuns
  import C = ReceiverCache

  /** The program accepts the arrival at position `k`. */
  predicate Accepts(events: seq<Event>, k: nat): (accepts: bool)
    requires k < |events|
    ensures accepts ==> events[k].Arrive?
  {
    events[k].Arrive? && !C.Rejects(Run(events[..k]).state, events[k].packet.seqNum)
  }

  datatype Span = Span(first: int, highest: int)

  /** The first and the highest number accepted so far. */
  function Accepted(events: seq<Event>): Option<Span> {
    if events == [] then None
    else
      var before, n := Accepted(events[..|events| - 1]), |events| - 1;
      if !Accepts(events, n) then before
      else if before.None? then Some(Span(events[n].n, events[n].n))
      else Some(before.value.(highest := if before.value.highest < events[n].n then events[n].n else before.value.highest))
  }

  /** Each accepted packet carries its 16-bit number, and is within half the number space
      of the highest one accepted before it. */
  predicate Nearby(events: seq<Event>) {
    events != [] ==>
      var before, n := events[..|events| - 1], |events| - 1;
      && Nearby(before)
      && (Accepts(events, n) ==>
            && events[n].packet.seqNum == Wrap(events[n].n)
            && (Accepted(before).Some? ==> -HALF_RANGE <= events[n].n - Accepted(before).value.highest <= HALF_RANGE))
  }

  lemma AcceptsPrefix(events: seq<Event>, k: nat, m: nat)
    requires k < m <= |events|
    ensures Accepts(events[..m], k) <==> Accepts(events, k)
  {
    assert events[..m][..k] == events[..k];
  }

  /** What the span of accepted numbers is. */
  lemma {:induction false} SpanExactly(events: seq<Event>)
    ensures Accepted(events).None? <==> forall k :: 0 <= k < |events| ==> !Accepts(events, k)
    ensures Accepted(events).Some? ==>
              && (exists k: nat :: IsFirst(events, k) && events[k].n == Accepted(events).value.first)
              && (exists k :: 0 <= k < |events| && Accepts(events, k) && events[k].n == Accepted(events).value.highest)
              && (forall k :: 0 <= k < |events| && Accepts(events, k) ==> events[k].n <= Accepted(events).value.highest)
  {
    hide Accepts;
    if events != [] {
      var before, n := events[..|events| - 1], |events| - 1;
      SpanExactly(before);
      forall k | 0 <= k < n ensures Accepts(before, k) <==> Accepts(events, k) {
        AcceptsPrefix(events, k, n);
      }
      if Accepted(before).Some? {
        var f: nat :| IsFirst(before, f) && before[f].n == Accepted(before).value.first;
        assert IsFirst(events, f);
        var h :| 0 <= h < |before| && Accepts(before, h) && before[h].n == Accepted(before).value.highest;
        assert Accepts(events, h) && events[h].n == before[h].n;
      } else if Accepts(events, n) {
        assert IsFirst(events, n);
      }
    }
  }

  predicate IsFirst(events: seq<Event>, k: nat) {
    k < |events| && Accepts(events, k) && forall j :: 0 <= j < k ==> !Accepts(events, j)
  }

  predicate IsHighest(events: seq<Event>, top: int) {
    && (exists k :: 0 <= k < |events| && Accepts(events, k) && events[k].n == top)
    && (forall k :: 0 <= k < |events| && Accepts(events, k) ==> events[k].n <= top)
  }

  /** `extended` is `top` counted from the cycle of `first`, modulo 2^32. */
  predicate CountedFrom(extended: U32, first: int, top: int) {
    extended == (top - first + Wrap(first)) % 0x1_0000_0000
  }

  predicate Tracks(s: C.CacheState, span: Option<Span>) {
    && s.hasCached == span.Some?
    && (span.Some? ==> CountedFrom(s.extendedHighest, span.value.first, span.value.highest))
  }

  lemma WrapOfSpan(first: int, n: int)
    ensures Wrap(n - first + Wrap(first)) == Wrap(n)
  {
    assert first == SEQ_SPACE * (first / SEQ_SPACE) + Wrap(first);
    OriginAligned(first);
    WrapShift(n, first - Wrap(first));
  }

  lemma FirstTracked(s: C.CacheState, n: int)
    requires !s.hasCached
    ensures CountedFrom(C.HighestAfter(s, Wrap(n)), n, n)
  {
  }

  /** One accepted packet. */
  lemma HighestTracked(s: C.CacheState, span: Span, n: int)
    requires s.hasCached && CountedFrom(s.extendedHighest, span.first, span.highest)
    requires -HALF_RANGE <= n - span.highest <= HALF_RANGE
    ensures CountedFrom(C.HighestAfter(s, Wrap(n)), span.first, if span.highest < n then n else span.highest)
  {
    hide Wrap;
    var t := span.highest - span.first + Wrap(span.first);
    ExtendedSplit(t);
    WrapOfSpan(span.first, span.highest);
    WrapOfSpan(span.first, n);
    AfterBridge(span.highest, n);
    if span.highest < n {
      ExtendedStep(t, n - span.highest);
    }
  }

  lemma PutTracked(s: C.CacheState, packet: RtpPacket, timeoutMs: nat)
    requires !C.Rejects(s, packet.seqNum)
    ensures C.AfterPut(s, packet, timeoutMs).hasCached
    ensures C.AfterPut(s, packet, timeoutMs).extendedHighest == C.HighestAfter(s, packet.seqNum)
  {
    AcceptedFields(s, packet, timeoutMs);
  }

  lemma {:induction false} RunTracks(events: seq<Event>)
    requires Nearby(events)
    ensures Tracks(Run(events).state, Accepted(events))
  {
    hide Wrap, C.Rejects, C.AfterPut, C.HighestAfter, CountedFrom;
    if events != [] {
      var before, n := events[..|events| - 1], |events| - 1;
      var s, e := Run(before).state, events[n];
      RunTracks(before);
      assert events[..n] == before;
      if Accepts(events, n) {
        PutTracked(s, e.packet, e.timeoutMs);
        if s.hasCached {
          HighestTracked(s, Accepted(before).value, e.n);
        } else {
          FirstTracked(s, e.n);
        }
      } else if e.Arrive? {
        RejectedKeeps(s, e.packet, e.timeoutMs);
      }
    }
  }

  lemma RejectedKeeps(s: C.CacheState, packet: RtpPacket, timeoutMs: nat)
    requires C.Rejects(s, packet.seqNum)
    ensures C.AfterPut(s, packet, timeoutMs) == s
  {
  }

  lemma SpanIs(events: seq<Event>, first: nat, top: int)
    requires IsFirst(events, first) && IsHighest(events, top)
    ensures Accepted(events) == Some(Span(events[first].n, top))
  {
    hide Accepts, Accepted;
    SpanExactly(events);
    var f: nat :| IsFirst(events, f) && events[f].n == Accepted(events).value.first;
    assert f == first;
  }

  /** Section 6.4.1 of RFC 3550: the extended highest sequence number is the true
      highest one counted from the cycle of the first, modulo 2^32. */
  lemma ExtendedHighestExact(events: seq<Event>, first: nat, top: int)
    requires Nearby(events) && IsFirst(events, first) && IsHighest(events, top)
    ensures CountedFrom(Run(events).state.extendedHighest, events[first].n, top)
  {
    hide Run, Accepted, IsFirst, IsHighest;
    RunTracks(events);
    SpanIs(events, first, top);
  }

  lemma {:induction false} SpanGrows(events: seq<Event>, k: nat)
    requires k <= |events| && Accepted(events[..k]).Some?
    ensures Accepted(events).Some?
    ensures Accepted(events[..k]).value.highest <= Accepted(events).value.highest
    ensures Accepted(events[..k]).value.first == Accepted(events).value.first
    ensures Nearby(events) ==> Nearby(events[..k])
  {
    hide Accepts;
    if k < |events| {
      var before := events[..|events| - 1];
      assert before[..k] == events[..k];
      SpanGrows(before, k);
    } else {
      assert events[..k] == events;
    }
  }

  lemma CountGrows(a: U32, b: U32, first: int, before: int, after: int)
    requires CountedFrom(a, first, before) && CountedFrom(b, first, after)
    requires first <= before <= after && after - first + Wrap(first) < 0x1_0000_0000
    ensures a <= b
  {
  }

  lemma FirstBelow(events: seq<Event>)
    requires Accepted(events).Some?
    ensures Accepted(events).value.first <= Accepted(events).value.highest
  {
    SpanExactly(events);
  }

  /** It never decreases as long as the highest accepted number is less than 65536 cycles
      after the start of the first one's cycle. */
  lemma ExtendedGrows(events: seq<Event>, first: nat, top: int, k: nat)
    requires Nearby(events) && IsFirst(events, first) && IsHighest(events, top) && first < k <= |events|
    requires top - events[first].n + Wrap(events[first].n) < 0x1_0000_0000
    ensures Run(events[..k]).state.extendedHighest <= Run(events).state.extendedHighest
  {
    hide Run, Accepts, CountedFrom, Wrap;
    SpanIs(events, first, top);
    StartedBy(events, first, k);
    SpanGrows(events, k);
    FirstBelow(events[..k]);
    RunTracks(events);
    RunTracks(events[..k]);
    CountGrows(Run(events[..k]).state.extendedHighest, Run(events).state.extendedHighest, events[first].n,
               Accepted(events[..k]).value.highest, top);
  }

  lemma StartedBy(events: seq<Event>, first: nat, k: nat)
    requires first < k <= |events| && Accepts(events, first)
    ensures Accepted(events[..k]).Some?
  {
    hide Accepts;
    AcceptsPrefix(events, first, k);
    SpanExactly(events[..k]);
  }

  // ---------- the extended first number ----------

  /** How many cycles after the first accepted number's cycle the highest one is. */
  function Cycles(span: Span): int {
    (span.highest - span.first + Wrap(span.first)) / SEQ_SPACE
  }

  /** The arrival at position `k` is accepted and leaves the highest number in the first
      cycle, or a multiple of 65536 cycles later, where the cycle count reads 0 again. */
  predicate Counts(events: seq<Event>, k: nat): (counts: bool)
    requires k < |events|
    ensures counts ==> events[k].Arrive?
  {
    && Accepts(events, k) && Accepted(events[..k + 1]).Some?
    && Cycles(Accepted(events[..k + 1]).value) % SEQ_SPACE == 0
  }

  /** The least 16-bit number among the arrivals that count. */
  function Least(events: seq<Event>): Option<Seq16> {
    if events == [] then None
    else
      var before, n := Least(events[..|events| - 1]), |events| - 1;
      if Counts(events, n) && (before.None? || Wrap(events[n].n) < before.value) then Some(Wrap(events[n].n)) else before
  }

  predicate IsLeast(events: seq<Event>, x: int) {
    && (exists k :: 0 <= k < |events| && Counts(events, k) && Wrap(events[k].n) == x)
    && (forall k :: 0 <= k < |events| && Counts(events, k) ==> x <= Wrap(events[k].n))
  }

  lemma CountsPrefix(events: seq<Event>, k: nat, m: nat)
    requires k < m <= |events|
    ensures Counts(events[..m], k) <==> Counts(events, k)
  {
    hide Accepts;
    AcceptsPrefix(events, k, m);
    assert events[..m][..k + 1] == events[..k + 1];
  }

  lemma {:induction false} LeastExactly(events: seq<Event>)
    ensures Least(events).Some? ==> IsLeast(events, Least(events).value)
    ensures Least(events).None? ==> forall k :: 0 <= k < |events| ==> !Counts(events, k)
  {
    hide Counts, Wrap;
    if events != [] {
      var before, n := events[..|events| - 1], |events| - 1;
      LeastExactly(before);
      forall k | 0 <= k < n ensures Counts(before, k) <==> Counts(events, k) {
        CountsPrefix(events, k, n);
      }
      if Least(before).Some? {
        var h :| 0 <= h < |before| && Counts(before, h) && Wrap(before[h].n) == Least(before).value;
        assert Counts(events, h) && Wrap(events[h].n) == Least(before).value;
      }
    }
  }

  lemma PutFirst(s: C.CacheState, packet: RtpPacket, timeoutMs: nat)
    requires !C.Rejects(s, packet.seqNum)
    ensures C.AfterPut(s, packet, timeoutMs).extendedFirst == C.FirstAfter(s, packet.seqNum)
  {
    AcceptedFields(s, packet, timeoutMs);
  }

  /** When one accepted packet lowers the first number. */
  lemma FirstStep(s: C.CacheState, span: Span, n: Seq16)
    requires CountedFrom(C.HighestAfter(s, n), span.first, span.highest)
    ensures !s.hasCached ==> C.FirstAfter(s, n) == n
    ensures s.hasCached ==>
              C.FirstAfter(s, n) == if Cycles(span) % SEQ_SPACE == 0 && n < s.extendedFirst then n else s.extendedFirst
  {
    ExtendedSplit(span.highest - span.first + Wrap(span.first));
  }

  lemma FirstCounts(events: seq<Event>, n: nat)
    requires n == |events| - 1 && Accepts(events, n) && Accepted(events[..n]).None?
    ensures Counts(events, n)
  {
    hide Accepts;
    assert events[..n + 1] == events;
  }

  lemma {:induction false} RunFirst(events: seq<Event>)
    requires Nearby(events) && Accepted(events).Some?
    ensures Least(events).Some? && Run(events).state.extendedFirst == Least(events).value
  {
    hide Wrap, C.Rejects, C.AfterPut, C.HighestAfter, C.FirstAfter, CountedFrom, Cycles;
    var before, n := events[..|events| - 1], |events| - 1;
    var s, e := Run(before).state, events[n];
    assert events[..n] == before && events[..n + 1] == events;
    RunTracks(before);
    RunTracks(events);
    if Accepted(before).Some? {
      RunFirst(before);
    }
    if Accepts(events, n) {
      PutFirst(s, e.packet, e.timeoutMs);
      PutTracked(s, e.packet, e.timeoutMs);
      FirstStep(s, Accepted(events).value, e.packet.seqNum);
      if Accepted(before).None? {
        FirstCounts(events, n);
        NoneBefore(before);
      }
    } else if e.Arrive? {
      RejectedKeeps(s, e.packet, e.timeoutMs);
    }
  }

  lemma NoneBefore(events: seq<Event>)
    requires Accepted(events).None?
    ensures Least(events).None?
  {
    hide Accepts;
    SpanExactly(events);
    LeastExactly(events);
  }

  /** Over every such run the extended first number is the least 16-bit number among the
      packets accepted while the cycle count of the highest reads 0. */
  lemma ExtendedFirstExact(events: seq<Event>)
    requires Nearby(events) && Accepted(events).Some?
    ensures IsLeast(events, Run(events).state.extendedFirst)
  {
    hide Run, Accepted, IsLeast, Nearby;
    RunFirst(events);
    LeastExactly(events);
  }

  lemma CyclesGrow(a: Span, b: Span)
    requires a.first == b.first && a.first <= a.highest <= b.highest
    ensures 0 <= Cycles(a) <= Cycles(b)
  {
    assert 0 <= a.highest - a.first + Wrap(a.first);
  }

  lemma CyclesBetween(events: seq<Event>, k: nat, m: nat)
    requires k <= m <= |events| && Accepted(events[..k]).Some?
    ensures Accepted(events[..m]).Some?
    ensures 0 <= Cycles(Accepted(events[..k]).value) <= Cycles(Accepted(events[..m]).value)
  {
    hide Accepted, Cycles;
    assert events[..m][..k] == events[..k];
    SpanGrows(events[..m], k);
    FirstBelow(events[..k]);
    CyclesGrow(Accepted(events[..k]).value, Accepted(events[..m]).value);
  }

  /** While the highest number is in the first one's cycle, it is the least 16-bit number
      accepted so far. */
  lemma LeastInFirstCycle(events: seq<Event>, first: nat, top: int)
    requires Nearby(events) && IsFirst(events, first) && IsHighest(events, top)
    requires top - events[first].n + Wrap(events[first].n) < SEQ_SPACE
    ensures var x := Run(events).state.extendedFirst;
            && (exists k :: 0 <= k < |events| && Accepts(events, k) && Wrap(events[k].n) == x)
            && (forall k :: 0 <= k < |events| && Accepts(events, k) ==> x <= Wrap(events[k].n))
  {
    hide Run, Accepted, Accepts, Nearby, Wrap;
    SpanIs(events, first, top);
    ExtendedFirstExact(events);
    assert events[..|events|] == events;
    forall k | 0 <= k < |events| && Accepts(events, k) ensures Counts(events, k) {
      StartedBy(events, k, k + 1);
      CyclesBetween(events, k + 1, |events|);
    }
  }

  lemma {:induction false} LeastSame(events: seq<Event>, k: nat)
    requires k <= |events| && forall j :: k <= j < |events| ==> !Counts(events, j)
    ensures Least(events) == Least(events[..k])
  {
    hide Counts;
    if k < |events| {
      var before := events[..|events| - 1];
      assert before[..k] == events[..k];
      forall j | k <= j < |before| ensures !Counts(before, j) {
        CountsPrefix(events, j, |before|);
      }
      LeastSame(before, k);
    } else {
      assert events[..k] == events;
    }
  }

  /** From the packet at position `k` on, whose number `next` leaves the first cycle, it
      stays as it was, until 65536 cycles have passed. */
  lemma StaysAfterFirstCycle(events: seq<Event>, first: nat, top: int, k: nat, next: int)
    requires Nearby(events) && IsFirst(events, first) && IsHighest(events, top) && first < k < |events|
    requires IsHighest(events[..k + 1], next) && next - events[first].n + Wrap(events[first].n) >= SEQ_SPACE
    requires top - events[first].n + Wrap(events[first].n) < 0x1_0000_0000
    ensures Run(events).state.extendedFirst == Run(events[..k]).state.extendedFirst
  {
    hide Run, Accepted, Accepts, Nearby, Wrap, IsHighest;
    SpanIs(events, first, top);
    StartedBy(events, first, k);
    FirstOfPrefix(events, first, k + 1);
    SpanIs(events[..k + 1], first, next);
    assert events[..|events|] == events;
    forall j | k <= j < |events| ensures !Counts(events, j) {
      CyclesBetween(events, k + 1, j + 1);
      CyclesBetween(events, j + 1, |events|);
    }
    LeastSame(events, k);
    SpanGrows(events, k);
    RunFirst(events);
    RunFirst(events[..k]);
  }

  lemma FirstOfPrefix(events: seq<Event>, first: nat, m: nat)
    requires IsFirst(events, first) && first < m <= |events|
    ensures IsFirst(events[..m], first) && events[..m][first] == events[first]
  {
    hide Accepts;
    forall j | 0 <= j <= first ensures Accepts(events[..m], j) <==> Accepts(events, j) {
      AcceptsPrefix(events, j, m);
    }
  }
}
