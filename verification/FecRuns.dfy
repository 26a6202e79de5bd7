/** Whole runs of the FEC decoder: what comes out of any sequence of calls. */
module FecRuns {
  import opened SeqComparison
  import opened RtpPackets
  import opened SeqLemmas
  import opened FecStream
  import opened FecIdeal
  import opened FecTurn
  import opened FecPass
  import opened FecRelease
  import D = FecDecoder

  const FRESH := Ideal([], None)

  // ---------- one call ----------

  /** The ideal decoder's call: cache, recover, release. */
  function DecodeNumbers(stream: Stream, cfg: D.Config, i: Ideal, ns: seq<int>): (Ideal, seq<int>)
    requires CacheNumbers(i, ns).nums != [] && AllSent(stream, CacheNumbers(i, ns).nums)
  {
    EmitNumbers(RecoverAll(stream, cfg, CacheNumbers(i, ns)), cfg)
  }

  /** A call the decoder can take: what arrives, what it holds, and the groups of
      both lie within half the number space, and there is something to decode. */
  ghost predicate CallOk(stream: Stream, cfg: D.Config, i: Ideal, ns: seq<int>, lo: int) {
    && AllSent(stream, ns) && AllInPlay(stream, cfg, ns, lo) && Window(stream, cfg, i, lo)
    && CacheNumbers(i, ns).nums != []
  }

  lemma WindowSent(stream: Stream, cfg: D.Config, i: Ideal, lo: int)
    requires Window(stream, cfg, i, lo)
    ensures AllSent(stream, i.nums)
  {
    forall k | 0 <= k < |i.nums| ensures i.nums[k] in stream.sent {
      assert InPlay(stream, cfg, i.nums[k], lo);
    }
  }

  /** Recovery is safe: see `SafePass`. */
  predicate RecoveredSafely(t: D.DecoderState, cfg: D.Config) {
    t.cached != [] && SafePass(t, cfg, t.cached[|t.cached| - 1].Seq(), D.FecIds(t.cached))
  }

  predicate SafeCall(s: D.DecoderState, cfg: D.Config, received: seq<RtpPacket>) {
    RecoveredSafely(D.CacheAll(s, cfg, received), cfg)
  }

  lemma CallCached(stream: Stream, cfg: D.Config, s: D.DecoderState, i: Ideal, found: map<int, seq<int>>, lo: int,
                   ns: seq<int>, packets: seq<RtpPacket>)
    returns (found': map<int, seq<int>>, t: D.DecoderState, c: Ideal)
    requires Honest(stream, cfg) && Related(stream, cfg, s, i, found)
    requires CallOk(stream, cfg, i, ns, lo) && packets == PacketsFor(stream, ns)
    ensures t == D.CacheAll(s, cfg, packets) && t.cached != []
    ensures c == CacheNumbers(i, ns) && c.last == i.last && c.nums != [] && AllSent(stream, c.nums)
    ensures Related(stream, cfg, t, c, found') && Window(stream, cfg, c, lo)
  {
    found' := CacheAllRefines(stream, cfg, s, i, found, lo, ns, packets);
    t, c := D.CacheAll(s, cfg, packets), CacheNumbers(i, ns);
    WindowSent(stream, cfg, c, lo);
    CachedLast(i, ns);
  }

  lemma CallRecovered(stream: Stream, cfg: D.Config, s: D.DecoderState, i: Ideal, found: map<int, seq<int>>, lo: int)
    returns (found': map<int, seq<int>>, u: D.DecoderState, r: Ideal)
    requires Honest(stream, cfg) && Related(stream, cfg, s, i, found) && Window(stream, cfg, i, lo)
    requires s.cached != [] && i.nums != [] && AllSent(stream, i.nums)
    ensures u == D.Recovered(s, cfg) && u.cached != []
    ensures r == RecoverAll(stream, cfg, i) && r.nums != [] && r.last == i.last
    ensures Related(stream, cfg, u, r, found') && Window(stream, cfg, r, lo)
    ensures RecoveredSafely(s, cfg)
  {
    found' := RecoveredRefines(stream, cfg, s, i, found, lo);
    u, r := D.Recovered(s, cfg), RecoverAll(stream, cfg, i);
  }

  lemma DecodedIs(s: D.DecoderState, cfg: D.Config, received: seq<RtpPacket>, t: D.DecoderState, u: D.DecoderState)
    requires t == D.CacheAll(s, cfg, received) && t.cached != [] && u == D.Recovered(t, cfg) && u.cached != []
    requires RecoveredSafely(t, cfg)
    ensures D.Decodable(s, cfg, received) && SafeCall(s, cfg, received)
    ensures D.Decoded(s, cfg, received, []) == D.Emitted(u, cfg, [])
  {
  }

  /** What a call leaves and hands out, ideally `j` and `out`. */
  ghost predicate CallResult(stream: Stream, cfg: D.Config, i: Ideal, t: D.DecoderState, packets: seq<RtpPacket>,
                             found: map<int, seq<int>>, j: Ideal, out: seq<int>) {
    && Related(stream, cfg, t, j, found)
    && AllSent(stream, out) && packets == PacketsFor(stream, out)
    && Ascending(j.nums) && Ascending(out) && Above(i.last, out)
    && j.last == (if out == [] then i.last else Some(out[|out| - 1]))
  }

  lemma CallEmitted(stream: Stream, cfg: D.Config, i: Ideal, u: D.DecoderState, r: Ideal, found: map<int, seq<int>>, lo: int,
                    t: D.DecoderState, packets: seq<RtpPacket>)
    requires Honest(stream, cfg) && Related(stream, cfg, u, r, found) && Window(stream, cfg, r, lo) && r.nums != []
    requires r.last == i.last && (t, packets) == D.Emitted(u, cfg, [])
    ensures CallResult(stream, cfg, i, t, packets, found, EmitNumbers(r, cfg).0, EmitNumbers(r, cfg).1)
  {
    EmittedRefines(stream, cfg, u, r, found, lo, t, packets);
    EmitAscends(r, cfg);
  }

  /** One call refines the ideal decoder's. */
  lemma CallRefines(stream: Stream, cfg: D.Config, s: D.DecoderState, i: Ideal, found: map<int, seq<int>>, lo: int,
                    ns: seq<int>, packets: seq<RtpPacket>)
    returns (found': map<int, seq<int>>, t: D.DecoderState, handed: seq<RtpPacket>)
    requires Honest(stream, cfg) && Related(stream, cfg, s, i, found)
    requires CallOk(stream, cfg, i, ns, lo) && packets == PacketsFor(stream, ns)
    ensures AllSent(stream, CacheNumbers(i, ns).nums) && D.Decodable(s, cfg, packets) && SafeCall(s, cfg, packets)
    ensures (t, handed) == D.Decoded(s, cfg, packets, [])
    ensures var (j, out) := DecodeNumbers(stream, cfg, i, ns);
            CallResult(stream, cfg, i, t, handed, found', j, out)
  {
    var f, u, r := CallGathered(stream, cfg, s, i, found, lo, ns, packets);
    var result := D.Emitted(u, cfg, []);
    found', t, handed := f, result.0, result.1;
    CallEmitted(stream, cfg, i, u, r, found', lo, t, handed);
  }

  /** A call up to the release. */
  lemma CallGathered(stream: Stream, cfg: D.Config, s: D.DecoderState, i: Ideal, found: map<int, seq<int>>, lo: int,
                     ns: seq<int>, packets: seq<RtpPacket>)
    returns (found': map<int, seq<int>>, u: D.DecoderState, r: Ideal)
    requires Honest(stream, cfg) && Related(stream, cfg, s, i, found)
    requires CallOk(stream, cfg, i, ns, lo) && packets == PacketsFor(stream, ns)
    ensures AllSent(stream, CacheNumbers(i, ns).nums) && r == RecoverAll(stream, cfg, CacheNumbers(i, ns))
    ensures D.Decodable(s, cfg, packets) && SafeCall(s, cfg, packets)
    ensures u.cached != [] && D.Decoded(s, cfg, packets, []) == D.Emitted(u, cfg, [])
    ensures Related(stream, cfg, u, r, found') && Window(stream, cfg, r, lo) && r.nums != [] && r.last == i.last
  {
    var f, t, c := CallCached(stream, cfg, s, i, found, lo, ns, packets);
    found', u, r := CallRecovered(stream, cfg, t, c, f, lo);
    DecodedIs(s, cfg, packets, t, u);
  }

  lemma {:induction false} CachedLast(i: Ideal, ns: seq<int>)
    ensures CacheNumbers(i, ns).last == i.last
  {
    if ns != [] {
      CachedLast(i, ns[..|ns| - 1]);
    }
  }

  // ---------- runs ----------

  /** Every call of the run can be taken. */
  ghost predicate RunOk(stream: Stream, cfg: D.Config, i: Ideal, calls: seq<seq<int>>)
    decreases |calls|
  {
    calls == [] ||
    ((exists lo :: CallOk(stream, cfg, i, calls[0], lo)) && AllSent(stream, CacheNumbers(i, calls[0]).nums)
     && RunOk(stream, cfg, DecodeNumbers(stream, cfg, i, calls[0]).0, calls[1..]))
  }

  /** What each call of a run is given, as packets. */
  ghost predicate Given(stream: Stream, calls: seq<seq<int>>, batches: seq<seq<RtpPacket>>) {
    && |batches| == |calls|
    && forall k :: 0 <= k < |calls| ==> AllSent(stream, calls[k]) && batches[k] == PacketsFor(stream, calls[k])
  }

  /** Every call finds something to decode and recovers safely. */
  predicate SafeRun(s: D.DecoderState, cfg: D.Config, batches: seq<seq<RtpPacket>>)
    decreases |batches|
  {
    batches == [] ||
    (D.Decodable(s, cfg, batches[0]) && SafeCall(s, cfg, batches[0])
     && SafeRun(D.Decoded(s, cfg, batches[0], []).0, cfg, batches[1..]))
  }

  /** All a run releases, in order. */
  function RunOutput(s: D.DecoderState, cfg: D.Config, batches: seq<seq<RtpPacket>>): seq<RtpPacket>
    requires SafeRun(s, cfg, batches)
    decreases |batches|
  {
    if batches == [] then []
    else
      var (t, out) := D.Decoded(s, cfg, batches[0], []);
      out + RunOutput(t, cfg, batches[1..])
  }

  function StateAfter(s: D.DecoderState, cfg: D.Config, batches: seq<seq<RtpPacket>>): D.DecoderState
    requires SafeRun(s, cfg, batches)
    decreases |batches|
  {
    if batches == [] then s else StateAfter(D.Decoded(s, cfg, batches[0], []).0, cfg, batches[1..])
  }

  /** The ideal decoder's run: what it is left with and all it releases. */
  ghost function DecodeRun(stream: Stream, cfg: D.Config, i: Ideal, calls: seq<seq<int>>): (Ideal, seq<int>)
    requires RunOk(stream, cfg, i, calls)
    decreases |calls|
  {
    if calls == [] then (i, [])
    else
      var (j, out) := DecodeNumbers(stream, cfg, i, calls[0]);
      var (last, rest) := DecodeRun(stream, cfg, j, calls[1..]);
      (last, out + rest)
  }

  lemma GivenTail(stream: Stream, calls: seq<seq<int>>, batches: seq<seq<RtpPacket>>)
    requires Given(stream, calls, batches) && calls != []
    ensures Given(stream, calls[1..], batches[1..])
  {
  }

  lemma OutputsJoin(stream: Stream, last: Option<int>, a: seq<int>, b: seq<int>, mid: Option<int>)
    requires AllSent(stream, a) && AllSent(stream, b) && Ascending(a) && Ascending(b)
    requires Above(last, a) && Above(mid, b) && mid == (if a == [] then last else Some(a[|a| - 1]))
    ensures AllSent(stream, a + b) && Ascending(a + b) && Above(last, a + b)
    ensures PacketsFor(stream, a + b) == PacketsFor(stream, a) + PacketsFor(stream, b)
  {
    PacketsConcat(stream, a, b);
  }

  lemma SafeStep(s: D.DecoderState, cfg: D.Config, batches: seq<seq<RtpPacket>>, t: D.DecoderState, out: seq<RtpPacket>)
    requires batches != [] && D.Decodable(s, cfg, batches[0]) && SafeCall(s, cfg, batches[0])
    requires D.Decoded(s, cfg, batches[0], []) == (t, out) && SafeRun(t, cfg, batches[1..])
    ensures SafeRun(s, cfg, batches) && RunOutput(s, cfg, batches) == out + RunOutput(t, cfg, batches[1..])
    ensures StateAfter(s, cfg, batches) == StateAfter(t, cfg, batches[1..])
  {
  }

  lemma {:induction false} RunRefines(stream: Stream, cfg: D.Config, s: D.DecoderState, i: Ideal, found: map<int, seq<int>>,
                                      calls: seq<seq<int>>, batches: seq<seq<RtpPacket>>) returns (found': map<int, seq<int>>)
    requires Honest(stream, cfg) && Related(stream, cfg, s, i, found)
    requires RunOk(stream, cfg, i, calls) && Given(stream, calls, batches)
    ensures SafeRun(s, cfg, batches)
    ensures var (j, out) := DecodeRun(stream, cfg, i, calls);
            && Ascending(out) && Above(i.last, out)
            && AllSent(stream, out) && RunOutput(s, cfg, batches) == PacketsFor(stream, out)
            && Related(stream, cfg, StateAfter(s, cfg, batches), j, found')
    decreases |calls|
  {
    hide Related, Honest, D.Decoded, SafeCall, CacheNumbers;
    found' := found;
    if calls != [] {
      var lo :| CallOk(stream, cfg, i, calls[0], lo);
      var f, t, packets := CallRefines(stream, cfg, s, i, found, lo, calls[0], batches[0]);
      var (j, out) := DecodeNumbers(stream, cfg, i, calls[0]);
      GivenTail(stream, calls, batches);
      found' := RunRefines(stream, cfg, t, j, f, calls[1..], batches[1..]);
      SafeStep(s, cfg, batches, t, packets);
      OutputsJoin(stream, i.last, out, DecodeRun(stream, cfg, j, calls[1..]).1, j.last);
    }
  }

  lemma EmptyRelated(stream: Stream, cfg: D.Config)
    ensures Related(stream, cfg, D.EMPTY, FRESH, map[])
  {
  }

  /** The decoder's promise over whole runs. Give it any sequence of calls with any
      part of an honest stream, in any order and with repetitions, each call within
      half the number space: every packet it releases is byte for byte one that was
      sent, the numbers released increase strictly across all calls, and no recovery
      ever follows a pointer to an erased packet. */
  lemma FecRunSafe(stream: Stream, cfg: D.Config, calls: seq<seq<int>>, batches: seq<seq<RtpPacket>>)
    requires Honest(stream, cfg) && RunOk(stream, cfg, FRESH, calls) && Given(stream, calls, batches)
    ensures SafeRun(D.EMPTY, cfg, batches)
    ensures var released := DecodeRun(stream, cfg, FRESH, calls).1;
            && Ascending(released) && AllSent(stream, released)
            && RunOutput(D.EMPTY, cfg, batches) == PacketsFor(stream, released)
  {
    EmptyRelated(stream, cfg);
    var found := RunRefines(stream, cfg, D.EMPTY, FRESH, map[], calls, batches);
  }

  // ---------- packets of other streams ----------

  /** The packets of the decoder's stream. */
  function Own(cfg: D.Config, packets: seq<RtpPacket>): seq<RtpPacket> {
    if packets == [] then []
    else Own(cfg, packets[..|packets| - 1]) + if packets[|packets| - 1].ssrc == cfg.ssrc then [packets[|packets| - 1]] else []
  }

  function AllOwn(cfg: D.Config, batches: seq<seq<RtpPacket>>): (own: seq<seq<RtpPacket>>)
    ensures |own| == |batches| && forall k :: 0 <= k < |own| ==> own[k] == Own(cfg, batches[k])
  {
    seq(|batches|, k requires 0 <= k < |batches| => Own(cfg, batches[k]))
  }

  /** Packets of other streams leave nothing in the cache. */
  lemma {:induction false} OwnCached(s: D.DecoderState, cfg: D.Config, packets: seq<RtpPacket>)
    ensures D.CacheAll(s, cfg, packets) == D.CacheAll(s, cfg, Own(cfg, packets))
    decreases |packets|
  {
    if packets != [] {
      var before, p := packets[..|packets| - 1], packets[|packets| - 1];
      OwnCached(s, cfg, before);
      var own := Own(cfg, before);
      if p.ssrc == cfg.ssrc {
        assert (own + [p])[..|own + [p]| - 1] == own;
      } else {
        EmptyRight(own);
      }
    }
  }

  lemma OwnCall(s: D.DecoderState, cfg: D.Config, packets: seq<RtpPacket>)
    ensures D.Decodable(s, cfg, packets) <==> D.Decodable(s, cfg, Own(cfg, packets))
    ensures SafeCall(s, cfg, packets) <==> SafeCall(s, cfg, Own(cfg, packets))
    ensures D.Decodable(s, cfg, packets) ==> D.Decoded(s, cfg, packets, []) == D.Decoded(s, cfg, Own(cfg, packets), [])
  {
    hide D.CacheAll, Own;
    OwnCached(s, cfg, packets);
  }

  /** They make no difference to any run: it is safe, and releases the same packets, as if
      they had not come. */
  lemma {:induction false} OthersIgnored(s: D.DecoderState, cfg: D.Config, batches: seq<seq<RtpPacket>>)
    ensures SafeRun(s, cfg, batches) <==> SafeRun(s, cfg, AllOwn(cfg, batches))
    ensures SafeRun(s, cfg, batches) ==> RunOutput(s, cfg, batches) == RunOutput(s, cfg, AllOwn(cfg, batches))
    decreases |batches|
  {
    hide Own, SafeCall, D.Decodable, D.Decoded;
    if batches != [] {
      OwnCall(s, cfg, batches[0]);
      assert AllOwn(cfg, batches)[1..] == AllOwn(cfg, batches[1..]);
      if D.Decodable(s, cfg, batches[0]) {
        OthersIgnored(D.Decoded(s, cfg, batches[0], []).0, cfg, batches[1..]);
      }
    }
  }

  /** So the promise holds with packets of other streams among those given. */
  lemma FecRunAmongOthers(stream: Stream, cfg: D.Config, calls: seq<seq<int>>, batches: seq<seq<RtpPacket>>)
    requires Honest(stream, cfg) && RunOk(stream, cfg, FRESH, calls) && Given(stream, calls, AllOwn(cfg, batches))
    ensures SafeRun(D.EMPTY, cfg, batches)
    ensures var released := DecodeRun(stream, cfg, FRESH, calls).1;
            && Ascending(released) && AllSent(stream, released)
            && RunOutput(D.EMPTY, cfg, batches) == PacketsFor(stream, released)
  {
    FecRunSafe(stream, cfg, calls, AllOwn(cfg, batches));
    OthersIgnored(D.EMPTY, cfg, batches);
  }

  // ---------- Flush ----------

  /** Flush hands out every cached packet, the released ones again. What is left is an
      empty decoder that goes on after the newest packet it handed out, or after what it
      released last when there was none. */
  lemma FlushOutput(stream: Stream, cfg: D.Config, s: D.DecoderState, i: Ideal, found: map<int, seq<int>>)
    requires Honest(stream, cfg) && Related(stream, cfg, s, i, found)
    ensures AllSent(stream, i.nums) && D.Flushed(s, []).1 == PacketsFor(stream, i.nums)
    ensures D.Flushed(s, []).0.cached == []
    ensures Related(stream, cfg, D.Flushed(s, []).0, Ideal([], if i.nums == [] then i.last else Some(i.nums[|i.nums| - 1])), map[])
  {
    hide Honest, Related, Slots, D.Flushed, PacketsFor;
    RelatedShape(stream, cfg, s, i, found);
    SlotsOf(stream, cfg, s, i);
    SlotsSent(stream, cfg, s.cached, i.nums);
    SlotPackets(stream, cfg, s, i.nums);
    if i.nums != [] {
      LastNumber(stream, cfg, i.nums);
    }
    FlushedRelated(stream, cfg, s, i);
  }

  lemma RelatedShape(stream: Stream, cfg: D.Config, s: D.DecoderState, i: Ideal, found: map<int, seq<int>>)
    requires Related(stream, cfg, s, i, found)
    ensures Shape(stream, cfg, s, i)
  {
  }

  lemma SlotsSent(stream: Stream, cfg: D.Config, cached: seq<D.CachedPacket>, nums: seq<int>)
    requires Slots(stream, cfg, cached, nums)
    ensures AllSent(stream, nums)
  {
  }

  lemma FlushedRelated(stream: Stream, cfg: D.Config, s: D.DecoderState, i: Ideal)
    requires Shape(stream, cfg, s, i) && AllSent(stream, i.nums) && D.Flushed(s, []).1 == PacketsFor(stream, i.nums)
    requires i.nums != [] ==> PacketsFor(stream, i.nums)[|i.nums| - 1].seqNum == Wrap(i.nums[|i.nums| - 1])
    ensures Related(stream, cfg, D.Flushed(s, []).0, Ideal([], if i.nums == [] then i.last else Some(i.nums[|i.nums| - 1])), map[])
  {
    hide SlotOk, FecOk, PacketsFor, D.PacketsOf;
  }

  lemma SlotPackets(stream: Stream, cfg: D.Config, s: D.DecoderState, nums: seq<int>)
    requires Slots(stream, cfg, s.cached, nums)
    ensures D.Flushed(s, []).1 == PacketsFor(stream, nums) && D.Flushed(s, []).0.cached == []
  {
    EmptyLeft(D.PacketsOf(s.cached));
  }

  /** Flush keeps the released numbers increasing exactly when the oldest cached
      packet has not been released yet. */
  lemma FlushInOrderExactly(stream: Stream, cfg: D.Config, s: D.DecoderState, i: Ideal, found: map<int, seq<int>>, lo: int)
    requires Honest(stream, cfg) && Related(stream, cfg, s, i, found) && Window(stream, cfg, i, lo)
    ensures Above(i.last, i.nums) <==> s.cached == [] || D.NotYetOutput(s, s.cached[0].Seq())
  {
    if i.nums != [] {
      WindowCarries(stream, cfg, s, i, found, lo);
      NotYetBridge(s, i.last, lo, i.nums[0]);
    }
  }

  /** Two media packets numbered 0 and 1. */
  ghost predicate Pair(cfg: D.Config, p: RtpPacket, q: RtpPacket) {
    && HonestPacket(cfg, p, 0) && HonestPacket(cfg, q, 1)
    && p.PayloadType() != cfg.fecType && q.PayloadType() != cfg.fecType
  }

  /** Where Flush repeats itself: after a call that released a packet from the cache,
      Flush releases it once more. */
  lemma FlushRepeats(cfg: D.Config, p: RtpPacket, q: RtpPacket)
    requires Pair(cfg, p, q) && cfg.maxDifference > 0
    ensures D.Decodable(D.EMPTY, cfg, [p, q]) && D.Decoded(D.EMPTY, cfg, [p, q], []).1 == [p, q]
    ensures D.Flushed(D.Decoded(D.EMPTY, cfg, [p, q], []).0, []).1 == [p, q]
  {
    var stream := Stream(map[0 := p, 1 := q], map[]);
    PairCall(cfg, p, q, stream);
    EmptyRelated(stream, cfg);
    var found, t, handed := CallRefines(stream, cfg, D.EMPTY, FRESH, map[], 0, [0, 1], [p, q]);
    PairReleased(cfg, p, q, stream);
    FlushOutput(stream, cfg, t, Ideal([0, 1], Some(1)), found);
  }

  lemma PairCall(cfg: D.Config, p: RtpPacket, q: RtpPacket, stream: Stream)
    requires Pair(cfg, p, q) && stream == Stream(map[0 := p, 1 := q], map[])
    ensures Honest(stream, cfg) && CallOk(stream, cfg, FRESH, [0, 1], 0)
    ensures CacheNumbers(FRESH, [0, 1]) == Ideal([0, 1], None) && PacketsFor(stream, [0, 1]) == [p, q]
  {
    PairCached();
  }

  lemma PairCached()
    ensures CacheNumbers(FRESH, [0, 1]) == Ideal([0, 1], None)
  {
    var ns := [0, 1];
    assert ns[..1] == [0] && ns[..0] == [];
    assert CacheNumbers(FRESH, ns[..1]) == Ideal([0], None);
  }

  lemma PairReleased(cfg: D.Config, p: RtpPacket, q: RtpPacket, stream: Stream)
    requires Pair(cfg, p, q) && cfg.maxDifference > 0 && stream == Stream(map[0 := p, 1 := q], map[])
    requires CacheNumbers(FRESH, [0, 1]) == Ideal([0, 1], None)
    ensures DecodeNumbers(stream, cfg, FRESH, [0, 1]) == (Ideal([0, 1], Some(1)), [0, 1])
  {
    PairNotFec(cfg, stream);
    PairEmitted(cfg);
  }

  lemma PairNotFec(cfg: D.Config, stream: Stream)
    requires 0 in stream.sent && 1 in stream.sent && !stream.IsFec(cfg, 0) && !stream.IsFec(cfg, 1)
    ensures RecoverAll(stream, cfg, Ideal([0, 1], None)) == Ideal([0, 1], None)
  {
    var nums := [0, 1];
    assert nums[1..] == [1] && nums[1..][1..] == [];
    assert FecNumbers(stream, cfg, nums[1..]) == [];
    assert FecNumbers(stream, cfg, nums) == [];
  }

  lemma PairEmitted(cfg: D.Config)
    requires cfg.maxDifference > 0
    ensures EmitNumbers(Ideal([0, 1], None), cfg) == (Ideal([0, 1], Some(1)), [0, 1])
  {
    var nums := [0, 1];
    assert OutOfRange(nums, 1, cfg.maxDifference) == 0;
    assert nums[..0] == [] && nums[0..] == nums && nums[1..] == [1];
    assert Following([1], 0) == [1];
    assert Continued(None, [], nums) == [0, 1];
    EmptyLeft(nums);
  }
}
