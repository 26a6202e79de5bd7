/** The receiver's jitter buffer and loss list, as the program keeps them:
    16-bit numbers in two lists, newest first.

    Functions describe what each operation makes of the state; the class below
    computes the same with the program's loops. What the state means is the
    subject of `ReceiverIdeal`. */
module ReceiverCache {
  import opened ByteIo
  import opened SeqComparison
  import opened RtpPackets
  import opened SeqLemmas

  const NACK_INTERVAL_MS := 50

  datatype CachedPacket = CachedPacket(packet: RtpPacket, timeoutMs: nat) {
    function Seq(): Seq16 { packet.seqNum }
  }

  datatype LossSeq = LossSeq(seqNum: Seq16, notified: bool, lastNotifyMs: nat)

  datatype CacheState = CacheState(
    cached: seq<CachedPacket>, losses: seq<LossSeq>,
    latestCallback: Seq16, hasCallback: bool,
    cumulativeLoss: U32, extendedHighest: U32, extendedFirst: U32, hasCached: bool)

  const EMPTY := CacheState([], [], 0, false, 0, 0, 0, false)

  // ---------- PutPacket ----------

  function HighestAfter(s: CacheState, n: Seq16): U32 {
    if !s.hasCached then n
    else
      var cycles, latest := s.extendedHighest / SEQ_SPACE, s.extendedHighest % SEQ_SPACE;
      if !IsSeqAfter(latest, n) then s.extendedHighest
      else (if n < latest then (cycles + 1) % SEQ_SPACE else cycles) * SEQ_SPACE + n
  }

  function FirstAfter(s: CacheState, n: Seq16): U32 {
    if !s.hasCached then n
    else if HighestAfter(s, n) / SEQ_SPACE == 0 && n < s.extendedFirst then n
    else s.extendedFirst
  }

  function InsertWalk(cached: seq<CachedPacket>, c: CachedPacket): seq<CachedPacket> {
    if cached == [] || cached[0].Seq() == c.Seq() then cached
    else if IsSeqAfter(cached[0].Seq(), c.Seq()) then [c] + cached
    else [cached[0]] + InsertWalk(cached[1..], c)
  }

  function InsertCached(cached: seq<CachedPacket>, c: CachedPacket): (r: seq<CachedPacket>)
    ensures r != []
  {
    if cached == [] then [c]
    else if IsSeqAfter(c.Seq(), cached[|cached| - 1].Seq()) then cached + [c]
    else InsertWalk(cached, c)
  }

  function EraseLoss(losses: seq<LossSeq>, n: Seq16): seq<LossSeq> {
    if losses == [] then []
    else if losses[0].seqNum == n then losses[1..]
    else [losses[0]] + EraseLoss(losses[1..], n)
  }

  /** from, from - 1, ..., to + 1. */
  function Down(from: int, to: int): (r: seq<Seq16>)
    requires from <= MAX_SEQ && 0 <= to
    decreases from - to
  {
    if from <= to then [] else [from] + Down(from - 1, to)
  }

  /** The numbers the gap filler visits between two neighbours; in the second
      branch the gap straddles 65535/0 and number 0 is skipped. */
  function GapSeqs(last: Seq16, this_: Seq16): seq<Seq16> {
    if this_ < last then Down(last - 1, this_)
    else Down(Wrap(last - 1), 0) + Down(MAX_SEQ, this_)
  }

  function GapTo(last: Seq16, this_: Seq16): seq<Seq16> {
    if IsNextSeq(this_, last) then [] else GapSeqs(last, this_)
  }

  function CachedGaps(cached: seq<CachedPacket>): seq<Seq16> {
    if |cached| < 2 then [] else GapTo(cached[0].Seq(), cached[1].Seq()) + CachedGaps(cached[1..])
  }

  function AllGaps(s: CacheState): seq<Seq16>
    requires s.cached != []
  {
    CachedGaps(s.cached) + if s.hasCallback then GapTo(s.cached[|s.cached| - 1].Seq(), s.latestCallback) else []
  }

  function Fresh(n: Seq16): LossSeq { LossSeq(n, false, 0) }

  /** One sweep of the insert position over the loss list. */
  function Merged(losses: seq<LossSeq>, gaps: seq<Seq16>): (r: seq<LossSeq>)
    ensures |r| >= |losses|
    decreases |losses| + |gaps|
  {
    if gaps == [] then losses
    else if losses == [] then [Fresh(gaps[0])] + Merged([], gaps[1..])
    else if gaps[0] == losses[0].seqNum then Merged(losses, gaps[1..])
    else if !IsSeqBefore(gaps[0], losses[0].seqNum) then [Fresh(gaps[0])] + Merged(losses, gaps[1..])
    else [losses[0]] + Merged(losses[1..], gaps)
  }

  /** Keeps what comes after the last delivered number. */
  function Pruned(losses: seq<LossSeq>, latest: Seq16): seq<LossSeq> {
    if losses == [] then []
    else (if IsSeqBefore(latest, losses[0].seqNum) then [losses[0]] else []) + Pruned(losses[1..], latest)
  }

  /** A 32-bit counter after `times` increments. */
  function Bumped(c: U32, times: nat): U32
    decreases times
  {
    if times == 0 then c
    else
      var before := Bumped(c, times - 1);
      if before == 0xffff_ffff then 0 else before + 1
  }

  /** The value of a 32-bit counter that counted to `n`. */
  function Counter32(n: nat): U32 {
    n % 0x1_0000_0000
  }

  lemma Counter32Next(n: nat)
    ensures Counter32(n + 1) == if Counter32(n) == 0xffff_ffff then 0 else Counter32(n) + 1
    ensures n < 0x1_0000_0000 ==> Counter32(n) == n
  {
  }

  lemma {:induction false} BumpedValue(c: U32, times: nat)
    ensures Bumped(c, times) == Counter32(c + times)
  {
    hide Counter32;
    if times > 0 {
      BumpedValue(c, times - 1);
      Counter32Next(c + times - 1);
    } else {
      Counter32Next(c);
    }
  }

  lemma {:induction false} BumpedTwice(c: U32, a: nat, b: nat)
    ensures Bumped(Bumped(c, a), b) == Bumped(c, a + b)
    decreases b
  {
    if b > 0 {
      BumpedTwice(c, a, b - 1);
    }
  }

  /** The loss list brought up to date with the cache; `cumulativeLoss` counts
      the numbers added before pruning. */
  function Supplemented(s: CacheState): CacheState
    requires s.cached != []
  {
    var merged := Merged(s.losses, AllGaps(s));
    s.(losses := if s.hasCallback then Pruned(merged, s.latestCallback) else merged,
       cumulativeLoss := Bumped(s.cumulativeLoss, |merged| - |s.losses|))
  }

  predicate Rejects(s: CacheState, n: Seq16) {
    s.hasCallback && !IsSeqAfter(s.latestCallback, n)
  }

  function AfterPut(s: CacheState, packet: RtpPacket, timeoutMs: nat): CacheState {
    var n := packet.seqNum;
    if Rejects(s, n) then s
    else
      Supplemented(
        s.(extendedHighest := HighestAfter(s, n), extendedFirst := FirstAfter(s, n),
           cached := InsertCached(s.cached, CachedPacket(packet, timeoutMs)),
           losses := EraseLoss(s.losses, n))).(hasCached := true)
  }

  // ---------- GetPackets ----------

  /** Length of the run at the old end of the cache that continues `latest`. */
  function ReadyCount(cached: seq<CachedPacket>, latest: Seq16): (n: nat)
    ensures n <= |cached|
  {
    if cached == [] then 0
    else
      var oldest := cached[|cached| - 1].Seq();
      if !IsNextSeq(latest, oldest) then 0 else 1 + ReadyCount(cached[..|cached| - 1], oldest)
  }

  function ReadyIndex(s: CacheState): nat {
    |s.cached| - if s.hasCallback then ReadyCount(s.cached, s.latestCallback) else 0
  }

  /** The first position from `k` on that is ready or timed out. */
  function DueFrom(cached: seq<CachedPacket>, ready: nat, now: nat, k: nat): (r: nat)
    requires k <= |cached|
    ensures k <= r <= |cached|
    decreases |cached| - k
  {
    if k == |cached| || k == ready || cached[k].timeoutMs <= now then k else DueFrom(cached, ready, now, k + 1)
  }

  function DueIndex(s: CacheState, now: nat): (r: nat)
    ensures r <= |s.cached|
  {
    DueFrom(s.cached, ReadyIndex(s), now, 0)
  }

  function AfterGet(s: CacheState, now: nat): CacheState {
    var k := DueIndex(s, now);
    if k == |s.cached| then s
    else s.(cached := s.cached[..k], latestCallback := s.cached[k].Seq(), hasCallback := true)
  }

  function OldestFirst(cached: seq<CachedPacket>): (r: seq<RtpPacket>)
    ensures |r| == |cached|
  {
    if cached == [] then [] else OldestFirst(cached[1..]) + [cached[0].packet]
  }

  function Delivered(s: CacheState, now: nat): seq<RtpPacket> {
    OldestFirst(s.cached[DueIndex(s, now)..])
  }

  // ---------- GetLossPacketSeqsForNack ----------

  predicate WantsNack(l: LossSeq, now: nat) {
    !l.notified || l.lastNotifyMs + NACK_INTERVAL_MS <= now
  }

  function Noted(l: LossSeq, now: nat): LossSeq {
    if WantsNack(l, now) then LossSeq(l.seqNum, true, now) else l
  }

  function AllNoted(losses: seq<LossSeq>, now: nat): (r: seq<LossSeq>)
    ensures |r| == |losses|
    ensures forall k :: 0 <= k < |r| ==> r[k] == Noted(losses[k], now)
  {
    seq(|losses|, k requires 0 <= k < |losses| => Noted(losses[k], now))
  }

  function Requests(losses: seq<LossSeq>, now: nat): seq<Seq16> {
    if losses == [] then []
    else Requests(losses[1..], now) + if WantsNack(losses[0], now) then [losses[0].seqNum] else []
  }

  function AfterNack(s: CacheState, now: nat): CacheState {
    s.(losses := AllNoted(s.losses, now))
  }

  // ---------- steps of the loops ----------

  /** The result of a walk that has passed the first `i` elements. */
  ghost function WalkAt(cached: seq<CachedPacket>, i: nat, c: CachedPacket): seq<CachedPacket>
    requires i <= |cached|
  {
    cached[..i] + InsertWalk(cached[i..], c)
  }

  lemma WalkStep(cached: seq<CachedPacket>, i: nat, c: CachedPacket)
    requires i < |cached|
    requires cached[i].Seq() != c.Seq() && !IsSeqAfter(cached[i].Seq(), c.Seq())
    ensures WalkAt(cached, i, c) == WalkAt(cached, i + 1, c)
  {
    assert cached[i..][1..] == cached[i + 1..];
  }

  ghost function EraseAt(losses: seq<LossSeq>, i: nat, n: Seq16): seq<LossSeq>
    requires i <= |losses|
  {
    losses[..i] + EraseLoss(losses[i..], n)
  }

  lemma EraseStep(losses: seq<LossSeq>, i: nat, n: Seq16)
    requires i < |losses|
    ensures EraseAt(losses, i, n) == if losses[i].seqNum == n then losses[..i] + losses[i + 1..] else EraseAt(losses, i + 1, n)
  {
    assert losses[i..][1..] == losses[i + 1..];
  }

  /** What the sweep makes of the list when the insert position is `pos` and
      `gaps` is still to be visited. */
  ghost function Sweep(losses: seq<LossSeq>, pos: nat, gaps: seq<Seq16>): seq<LossSeq>
    requires pos <= |losses|
  {
    losses[..pos] + Merged(losses[pos..], gaps)
  }

  lemma SweepDone(before: seq<LossSeq>, losses: seq<LossSeq>, pos: nat, gaps: seq<Seq16>)
    requires pos <= |losses| && Sweep(losses, pos, []) == Sweep(before, 0, gaps)
    ensures losses == Merged(before, gaps)
  {
    assert before[0..] == before;
    EmptyLeft(Merged(before, gaps));
    SplitAt(losses, pos);
  }

  lemma SweepAdvance(losses: seq<LossSeq>, pos: nat, gaps: seq<Seq16>)
    requires pos < |losses| && gaps != []
    requires gaps[0] != losses[pos].seqNum && IsSeqBefore(gaps[0], losses[pos].seqNum)
    ensures Sweep(losses, pos, gaps) == Sweep(losses, pos + 1, gaps)
  {
    assert losses[pos..][1..] == losses[pos + 1..];
  }

  lemma SweepVisit(losses: seq<LossSeq>, pos: nat, gaps: seq<Seq16>)
    requires pos <= |losses| && gaps != []
    ensures pos < |losses| && gaps[0] == losses[pos].seqNum ==>
              Sweep(losses, pos, gaps) == Sweep(losses, pos, gaps[1..])
    ensures pos == |losses| || (gaps[0] != losses[pos].seqNum && !IsSeqBefore(gaps[0], losses[pos].seqNum)) ==>
              Sweep(losses, pos, gaps) == Sweep(losses[..pos] + [Fresh(gaps[0])] + losses[pos..], pos + 1, gaps[1..])
  {
    var grown := losses[..pos] + [Fresh(gaps[0])] + losses[pos..];
    assert grown[pos + 1..] == losses[pos..];
    assert grown[..pos + 1] == losses[..pos] + [Fresh(gaps[0])];
  }

  lemma DownStep(from: int, to: int, later: seq<Seq16>)
    requires 0 <= to < from <= MAX_SEQ
    ensures Down(from, to) + later != [] && (Down(from, to) + later)[0] == from
    ensures (Down(from, to) + later)[1..] == Down(from - 1, to) + later
  {
  }

  lemma CachedGapsStep(cached: seq<CachedPacket>, i: nat)
    requires 1 <= i < |cached|
    ensures CachedGaps(cached[i - 1..]) == GapTo(cached[i - 1].Seq(), cached[i].Seq()) + CachedGaps(cached[i..])
  {
    assert cached[i - 1..][1..] == cached[i..];
  }

  lemma GapsStep(cached: seq<CachedPacket>, i: nat, later: seq<Seq16>)
    requires 1 <= i < |cached|
    ensures CachedGaps(cached[i - 1..]) + later
         == GapTo(cached[i - 1].Seq(), cached[i].Seq()) + (CachedGaps(cached[i..]) + later)
  {
    CachedGapsStep(cached, i);
    Assoc(GapTo(cached[i - 1].Seq(), cached[i].Seq()), CachedGaps(cached[i..]), later);
  }

  ghost function PruneAt(losses: seq<LossSeq>, i: nat, latest: Seq16): seq<LossSeq>
    requires i <= |losses|
  {
    losses[..i] + Pruned(losses[i..], latest)
  }

  lemma PruneStep(losses: seq<LossSeq>, i: nat, latest: Seq16)
    requires i < |losses|
    ensures PruneAt(losses, i, latest) ==
            if IsSeqBefore(latest, losses[i].seqNum) then PruneAt(losses, i + 1, latest)
            else PruneAt(losses[..i] + losses[i + 1..], i, latest)
  {
    assert losses[i..][1..] == losses[i + 1..];
    var shrunk := losses[..i] + losses[i + 1..];
    assert shrunk[..i] == losses[..i] && shrunk[i..] == losses[i + 1..];
  }

  lemma DeliverStep(cached: seq<CachedPacket>, i: nat, out: seq<RtpPacket>)
    requires i < |cached|
    ensures OldestFirst(cached[i..]) + out == OldestFirst((cached[..i] + cached[i + 1..])[i..]) + ([cached[i].packet] + out)
  {
    assert cached[i..][1..] == cached[i + 1..] == (cached[..i] + cached[i + 1..])[i..];
  }

  // ---------- the class ----------

  class RtpReceiverPacketCache {
    const maxCacheDurationMs: U16
    var cached: seq<CachedPacket>
    var losses: seq<LossSeq>
    var latestCallback: Seq16
    var hasCallback: bool
    var cumulativeLoss: U32
    var extendedHighest: U32
    var extendedFirst: U32
    var hasCached: bool

    ghost function State(): CacheState
      reads this
    {
      CacheState(cached, losses, latestCallback, hasCallback, cumulativeLoss, extendedHighest, extendedFirst, hasCached)
    }

    /** Every number added since the list had `length` entries was counted. */
    ghost predicate Counted(count: U32, length: nat)
      reads this
    {
      |losses| >= length && cumulativeLoss == Bumped(count, |losses| - length)
    }

    constructor (maxCacheDurationMs: U16)
      ensures State() == EMPTY && this.maxCacheDurationMs == maxCacheDurationMs
    {
      this.maxCacheDurationMs := maxCacheDurationMs;
      cached, losses, latestCallback, hasCallback := [], [], 0, false;
      cumulativeLoss, extendedHighest, extendedFirst, hasCached := 0, 0, 0, false;
    }

    method PutPacket(packet: RtpPacket, now: nat)
      modifies this
      ensures State() == AfterPut(old(State()), packet, maxCacheDurationMs + now)
    {
      var n := packet.seqNum;
      if hasCallback {
        if !IsSeqAfter(latestCallback, n) { return; }
      }
      ExtendHighest(n);
      Insert(CachedPacket(packet, maxCacheDurationMs + now));
      Erase(n);
      SupplementLossSeqs();
      hasCached := true;
    }

    method ExtendHighest(n: Seq16)
      modifies `extendedHighest, `extendedFirst
      ensures extendedHighest == HighestAfter(old(State()), n)
      ensures extendedFirst == FirstAfter(old(State()), n)
    {
      if hasCached {
        var numExtended := extendedHighest / SEQ_SPACE;
        var latestCachedSeq := extendedHighest % SEQ_SPACE;
        if IsSeqAfter(latestCachedSeq, n) {
          if n < latestCachedSeq {
            numExtended := (numExtended + 1) % SEQ_SPACE;
          }
          extendedHighest := numExtended * SEQ_SPACE + n;
        }
        if numExtended == 0 && n < extendedFirst {
          extendedFirst := n;
        }
      } else {
        extendedHighest := n;
        extendedFirst := extendedHighest;
      }
    }

    method Insert(c: CachedPacket)
      modifies `cached
      ensures cached == InsertCached(old(cached), c)
    {
      if cached == [] {
        cached := [c];
      } else if IsSeqAfter(c.Seq(), cached[|cached| - 1].Seq()) {
        cached := cached + [c];
      } else {
        var i := 0;
        assert cached[0..] == cached;
        while i < |cached|
          invariant 0 <= i <= |cached| && cached == old(cached)
          invariant InsertWalk(cached, c) == WalkAt(cached, i, c)
        {
          if cached[i].Seq() == c.Seq() { break; }
          if IsSeqAfter(cached[i].Seq(), c.Seq()) {
            cached := cached[..i] + [c] + cached[i..];
            return;
          }
          WalkStep(cached, i, c);
          i := i + 1;
        }
      }
    }

    method Erase(n: Seq16)
      modifies `losses
      ensures losses == EraseLoss(old(losses), n)
    {
      var i := 0;
      assert losses[0..] == losses;
      while i < |losses|
        invariant 0 <= i <= |losses| && losses == old(losses)
        invariant EraseLoss(losses, n) == EraseAt(losses, i, n)
      {
        EraseStep(losses, i, n);
        if losses[i].seqNum == n {
          losses := losses[..i] + losses[i + 1..];
          return;
        }
        i := i + 1;
      }
    }

    /** Moves the insert position to where `lossSeq` is listed or belongs. */
    method Advance(start: nat, lossSeq: Seq16, ghost gaps: seq<Seq16>) returns (pos: nat, needInsert: bool)
      requires start <= |losses| && gaps != [] && gaps[0] == lossSeq
      ensures pos <= |losses| && Sweep(losses, pos, gaps) == Sweep(losses, start, gaps)
      ensures needInsert <==> pos == |losses| || lossSeq != losses[pos].seqNum
      ensures pos < |losses| && needInsert ==> !IsSeqBefore(lossSeq, losses[pos].seqNum)
    {
      pos := start;
      needInsert := true;
      while pos < |losses|
        invariant pos <= |losses| && needInsert
        invariant Sweep(losses, pos, gaps) == Sweep(losses, start, gaps)
      {
        if lossSeq == losses[pos].seqNum {
          needInsert := false;
          break;
        }
        if !IsSeqBefore(lossSeq, losses[pos].seqNum) { break; }
        SweepAdvance(losses, pos, gaps);
        pos := pos + 1;
      }
    }

    method AddLoss(pos: nat, n: Seq16)
      requires pos <= |losses|
      modifies `losses, `cumulativeLoss
      ensures losses == old(losses[..pos] + [Fresh(n)] + losses[pos..])
      ensures cumulativeLoss == Bumped(old(cumulativeLoss), 1)
    {
      losses := losses[..pos] + [Fresh(n)] + losses[pos..];
      cumulativeLoss := if cumulativeLoss == 0xffff_ffff then 0 else cumulativeLoss + 1;
    }

    /** One of the program's three identical loops over a run of missing numbers;
        `pos` is the insert position it leaves behind, `later` what is still to
        be visited afterwards. */
    method WalkDown(start: nat, from: int, to: int, ghost later: seq<Seq16>) returns (pos: nat)
      requires start <= |losses| && from <= MAX_SEQ && 0 <= to
      modifies `losses, `cumulativeLoss
      ensures pos <= |losses|
      ensures Sweep(losses, pos, later) == Sweep(old(losses), start, Down(from, to) + later)
      ensures Counted(old(cumulativeLoss), old(|losses|))
    {
      pos := start;
      var lossSeq := from;
      while lossSeq > to
        invariant pos <= |losses|
        invariant lossSeq <= from
        invariant Sweep(losses, pos, Down(lossSeq, to) + later) == Sweep(old(losses), start, Down(from, to) + later)
        invariant Counted(old(cumulativeLoss), old(|losses|))
      {
        ghost var gaps := Down(lossSeq, to) + later;
        DownStep(lossSeq, to, later);
        var needInsert;
        pos, needInsert := Advance(pos, lossSeq, gaps);
        SweepVisit(losses, pos, gaps);
        if needInsert {
          AddLoss(pos, lossSeq);
          BumpedTwice(old(cumulativeLoss), |losses| - 1 - old(|losses|), 1);
          pos := pos + 1;
        }
        lossSeq := lossSeq - 1;
      }
      assert Down(lossSeq, to) + later == later;
    }

    method FillGap(start: nat, last: Seq16, this_: Seq16, ghost later: seq<Seq16>) returns (pos: nat)
      requires start <= |losses|
      modifies `losses, `cumulativeLoss
      ensures pos <= |losses|
      ensures Sweep(losses, pos, later) == Sweep(old(losses), start, GapSeqs(last, this_) + later)
      ensures Counted(old(cumulativeLoss), old(|losses|))
    {
      if this_ < last {
        pos := WalkDown(start, last - 1, this_, later);
      } else {
        Assoc(Down(Wrap(last - 1), 0), Down(MAX_SEQ, this_), later);
        pos := WalkDown(start, Wrap(last - 1), 0, Down(MAX_SEQ, this_) + later);
        ghost var before := |losses|;
        pos := WalkDown(pos, MAX_SEQ, this_, later);
        BumpedTwice(old(cumulativeLoss), before - old(|losses|), |losses| - before);
      }
    }

    method FillGapTo(start: nat, last: Seq16, this_: Seq16, ghost later: seq<Seq16>) returns (pos: nat)
      requires start <= |losses|
      modifies `losses, `cumulativeLoss
      ensures pos <= |losses|
      ensures Sweep(losses, pos, later) == Sweep(old(losses), start, GapTo(last, this_) + later)
      ensures Counted(old(cumulativeLoss), old(|losses|))
    {
      pos := start;
      if !IsNextSeq(this_, last) {
        pos := FillGap(start, last, this_, later);
      } else {
        EmptyLeft(later);
      }
    }

    /** Visits the gaps between neighbouring cached packets. */
    method FillCachedGaps(ghost later: seq<Seq16>) returns (pos: nat)
      requires cached != []
      modifies `losses, `cumulativeLoss
      ensures pos <= |losses|
      ensures Sweep(losses, pos, later) == Sweep(old(losses), 0, CachedGaps(cached) + later)
      ensures Counted(old(cumulativeLoss), old(|losses|))
    {
      var lastSeq := cached[0].Seq();
      pos := 0;
      var i := 1;
      assert cached[0..] == cached;
      while i < |cached|
        invariant 1 <= i <= |cached| && lastSeq == cached[i - 1].Seq()
        invariant pos <= |losses|
        invariant Sweep(losses, pos, CachedGaps(cached[i - 1..]) + later) == Sweep(old(losses), 0, CachedGaps(cached) + later)
        invariant Counted(old(cumulativeLoss), old(|losses|))
      {
        var thisSeq := cached[i].Seq();
        ghost var before := |losses|;
        GapsStep(cached, i, later);
        pos := FillGapTo(pos, lastSeq, thisSeq, CachedGaps(cached[i..]) + later);
        BumpedTwice(old(cumulativeLoss), before - old(|losses|), |losses| - before);
        lastSeq := thisSeq;
        i := i + 1;
      }
      assert CachedGaps(cached[i - 1..]) == [];
      EmptyLeft(later);
    }

    method FillAllGaps()
      requires cached != []
      modifies `losses, `cumulativeLoss
      ensures losses == Merged(old(losses), AllGaps(old(State())))
      ensures Counted(old(cumulativeLoss), old(|losses|))
    {
      hide CachedGaps, GapTo, Sweep, Merged;
      var oldest := cached[|cached| - 1].Seq();
      ghost var callbackGap := if hasCallback then GapTo(oldest, latestCallback) else [];
      EmptyRight(callbackGap);
      var pos := FillCachedGaps(callbackGap);
      if hasCallback {
        ghost var filled := |losses|;
        pos := FillGapTo(pos, oldest, latestCallback, []);
        BumpedTwice(old(cumulativeLoss), filled - old(|losses|), |losses| - filled);
      }
      SweepDone(old(losses), losses, pos, AllGaps(old(State())));
    }

    method SupplementLossSeqs()
      requires cached != []
      modifies `losses, `cumulativeLoss
      ensures State() == Supplemented(old(State()))
    {
      FillAllGaps();
      if hasCallback {
        Prune();
      }
    }

    method Prune()
      modifies `losses
      ensures losses == Pruned(old(losses), latestCallback)
    {
      var i := 0;
      assert losses[0..] == losses;
      while i < |losses|
        invariant 0 <= i <= |losses|
        invariant PruneAt(losses, i, latestCallback) == Pruned(old(losses), latestCallback)
        decreases |losses| - i
      {
        PruneStep(losses, i, latestCallback);
        if !IsSeqBefore(latestCallback, losses[i].seqNum) {
          losses := losses[..i] + losses[i + 1..];
        } else {
          i := i + 1;
        }
      }
    }

    method CountReady() returns (nbReady: nat)
      ensures nbReady == ReadyCount(cached, latestCallback)
    {
      nbReady := 0;
      var latestReadySeq := latestCallback;
      assert cached[..|cached|] == cached;
      while nbReady < |cached|
        invariant 0 <= nbReady <= |cached|
        invariant ReadyCount(cached, latestCallback) == nbReady + ReadyCount(cached[..|cached| - nbReady], latestReadySeq)
      {
        var r := |cached| - 1 - nbReady;
        if !IsNextSeq(latestReadySeq, cached[r].Seq()) { break; }
        assert cached[..r + 1][..r] == cached[..r];
        latestReadySeq := cached[r].Seq();
        nbReady := nbReady + 1;
      }
    }

    /** `packets` already holds what the caller collected; deliveries go in front. */
    method GetPackets(packets: seq<RtpPacket>, now: nat) returns (out: seq<RtpPacket>)
      modifies this
      ensures State() == AfterGet(old(State()), now)
      ensures out == Delivered(old(State()), now) + packets
    {
      hide ReadyCount, OldestFirst;
      ghost var was := State();
      var latestReady := |cached|;
      if hasCallback {
        var nbReady := CountReady();
        latestReady := latestReady - nbReady;
      }
      var i := 0;
      while i < |cached| && latestReady != i && cached[i].timeoutMs > now
        invariant 0 <= i <= |cached|
        invariant DueIndex(was, now) == DueFrom(cached, latestReady, now, i)
      {
        i := i + 1;
      }
      out := packets;
      if i < |cached| {
        latestCallback := cached[i].Seq();
        hasCallback := true;
        out := TakeFrom(i, packets);
      }
    }

    /** The tail of the delivery loop, once it has found the newest packet to deliver. */
    method TakeFrom(i: nat, packets: seq<RtpPacket>) returns (out: seq<RtpPacket>)
      requires i < |cached|
      modifies `cached
      ensures cached == old(cached)[..i]
      ensures out == OldestFirst(old(cached)[i..]) + packets
    {
      out := packets;
      while i < |cached|
        invariant i <= |cached| && cached[..i] == old(cached)[..i]
        invariant OldestFirst(cached[i..]) + out == OldestFirst(old(cached)[i..]) + packets
        decreases |cached|
      {
        DeliverStep(cached, i, out);
        out := [cached[i].packet] + out;
        cached := cached[..i] + cached[i + 1..];
      }
      assert cached[i..] == [];
    }

    method GetLossPacketSeqsForNack(requested: seq<Seq16>, now: nat) returns (out: seq<Seq16>)
      modifies `losses
      ensures State() == AfterNack(old(State()), now)
      ensures out == requested + Requests(old(losses), now)
    {
      out := requested;
      var i := |losses|;
      while i > 0
        invariant 0 <= i <= |losses| == old(|losses|)
        invariant losses[..i] == old(losses)[..i]
        invariant forall k :: i <= k < |losses| ==> losses[k] == Noted(old(losses)[k], now)
        invariant out == requested + Requests(old(losses)[i..], now)
      {
        i := i - 1;
        var l := losses[i];
        assert old(losses)[i..][1..] == old(losses)[i + 1..];
        if !l.notified {
          losses := losses[i := LossSeq(l.seqNum, true, now)];
          out := out + [l.seqNum];
        } else if l.lastNotifyMs + NACK_INTERVAL_MS <= now {
          losses := losses[i := LossSeq(l.seqNum, l.notified, now)];
          out := out + [l.seqNum];
        }
      }
      assert losses == AllNoted(old(losses), now);
    }
  }
}
