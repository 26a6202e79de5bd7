/** The sender's cache of packets it may be asked to retransmit. */
module SenderCache {
  import opened SeqComparison
  import opened RtpPackets
  import opened SeqLemmas

  // ---------- the cache's operations ----------

  /** How many of the oldest packets are out of range of number `n`. */
  function DropCount(cached: seq<RtpPacket>, n: Seq16, range: Seq16): (k: nat)
    ensures k <= |cached|
  {
    if cached == [] || IsSeqBeforeInRange(cached[0].seqNum, n, range) then 0 else 1 + DropCount(cached[1..], n, range)
  }

  function AfterPut(cached: seq<RtpPacket>, p: RtpPacket, range: Seq16): seq<RtpPacket> {
    cached[DropCount(cached, p.seqNum, range)..] + [p]
  }

  function Found(cached: seq<RtpPacket>, n: Seq16): Option<RtpPacket> {
    if cached == [] then None else if cached[0].seqNum == n then Some(cached[0]) else Found(cached[1..], n)
  }

  /** Copies of the requested packets that are there, in the order of the requests. */
  function Requested(cached: seq<RtpPacket>, seqs: seq<Seq16>): seq<RtpPacket> {
    if seqs == [] then []
    else
      var p := Found(cached, seqs[|seqs| - 1]);
      Requested(cached, seqs[..|seqs| - 1]) + if p.None? then [] else [Copied(p.value)]
  }

  class RtpSenderPacketCache {
    const maxDifference: Seq16
    var cached: seq<RtpPacket>

    constructor (maxDifference: Seq16)
      ensures cached == [] && this.maxDifference == maxDifference
    {
      this.maxDifference := maxDifference;
      cached := [];
    }

    method PutPacket(p: RtpPacket)
      modifies this
      ensures cached == AfterPut(old(cached), p, maxDifference)
    {
      ghost var given := cached;
      ghost var k := 0;
      while cached != []
        invariant k <= |given| && cached == given[k..]
        invariant DropCount(given, p.seqNum, maxDifference) == k + DropCount(cached, p.seqNum, maxDifference)
        decreases |cached|
      {
        if IsSeqBeforeInRange(cached[0].seqNum, p.seqNum, maxDifference) { break; }
        cached := cached[1..];
        k := k + 1;
      }
      cached := cached + [p];
    }

    method FindPacket(n: Seq16) returns (p: Option<RtpPacket>)
      ensures p == Found(cached, n)
    {
      var k := 0;
      assert cached[0..] == cached;
      while k < |cached|
        invariant k <= |cached| && Found(cached, n) == Found(cached[k..], n)
      {
        if cached[k].seqNum == n { return Some(cached[k]); }
        assert cached[k..][1..] == cached[k + 1..];
        k := k + 1;
      }
      return None;
    }

    method GetPackets(seqs: seq<Seq16>) returns (out: seq<RtpPacket>)
      ensures out == Requested(cached, seqs)
    {
      out := [];
      for k := 0 to |seqs|
        invariant out == Requested(cached, seqs[..k])
      {
        assert seqs[..k + 1][..k] == seqs[..k];
        var p := FindPacket(seqs[k]);
        EmptyRight(out);
        if p.Some? {
          out := out + [Copied(p.value)];
        }
      }
      assert seqs[..|seqs|] == seqs;
    }
  }

  // ---------- the cache as a window over the history ----------

  /** A packet and its unwrapped number. */
  datatype Sent = Sent(n: int, packet: RtpPacket)

  predicate Numbered(history: seq<Sent>) {
    && (forall a, b :: 0 <= a < b < |history| ==> history[a].n < history[b].n)
    && (forall k :: 0 <= k < |history| ==> history[k].packet.seqNum == Wrap(history[k].n))
  }

  /** A packet that far behind is out of range, but the range test takes it to be in
      range: the distance modulo a cycle is. */
  predicate Aliases(distance: int, range: Seq16) {
    distance > range && 0 < distance % SEQ_SPACE <= range
  }

  predicate NoneAlias(history: seq<Sent>, n: int, range: Seq16) {
    forall k :: 0 <= k < |history| ==> !Aliases(n - history[k].n, range)
  }

  /** No put finds a packet aliased that the put before it left in range. */
  predicate NoAlias(history: seq<Sent>, range: Seq16) {
    forall j, k :: 0 <= j < k < |history| && history[k - 1].n - history[j].n <= range ==>
      !Aliases(history[k].n - history[j].n, range)
  }

  function Run(history: seq<Sent>, range: Seq16): seq<RtpPacket> {
    if history == [] then []
    else AfterPut(Run(history[..|history| - 1], range), history[|history| - 1].packet, range)
  }

  /** How much of the history is further than `range` before `top`. */
  function OldCount(history: seq<Sent>, top: int, range: Seq16): (k: nat)
    ensures k <= |history|
  {
    if history == [] || top - history[0].n <= range then 0 else 1 + OldCount(history[1..], top, range)
  }

  function PacketsOf(history: seq<Sent>): (r: seq<RtpPacket>)
    ensures |r| == |history| && forall k :: 0 <= k < |r| ==> r[k] == history[k].packet
  {
    seq(|history|, k requires 0 <= k < |history| => history[k].packet)
  }

  /** What the history's newest number leaves in range. */
  function Window(history: seq<Sent>, range: Seq16): seq<Sent> {
    if history == [] then [] else history[OldCount(history, history[|history| - 1].n, range)..]
  }

  lemma {:induction false} OldCountSplits(history: seq<Sent>, top: int, range: Seq16)
    requires Numbered(history)
    ensures forall k :: 0 <= k < |history| ==> (k < OldCount(history, top, range) <==> top - history[k].n > range)
  {
    if history != [] {
      var rest := history[1..];
      assert forall k :: 0 <= k < |rest| ==> rest[k] == history[k + 1];
      OldCountSplits(rest, top, range);
      forall k | 0 <= k < |history| ensures k < OldCount(history, top, range) <==> top - history[k].n > range {
        if k > 0 {
          assert rest[k - 1] == history[k];
          assert history[0].n < history[k].n;
        }
      }
    }
  }

  /** Dropping by 16-bit numbers drops no more than what is old, and stops short of it
      exactly when some old packet is aliased. */
  lemma {:induction false} DropExactly(history: seq<Sent>, n: int, range: Seq16)
    requires Numbered(history) && forall k :: 0 <= k < |history| ==> history[k].n < n
    ensures DropCount(PacketsOf(history), Wrap(n), range) <= OldCount(history, n, range)
    ensures DropCount(PacketsOf(history), Wrap(n), range) == OldCount(history, n, range) <==> NoneAlias(history, n, range)
  {
    hide NoneAlias, Wrap;
    if history == [] {
      EmptyAliases(n, range);
    } else {
      var rest := history[1..];
      assert PacketsOf(history)[1..] == PacketsOf(rest);
      InRangeModulo(history[0].n, n, range);
      if n - history[0].n > range {
        TailNumbered(history, n);
        DropExactly(rest, n, range);
        SplitsAliases(history, n, range);
      } else {
        YoungAliases(history, n, range);
        SmallRemainder(n - history[0].n);
      }
    }
  }

  lemma EmptyAliases(n: int, range: Seq16)
    ensures NoneAlias([], n, range)
  {
  }

  lemma TailNumbered(history: seq<Sent>, n: int)
    requires Numbered(history) && history != [] && forall k :: 0 <= k < |history| ==> history[k].n < n
    ensures Numbered(history[1..]) && forall k :: 0 <= k < |history[1..]| ==> history[1..][k].n < n
  {
  }

  lemma YoungAliases(history: seq<Sent>, n: int, range: Seq16)
    requires Numbered(history) && history != [] && n - history[0].n <= range
    ensures NoneAlias(history, n, range)
  {
    forall k | 0 <= k < |history| ensures n - history[k].n <= range {
      assert history[0].n <= history[k].n;
    }
  }

  lemma SmallRemainder(d: int)
    requires 0 < d < SEQ_SPACE
    ensures d % SEQ_SPACE == d
  {
  }

  lemma SplitsAliases(history: seq<Sent>, n: int, range: Seq16)
    requires history != []
    ensures NoneAlias(history, n, range) <==> !Aliases(n - history[0].n, range) && NoneAlias(history[1..], n, range)
  {
    hide Aliases;
    var rest := history[1..];
    if !Aliases(n - history[0].n, range) && NoneAlias(rest, n, range) {
      forall k | 0 <= k < |history| ensures !Aliases(n - history[k].n, range) {
        if k > 0 {
          assert rest[k - 1] == history[k];
        }
      }
    }
    if NoneAlias(history, n, range) {
      forall k | 0 <= k < |rest| ensures !Aliases(n - rest[k].n, range) {
        assert rest[k] == history[k + 1];
      }
    }
  }

  /** What is old for an earlier number stays old. */
  lemma {:induction false} OldFromWindow(history: seq<Sent>, top: int, n: int, range: Seq16)
    requires Numbered(history) && top <= n
    ensures OldCount(history, top, range) <= OldCount(history, n, range)
    ensures OldCount(history, n, range) ==
            OldCount(history, top, range) + OldCount(history[OldCount(history, top, range)..], n, range)
  {
    if history != [] && top - history[0].n > range {
      var rest := history[1..];
      assert forall k :: 0 <= k < |rest| ==> rest[k] == history[k + 1];
      OldFromWindow(rest, top, n, range);
      assert history[OldCount(history, top, range)..] == rest[OldCount(rest, top, range)..];
    } else {
      assert history[0..] == history;
    }
  }

  lemma {:induction false} OldCountAppend(history: seq<Sent>, last: Sent, range: Seq16)
    ensures OldCount(history + [last], last.n, range) == OldCount(history, last.n, range)
  {
    if history == [] {
      EmptyLeft([last]);
    } else {
      assert (history + [last])[1..] == history[1..] + [last];
      OldCountAppend(history[1..], last, range);
    }
  }

  /** One put keeps the window exactly when it aliases nothing in it. */
  lemma PutKeepsExactly(before: seq<Sent>, last: Sent, k0: nat, range: Seq16)
    requires Numbered(before + [last]) && before != [] && k0 == OldCount(before, before[|before| - 1].n, range)
    ensures AfterPut(PacketsOf(before[k0..]), last.packet, range) == PacketsOf(Window(before + [last], range)) <==>
            NoneAlias(before[k0..], last.n, range)
  {
    hide Numbered, Wrap, OldCount, DropCount, NoneAlias, PacketsOf;
    var w := before[k0..];
    WindowSpan(before, last, k0, range);
    DropExactly(w, last.n, range);
    var old_ := OldCount(w, last.n, range);
    NextWindow(before, last, k0, old_, range);
    DropThenAppend(before, last, k0, old_);
    if AfterPut(PacketsOf(w), last.packet, range) == PacketsOf(w)[old_..] + [last.packet] {
      assert |PacketsOf(w)[DropCount(PacketsOf(w), Wrap(last.n), range)..]| == |PacketsOf(w)[old_..]|;
    }
  }

  lemma NextWindow(before: seq<Sent>, last: Sent, k0: nat, old_: nat, range: Seq16)
    requires Numbered(before) && before != [] && k0 == OldCount(before, before[|before| - 1].n, range)
    requires before[|before| - 1].n <= last.n && old_ == OldCount(before[k0..], last.n, range)
    ensures Window(before + [last], range) == (before + [last])[k0 + old_..]
  {
    hide OldCount, Numbered;
    OldFromWindow(before, before[|before| - 1].n, last.n, range);
    OldCountAppend(before, last, range);
  }

  /** Everything the cache holds is older than the next packet. */
  lemma WindowSpan(before: seq<Sent>, last: Sent, k0: nat, range: Seq16)
    requires Numbered(before + [last]) && before != [] && k0 == OldCount(before, before[|before| - 1].n, range)
    ensures Numbered(before) && Numbered(before[k0..]) && last.packet.seqNum == Wrap(last.n)
    ensures before[|before| - 1].n <= last.n
    ensures forall k :: 0 <= k < |before[k0..]| ==> before[k0..][k].n < last.n
  {
    NumberedPrefix(before, last);
    OldCountSplits(before, before[|before| - 1].n, range);
    var w := before[k0..];
    assert forall k :: 0 <= k < |w| ==> w[k] == before[k0 + k];
  }

  lemma DropThenAppend(before: seq<Sent>, last: Sent, k0: nat, k: nat)
    requires k0 + k <= |before|
    ensures PacketsOf(before[k0..])[k..] + [last.packet] == PacketsOf((before + [last])[k0 + k..])
  {
    assert (before + [last])[k0 + k..] == before[k0..][k..] + [last];
  }

  lemma NumberedPrefix(before: seq<Sent>, last: Sent)
    requires Numbered(before + [last])
    ensures Numbered(before) && last.packet.seqNum == Wrap(last.n)
    ensures forall k :: 0 <= k < |before| ==> before[k].n < last.n
  {
    var all := before + [last];
    assert forall k :: 0 <= k < |before| ==> all[k] == before[k];
    assert all[|before|] == last;
  }

  lemma RunAppend(before: seq<Sent>, last: Sent, range: Seq16)
    ensures Run(before + [last], range) == AfterPut(Run(before, range), last.packet, range)
  {
    assert (before + [last])[..|before|] == before;
  }

  lemma RunOne(last: Sent, range: Seq16)
    ensures Run([last], range) == PacketsOf(Window([last], range))
  {
    assert Run([last], range) == [last.packet] == PacketsOf([last]);
    assert [last][0..] == [last];
  }

  /** What the last put finds in range, and what it must not alias. */
  lemma LastPut(before: seq<Sent>, last: Sent, k0: nat, range: Seq16)
    requires Numbered(before) && before != [] && k0 == OldCount(before, before[|before| - 1].n, range)
    ensures NoAlias(before + [last], range) <==> NoAlias(before, range) && NoneAlias(before[k0..], last.n, range)
  {
    hide Aliases, OldCount, Numbered;
    OldCountSplits(before, before[|before| - 1].n, range);
    if NoAlias(before + [last], range) {
      LastAliasesNone(before, last, k0, range);
    }
    if NoAlias(before, range) && NoneAlias(before[k0..], last.n, range) {
      NoneIsAliased(before, last, k0, range);
    }
  }

  lemma LastAliasesNone(before: seq<Sent>, last: Sent, k0: nat, range: Seq16)
    requires before != [] && k0 <= |before| && NoAlias(before + [last], range)
    requires forall k :: k0 <= k < |before| ==> before[|before| - 1].n - before[k].n <= range
    ensures NoAlias(before, range) && NoneAlias(before[k0..], last.n, range)
  {
    hide Aliases;
    var all, w := before + [last], before[k0..];
    forall j, k | 0 <= j < k < |before| && before[k - 1].n - before[j].n <= range
      ensures !Aliases(before[k].n - before[j].n, range)
    {
      assert all[k] == before[k] && all[j] == before[j] && all[k - 1] == before[k - 1];
    }
    forall k | 0 <= k < |w| ensures !Aliases(last.n - w[k].n, range) {
      assert all[|before|] == last && all[k0 + k] == before[k0 + k] == w[k] && all[|before| - 1] == before[|before| - 1];
    }
  }

  lemma NoneIsAliased(before: seq<Sent>, last: Sent, k0: nat, range: Seq16)
    requires before != [] && k0 <= |before| && NoAlias(before, range) && NoneAlias(before[k0..], last.n, range)
    requires forall k :: 0 <= k < k0 ==> before[|before| - 1].n - before[k].n > range
    ensures NoAlias(before + [last], range)
  {
    hide Aliases;
    var all, w := before + [last], before[k0..];
    forall j, k | 0 <= j < k < |all| && all[k - 1].n - all[j].n <= range
      ensures !Aliases(all[k].n - all[j].n, range)
    {
      if k < |before| {
        assert all[k] == before[k] && all[j] == before[j] && all[k - 1] == before[k - 1];
      } else {
        assert all[k] == last && all[j] == before[j] && all[k - 1] == before[|before| - 1];
        assert w[j - k0] == before[j];
      }
    }
  }

  /** After any increasing puts that alias nothing in range, the cache holds exactly what
      lies within the configured distance of the newest. */
  lemma {:induction false} CacheIsWindow(history: seq<Sent>, range: Seq16)
    requires Numbered(history) && NoAlias(history, range)
    ensures Run(history, range) == PacketsOf(Window(history, range))
    decreases |history|
  {
    hide AfterPut, OldCount, NoAlias, Numbered, PacketsOf, NoneAlias;
    if history != [] {
      var before, last := history[..|history| - 1], history[|history| - 1];
      assert history == before + [last];
      if before == [] {
        RunOne(last, range);
      } else {
        var k0 := OldCount(before, before[|before| - 1].n, range);
        NumberedPrefix(before, last);
        LastPut(before, last, k0, range);
        CacheIsWindow(before, range);
        RunAppend(before, last, range);
        PutKeepsExactly(before, last, k0, range);
      }
    }
  }

  /** The cache is the window after every put of a history. */
  ghost predicate AlwaysWindow(history: seq<Sent>, range: Seq16) {
    forall k :: 0 <= k <= |history| ==> Run(history[..k], range) == PacketsOf(Window(history[..k], range))
  }

  lemma AlwaysBefore(before: seq<Sent>, last: Sent, range: Seq16)
    ensures AlwaysWindow(before + [last], range) <==>
            AlwaysWindow(before, range)
            && Run(before + [last], range) == PacketsOf(Window(before + [last], range))
  {
    hide Run, Window, PacketsOf;
    var all := before + [last];
    assert all[..|all|] == all;
    assert forall k :: 0 <= k <= |before| ==> all[..k] == before[..k];
    if AlwaysWindow(all, range) {
      forall k | 0 <= k <= |before| ensures Run(before[..k], range) == PacketsOf(Window(before[..k], range)) {
        assert all[..k] == before[..k];
      }
    }
  }

  /** The exact condition, over whole histories: the cache is the window after every put
      if and only if no put aliases a packet that was still in range. */
  lemma {:induction false} WindowKeptExactly(history: seq<Sent>, range: Seq16)
    requires Numbered(history)
    ensures AlwaysWindow(history, range) <==> NoAlias(history, range)
    decreases |history|
  {
    hide AfterPut, OldCount, NoAlias, Numbered, PacketsOf, Aliases, AlwaysWindow, Run, Window;
    if history == [] {
      NothingPut(range);
    } else {
      var before, last := history[..|history| - 1], history[|history| - 1];
      assert history == before + [last];
      NumberedPrefix(before, last);
      AlwaysBefore(before, last, range);
      WindowKeptExactly(before, range);
      if before == [] {
        EmptyLeft([last]);
        NothingPut(range);
        RunOne(last, range);
        OnePut(last, range);
      } else {
        LastKeptExactly(before, last, range);
      }
    }
  }

  lemma NothingPut(range: Seq16)
    ensures AlwaysWindow([], range) && NoAlias([], range)
  {
  }

  lemma OnePut(last: Sent, range: Seq16)
    ensures NoAlias([last], range)
  {
  }

  lemma LastKeptExactly(before: seq<Sent>, last: Sent, range: Seq16)
    requires Numbered(before + [last]) && Numbered(before) && before != []
    ensures NoAlias(before + [last], range) ==> NoAlias(before, range)
    ensures NoAlias(before, range) ==>
              (Run(before + [last], range) == PacketsOf(Window(before + [last], range)) <==> NoAlias(before + [last], range))
  {
    hide AfterPut, OldCount, NoAlias, Numbered, PacketsOf, NoneAlias, Run, Window;
    var k0 := OldCount(before, before[|before| - 1].n, range);
    LastPut(before, last, k0, range);
    if NoAlias(before, range) {
      CacheIsWindow(before, range);
      WindowFrom(before, k0, range);
      RunAppend(before, last, range);
      PutKeepsExactly(before, last, k0, range);
    }
  }

  lemma WindowFrom(before: seq<Sent>, k0: nat, range: Seq16)
    requires before != [] && k0 == OldCount(before, before[|before| - 1].n, range)
    ensures Window(before, range) == before[k0..]
  {
  }

  /** Steps that stay a range short of a cycle alias nothing. */
  lemma SmallStepsQualify(history: seq<Sent>, range: Seq16)
    requires Numbered(history)
    requires forall k :: 0 < k < |history| ==> history[k].n - history[k - 1].n <= SEQ_SPACE - range
    ensures NoAlias(history, range)
  {
    forall j, k | 0 <= j < k < |history| && history[k - 1].n - history[j].n <= range
      ensures !Aliases(history[k].n - history[j].n, range)
    {
      assert history[k].n - history[k - 1].n <= SEQ_SPACE - range;
      AliasesFar(history[k].n - history[j].n, range);
    }
  }

  lemma AliasesFar(d: int, range: Seq16)
    requires 0 < d <= SEQ_SPACE
    ensures !Aliases(d, range)
  {
  }

  /** Consecutive numbers, as the sender insists on for what it sends, always qualify. */
  lemma ConsecutiveQualifies(history: seq<Sent>, range: Seq16)
    requires Numbered(history) && forall k :: 0 < k < |history| ==> history[k].n == history[k - 1].n + 1
    ensures NoAlias(history, range)
  {
    SmallStepsQualify(history, range);
  }

  lemma WindowExactly(history: seq<Sent>, range: Seq16, k: nat)
    requires Numbered(history) && k < |history|
    ensures history[k] in Window(history, range) <==> history[|history| - 1].n - history[k].n <= range
  {
    var top := history[|history| - 1].n;
    OldCountSplits(history, top, range);
    var from := OldCount(history, top, range);
    var w := history[from..];
    if k >= from {
      assert w[k - from] == history[k];
    }
    if history[k] in w {
      var j :| 0 <= j < |w| && w[j] == history[k];
      assert history[from + j] == history[k];
    }
  }

  /** An aliased packet stays although it is out of range: number 0, then 65537. */
  lemma StepTooLarge(p: RtpPacket, q: RtpPacket, range: Seq16)
    requires p.seqNum == Wrap(0) && q.seqNum == Wrap(65537) && range > 0
    ensures AfterPut([p], q, range) == [p, q] && Aliases(65537 - 0, range)
  {
    assert [p][0..] == [p];
  }

  lemma {:induction false} FoundIn(w: seq<Sent>, k: nat)
    requires Numbered(w) && k < |w| && w[|w| - 1].n - w[0].n < SEQ_SPACE
    ensures Found(PacketsOf(w), Wrap(w[k].n)) == Some(w[k].packet)
  {
    var rest := w[1..];
    assert PacketsOf(w)[1..] == PacketsOf(rest);
    assert forall j :: 0 <= j < |rest| ==> rest[j] == w[j + 1];
    WrapInjective(w[0].n, w[k].n);
    if k > 0 {
      FoundIn(rest, k - 1);
    }
  }

  lemma InWindow(history: seq<Sent>, range: Seq16, k: nat) returns (w: seq<Sent>, j: nat)
    requires Numbered(history) && k < |history| && history[|history| - 1].n - history[k].n <= range
    ensures w == Window(history, range) && Numbered(w) && j < |w| && w[j] == history[k]
    ensures w[|w| - 1].n - w[0].n <= range
  {
    hide Wrap, OldCount;
    var top := history[|history| - 1].n;
    OldCountSplits(history, top, range);
    var from := OldCount(history, top, range);
    w, j := history[from..], k - from;
    assert forall i :: 0 <= i < |w| ==> w[i] == history[from + i];
  }

  /** Every packet in the window is found by its 16-bit number. */
  lemma WindowIsFound(history: seq<Sent>, range: Seq16, k: nat)
    requires Numbered(history) && NoAlias(history, range) && k < |history|
    requires history[|history| - 1].n - history[k].n <= range
    ensures Found(Run(history, range), Wrap(history[k].n)) == Some(history[k].packet)
  {
    hide Run, Found, Window, NoAlias, Wrap, PacketsOf, Numbered;
    CacheIsWindow(history, range);
    var w, j := InWindow(history, range, k);
    FoundIn(w, j);
  }
}
