/** Runs of the RTP sender: what it lets through, and what it remembers of that. */
module SenderRun {
  import opened SeqComparison
  import opened RtpPackets
  import opened SeqLemmas
  import opened SenderCache
  import opened Rtx

  const IDLE := SenderState(false, 0, [])

  /** The state after some packets were offered, and the packets that were sent. */
  function SendAll(cfg: SenderConfig, range: Seq16, packets: seq<RtpPacket>): (SenderState, seq<RtpPacket>) {
    if packets == [] then (IDLE, [])
    else
      var (s, out) := SendAll(cfg, range, packets[..|packets| - 1]);
      var p := packets[|packets| - 1];
      (AfterSend(s, cfg, range, p), if Accepts(s, cfg, p) then out + [p] else out)
  }

  predicate Remembered(cfg: SenderConfig, p: RtpPacket) {
    cfg.rtxEnabled && KeyFor(cfg.rtxTypes, p.PayloadType(), 0).Some?
  }

  function Base(out: seq<RtpPacket>): int {
    if out == [] then 0 else out[0].seqNum
  }

  /** The remembered packets of what was sent, under unwrapped numbers from `base` on. */
  function History(cfg: SenderConfig, base: int, out: seq<RtpPacket>): seq<Sent> {
    if out == [] then []
    else
      var n := |out| - 1;
      History(cfg, base, out[..n]) + if Remembered(cfg, out[n]) then [Sent(base + n, Copied(out[n]))] else []
  }

  /** What is sent belongs to one stream, is of the configured types and is numbered
      without a gap; the cache is the one that the history of remembered packets leaves. */
  predicate Sending(cfg: SenderConfig, range: Seq16, s: SenderState, out: seq<RtpPacket>) {
    && (s.hasSent <==> out != [])
    && (forall k :: 0 <= k < |out| ==> out[k].ssrc == cfg.localSsrc && out[k].PayloadType() in cfg.payloadTypes)
    && (forall k :: 0 <= k < |out| ==> out[k].seqNum == Wrap(Base(out) + k))
    && (out != [] ==> s.lastSeq == out[|out| - 1].seqNum)
    && s.cached == Run(History(cfg, Base(out), out), range)
  }

  lemma OneMoreSent(cfg: SenderConfig, range: Seq16, s: SenderState, out: seq<RtpPacket>, p: RtpPacket)
    requires Sending(cfg, range, s, out) && Accepts(s, cfg, p)
    ensures Sending(cfg, range, AfterSend(s, cfg, range, p), out + [p])
  {
    hide Run, AfterPut, KeyFor, Copied;
    var all := out + [p];
    assert all[..|out|] == out;
    if out == [] {
      WrapOfSeq(p.seqNum);
      HistoryGrows(cfg, range, Base(all), [], p);
    } else {
      WrapNext(Base(out) + |out| - 1);
      HistoryGrows(cfg, range, Base(all), out, p);
    }
  }

  lemma WrapOfSeq(n: Seq16)
    ensures Wrap(n) == n
  {
  }

  lemma HistoryGrows(cfg: SenderConfig, range: Seq16, base: int, out: seq<RtpPacket>, p: RtpPacket)
    ensures Run(History(cfg, base, out + [p]), range) ==
            if Remembered(cfg, p) then AfterPut(Run(History(cfg, base, out), range), Copied(p), range)
            else Run(History(cfg, base, out), range)
  {
    hide Run, AfterPut, KeyFor, Copied;
    assert (out + [p])[..|out|] == out;
    var before := History(cfg, base, out);
    if Remembered(cfg, p) {
      RunAppend(before, Sent(base + |out|, Copied(p)), range);
    } else {
      EmptyRight(before);
    }
  }

  lemma {:induction false} SendAllHolds(cfg: SenderConfig, range: Seq16, packets: seq<RtpPacket>)
    ensures Sending(cfg, range, SendAll(cfg, range, packets).0, SendAll(cfg, range, packets).1)
    decreases |packets|
  {
    hide Sending, Accepts, AfterSend;
    if packets == [] {
      NothingSent(cfg, range);
    } else {
      var init, p := packets[..|packets| - 1], packets[|packets| - 1];
      SendAllHolds(cfg, range, init);
      var (s, out) := SendAll(cfg, range, init);
      if Accepts(s, cfg, p) {
        OneMoreSent(cfg, range, s, out, p);
      } else {
        Ignored(cfg, range, s, p);
      }
    }
  }

  /** Packets of the sender's own stream and of its configured types. */
  predicate Own(cfg: SenderConfig, packets: seq<RtpPacket>) {
    forall k :: 0 <= k < |packets| ==> packets[k].ssrc == cfg.localSsrc && packets[k].PayloadType() in cfg.payloadTypes
  }

  /** What comes of one more packet after any others: it is sent if it belongs to the
      stream, is of a configured type and, unless nothing was sent before, has the number
      that is next after as many as were sent; otherwise nothing changes. */
  lemma SentExactly(cfg: SenderConfig, range: Seq16, packets: seq<RtpPacket>, p: RtpPacket)
    ensures var (s, out) := SendAll(cfg, range, packets);
            var (t, all) := SendAll(cfg, range, packets + [p]);
            if Own(cfg, [p]) && (out == [] || p.seqNum == Wrap(out[0].seqNum + |out|)) then all == out + [p]
            else t == s && all == out
  {
    hide Run, AfterPut, KeyFor, Copied, History;
    assert (packets + [p])[..|packets|] == packets;
    SendAllHolds(cfg, range, packets);
    var (s, out) := SendAll(cfg, range, packets);
    assert Own(cfg, [p]) <==> [p][0].ssrc == cfg.localSsrc && [p][0].PayloadType() in cfg.payloadTypes;
    if out != [] {
      WrapNext(Base(out) + |out| - 1);
    }
  }

  /** A stream numbered one after the other is sent whole, across any number of wraps. */
  lemma {:induction false} StreamIsSent(cfg: SenderConfig, range: Seq16, base: int, packets: seq<RtpPacket>)
    requires Own(cfg, packets) && forall k :: 0 <= k < |packets| ==> packets[k].seqNum == Wrap(base + k)
    ensures SendAll(cfg, range, packets).1 == packets
    decreases |packets|
  {
    hide SendAll, Wrap;
    if packets == [] {
      NothingOffered(cfg, range);
    } else {
      var n := |packets| - 1;
      StreamIsSent(cfg, range, base, packets[..n]);
      assert packets == packets[..n] + [packets[n]];
      WrapAdds(base, n);
      SentExactly(cfg, range, packets[..n], packets[n]);
    }
  }

  lemma NothingOffered(cfg: SenderConfig, range: Seq16)
    ensures SendAll(cfg, range, []) == (IDLE, [])
  {
  }

  lemma WrapAdds(base: int, k: int)
    ensures Wrap(base + k) == Wrap(Wrap(base) + k)
  {
  }

  lemma NothingSent(cfg: SenderConfig, range: Seq16)
    ensures Sending(cfg, range, IDLE, [])
  {
  }

  lemma Ignored(cfg: SenderConfig, range: Seq16, s: SenderState, p: RtpPacket)
    requires !Accepts(s, cfg, p)
    ensures AfterSend(s, cfg, range, p) == s
  {
  }

  /** The history's numbers are those of the remembered packets, in order. */
  lemma {:induction false} HistoryNumbered(cfg: SenderConfig, base: int, out: seq<RtpPacket>)
    requires forall k :: 0 <= k < |out| ==> out[k].seqNum == Wrap(base + k)
    ensures Numbered(History(cfg, base, out))
    ensures forall k :: 0 <= k < |History(cfg, base, out)| ==> History(cfg, base, out)[k].n < base + |out|
    decreases |out|
  {
    if out != [] {
      HistoryNumbered(cfg, base, out[..|out| - 1]);
    }
  }

  /** When every packet is remembered, the history has no gaps. */
  lemma {:induction false} HistoryWhole(cfg: SenderConfig, base: int, out: seq<RtpPacket>)
    requires forall k :: 0 <= k < |out| ==> Remembered(cfg, out[k])
    ensures |History(cfg, base, out)| == |out|
    ensures forall k :: 0 <= k < |out| ==> History(cfg, base, out)[k] == Sent(base + k, Copied(out[k]))
    decreases |out|
  {
    hide Remembered, Copied;
    if out != [] {
      HistoryWhole(cfg, base, out[..|out| - 1]);
    }
  }

  /** The cache holds exactly the remembered packets that lie within the configured
      distance of the newest remembered one. */
  predicate Kept(cfg: SenderConfig, range: Seq16, s: SenderState, out: seq<RtpPacket>) {
    s.cached == PacketsOf(Window(History(cfg, Base(out), out), range))
  }

  /** The sender's cache over any run. Whatever packets it is offered, it sends a stream
      without gaps, and its cache holds exactly the remembered ones of those that lie
      within the configured distance of the newest remembered one, as long as none of
      them aliases one that was still in range. */
  lemma SenderRunWindow(cfg: SenderConfig, range: Seq16, packets: seq<RtpPacket>, s: SenderState, out: seq<RtpPacket>)
    requires (s, out) == SendAll(cfg, range, packets) && NoAlias(History(cfg, Base(out), out), range)
    ensures forall k :: 0 <= k < |out| ==> out[k].seqNum == Wrap(Base(out) + k)
    ensures Kept(cfg, range, s, out)
  {
    hide Run, Window, PacketsOf, NoAlias;
    SendAllHolds(cfg, range, packets);
    HistoryNumbered(cfg, Base(out), out);
    CacheIsWindow(History(cfg, Base(out), out), range);
  }

  /** The cache is that after every packet offered. */
  ghost predicate AlwaysKept(cfg: SenderConfig, range: Seq16, packets: seq<RtpPacket>) {
    forall k :: 0 <= k <= |packets| ==> Kept(cfg, range, SendAll(cfg, range, packets[..k]).0, SendAll(cfg, range, packets[..k]).1)
  }

  lemma KeptBefore(cfg: SenderConfig, range: Seq16, init: seq<RtpPacket>, p: RtpPacket)
    ensures AlwaysKept(cfg, range, init + [p]) <==>
            AlwaysKept(cfg, range, init)
            && Kept(cfg, range, SendAll(cfg, range, init + [p]).0, SendAll(cfg, range, init + [p]).1)
  {
    hide Kept, SendAll;
    var all := init + [p];
    assert all[..|all|] == all;
    assert forall k :: 0 <= k <= |init| ==> all[..k] == init[..k];
    if AlwaysKept(cfg, range, all) {
      forall k | 0 <= k <= |init|
        ensures Kept(cfg, range, SendAll(cfg, range, init[..k]).0, SendAll(cfg, range, init[..k]).1)
      {
        assert all[..k] == init[..k];
      }
    }
  }

  /** One more packet sent adds at most one put to the history. */
  lemma HistoryStep(cfg: SenderConfig, out: seq<RtpPacket>, p: RtpPacket) returns (before: seq<Sent>, put: Sent)
    ensures before == History(cfg, Base(out), out)
    ensures History(cfg, Base(out + [p]), out + [p]) == if Remembered(cfg, p) then before + [put] else before
  {
    hide Remembered, Copied;
    before := History(cfg, Base(out), out);
    put := Sent(Base(out + [p]) + |out|, Copied(p));
    assert (out + [p])[..|out|] == out;
    EmptyRight(before);
  }

  lemma WindowStep(cfg: SenderConfig, range: Seq16, s: SenderState, out: seq<RtpPacket>, p: RtpPacket, t: SenderState)
    requires Sending(cfg, range, s, out) && Sending(cfg, range, t, out + [p])
    ensures AlwaysWindow(History(cfg, Base(out + [p]), out + [p]), range) <==>
            AlwaysWindow(History(cfg, Base(out), out), range) && Kept(cfg, range, t, out + [p])
  {
    hide Run, Window, PacketsOf, History, Remembered, AlwaysWindow, Wrap;
    var before, put := HistoryStep(cfg, out, p);
    if Remembered(cfg, p) {
      AlwaysBefore(before, put, range);
    } else {
      AlwaysNow(before, range);
    }
  }

  lemma AlwaysNow(history: seq<Sent>, range: Seq16)
    ensures AlwaysWindow(history, range) ==> Run(history, range) == PacketsOf(Window(history, range))
  {
    hide Run, Window, PacketsOf;
    assert history[..|history|] == history;
  }

  /** The exact condition: after every packet offered the cache is that window, if and
      only if no packet remembered aliases one that was still in range. */
  lemma SenderWindowExactly(cfg: SenderConfig, range: Seq16, packets: seq<RtpPacket>)
    ensures var out := SendAll(cfg, range, packets).1;
            AlwaysKept(cfg, range, packets) <==> NoAlias(History(cfg, Base(out), out), range)
  {
    hide AlwaysKept, NoAlias, Run, Window, History, AlwaysWindow, Numbered;
    KeptIsWindow(cfg, range, packets);
    SendAllHolds(cfg, range, packets);
    var out := SendAll(cfg, range, packets).1;
    HistoryNumbered(cfg, Base(out), out);
    WindowKeptExactly(History(cfg, Base(out), out), range);
  }

  lemma {:induction false} KeptIsWindow(cfg: SenderConfig, range: Seq16, packets: seq<RtpPacket>)
    ensures var out := SendAll(cfg, range, packets).1;
            AlwaysKept(cfg, range, packets) <==> AlwaysWindow(History(cfg, Base(out), out), range)
    decreases |packets|
  {
    hide AlwaysKept, Kept, Run, Window, History, AlwaysWindow, Accepts, AfterSend, Sending;
    SendAllHolds(cfg, range, packets);
    if packets == [] {
      NothingKept(cfg, range);
    } else {
      var init, p := packets[..|packets| - 1], packets[|packets| - 1];
      assert packets == init + [p];
      SendAllHolds(cfg, range, init);
      KeptIsWindow(cfg, range, init);
      KeptBefore(cfg, range, init, p);
      var (s, out) := SendAll(cfg, range, init);
      if Accepts(s, cfg, p) {
        WindowStep(cfg, range, s, out, p, SendAll(cfg, range, packets).0);
      } else {
        Ignored(cfg, range, s, p);
        KeptNow(cfg, range, s, out);
      }
    }
  }

  lemma NothingKept(cfg: SenderConfig, range: Seq16)
    ensures AlwaysKept(cfg, range, []) && AlwaysWindow(History(cfg, Base([]), []), range)
  {
  }

  lemma KeptNow(cfg: SenderConfig, range: Seq16, s: SenderState, out: seq<RtpPacket>)
    requires Sending(cfg, range, s, out)
    ensures AlwaysWindow(History(cfg, Base(out), out), range) ==> Kept(cfg, range, s, out)
  {
    hide AlwaysWindow, Run, Window, History;
    AlwaysNow(History(cfg, Base(out), out), range);
  }

  lemma WholeIsFound(cfg: SenderConfig, range: Seq16, base: int, out: seq<RtpPacket>, k: nat)
    requires forall j :: 0 <= j < |out| ==> out[j].seqNum == Wrap(base + j) && Remembered(cfg, out[j])
    requires k < |out| && |out| - 1 - k <= range
    ensures Found(Run(History(cfg, base, out), range), out[k].seqNum) == Some(Copied(out[k]))
  {
    hide Run, Found, Copied, Remembered, History, NoAlias, Numbered, Wrap;
    var history := History(cfg, base, out);
    HistoryNumbered(cfg, base, out);
    HistoryWhole(cfg, base, out);
    ConsecutiveQualifies(history, range);
    WindowIsFound(history, range, k);
  }

  /** With an RTX type for every configured type the condition always holds: every packet
      sent that is within the distance of the last is found by its number. */
  lemma EverySentIsKept(cfg: SenderConfig, range: Seq16, packets: seq<RtpPacket>, s: SenderState, out: seq<RtpPacket>, k: nat)
    requires (s, out) == SendAll(cfg, range, packets) && k < |out| && |out| - 1 - k <= range
    requires cfg.rtxEnabled && forall t :: t in cfg.payloadTypes ==> KeyFor(cfg.rtxTypes, t, 0).Some?
    ensures Found(s.cached, out[k].seqNum) == Some(Copied(out[k]))
  {
    hide Run, Found, Copied, KeyFor, History, SendAll, Wrap;
    SendAllHolds(cfg, range, packets);
    WholeIsFound(cfg, range, Base(out), out, k);
  }
}
