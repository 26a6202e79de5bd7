/** The whole repair: requests travel as a NACK packet, the sender retransmits from its
    cache, and the receiver rebuilds what was lost. */
module RepairLoop {
  import opened ByteIo
  import opened SeqComparison
  import opened RtpPackets
  import opened RtcpHeader
  import opened NackItems
  import opened NackPacket
  import opened SenderCache
  import opened Rtx
  import opened SenderRun

  /** A packet RTX can carry whole: nothing but a header and a payload, of a configured
      type that has an RTX type. */
  predicate Repairable(cfg: SenderConfig, p: RtpPacket) {
    && p.csrcs == [] && p.extension.None? && p.padSize == 0 && p.payload.Some? && p.payload.value != []
    && p.ssrc == cfg.localSsrc && p.PayloadType() in cfg.payloadTypes
    && var key := KeyFor(cfg.rtxTypes, p.PayloadType(), 0); key.Some? && key.value < 0x80
  }

  /** The 16-bit numbers of some packets of the history. */
  function NumbersOf(history: seq<Sent>, ks: seq<nat>): (list: seq<Seq16>)
    requires forall j :: 0 <= j < |ks| ==> ks[j] < |history|
    ensures |list| == |ks| && forall j :: 0 <= j < |ks| ==> list[j] == Wrap(history[ks[j]].n)
  {
    seq(|ks|, j requires 0 <= j < |ks| => Wrap(history[ks[j]].n))
  }

  function PacketsAt(history: seq<Sent>, ks: seq<nat>): (packets: seq<RtpPacket>)
    requires forall j :: 0 <= j < |ks| ==> ks[j] < |history|
    ensures |packets| == |ks| && forall j :: 0 <= j < |ks| ==> packets[j] == history[ks[j]].packet
  {
    seq(|ks|, j requires 0 <= j < |ks| => history[ks[j]].packet)
  }

  /** Still cached and repairable. */
  ghost predicate InReach(cfg: SenderConfig, history: seq<Sent>, range: Seq16, ks: seq<nat>) {
    forall j :: 0 <= j < |ks| ==>
      ks[j] < |history| && history[|history| - 1].n - history[ks[j]].n <= range && Repairable(cfg, history[ks[j]].packet)
  }

  lemma PlainCopy(p: RtpPacket)
    requires p.csrcs == []
    ensures Copied(p) == p
  {
    assert Copied(p).csrcs == [];
  }

  /** Everything requested that is still in reach comes out of the cache, in order. */
  lemma {:induction false} RequestsAreMet(cfg: SenderConfig, history: seq<Sent>, range: Seq16, ks: seq<nat>)
    requires SenderCache.Numbered(history) && NoAlias(history, range) && InReach(cfg, history, range, ks)
    ensures Requested(Run(history, range), NumbersOf(history, ks)) == PacketsAt(history, ks)
    decreases |ks|
  {
    hide Run, Wrap, Copied, NoAlias, SenderCache.Numbered, Found;
    if ks != [] {
      var n := |ks| - 1;
      RequestsAreMet(cfg, history, range, ks[..n]);
      WindowIsFound(history, range, ks[n]);
      PlainCopy(history[ks[n]].packet);
      assert NumbersOf(history, ks)[..n] == NumbersOf(history, ks[..n]);
      assert PacketsAt(history, ks) == PacketsAt(history, ks[..n]) + [history[ks[n]].packet];
    }
  }

  /** The receiver that goes with a sender. */
  function Peer(cfg: SenderConfig): ReceiverConfig {
    ReceiverConfig(cfg.localSsrc, cfg.rtxSsrc, cfg.payloadTypes, cfg.rtxEnabled, cfg.rtxTypes)
  }

  /** The receiver's end: what it makes of a packet's bytes. Only packets of the RTX
      stream are rebuilt. */
  function Received(cfg: SenderConfig, p: RtpPacket): Option<RtpPacket> {
    var q := Parsed(Serialized(p));
    if q.None? then None else Admitted(Peer(cfg), q.value)
  }

  /** Whatever was offered to the sender: what it sent passes the receiver unchanged, if
      and only if the RTX stream is not taken for the sender's own. */
  lemma SentPassExactly(cfg: SenderConfig, range: Seq16, packets: seq<RtpPacket>, k: nat)
    requires k < |SendAll(cfg, range, packets).1|
    ensures var p := SendAll(cfg, range, packets).1[k];
            Admitted(Peer(cfg), p) == Some(p) <==> !(cfg.rtxEnabled && cfg.localSsrc == cfg.rtxSsrc)
  {
    hide SendAll, MarkedType;
    SendAllHolds(cfg, range, packets);
  }

  lemma RepairsOne(cfg: SenderConfig, ctx: RtxContext, start: Seq16, p: RtpPacket)
    requires Repairable(cfg, p) && cfg.rtxEnabled
    ensures RtxFor(cfg, ctx, start, p).Some? && Received(cfg, RtxFor(cfg, ctx, start, p).value) == Some(p)
  {
    RtxUndone(cfg, ctx, start, cfg.localSsrc, p);
    PlainCopy(p);
    var rtx := RtxFor(cfg, ctx, start, p).value;
    assert rtx.csrcs == [];
    RoundTripExactly(rtx);
  }

  ghost predicate AllRepairable(cfg: SenderConfig, packets: seq<RtpPacket>) {
    HavePayloads(packets) && forall k :: 0 <= k < |packets| ==> Repairable(cfg, packets[k])
  }

  ghost predicate Restores(cfg: SenderConfig, out: seq<RtpPacket>, packets: seq<RtpPacket>) {
    |out| == |packets| && forall k :: 0 <= k < |packets| ==> Received(cfg, out[k]) == Some(packets[k])
  }

  lemma RestoresOneMore(cfg: SenderConfig, out: seq<RtpPacket>, packets: seq<RtpPacket>, rtx: RtpPacket)
    requires packets != [] && Restores(cfg, out, packets[..|packets| - 1])
    requires Received(cfg, rtx) == Some(packets[|packets| - 1])
    ensures Restores(cfg, out + [rtx], packets)
  {
    hide Received;
  }

  lemma {:induction false} RepairsAll(cfg: SenderConfig, ctx: RtxContext, start: Seq16, packets: seq<RtpPacket>)
    requires AllRepairable(cfg, packets) && cfg.rtxEnabled
    ensures Restores(cfg, RtxForAll(cfg, ctx, start, packets).1, packets)
  {
    if packets != [] {
      var n := |packets| - 1;
      RepairsAll(cfg, ctx, start, packets[..n]);
      var (before, out) := RtxForAll(cfg, ctx, start, packets[..n]);
      RepairsOne(cfg, before, start, packets[n]);
      RestoresOneMore(cfg, out, packets, RtxFor(cfg, before, start, packets[n]).value);
    }
  }

  lemma InReachRepairable(cfg: SenderConfig, history: seq<Sent>, range: Seq16, ks: seq<nat>)
    requires InReach(cfg, history, range, ks)
    ensures AllRepairable(cfg, PacketsAt(history, ks))
  {
  }

  /** Repair works. Take any history of sent packets whose steps stay within the number
      space, and any list of requests for packets still within the cache's distance,
      each request after the one before it. Pack the requests, print the NACK packet,
      put anything behind it, parse it, unpack it, look the packets up, retransmit them,
      serialize and parse the RTX packets: the receiver rebuilds exactly the packets
      that were sent, one for each request and in their order. */
  lemma RepairRestores(cfg: SenderConfig, history: seq<Sent>, range: Seq16, ks: seq<nat>, ctx: RtxContext, start: Seq16,
                       receiverSsrc: U32, rest: seq<byte>)
    requires SenderCache.Numbered(history) && NoAlias(history, range) && InReach(cfg, history, range, ks)
    requires cfg.rtxEnabled
    requires Circular(NumbersOf(history, ks)) && 0 < |Packed(NumbersOf(history, ks))| <= MAX_WORDS - 2
    ensures var h := ParsedHeader(NackImage(NackBlock(receiverSsrc, cfg.localSsrc, Packed(NumbersOf(history, ks)))) + rest);
            && h.Some? && ParsedNack(h.value).Some?
            && var packets := Requested(Run(history, range), Unpacked(ParsedNack(h.value).value.packed));
               && packets == PacketsAt(history, ks) && HavePayloads(packets)
               && var out := RtxForAll(cfg, ctx, start, packets).1;
                  |out| == |ks| && forall k :: 0 <= k < |ks| ==> Received(cfg, out[k]) == Some(history[ks[k]].packet)
  {
    var list := NumbersOf(history, ks);
    RequestsReadBack(receiverSsrc, cfg.localSsrc, list, rest);
    RequestsAreMet(cfg, history, range, ks);
    InReachRepairable(cfg, history, range, ks);
    RepairsAll(cfg, ctx, start, PacketsAt(history, ks));
  }
}
