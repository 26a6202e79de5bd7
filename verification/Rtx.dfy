/** Retransmission (section 4 of RFC 4588): what the sender accepts and remembers, the
    RTX packet it builds for a request, and what the receiver rebuilds from it. */
module Rtx {
  import opened ByteIo
  import opened SeqComparison
  import opened RtpPackets
  import opened SeqLemmas
  import opened SenderCache

  /** RTX payload types and the payload types they stand for. */
  type TypeMap = map<byte, byte>

  datatype SenderConfig = SenderConfig(localSsrc: U32, rtxSsrc: U32, payloadTypes: seq<byte>, rtxEnabled: bool, rtxTypes: TypeMap)

  /** Number of the last RTX packet, or before the first one the random start. */
  datatype RtxContext = RtxContext(hasSent: bool, lastSeq: Seq16)

  /** The least key from `k` on that maps to `payloadType`: the first in map order. */
  function KeyFor(types: TypeMap, payloadType: byte, k: nat): (r: Option<byte>)
    requires k <= 0x100
    ensures r.Some? ==> r.value in types && types[r.value] == payloadType
    ensures r.Some? ==> forall j: byte :: k <= j < r.value && j in types ==> types[j] != payloadType
    ensures r.None? ==> forall j: byte :: k <= j && j in types ==> types[j] != payloadType
    decreases 0x100 - k
  {
    if k == 0x100 then None
    else if k in types && types[k] == payloadType then Some(k)
    else KeyFor(types, payloadType, k + 1)
  }

  function MarkedType(p: RtpPacket, payloadType: byte): byte {
    Or(if p.Marker() == 1 then 0x80 else 0, payloadType)
  }

  function NextRtxSeq(ctx: RtxContext, start: Seq16): Seq16 {
    Wrap((if ctx.hasSent then ctx.lastSeq else start) + 1)
  }

  /** The RTX packet for `p`; `start` is the random number drawn before the first one. */
  function RtxFor(cfg: SenderConfig, ctx: RtxContext, start: Seq16, p: RtpPacket): Option<RtpPacket>
    requires p.payload.Some?
  {
    var key := KeyFor(cfg.rtxTypes, p.PayloadType(), 0);
    if key.None? then None
    else
      Some(RtpPacket(MarkedType(p, key.value), NextRtxSeq(ctx, start), p.timestamp, cfg.rtxSsrc, Copied(p).csrcs,
                     p.extension, Some(Image16(p.seqNum) + p.payload.value), p.padSize))
  }

  /** What the receiver makes of an RTX packet. */
  function Rebuilt(types: TypeMap, remoteSsrc: U32, rtx: RtpPacket): Option<RtpPacket> {
    if rtx.PayloadType() !in types || rtx.payload.None? || |rtx.payload.value| <= 2 then None
    else
      Some(RtpPacket(MarkedType(rtx, types[rtx.PayloadType()]), Value16(rtx.payload.value[..2]), rtx.timestamp, remoteSsrc,
                     Copied(rtx).csrcs, rtx.extension, Some(rtx.payload.value[2..]), 0))
  }

  method ReconstructRtpFromRtx(types: TypeMap, remoteSsrc: U32, rtx: RtpPacket) returns (p: Option<RtpPacket>)
    ensures p == Rebuilt(types, remoteSsrc, rtx)
  {
    if rtx.PayloadType() !in types { return None; }
    var payloadType := types[rtx.PayloadType()];
    if rtx.payload.None? { return None; }
    var buffer := rtx.payload.value;
    if |buffer| <= 2 { return None; }
    var seqNum := Read16(buffer, 0);
    var marked := Or(if rtx.Marker() == 1 then 0x80 else 0, payloadType);
    var csrcs := CopyCsrcs(rtx);
    return Some(RtpPacket(marked, seqNum, rtx.timestamp, remoteSsrc, csrcs, rtx.extension, Some(buffer[2..]), 0));
  }

  datatype ReceiverConfig = ReceiverConfig(remoteSsrc: U32, rtxSsrc: U32, payloadTypes: seq<byte>, rtxEnabled: bool, rtxTypes: TypeMap)

  /** What a received packet comes to: packets of the RTX stream are rebuilt first; then
      only packets of the remote stream and of a configured type pass. */
  function Admitted(cfg: ReceiverConfig, p: RtpPacket): Option<RtpPacket> {
    var q := if cfg.rtxEnabled && p.ssrc == cfg.rtxSsrc then Rebuilt(cfg.rtxTypes, cfg.remoteSsrc, p) else Some(p);
    if q.Some? && q.value.ssrc == cfg.remoteSsrc && q.value.PayloadType() in cfg.payloadTypes then q else None
  }

  /** The part of OnRtpPacket before the jitter buffer. */
  method OnRtpPacket(cfg: ReceiverConfig, packet: RtpPacket) returns (admitted: Option<RtpPacket>)
    ensures admitted == Admitted(cfg, packet)
    ensures admitted.Some? ==>
              admitted.value.ssrc == cfg.remoteSsrc && admitted.value.PayloadType() in cfg.payloadTypes
    ensures (cfg.rtxEnabled ==> packet.ssrc != cfg.rtxSsrc) ==>
              (admitted.Some? <==> packet.ssrc == cfg.remoteSsrc && packet.PayloadType() in cfg.payloadTypes)
              && (admitted.Some? ==> admitted.value == packet)
  {
    var p := packet;
    if cfg.rtxEnabled {
      if p.ssrc == cfg.rtxSsrc {
        var rebuilt := ReconstructRtpFromRtx(cfg.rtxTypes, cfg.remoteSsrc, p);
        if rebuilt.None? { return None; }
        p := rebuilt.value;
      }
    }
    if p.ssrc != cfg.remoteSsrc { return None; }
    if p.PayloadType() !in cfg.payloadTypes { return None; }
    return Some(p);
  }

  /** Each CSRC passes through one octet, and so does their count. */
  method CopyCsrcs(p: RtpPacket) returns (csrcs: seq<U32>)
    ensures csrcs == Copied(p).csrcs
  {
    csrcs := [];
    for i := 0 to |p.csrcs| % 0x100
      invariant |csrcs| == i && forall k :: 0 <= k < i ==> csrcs[k] == p.csrcs[k] % 0x100
    {
      csrcs := csrcs + [p.csrcs[i] % 0x100];
    }
  }

  /** The original number, then the original payload. */
  method RtxPayload(seqNum: Seq16, payload: seq<byte>) returns (bytes: seq<byte>)
    ensures bytes == Image16(seqNum) + payload
  {
    var buffer := new byte[|payload| + 2](_ => 0);
    Write16(buffer, 0, seqNum);
    CopyInto(buffer, 2, payload);
    return buffer[..];
  }

  // ---------- the sender ----------

  datatype SenderState = SenderState(hasSent: bool, lastSeq: Seq16, cached: seq<RtpPacket>)

  predicate Accepts(s: SenderState, cfg: SenderConfig, p: RtpPacket) {
    && p.ssrc == cfg.localSsrc && p.PayloadType() in cfg.payloadTypes
    && (s.hasSent ==> p.seqNum == Wrap(s.lastSeq + 1))
  }

  function AfterSend(s: SenderState, cfg: SenderConfig, range: Seq16, p: RtpPacket): SenderState {
    if !Accepts(s, cfg, p) then s
    else
      SenderState(true, p.seqNum,
                  if cfg.rtxEnabled && KeyFor(cfg.rtxTypes, p.PayloadType(), 0).Some? then AfterPut(s.cached, Copied(p), range)
                  else s.cached)
  }

  function RtxContextAfter(ctx: RtxContext, rtx: Option<RtpPacket>): RtxContext {
    if rtx.None? then ctx else RtxContext(true, rtx.value.seqNum)
  }

  predicate HavePayloads(packets: seq<RtpPacket>) {
    forall k :: 0 <= k < |packets| ==> packets[k].payload.Some?
  }

  /** An RTX packet for `p` belongs to the RTX stream, carries the original number in
      front of the original payload, and is otherwise the packet, marker and padding
      included. */
  predicate Retransmits(cfg: SenderConfig, p: RtpPacket, rtx: RtpPacket)
    requires p.payload.Some?
  {
    && rtx.ssrc == cfg.rtxSsrc && rtx.timestamp == p.timestamp && rtx.extension == p.extension
    && rtx.padSize == p.padSize && rtx.csrcs == Copied(p).csrcs
    && rtx.payload == Some(Image16(p.seqNum) + p.payload.value)
    && exists key: byte :: FirstKey(cfg.rtxTypes, p.PayloadType(), key) && rtx.octet == MarkedType(p, key)
  }

  /** The first entry, in map order, for a payload type. */
  predicate FirstKey(types: TypeMap, payloadType: byte, key: byte) {
    && key in types && types[key] == payloadType
    && forall j: byte :: j < key && j in types ==> types[j] != payloadType
  }

  predicate AllRetransmit(cfg: SenderConfig, packets: seq<RtpPacket>, out: seq<RtpPacket>) {
    forall k :: 0 <= k < |out| ==> exists j :: 0 <= j < |packets| && packets[j].payload.Some? && Retransmits(cfg, packets[j], out[k])
  }

  /** RTX packets for a list of packets, and the context after the last. */
  function RtxForAll(cfg: SenderConfig, ctx: RtxContext, start: Seq16, packets: seq<RtpPacket>): (RtxContext, seq<RtpPacket>)
    requires HavePayloads(packets)
  {
    if packets == [] then (ctx, [])
    else
      var (before, out) := RtxForAll(cfg, ctx, start, packets[..|packets| - 1]);
      var rtx := RtxFor(cfg, before, start, packets[|packets| - 1]);
      (RtxContextAfter(before, rtx), out + if rtx.None? then [] else [rtx.value])
  }

  lemma RtxForRetransmits(cfg: SenderConfig, ctx: RtxContext, start: Seq16, p: RtpPacket)
    requires p.payload.Some?
    ensures var rtx := RtxFor(cfg, ctx, start, p);
            && (rtx.Some? ==> Retransmits(cfg, p, rtx.value))
            && (rtx.None? <==> forall key: byte :: key in cfg.rtxTypes ==> cfg.rtxTypes[key] != p.PayloadType())
  {
    hide Image16, Copied;
    var key := KeyFor(cfg.rtxTypes, p.PayloadType(), 0);
    assert key.Some? ==> FirstKey(cfg.rtxTypes, p.PayloadType(), key.value);
  }

  lemma {:induction false} RtxForAllRetransmits(cfg: SenderConfig, ctx: RtxContext, start: Seq16, packets: seq<RtpPacket>)
    requires HavePayloads(packets)
    ensures AllRetransmit(cfg, packets, RtxForAll(cfg, ctx, start, packets).1)
  {
    hide Retransmits, RtxFor;
    if packets != [] {
      var n := |packets| - 1;
      RtxForAllRetransmits(cfg, ctx, start, packets[..n]);
      var (before, out) := RtxForAll(cfg, ctx, start, packets[..n]);
      RtxForRetransmits(cfg, before, start, packets[n]);
    }
  }

  class RtpSender {
    const cfg: SenderConfig
    const cache: RtpSenderPacketCache
    var hasSent: bool
    var lastSeq: Seq16
    var rtxContext: RtxContext

    ghost function State(): SenderState
      reads this, cache
    {
      SenderState(hasSent, lastSeq, cache.cached)
    }

    constructor (cfg: SenderConfig, maxDifference: Seq16)
      ensures State() == SenderState(false, 0, []) && rtxContext == RtxContext(false, 0)
      ensures this.cfg == cfg && cache.maxDifference == maxDifference && fresh(cache)
    {
      this.cfg := cfg;
      cache := new RtpSenderPacketCache(maxDifference);
      hasSent, lastSeq, rtxContext := false, 0, RtxContext(false, 0);
    }

    /** Sends only the next packet of its own stream, and remembers it for RTX when its
        payload type has an RTX type. */
    method SendRtp(p: RtpPacket) returns (sent: bool)
      modifies this, cache
      ensures sent <==> Accepts(old(State()), cfg, p)
      ensures State() == AfterSend(old(State()), cfg, cache.maxDifference, p) && rtxContext == old(rtxContext)
    {
      if cfg.localSsrc != p.ssrc { return false; }
      if p.PayloadType() !in cfg.payloadTypes { return false; }
      if hasSent && p.seqNum != (if lastSeq == MAX_SEQ then 0 else lastSeq + 1) { return false; }
      if cfg.rtxEnabled {
        if KeyFor(cfg.rtxTypes, p.PayloadType(), 0).Some? {
          cache.PutPacket(Copied(p));
        }
      }
      lastSeq := p.seqNum;
      hasSent := true;
      return true;
    }

    /** `start` is the random number drawn when nothing was retransmitted yet. */
    method ConstructRtx(p: RtpPacket, start: Seq16) returns (rtx: Option<RtpPacket>)
      requires p.payload.Some?
      modifies `rtxContext
      ensures rtx == RtxFor(cfg, old(rtxContext), start, p) && rtxContext == RtxContextAfter(old(rtxContext), rtx)
      ensures rtx.Some? ==> Retransmits(cfg, p, rtx.value)
    {
      var key := KeyFor(cfg.rtxTypes, p.PayloadType(), 0);
      hide Retransmits;
      if key.None? { return None; }
      var marked := Or(if p.Marker() == 1 then 0x80 else 0, key.value);
      var csrcs := CopyCsrcs(p);
      var payload := RtxPayload(p.seqNum, p.payload.value);
      if !rtxContext.hasSent { rtxContext := RtxContext(false, start); }
      var rtxSeq: Seq16 := if rtxContext.lastSeq == MAX_SEQ then 0 else rtxContext.lastSeq + 1;
      rtx := Some(RtpPacket(marked, rtxSeq, p.timestamp, cfg.rtxSsrc, csrcs, p.extension, Some(payload), p.padSize));
      rtxContext := RtxContext(true, rtxSeq);
      RtxForRetransmits(cfg, old(rtxContext), start, p);
    }

    /** Retransmits what is cached of the requested numbers. A cached packet without a
        payload object is something the program cannot retransmit. */
    method SendRtx(seqs: seq<Seq16>, start: Seq16) returns (out: seq<RtpPacket>)
      requires HavePayloads(Requested(cache.cached, seqs))
      modifies `rtxContext
      ensures !cfg.rtxEnabled ==> out == [] && rtxContext == old(rtxContext)
      ensures cfg.rtxEnabled ==> (rtxContext, out) == RtxForAll(cfg, old(rtxContext), start, Requested(cache.cached, seqs))
      ensures AllRetransmit(cfg, Requested(cache.cached, seqs), out)
    {
      hide RtxFor, Retransmits;
      out := [];
      if !cfg.rtxEnabled { return; }
      if seqs == [] { return; }
      var packets := cache.GetPackets(seqs);
      for k := 0 to |packets|
        invariant (rtxContext, out) == RtxForAll(cfg, old(rtxContext), start, packets[..k])
      {
        assert packets[..k + 1][..k] == packets[..k];
        var rtx := ConstructRtx(packets[k], start);
        EmptyRight(out);
        if rtx.Some? { out := out + [rtx.value]; }
      }
      assert packets[..|packets|] == packets;
      RtxForAllRetransmits(cfg, old(rtxContext), start, packets);
    }
  }

  // ---------- RTX undoes itself ----------

  lemma MarkKept(mark: bool, payloadType: byte)
    requires payloadType < 0x80
    ensures Or(if mark then 0x80 else 0, payloadType) == (if mark then 0x80 else 0) + payloadType
  {
    assert Pow2(7) == 0x80 && Pow2(8) == 0x100;
    OrDisjoint(if mark then 1 else 0, payloadType, 7, 8);
  }

  /** Whatever the map, as long as the RTX type it yields fits the seven bits of a
      payload type and there is a payload: the receiver gets back the number, type,
      marker, timestamp, extension and payload that were sent. CSRCs come back through
      one octet each, and padding is dropped. */
  lemma RtxUndone(cfg: SenderConfig, ctx: RtxContext, start: Seq16, remoteSsrc: U32, p: RtpPacket)
    requires p.payload.Some? && p.payload.value != []
    requires var key := KeyFor(cfg.rtxTypes, p.PayloadType(), 0); key.Some? && key.value < 0x80
    ensures var rtx := RtxFor(cfg, ctx, start, p);
            rtx.Some? && Rebuilt(cfg.rtxTypes, remoteSsrc, rtx.value) ==
                         Some(Copied(p).(ssrc := remoteSsrc, padSize := 0))
  {
    var key := KeyFor(cfg.rtxTypes, p.PayloadType(), 0).value;
    var rtx := RtxFor(cfg, ctx, start, p).value;
    MarkCarried(p, rtx, key);
    PayloadCarried(p.seqNum, p.payload.value);
    CopiedTwice(p);
    assert Copied(rtx).csrcs == Copied(Copied(p)).csrcs;
  }

  /** Marker and type go over and come back. */
  lemma MarkCarried(p: RtpPacket, rtx: RtpPacket, key: byte)
    requires rtx.octet == MarkedType(p, key) && key < 0x80
    ensures rtx.PayloadType() == key && MarkedType(rtx, p.PayloadType()) == p.octet
  {
    var mark := p.Marker() == 1;
    OctetParts(p.octet, mark, p.PayloadType());
    MarkKept(mark, key);
    OctetParts(rtx.octet, mark, key);
    MarkKept(mark, p.PayloadType());
  }

  /** Marker bit and type of an octet. */
  lemma OctetParts(octet: byte, mark: bool, payloadType: byte)
    requires payloadType < 0x80
    ensures octet == (if mark then 0x80 else 0) + payloadType <==>
            (octet / 0x80 == if mark then 1 else 0) && octet % 0x80 == payloadType
  {
  }

  lemma PayloadCarried(seqNum: Seq16, payload: seq<byte>)
    ensures var bytes := Image16(seqNum) + payload; Value16(bytes[..2]) == seqNum && bytes[2..] == payload
  {
    RoundTrip16(seqNum);
    assert (Image16(seqNum) + payload)[..2] == Image16(seqNum);
  }

  lemma CopiedTwice(p: RtpPacket)
    ensures Copied(Copied(p)) == Copied(p)
  {
    assert Copied(Copied(p)).csrcs == Copied(p).csrcs;
  }

  /** Without a payload there is nothing to give back: the receiver refuses. */
  lemma EmptyRtxRefused(cfg: SenderConfig, ctx: RtxContext, start: Seq16, remoteSsrc: U32, p: RtpPacket)
    requires p.payload == Some([]) && KeyFor(cfg.rtxTypes, p.PayloadType(), 0).Some?
    ensures Rebuilt(cfg.rtxTypes, remoteSsrc, RtxFor(cfg, ctx, start, p).value).None?
  {
  }

  /** RTX packets numbered from `base + 1` on, and the context they leave. */
  predicate NumberedFrom(base: int, ctx: RtxContext, out: seq<RtpPacket>, after: RtxContext) {
    && (forall k :: 0 <= k < |out| ==> out[k].seqNum == Wrap(base + 1 + k))
    && after == if out == [] then ctx else RtxContext(true, Wrap(base + |out|))
  }

  lemma OneMoreNumber(base: int, ctx: RtxContext, start: Seq16, out: seq<RtpPacket>, before: RtxContext, rtx: RtpPacket)
    requires NumberedFrom(base, ctx, out, before) && base == (if ctx.hasSent then ctx.lastSeq else start)
    requires rtx.seqNum == NextRtxSeq(before, start)
    ensures NumberedFrom(base, ctx, out + [rtx], RtxContext(true, rtx.seqNum))
  {
    WrapNext(base + |out|);
  }

  /** RTX packets are numbered one after the other across all requests. */
  lemma {:induction false} RtxNumbers(cfg: SenderConfig, ctx: RtxContext, start: Seq16, packets: seq<RtpPacket>)
    requires HavePayloads(packets)
    ensures var (after, out) := RtxForAll(cfg, ctx, start, packets);
            NumberedFrom(if ctx.hasSent then ctx.lastSeq else start, ctx, out, after)
  {
    if packets != [] {
      var n := |packets| - 1;
      RtxNumbers(cfg, ctx, start, packets[..n]);
      var (before, out) := RtxForAll(cfg, ctx, start, packets[..n]);
      var rtx := RtxFor(cfg, before, start, packets[n]);
      EmptyRight(out);
      if rtx.Some? {
        OneMoreNumber(if ctx.hasSent then ctx.lastSeq else start, ctx, start, out, before, rtx.value);
      }
    }
  }

  lemma WrapNext(x: int)
    ensures Wrap(Wrap(x) + 1) == Wrap(x + 1)
  {
  }
}
