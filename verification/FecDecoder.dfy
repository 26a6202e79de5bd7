/** The ULP FEC decoder: a cache of packets in sequence order that survives from
    call to call, with each FEC packet's record of which members it has seen.

    A pointer to a cached packet is the identity `id` the packet got when it was
    cached. As in `ReceiverCache`, functions describe the operations and the class
    computes the same with the program's loops. */
module FecDecoder {
  import opened ByteIo
  import opened SeqComparison
  import opened RtpPackets
  import opened FecXor
  import opened FecCodec

  /** `maxDifference` is the configured cache range. */
  datatype Config = Config(maxDifference: Seq16, ssrc: U32, fecType: byte)

  datatype MapEntry = MapEntry(key: Seq16, received: bool)

  datatype CachedPacket = CachedPacket(
    id: nat, packet: RtpPacket, buffer: Buffer, isFec: bool,
    members: seq<MapEntry>, media: seq<nat>, invalidFec: bool)
  {
    function Seq(): Seq16 { packet.seqNum }
  }

  datatype DecoderState = DecoderState(cached: seq<CachedPacket>, hasOutput: bool, lastOutput: Seq16, nextId: nat)

  const EMPTY := DecoderState([], false, 0, 0)

  // ---------- DecodeFecInfo ----------

  /** An ordered map's emplace: nothing happens when the key is there. */
  function Emplaced(members: seq<MapEntry>, key: Seq16): seq<MapEntry> {
    if members == [] || key < members[0].key then [MapEntry(key, false)] + members
    else if key == members[0].key then members
    else [members[0]] + Emplaced(members[1..], key)
  }

  function EmplacedAll(members: seq<MapEntry>, keys: seq<Seq16>): seq<MapEntry>
    decreases keys
  {
    if keys == [] then members else EmplacedAll(Emplaced(members, keys[0]), keys[1..])
  }

  function FecPart(buffer: Buffer): seq<byte> {
    if |buffer| < RTP_HEADER then [] else buffer[RTP_HEADER..]
  }

  /** The members a FEC packet's mask names; a payload too short for its mask is
      taken to name none. */
  function ProtectedMembers(buffer: Buffer): seq<MapEntry> {
    if Readable(FecPart(buffer)) then EmplacedAll([], ProtectedSeqs(FecPart(buffer))) else []
  }

  function NewCached(cfg: Config, id: nat, packet: RtpPacket, buffer: Buffer): CachedPacket {
    var isFec := packet.PayloadType() == cfg.fecType;
    CachedPacket(id, packet, buffer, isFec, if isFec then ProtectedMembers(buffer) else [], [], false)
  }

  // ---------- CachePackets ----------

  /** Inserts before the first cached packet that comes after; a number that is
      already cached is left alone. */
  function Placed(cached: seq<CachedPacket>, c: CachedPacket): seq<CachedPacket> {
    if cached == [] then [c]
    else if cached[0].Seq() == c.Seq() then cached
    else if IsSeqBefore(c.Seq(), cached[0].Seq()) then [c] + cached
    else [cached[0]] + Placed(cached[1..], c)
  }

  /** Does that walk insert? */
  predicate Places(cached: seq<CachedPacket>, n: Seq16) {
    cached == [] ||
    (cached[0].Seq() != n && (IsSeqBefore(n, cached[0].Seq()) || Places(cached[1..], n)))
  }

  function CacheOne(s: DecoderState, cfg: Config, packet: RtpPacket): DecoderState {
    if packet.ssrc != cfg.ssrc then s
    else if s.hasOutput && IsSeqBefore(packet.seqNum, s.lastOutput) then s
    else if !Places(s.cached, packet.seqNum) then s
    else
      s.(cached := Placed(s.cached, NewCached(cfg, s.nextId, packet, Serialized(packet))), nextId := s.nextId + 1)
  }

  function CacheAll(s: DecoderState, cfg: Config, received: seq<RtpPacket>): DecoderState {
    if received == [] then s
    else CacheOne(CacheAll(s, cfg, received[..|received| - 1]), cfg, received[|received| - 1])
  }

  // ---------- FecRecoverPacket ----------

  function IndexOfId(cached: seq<CachedPacket>, id: nat): (r: Option<nat>)
    ensures r.Some? ==> r.value < |cached| && cached[r.value].id == id
  {
    if cached == [] then None
    else if cached[0].id == id then Some(0)
    else
      var r := IndexOfId(cached[1..], id);
      if r.None? then None else Some(r.value + 1)
  }

  /** A pointer whose packet has been erased. */
  predicate Dangling(cached: seq<CachedPacket>, id: nat) {
    IndexOfId(cached, id).None?
  }

  predicate SomeDangling(cached: seq<CachedPacket>, media: seq<nat>) {
    exists a :: 0 <= a < |media| && Dangling(cached, media[a])
  }

  function PointedTo(cached: seq<CachedPacket>, id: nat): (c: CachedPacket)
    requires !Dangling(cached, id)
    ensures c in cached && c.id == id
  {
    cached[IndexOfId(cached, id).value]
  }

  /** The buffers behind a list of pointers. */
  function MediaBuffers(cached: seq<CachedPacket>, media: seq<nat>): (r: seq<Buffer>)
    requires forall k :: 0 <= k < |media| ==> !Dangling(cached, media[k])
    ensures |r| == |media|
    ensures forall k :: 0 <= k < |r| ==> r[k] == PointedTo(cached, media[k]).buffer
  {
    seq(|media|, k requires 0 <= k < |media| => PointedTo(cached, media[k]).buffer)
  }

  /** `None` when recovery is refused or what it yields is not a packet with a
      payload. A payload shorter than it declares is taken to be refused. */
  function FecRecovered(cfg: Config, id: nat, fecBuffer: Buffer, lost: Seq16, others: seq<Buffer>): Option<CachedPacket> {
    var payload := FecPart(fecBuffer);
    if !Readable(payload) || RecoveryRefused(payload) || !Recoverable(payload) then None
    else
      var buffer := RecoveredBuffer(payload, others, lost, cfg.ssrc);
      var packet := Parsed(buffer);
      if packet.None? || packet.value.payload.None? then None
      else Some(NewCached(cfg, id, packet.value, buffer))
  }

  /** Something is recovered only from a payload that protects something, and as much as
      it declares. */
  lemma RecoversDeclared(cfg: Config, id: nat, fecBuffer: Buffer, lost: Seq16, others: seq<Buffer>)
    requires FecRecovered(cfg, id, fecBuffer, lost, others).Some?
    ensures |fecBuffer| >= 26
    ensures var present := |fecBuffer| - (if fecBuffer[12] / 0x40 % 2 == 1 then 30 else 26);
            present > 0 && Value16(fecBuffer[22..24]) == present
  {
    hide RecoveredBuffer, Parsed;
    var payload := FecPart(fecBuffer);
    assert payload == fecBuffer[12..];
    assert payload[10..12] == fecBuffer[22..24];
  }

  // ---------- RcoverPackets ----------

  datatype Verdict = Complete | Stale | Beyond

  datatype Scan = Scan(members: seq<MapEntry>, media: seq<nat>, missing: seq<Seq16>, verdict: Verdict)

  function FindSeq(cached: seq<CachedPacket>, n: Seq16): (r: Option<nat>)
    ensures r.Some? ==> r.value < |cached| && cached[r.value].Seq() == n
    ensures r.None? ==> forall k :: 0 <= k < |cached| ==> cached[k].Seq() != n
  {
    if cached == [] then None
    else if cached[0].Seq() == n then Some(0)
    else
      var r := FindSeq(cached[1..], n);
      if r.None? then None else Some(r.value + 1)
  }

  /** The walk over a group's members from position `j` on. */
  function Scanned(s: DecoderState, lastSeq: Seq16, scan: Scan, j: nat): Scan
    requires j <= |scan.members|
    decreases |scan.members| - j
  {
    if j == |scan.members| then scan
    else
      var m := scan.members[j];
      if s.hasOutput && !IsSeqAfter(s.lastOutput, m.key) then scan.(verdict := Stale)
      else if IsSeqAfter(lastSeq, m.key) then scan.(verdict := Beyond)
      else if m.received then Scanned(s, lastSeq, scan, j + 1)
      else
        var k := FindSeq(s.cached, m.key);
        if k.Some? then
          Scanned(s, lastSeq, scan.(members := scan.members[j := MapEntry(m.key, true)],
                                    media := scan.media + [s.cached[k.value].id]), j + 1)
        else Scanned(s, lastSeq, scan.(missing := scan.missing + [m.key]), j + 1)
  }

  function ScanOf(s: DecoderState, lastSeq: Seq16, c: CachedPacket): Scan {
    Scanned(s, lastSeq, Scan(c.members, c.media, [], Complete), 0)
  }

  function Noted(c: CachedPacket, scan: Scan): CachedPacket {
    c.(members := scan.members, media := scan.media, invalidFec := c.invalidFec || scan.verdict.Stale?)
  }

  /** Would recovery of `lost` be attempted after a complete scan? */
  predicate Attempts(s: DecoderState, scan: Scan)
    requires s.cached != []
  {
    && scan.verdict.Complete? && |scan.missing| == 1
    && !IsSeqBefore(scan.missing[0], s.lastOutput)
    && !IsSeqAfter(s.cached[|s.cached| - 1].Seq(), scan.missing[0])
  }

  /** What an attempt leaves, from the state `s` its turn began in. */
  function AfterAttempt(s: DecoderState, cfg: Config, k: nat, scan: Scan): DecoderState
    requires k < |s.cached| && Attempts(s, scan) && !SomeDangling(s.cached, scan.media)
  {
    var noted := Noted(s.cached[k], scan);
    var t := s.(cached := s.cached[k := noted]);
    var lost := scan.missing[0];
    var r := FecRecovered(cfg, s.nextId, s.cached[k].buffer, lost, MediaBuffers(s.cached, scan.media));
    if r.None? || r.value.Seq() != lost || !Places(t.cached, lost) then t
    else t.(cached := Placed(s.cached[k := noted.(invalidFec := true)], r.value), nextId := s.nextId + 1)
  }

  /** One FEC packet's turn, the packet being at position `k`. */
  function RecoverAt(s: DecoderState, cfg: Config, lastSeq: Seq16, k: nat): DecoderState
    requires k < |s.cached|
  {
    var c := s.cached[k];
    if c.invalidFec then s
    else
      var scan := ScanOf(s, lastSeq, c);
      var noted := Noted(c, scan);
      var t := s.(cached := s.cached[k := noted]);
      if !Attempts(s, scan) || SomeDangling(s.cached, scan.media) then t
      else AfterAttempt(s, cfg, k, scan)
  }

  function RecoverOne(s: DecoderState, cfg: Config, lastSeq: Seq16, id: nat): DecoderState {
    var k := IndexOfId(s.cached, id);
    if k.None? then s else RecoverAt(s, cfg, lastSeq, k.value)
  }

  function RecoverEach(s: DecoderState, cfg: Config, lastSeq: Seq16, ids: seq<nat>): DecoderState
    decreases ids
  {
    if ids == [] then s else RecoverEach(RecoverOne(s, cfg, lastSeq, ids[0]), cfg, lastSeq, ids[1..])
  }

  function FecIds(cached: seq<CachedPacket>): seq<nat> {
    if cached == [] then []
    else (if cached[0].isFec then [cached[0].id] else []) + FecIds(cached[1..])
  }

  function Recovered(s: DecoderState, cfg: Config): DecoderState
    requires s.cached != []
  {
    RecoverEach(s, cfg, s.cached[|s.cached| - 1].Seq(), FecIds(s.cached))
  }

  // ---------- Decode and Flush ----------

  /** How many of the oldest packets leave the cache range. */
  function EvictCount(cached: seq<CachedPacket>, latest: Seq16, maxDifference: Seq16): (k: nat)
    ensures k <= |cached|
  {
    if cached == [] || IsSeqBeforeInRange(cached[0].Seq(), latest, maxDifference) then 0
    else 1 + EvictCount(cached[1..], latest, maxDifference)
  }

  predicate NotYetOutput(s: DecoderState, n: Seq16) {
    !s.hasOutput || IsSeqAfter(s.lastOutput, n)
  }

  function EvictedOutput(s: DecoderState, evicted: seq<CachedPacket>): seq<RtpPacket> {
    if evicted == [] then []
    else
      EvictedOutput(s, evicted[..|evicted| - 1]) +
      if NotYetOutput(s, evicted[|evicted| - 1].Seq()) then [evicted[|evicted| - 1].packet] else []
  }

  /** Copies of the cached packets that continue what is being output. */
  function Released(s: DecoderState, cached: seq<CachedPacket>, out: seq<RtpPacket>): (r: seq<RtpPacket>)
    decreases cached
  {
    if cached == [] then out
    else if (if out == [] then !NotYetOutput(s, cached[0].Seq()) else !IsNextSeq(out[|out| - 1].seqNum, cached[0].Seq())) then out
    else Released(s, cached[1..], out + [Copied(cached[0].packet)])
  }

  function WithOutput(s: DecoderState, out: seq<RtpPacket>): DecoderState {
    if out == [] then s else s.(hasOutput := true, lastOutput := out[|out| - 1].seqNum)
  }

  /** The part of Decode after recovery; `out` is what the caller passed in. */
  function Emitted(s: DecoderState, cfg: Config, out: seq<RtpPacket>): (DecoderState, seq<RtpPacket>)
    requires s.cached != []
  {
    var k := EvictCount(s.cached, s.cached[|s.cached| - 1].Seq(), cfg.maxDifference);
    var all := Released(s, s.cached[k..], out + EvictedOutput(s, s.cached[..k]));
    (WithOutput(s.(cached := s.cached[k..]), all), all)
  }

  /** Decode works only when something is cached after the call's packets are in. */
  predicate Decodable(s: DecoderState, cfg: Config, received: seq<RtpPacket>) {
    CacheAll(s, cfg, received).cached != []
  }

  lemma RecoverOneNonEmpty(s: DecoderState, cfg: Config, lastSeq: Seq16, id: nat)
    requires s.cached != []
    ensures RecoverOne(s, cfg, lastSeq, id).cached != []
  {
  }

  lemma {:induction false} RecoverEachNonEmpty(s: DecoderState, cfg: Config, lastSeq: Seq16, ids: seq<nat>)
    requires s.cached != []
    ensures RecoverEach(s, cfg, lastSeq, ids).cached != []
    decreases ids
  {
    hide RecoverOne;
    if ids != [] {
      RecoverOneNonEmpty(s, cfg, lastSeq, ids[0]);
      RecoverEachNonEmpty(RecoverOne(s, cfg, lastSeq, ids[0]), cfg, lastSeq, ids[1..]);
    }
  }

  function Decoded(s: DecoderState, cfg: Config, received: seq<RtpPacket>, out: seq<RtpPacket>): (DecoderState, seq<RtpPacket>)
    requires Decodable(s, cfg, received)
  {
    var cached := CacheAll(s, cfg, received);
    RecoverEachNonEmpty(cached, cfg, cached.cached[|cached.cached| - 1].Seq(), FecIds(cached.cached));
    Emitted(Recovered(cached, cfg), cfg, out)
  }

  function PacketsOf(cached: seq<CachedPacket>): (r: seq<RtpPacket>)
    ensures |r| == |cached|
    ensures forall k :: 0 <= k < |r| ==> r[k] == cached[k].packet
  {
    seq(|cached|, k requires 0 <= k < |cached| => cached[k].packet)
  }

  function Flushed(s: DecoderState, out: seq<RtpPacket>): (DecoderState, seq<RtpPacket>) {
    var all := out + PacketsOf(s.cached);
    (WithOutput(s.(cached := []), all), all)
  }
}