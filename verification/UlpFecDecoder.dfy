/** The decoder as the program runs it: loops over the cache and over each FEC
    packet's members. Every method computes the function of the same purpose in
    `FecDecoder`, about which the other Fec modules prove the promises. */
module UlpFecDecoder {
  import opened ByteIo
  import opened SeqComparison
  import opened RtpPackets
  import opened SeqLemmas
  import opened FecXor
  import opened FecCodec
  import opened FecDecoder
  import FecPass
  import FecRuns

  /** Buffers as they come from the network or from recovery. */
  predicate Sized(cached: seq<CachedPacket>) {
    forall k :: 0 <= k < |cached| ==> RTP_HEADER <= |cached[k].buffer| < RTP_HEADER + 0x1_0000
  }

  predicate Receivable(p: RtpPacket) {
    p.WellFormed() && RTP_HEADER <= |Serialized(p)| < RTP_HEADER + 0x1_0000
  }

  // ---------- positions ----------

  /** Where a number that is to be inserted goes. */
  function PlacedPos(cached: seq<CachedPacket>, n: Seq16): (pos: nat)
    requires Places(cached, n)
    ensures pos <= |cached|
  {
    if cached == [] || IsSeqBefore(n, cached[0].Seq()) then 0 else 1 + PlacedPos(cached[1..], n)
  }

  lemma {:induction false} PlacedSplit(cached: seq<CachedPacket>, c: CachedPacket)
    requires Places(cached, c.Seq())
    ensures var pos := PlacedPos(cached, c.Seq()); Placed(cached, c) == cached[..pos] + [c] + cached[pos..]
  {
    if cached != [] && !IsSeqBefore(c.Seq(), cached[0].Seq()) {
      var rest := cached[1..];
      var pos := PlacedPos(rest, c.Seq());
      PlacedSplit(rest, c);
      Assoc([cached[0]], rest[..pos] + [c], rest[pos..]);
      Assoc([cached[0]], rest[..pos], [c]);
      assert cached[..pos + 1] == [cached[0]] + rest[..pos] && cached[pos + 1..] == rest[pos..];
    }
  }

  /** The place depends on the cached numbers alone. */
  lemma {:induction false} PlacedPosSame(cached: seq<CachedPacket>, other: seq<CachedPacket>, n: Seq16)
    requires |cached| == |other| && forall a :: 0 <= a < |cached| ==> other[a].Seq() == cached[a].Seq()
    requires Places(cached, n)
    ensures Places(other, n) && PlacedPos(other, n) == PlacedPos(cached, n)
  {
    if cached != [] && !IsSeqBefore(n, cached[0].Seq()) {
      PlacedPosSame(cached[1..], other[1..], n);
    }
  }

  /** Where `n` goes, and whether it goes anywhere. */
  method InsertPosition(cached: seq<CachedPacket>, n: Seq16) returns (pos: nat, needInsert: bool)
    ensures needInsert <==> Places(cached, n)
    ensures needInsert ==> pos == PlacedPos(cached, n)
  {
    pos, needInsert := 0, true;
    assert cached[0..] == cached;
    while pos < |cached|
      invariant pos <= |cached| && needInsert
      invariant Places(cached, n) <==> Places(cached[pos..], n)
      invariant Places(cached, n) ==> PlacedPos(cached, n) == pos + PlacedPos(cached[pos..], n)
    {
      if cached[pos].Seq() == n {
        needInsert := false;
        return;
      }
      if IsSeqBefore(n, cached[pos].Seq()) { return; }
      assert cached[pos..][1..] == cached[pos + 1..];
      pos := pos + 1;
    }
  }

  /** One bit of a mask. */
  lemma EmplaceBit(members: seq<MapEntry>, mask: seq<byte>, base: Seq16, from: nat)
    requires from < 8 * |mask|
    ensures EmplacedAll(members, ProtectedFrom(mask, base, from)) ==
            EmplacedAll(if MaskBit(mask, from) then Emplaced(members, Wrap(base + from)) else members,
                        ProtectedFrom(mask, base, from + 1))
  {
    var rest := ProtectedFrom(mask, base, from + 1);
    if MaskBit(mask, from) {
      assert ([Wrap(base + from)] + rest)[1..] == rest;
    } else {
      EmptyLeft(rest);
    }
  }

  method DecodeMaskByte(mask: seq<byte>, base: Seq16, index: nat, before: seq<MapEntry>) returns (members: seq<MapEntry>)
    requires index < |mask|
    ensures EmplacedAll(members, ProtectedFrom(mask, base, 8 * (index + 1))) == EmplacedAll(before, ProtectedFrom(mask, base, 8 * index))
  {
    hide EmplacedAll, ProtectedFrom, Emplaced, BitOf, Wrap;
    members := before;
    for bit := 0 to 8
      invariant EmplacedAll(members, ProtectedFrom(mask, base, 8 * index + bit)) ==
                EmplacedAll(before, ProtectedFrom(mask, base, 8 * index))
    {
      EmplaceBit(members, mask, base, 8 * index + bit);
      if BitOf(mask[index], 7 - bit) == 1 {
        members := Emplaced(members, Wrap(base + 8 * index + bit));
      }
    }
  }

  /** A group's members as its mask names them. */
  method DecodeFecInfo(packet: RtpPacket, buffer: Buffer, fecType: byte) returns (isFec: bool, members: seq<MapEntry>)
    ensures isFec <==> packet.PayloadType() == fecType
    ensures members == if isFec then ProtectedMembers(buffer) else []
  {
    isFec, members := packet.PayloadType() == fecType, [];
    if !isFec || !Readable(FecPart(buffer)) { return; }
    var payload := FecPart(buffer);
    var mask, base := MaskOf(payload), BaseOf(payload);
    for index := 0 to |mask|
      invariant EmplacedAll(members, ProtectedFrom(mask, base, 8 * index)) == EmplacedAll([], ProtectedFrom(mask, base, 0))
    {
      members := DecodeMaskByte(mask, base, index, members);
    }
  }

  lemma {:induction false} SameIndex(cached: seq<CachedPacket>, other: seq<CachedPacket>, id: nat)
    requires |cached| == |other| && forall a :: 0 <= a < |cached| ==> other[a].id == cached[a].id
    ensures IndexOfId(other, id) == IndexOfId(cached, id)
  {
    if cached != [] {
      SameIndex(cached[1..], other[1..], id);
    }
  }

  /** Marking a packet moves no pointer. */
  lemma SamePointers(cached: seq<CachedPacket>, k: nat, c: CachedPacket, media: seq<nat>)
    requires k < |cached| && c.id == cached[k].id && c.buffer == cached[k].buffer
    requires !SomeDangling(cached, media)
    ensures !SomeDangling(cached[k := c], media)
    ensures MediaBuffers(cached[k := c], media) == MediaBuffers(cached, media)
  {
    forall a | 0 <= a < |media|
      ensures !Dangling(cached[k := c], media[a])
      ensures PointedTo(cached[k := c], media[a]).buffer == PointedTo(cached, media[a]).buffer
    {
      assert !Dangling(cached, media[a]);
      SameIndex(cached, cached[k := c], media[a]);
    }
  }

  /** A safe turn, case by case. */
  lemma TurnCases(s: DecoderState, cfg: Config, lastSeq: Seq16, id: nat, k: nat, scan: Scan)
    requires FecPass.SafeTurn(s, lastSeq, id) && IndexOfId(s.cached, id) == Some(k) && !s.cached[k].invalidFec
    requires scan == ScanOf(s, lastSeq, s.cached[k])
    ensures Attempts(s, scan) ==> !SomeDangling(s.cached, scan.media)
    ensures var t := s.(cached := s.cached[k := Noted(s.cached[k], scan)]);
            && (Attempts(t, scan) <==> Attempts(s, scan))
            && RecoverOne(s, cfg, lastSeq, id) == if Attempts(s, scan) then AfterAttempt(s, cfg, k, scan) else t
  {
  }

  /** What is released depends on the last output only. */
  lemma ReleasedSame(s: DecoderState, t: DecoderState, cached: seq<CachedPacket>, out: seq<RtpPacket>)
    requires s.hasOutput == t.hasOutput && s.lastOutput == t.lastOutput
    ensures Released(s, cached, out) == Released(t, cached, out)
    decreases |cached|
  {
    if cached != [] {
      ReleasedSame(s, t, cached[1..], out + [Copied(cached[0].packet)]);
    }
  }

  /** One more packet evicted. */
  lemma EvictStep(s: DecoderState, k: nat, given: seq<RtpPacket>)
    requires k < |s.cached|
    ensures var out, c := given + EvictedOutput(s, s.cached[..k]), s.cached[k];
            given + EvictedOutput(s, s.cached[..k + 1]) == if NotYetOutput(s, c.Seq()) then out + [c.packet] else out
    ensures s.cached[k..][1..] == s.cached[k + 1..]
  {
    var before := EvictedOutput(s, s.cached[..k]);
    assert s.cached[..k + 1][..k] == s.cached[..k];
    EmptyRight(before);
    Assoc(given, before, [s.cached[k].packet]);
  }

  lemma DecodeParts(s: DecoderState, cfg: Config, received: seq<RtpPacket>, given: seq<RtpPacket>, t: DecoderState)
    requires Decodable(s, cfg, received) && FecRuns.SafeCall(s, cfg, received) && t == CacheAll(s, cfg, received)
    ensures t.cached != [] && FecPass.SafePass(t, cfg, t.cached[|t.cached| - 1].Seq(), FecIds(t.cached))
    ensures Recovered(t, cfg).cached != [] ==> Decoded(s, cfg, received, given) == Emitted(Recovered(t, cfg), cfg, given)
  {
  }

  /** The `k` oldest packets have been dropped; `cached` is left. */
  ghost predicate Evicting(s: DecoderState, latest: Seq16, maxDifference: Seq16, given: seq<RtpPacket>, k: nat,
                           cached: seq<CachedPacket>, out: seq<RtpPacket>) {
    && k <= |s.cached| && cached == s.cached[k..]
    && out == given + EvictedOutput(s, s.cached[..k])
    && EvictCount(s.cached, latest, maxDifference) == k + EvictCount(cached, latest, maxDifference)
  }

  lemma EvictStart(s: DecoderState, latest: Seq16, maxDifference: Seq16, given: seq<RtpPacket>)
    ensures Evicting(s, latest, maxDifference, given, 0, s.cached, given)
  {
    assert s.cached[0..] == s.cached && s.cached[..0] == [];
    EmptyRight(given);
  }

  lemma EvictNext(s: DecoderState, latest: Seq16, maxDifference: Seq16, given: seq<RtpPacket>, k: nat,
                  cached: seq<CachedPacket>, out: seq<RtpPacket>)
    requires Evicting(s, latest, maxDifference, given, k, cached, out) && cached != []
    requires !IsSeqBeforeInRange(cached[0].Seq(), latest, maxDifference)
    ensures Sized(cached) ==> Sized(cached[1..])
    ensures Evicting(s, latest, maxDifference, given, k + 1, cached[1..],
                     if NotYetOutput(s, cached[0].Seq()) then out + [cached[0].packet] else out)
  {
    EvictStep(s, k, given);
  }

  lemma EvictEnd(s: DecoderState, latest: Seq16, maxDifference: Seq16, given: seq<RtpPacket>, k: nat,
                 cached: seq<CachedPacket>, out: seq<RtpPacket>)
    requires Evicting(s, latest, maxDifference, given, k, cached, out)
    requires cached == [] || IsSeqBeforeInRange(cached[0].Seq(), latest, maxDifference)
    ensures k == EvictCount(s.cached, latest, maxDifference)
    ensures cached == s.cached[k..] && out == given + EvictedOutput(s, s.cached[..k])
  {
  }

  /** A lost member handled: nothing changes, or the rebuilt packet is placed and the
      FEC packet at `k` retired. */
  ghost predicate LostHandled(cfg: Config, cached: seq<CachedPacket>, nextId: nat, k: nat, media: seq<nat>, lost: Seq16,
                              cached': seq<CachedPacket>, nextId': nat)
    requires k < |cached| && !SomeDangling(cached, media)
  {
    var r := FecRecovered(cfg, nextId, cached[k].buffer, lost, MediaBuffers(cached, media));
    if r.None? || r.value.Seq() != lost || !Places(cached, lost) then cached' == cached && nextId' == nextId
    else cached' == Placed(cached[k := cached[k].(invalidFec := true)], r.value) && nextId' == nextId + 1
  }

  lemma AttemptIs(s: DecoderState, cfg: Config, k: nat, scan: Scan, noted: seq<CachedPacket>, t: DecoderState)
    requires k < |s.cached| && Attempts(s, scan) && !SomeDangling(s.cached, scan.media)
    requires noted == s.cached[k := Noted(s.cached[k], scan)]
    requires !SomeDangling(noted, scan.media) && MediaBuffers(noted, scan.media) == MediaBuffers(s.cached, scan.media)
    requires LostHandled(cfg, noted, s.nextId, k, scan.media, scan.missing[0], t.cached, t.nextId)
    requires t.hasOutput == s.hasOutput && t.lastOutput == s.lastOutput
    ensures t == AfterAttempt(s, cfg, k, scan)
  {
    var retired := Noted(s.cached[k], scan).(invalidFec := true);
    assert noted[k := retired] == s.cached[k := retired];
  }

  class UlpFecDecoder {
    const cfg: Config
    var cached: seq<CachedPacket>
    var hasOutput: bool
    var lastOutput: Seq16
    var nextId: nat

    ghost function State(): DecoderState
      reads this
    {
      DecoderState(cached, hasOutput, lastOutput, nextId)
    }

    constructor (cfg: Config)
      ensures State() == EMPTY && this.cfg == cfg
    {
      this.cfg := cfg;
      cached, hasOutput, lastOutput, nextId := [], false, 0, 0;
    }

    method CacheReceived(packet: RtpPacket)
      requires Sized(cached) && Receivable(packet)
      modifies this
      ensures Sized(cached) && State() == CacheOne(old(State()), cfg, packet)
    {
      hide Placed, Serialized, IsSeqBefore;
      if packet.ssrc != cfg.ssrc { return; }
      if hasOutput {
        if IsSeqBefore(packet.seqNum, lastOutput) { return; }
      }
      var pos, needInsert := InsertPosition(cached, packet.seqNum);
      if !needInsert { return; }
      var image := LoadPacket(packet);
      var isFec, members := DecodeFecInfo(packet, image[..], cfg.fecType);
      var added := CachedPacket(nextId, packet, image[..], isFec, members, [], false);
      PlacedSplit(cached, added);
      assert added == NewCached(cfg, nextId, packet, Serialized(packet));
      cached := cached[..pos] + [added] + cached[pos..];
      nextId := nextId + 1;
    }

    method CachePackets(received: seq<RtpPacket>)
      requires Sized(cached) && forall k :: 0 <= k < |received| ==> Receivable(received[k])
      modifies this
      ensures Sized(cached) && State() == CacheAll(old(State()), cfg, received)
    {
      for k := 0 to |received|
        invariant Sized(cached) && State() == CacheAll(old(State()), cfg, received[..k])
      {
        assert received[..k + 1][..k] == received[..k];
        CacheReceived(received[k]);
      }
      assert received[..|received|] == received;
    }

    /** The members marked as seen, the pointers stored and what is still missing. */
    method ScanMembers(lastSeq: Seq16, c: CachedPacket) returns (scan: Scan)
      ensures scan == ScanOf(State(), lastSeq, c)
    {
      scan := Scan(c.members, c.media, [], Complete);
      var j := 0;
      while j < |scan.members|
        invariant j <= |scan.members|
        invariant Scanned(State(), lastSeq, scan, j) == ScanOf(State(), lastSeq, c)
        decreases |c.members| - j
        invariant |scan.members| == |c.members|
      {
        var m := scan.members[j];
        if hasOutput && !IsSeqAfter(lastOutput, m.key) {
          scan := scan.(verdict := Stale);
          return;
        }
        if IsSeqAfter(lastSeq, m.key) {
          scan := scan.(verdict := Beyond);
          return;
        }
        if !m.received {
          var k := FindCached(m.key);
          if k.Some? {
            scan := scan.(members := scan.members[j := MapEntry(m.key, true)], media := scan.media + [cached[k.value].id]);
          } else {
            scan := scan.(missing := scan.missing + [m.key]);
          }
        }
        j := j + 1;
      }
    }

    method FindCached(n: Seq16) returns (r: Option<nat>)
      ensures r == FindSeq(cached, n)
    {
      var k := 0;
      assert cached[0..] == cached;
      while k < |cached|
        invariant k <= |cached|
        invariant FindSeq(cached, n) == if FindSeq(cached[k..], n).None? then None else Some(FindSeq(cached[k..], n).value + k)
      {
        if cached[k].Seq() == n { return Some(k); }
        assert cached[k..][1..] == cached[k + 1..];
        k := k + 1;
      }
      return None;
    }

    method FecRecoverPacket(fecBuffer: Buffer, lost: Seq16, others: seq<Buffer>) returns (r: Option<CachedPacket>)
      requires forall k :: 0 <= k < |others| ==> RTP_HEADER <= |others[k]| < RTP_HEADER + 0x1_0000
      ensures r == FecRecovered(cfg, nextId, fecBuffer, lost, others)
      ensures r.Some? ==> RTP_HEADER <= |r.value.buffer| < RTP_HEADER + 0x1_0000
    {
      var payload := FecPart(fecBuffer);
      if !Readable(payload) || !Recoverable(payload) { return None; }
      var refused, buffer, size := FecRecoverBuffer(payload, others, lost, cfg.ssrc);
      if refused { return None; }
      var packet := StorePacket(buffer[..size]);
      if packet.None? || packet.value.payload.None? { return None; }
      var isFec, members := DecodeFecInfo(packet.value, buffer[..size], cfg.fecType);
      return Some(CachedPacket(nextId, packet.value, buffer[..size], isFec, members, [], false));
    }

    /** The buffers behind a FEC packet's pointers. */
    method BuffersBehind(media: seq<nat>) returns (others: seq<Buffer>)
      requires Sized(cached) && !SomeDangling(cached, media)
      ensures others == MediaBuffers(cached, media)
      ensures forall k :: 0 <= k < |others| ==> RTP_HEADER <= |others[k]| < RTP_HEADER + 0x1_0000
    {
      forall k | 0 <= k < |media| ensures !Dangling(cached, media[k]) {
      }
      others := MediaBuffers(cached, media);
      forall k | 0 <= k < |others| ensures RTP_HEADER <= |others[k]| < RTP_HEADER + 0x1_0000 {
        assert PointedTo(cached, media[k]) in cached;
      }
    }

    /** Rebuilds the one missing member and caches it. */
    method RecoverLost(k: nat, media: seq<nat>, lost: Seq16)
      requires Sized(cached) && k < |cached| && !SomeDangling(cached, media)
      modifies `cached, `nextId
      ensures Sized(cached)
      ensures LostHandled(cfg, old(cached), old(nextId), k, media, lost, cached, nextId)
    {
      var others := BuffersBehind(media);
      var r := FecRecoverPacket(cached[k].buffer, lost, others);
      if r.None? || r.value.Seq() != lost { return; }
      var pos, needInsert := InsertPosition(cached, lost);
      if needInsert {
        InsertRecovered(k, pos, r.value);
      }
    }

    method InsertRecovered(k: nat, pos: nat, r: CachedPacket)
      requires Sized(cached) && k < |cached| && Places(cached, r.Seq()) && pos == PlacedPos(cached, r.Seq())
      requires RTP_HEADER <= |r.buffer| < RTP_HEADER + 0x1_0000
      modifies `cached, `nextId
      ensures Sized(cached) && nextId == old(nextId) + 1
      ensures cached == Placed(old(cached)[k := old(cached)[k].(invalidFec := true)], r)
    {
      cached := cached[k := cached[k].(invalidFec := true)];
      PlacedPosSame(old(cached), cached, r.Seq());
      PlacedSplit(cached, r);
      cached := cached[..pos] + [r] + cached[pos..];
      nextId := nextId + 1;
    }

    /** Scans a FEC packet's members and writes the marks back. */
    method NoteMembers(lastSeq: Seq16, k: nat) returns (scan: Scan)
      requires Sized(cached) && k < |cached|
      modifies `cached
      ensures scan == ScanOf(old(State()), lastSeq, old(cached)[k])
      ensures Sized(cached) && cached == old(cached)[k := Noted(old(cached)[k], scan)]
    {
      scan := ScanMembers(lastSeq, cached[k]);
      cached := cached[k := Noted(cached[k], scan)];
    }

    method WillAttempt(scan: Scan) returns (attempts: bool)
      requires cached != []
      ensures attempts == Attempts(State(), scan)
    {
      if !scan.verdict.Complete? || |scan.missing| != 1 { return false; }
      var lost := scan.missing[0];
      return !IsSeqBefore(lost, lastOutput) && !IsSeqAfter(cached[|cached| - 1].Seq(), lost);
    }

    method AttemptRecovery(ghost before: DecoderState, k: nat, scan: Scan)
      requires Sized(cached) && k < |before.cached| && Attempts(before, scan) && !SomeDangling(before.cached, scan.media)
      requires State() == before.(cached := before.cached[k := Noted(before.cached[k], scan)])
      modifies `cached, `nextId
      ensures Sized(cached) && State() == AfterAttempt(before, cfg, k, scan)
    {
      ghost var noted := cached;
      SamePointers(before.cached, k, Noted(before.cached[k], scan), scan.media);
      RecoverLost(k, scan.media, scan.missing[0]);
      AttemptIs(before, cfg, k, scan, noted, State());
    }

    /** One FEC packet's turn in a recovery pass. */
    method RecoverTurn(lastSeq: Seq16, id: nat)
      requires Sized(cached) && FecPass.SafeTurn(State(), lastSeq, id)
      modifies this
      ensures Sized(cached) && State() == RecoverOne(old(State()), cfg, lastSeq, id)
    {
      var k := IndexOfId(cached, id).value;
      if cached[k].invalidFec { return; }
      ghost var before := State();
      var scan := NoteMembers(lastSeq, k);
      TurnCases(before, cfg, lastSeq, id, k, scan);
      assert State() == before.(cached := before.cached[k := Noted(before.cached[k], scan)]);
      var attempts := WillAttempt(scan);
      if attempts {
        AttemptRecovery(before, k, scan);
      }
    }

    /** The FEC packets are gathered first; each then has its turn. */
    method RcoverPackets()
      requires Sized(cached) && cached != []
      requires FecPass.SafePass(State(), cfg, cached[|cached| - 1].Seq(), FecIds(cached))
      modifies this
      ensures Sized(cached) && State() == Recovered(old(State()), cfg) && cached != []
    {
      var lastSeq := cached[|cached| - 1].Seq();
      RecoverEachNonEmpty(State(), cfg, lastSeq, FecIds(cached));
      var fecPackets := GatherFec();
      RecoverInTurn(lastSeq, fecPackets);
    }

    method GatherFec() returns (fecPackets: seq<nat>)
      ensures fecPackets == FecIds(cached)
    {
      fecPackets := [];
      EmptyLeft(FecIds(cached));
      assert cached[0..] == cached;
      for k := 0 to |cached|
        invariant fecPackets + FecIds(cached[k..]) == FecIds(cached)
      {
        var rest := FecIds(cached[k + 1..]);
        assert cached[k..][1..] == cached[k + 1..];
        if cached[k].isFec {
          Assoc(fecPackets, [cached[k].id], rest);
          fecPackets := fecPackets + [cached[k].id];
        } else {
          EmptyLeft(rest);
        }
      }
      EmptyRight(fecPackets);
    }

    method RecoverInTurn(lastSeq: Seq16, fecPackets: seq<nat>)
      requires Sized(cached) && FecPass.SafePass(State(), cfg, lastSeq, fecPackets)
      modifies this
      ensures Sized(cached) && State() == RecoverEach(old(State()), cfg, lastSeq, fecPackets)
    {
      assert fecPackets[0..] == fecPackets;
      for k := 0 to |fecPackets|
        invariant Sized(cached) && FecPass.SafePass(State(), cfg, lastSeq, fecPackets[k..])
        invariant RecoverEach(State(), cfg, lastSeq, fecPackets[k..]) == RecoverEach(old(State()), cfg, lastSeq, fecPackets)
      {
        assert fecPackets[k..][1..] == fecPackets[k + 1..];
        RecoverTurn(lastSeq, fecPackets[k]);
      }
    }

    /** Drops what is out of range of the newest packet, handing out what was not. */
    method Evict(given: seq<RtpPacket>) returns (out: seq<RtpPacket>)
      requires cached != [] && Sized(cached)
      modifies `cached
      ensures var s := old(State());
              var k := EvictCount(s.cached, s.cached[|s.cached| - 1].Seq(), cfg.maxDifference);
              cached == s.cached[k..] && out == given + EvictedOutput(s, s.cached[..k])
      ensures Sized(cached)
    {
      hide Evicting, IsSeqBeforeInRange, Sized;
      ghost var s := State();
      var latest := cached[|cached| - 1].Seq();
      ghost var k := 0;
      out := given;
      EvictStart(s, latest, cfg.maxDifference, given);
      while cached != []
        invariant Evicting(s, latest, cfg.maxDifference, given, k, cached, out) && Sized(cached)
        decreases |cached|
      {
        if IsSeqBeforeInRange(cached[0].Seq(), latest, cfg.maxDifference) { break; }
        EvictNext(s, latest, cfg.maxDifference, given, k, cached, out);
        if !hasOutput || IsSeqAfter(lastOutput, cached[0].Seq()) {
          out := out + [cached[0].packet];
        }
        cached := cached[1..];
        k := k + 1;
      }
      EvictEnd(s, latest, cfg.maxDifference, given, k, cached, out);
    }

    /** Adds copies of the cached packets that continue what is being output. */
    method ReleaseRun(given: seq<RtpPacket>) returns (out: seq<RtpPacket>)
      ensures out == Released(State(), cached, given)
    {
      out := given;
      var k := 0;
      assert cached[0..] == cached;
      while k < |cached|
        invariant k <= |cached| && Released(State(), cached[k..], out) == Released(State(), cached, given)
      {
        if out == [] {
          if hasOutput && !IsSeqAfter(lastOutput, cached[k].Seq()) { break; }
        } else {
          if !IsNextSeq(out[|out| - 1].seqNum, cached[k].Seq()) { break; }
        }
        assert cached[k..][1..] == cached[k + 1..];
        out := out + [Copied(cached[k].packet)];
        k := k + 1;
      }
    }

    method NoteOutput(out: seq<RtpPacket>)
      modifies `hasOutput, `lastOutput
      ensures State() == WithOutput(old(State()), out)
    {
      if out != [] {
        hasOutput := true;
        lastOutput := out[|out| - 1].seqNum;
      }
    }

    /** Caches what was received, recovers what it can and hands out what is ready.
        The call needs something cached to work on, and recovery that follows no
        pointer to an erased packet. */
    method Decode(received: seq<RtpPacket>, given: seq<RtpPacket>) returns (out: seq<RtpPacket>)
      requires Sized(cached) && forall k :: 0 <= k < |received| ==> Receivable(received[k])
      requires FecRuns.SafeCall(State(), cfg, received) && Decodable(State(), cfg, received)
      modifies this
      ensures Sized(cached) && (State(), out) == Decoded(old(State()), cfg, received, given)
    {
      hide Decoded, CacheAll, Emitted, Recovered, FecRuns.SafeCall, FecPass.SafePass, Sized;
      DecodeParts(State(), cfg, received, given, CacheAll(State(), cfg, received));
      CachePackets(received);
      RcoverPackets();
      out := EmitPackets(given);
    }

    method EmitPackets(given: seq<RtpPacket>) returns (out: seq<RtpPacket>)
      requires Sized(cached) && cached != []
      modifies this
      ensures Sized(cached) && (State(), out) == Emitted(old(State()), cfg, given)
    {
      ghost var s := State();
      var evicted := Evict(given);
      ReleasedSame(s, State(), cached, evicted);
      out := ReleaseRun(evicted);
      NoteOutput(out);
    }

    /** Hands out everything cached. */
    method Flush(given: seq<RtpPacket>) returns (out: seq<RtpPacket>)
      modifies this
      ensures (State(), out) == Flushed(old(State()), given)
    {
      hide PacketsOf;
      ghost var s := State();
      ghost var k := 0;
      out := given;
      EmptyRight(given);
      while cached != []
        invariant k <= |s.cached| && State() == s.(cached := s.cached[k..])
        invariant out == given + PacketsOf(s.cached[..k])
        decreases |cached|
      {
        assert PacketsOf(s.cached[..k + 1]) == PacketsOf(s.cached[..k]) + [cached[0].packet];
        Assoc(given, PacketsOf(s.cached[..k]), [cached[0].packet]);
        out := out + [cached[0].packet];
        cached := cached[1..];
        k := k + 1;
      }
      assert s.cached[..k] == s.cached;
      NoteOutput(out);
    }
  }
}
