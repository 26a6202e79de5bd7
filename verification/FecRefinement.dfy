/** The decoder's operations refine the ideal ones. */
module FecRefinement {
  import opened SeqComparison
  import opened RtpPackets
  import opened SeqLemmas
  import opened FecXor
  import opened FecCodec
  import opened FecRecovery
  import opened FecStream
  import opened FecIdeal
  import opened FecScan
  import D = FecDecoder

  // ---------- one group, ideally ----------

  /** Before any release, the program compares with number 0. */
  predicate CanStart(i: Ideal, m: int) {
    i.last.Some? || !IsSeqBefore(Wrap(m), 0)
  }

  /** A group with exactly one member lacking, none released and none newer than the
      newest cached number gives that member, unless its payload is empty. */
  predicate Recovers(stream: Stream, i: Ideal, top: int, ns: seq<int>) {
    var lacking := Lacking(ns, i.nums);
    && Usable(ns, i, top) && |lacking| == 1 && CanStart(i, lacking[0])
    && lacking[0] in stream.sent && stream.sent[lacking[0]].payload.Some?
  }

  function RecoverNumber(stream: Stream, i: Ideal, top: int, f: int): Ideal {
    if f in stream.groups && Recovers(stream, i, top, stream.groups[f].ns)
    then i.(nums := Place(i.nums, Lacking(stream.groups[f].ns, i.nums)[0]))
    else i
  }

  // ---------- what recovery yields ----------

  function Images(stream: Stream, ns: seq<int>): (r: seq<Buffer>)
    requires forall m :: m in ns ==> m in stream.sent
    ensures |r| == |ns|
    ensures forall k :: 0 <= k < |r| ==> r[k] == stream.Image(ns[k])
  {
    seq(|ns|, k requires 0 <= k < |ns| => stream.Image(ns[k]))
  }

  lemma ImagesWithout(stream: Stream, b: seq<int>, k: nat) returns (rest: seq<int>)
    requires k < |b| && forall m :: m in b ==> m in stream.sent
    ensures |rest| == |b| - 1 && forall m :: m in rest ==> m in stream.sent
    ensures multiset(Images(stream, b)) == multiset(Images(stream, rest)) + multiset{stream.Image(b[k])}
    ensures multiset(rest) == multiset(b) - multiset{b[k]}
  {
    rest := b[..k] + b[k + 1..];
    WithoutOne(b, k);
    WithoutOne(Images(stream, b), k);
    assert Images(stream, rest) == Images(stream, b)[..k] + Images(stream, b)[k + 1..];
  }

  lemma WithoutOne<T>(b: seq<T>, k: nat)
    requires k < |b|
    ensures multiset(b) == multiset(b[..k] + b[k + 1..]) + multiset{b[k]}
    ensures multiset(b[..k] + b[k + 1..]) == multiset(b) - multiset{b[k]}
  {
    assert b == b[..k] + ([b[k]] + b[k + 1..]);
  }

  lemma FirstIsIn<T>(a: seq<T>, b: seq<T>) returns (k: nat)
    requires multiset(a) == multiset(b) && a != []
    ensures k < |b| && b[k] == a[0]
  {
    assert a[0] in multiset(b);
    k :| 0 <= k < |b| && b[k] == a[0];
  }

  lemma {:induction false} ImagesOrder(stream: Stream, a: seq<int>, b: seq<int>)
    requires multiset(a) == multiset(b)
    requires forall m :: m in a || m in b ==> m in stream.sent
    ensures multiset(Images(stream, a)) == multiset(Images(stream, b))
    decreases |a|
  {
    hide Images;
    if a == [] {
      assert |b| == |multiset(b)|;
    } else {
      var k := FirstIsIn(a, b);
      var left := ImagesWithout(stream, a, 0);
      var right := ImagesWithout(stream, b, k);
      ImagesOrder(stream, left, right);
    }
  }

  lemma AscendingDistinct(ns: seq<int>)
    requires Ascending(ns)
    ensures Distinct(ns)
  {
  }

  /** The cached members and the lacking one make up the group. */
  lemma GroupSplit(stream: Stream, ns: seq<int>, found: seq<int>, m: int)
    requires Ascending(ns) && Distinct(found) && m !in found
    requires forall x :: x in ns <==> x in found || x == m
    requires forall x :: x in ns ==> x in stream.sent
    ensures multiset(BuffersOf(MembersOf(stream, ns))) == multiset(Images(stream, found)) + multiset{stream.Image(m)}
  {
    AscendingDistinct(ns);
    assert Distinct(found + [m]);
    DistinctSameSize(ns, found + [m]);
    ImagesOrder(stream, ns, found + [m]);
    assert BuffersOf(MembersOf(stream, ns)) == Images(stream, ns);
    assert Images(stream, found + [m]) == Images(stream, found) + [stream.Image(m)];
  }

  lemma RecoveredFrom(cfg: D.Config, id: nat, fecBuffer: Buffer, lost: Seq16, others: seq<Buffer>, p: RtpPacket)
    requires var payload := D.FecPart(fecBuffer);
             && Recoverable(payload)
             && (RecoveryRefused(payload) ==> p.payload.None?)
             && RecoveredBuffer(payload, others, lost, cfg.ssrc) == Serialized(p)
    requires Parsed(Serialized(p)) == Some(p)
    ensures D.FecRecovered(cfg, id, fecBuffer, lost, others) ==
            if p.payload.Some? then Some(D.NewCached(cfg, id, p, Serialized(p))) else None
  {
  }

  /** From an honest FEC packet and the other members, recovery gives back the packet
      that was sent, unless its payload is empty. */
  lemma RecoveryYields(stream: Stream, cfg: D.Config, id: nat, f: int, m: int, others: seq<Buffer>)
    requires Honest(stream, cfg) && f in stream.sent && stream.IsFec(cfg, f)
    requires f in stream.groups && m in stream.groups[f].ns && m in stream.sent
    requires forall x :: x in stream.groups[f].ns ==> x in stream.sent
    requires multiset(BuffersOf(MembersOf(stream, stream.groups[f].ns))) == multiset(others) + multiset{stream.Image(m)}
    ensures D.FecRecovered(cfg, id, stream.Image(f), Wrap(m), others) ==
            if stream.sent[m].payload.Some? then Some(D.NewCached(cfg, id, stream.sent[m], stream.Image(m))) else None
  {
    var p := stream.sent[m];
    assert HonestPacket(cfg, p, m);
    BytesRecovered(stream, cfg, f, m, others);
    TransparentReadsBack(p);
    RecoveredFrom(cfg, id, stream.Image(f), Wrap(m), others, p);
  }

  lemma BytesRecovered(stream: Stream, cfg: D.Config, f: int, m: int, others: seq<Buffer>)
    requires Honest(stream, cfg) && f in stream.sent && stream.IsFec(cfg, f)
    requires f in stream.groups && m in stream.groups[f].ns && m in stream.sent
    requires forall x :: x in stream.groups[f].ns ==> x in stream.sent
    requires multiset(BuffersOf(MembersOf(stream, stream.groups[f].ns))) == multiset(others) + multiset{stream.Image(m)}
    ensures var payload := D.FecPart(stream.Image(f));
            && Recoverable(payload)
            && (RecoveryRefused(payload) ==> stream.sent[m].payload.None?)
            && RecoveredBuffer(payload, others, Wrap(m), cfg.ssrc) == stream.Image(m)
  {
    FecPartOf(stream, cfg, f);
    var g := stream.groups[f];
    var group := MembersOf(stream, g.ns);
    PayloadShape(group, g.protection);
    var k :| 0 <= k < |g.ns| && g.ns[k] == m;
    assert group[k] == Member(Wrap(m), stream.Image(m));
    var p := stream.sent[m];
    assert HonestPacket(cfg, p, m);
    HonestCarries(cfg, p, m);
    MemberRecovered(group, g.protection, k, others, cfg.ssrc);
    if g.protection == 0 {
      EmptyPayload(p);
    }
  }

  lemma EmptyPayload(p: RtpPacket)
    requires |Serialized(p)| == RTP_HEADER && p.payload != Some([])
    ensures p.payload.None?
  {
    assert |p.PayloadBytes()| == 0;
  }

  // ---------- pointers ----------

  lemma IndexFinds(cached: seq<D.CachedPacket>, nextId: nat, k: nat)
    requires IdsOk(cached, nextId) && k < |cached|
    ensures D.IndexOfId(cached, cached[k].id) == Some(k)
  {
    if k > 0 {
      var rest := cached[1..];
      assert cached[0].id != cached[k].id;
      assert forall a :: 0 <= a < |rest| ==> rest[a] == cached[a + 1];
      IndexFinds(rest, nextId, k - 1);
    }
  }

  /** When no member is released, every stored pointer leads to its packet. */
  lemma PointersLead(stream: Stream, cfg: D.Config, s: D.DecoderState, i: Ideal, media: seq<nat>, found: seq<int>)
    requires Shape(stream, cfg, s, i) && |media| == |found|
    requires forall a :: 0 <= a < |found| ==> PointsTo(s.cached, i.nums, media[a], found[a])
    ensures !D.SomeDangling(s.cached, media)
    ensures forall m :: m in found ==> m in stream.sent
    ensures D.MediaBuffers(s.cached, media) == Images(stream, found)
  {
    forall a | 0 <= a < |found|
      ensures !D.Dangling(s.cached, media[a]) && found[a] in stream.sent
      ensures D.PointedTo(s.cached, media[a]).buffer == stream.Image(found[a])
    {
      var k :| 0 <= k < |s.cached| && s.cached[k].id == media[a] && i.nums[k] == found[a];
      IndexFinds(s.cached, s.nextId, k);
      assert SlotOk(stream, cfg, s.cached[k], i.nums[k]);
    }
    assert !D.SomeDangling(s.cached, media);
  }

  // ---------- one FEC packet's turn ----------

  lemma UpdateShape(stream: Stream, cfg: D.Config, s: D.DecoderState, i: Ideal, k: nat, c: D.CachedPacket)
    requires Shape(stream, cfg, s, i) && k < |s.cached|
    requires c == s.cached[k].(members := c.members, media := c.media, invalidFec := c.invalidFec)
    requires SameKeys(c.members, s.cached[k].members)
    ensures Shape(stream, cfg, s.(cached := s.cached[k := c]), i)
  {
    hide D.ProtectedMembers;
    assert SlotOk(stream, cfg, s.cached[k], i.nums[k]);
    assert SlotOk(stream, cfg, c, i.nums[k]);
    var cached' := s.cached[k := c];
    assert forall a :: 0 <= a < |cached'| ==> cached'[a].id == s.cached[a].id;
  }

  /** Replacing a packet's record. */
  lemma UpdateRelated(stream: Stream, cfg: D.Config, s: D.DecoderState, i: Ideal, found: map<int, seq<int>>,
                      k: nat, c: D.CachedPacket, found': seq<int>)
    requires Related(stream, cfg, s, i, found) && k < |s.cached|
    requires c == s.cached[k].(members := c.members, media := c.media, invalidFec := c.invalidFec)
    requires SameKeys(c.members, s.cached[k].members)
    requires FecOk(stream, c, i.nums[k], found[i.nums[k] := found'], s.cached, i)
    ensures Related(stream, cfg, s.(cached := s.cached[k := c]), i, found[i.nums[k] := found'])
  {
    UpdateShape(stream, cfg, s, i, k, c);
    var n := i.nums[k];
    var cached' := s.cached[k := c];
    var all := found[n := found'];
    forall a | 0 <= a < |cached'| ensures FecOk(stream, cached'[a], i.nums[a], all, cached', i) {
      if a != k {
        assert i.nums[a] != n;
        RecordElsewhere(stream, s.cached[a], i.nums[a], found, all, s.cached, cached', i);
      } else {
        RecordElsewhere(stream, c, n, all, all, s.cached, cached', i);
      }
    }
  }

  lemma RecordElsewhere(stream: Stream, c: D.CachedPacket, n: int, found: map<int, seq<int>>, found': map<int, seq<int>>,
                        cached: seq<D.CachedPacket>, cached': seq<D.CachedPacket>, i: Ideal)
    requires |cached| == |cached'| == |i.nums| && forall k :: 0 <= k < |cached| ==> cached'[k].id == cached[k].id
    requires FecOk(stream, c, n, found, cached, i)
    requires n in found ==> n in found' && found'[n] == found[n]
    ensures FecOk(stream, c, n, found', cached', i)
  {
    if c.isFec && n in stream.groups && !c.invalidFec {
      var ns := found[n];
      forall a | 0 <= a < |ns| ensures Released(i.last, ns[a]) || PointsTo(cached', i.nums, c.media[a], ns[a]) {
        if !Released(i.last, ns[a]) {
          var k :| 0 <= k < |cached| && cached[k].id == c.media[a] && i.nums[k] == ns[a];
          assert cached'[k].id == c.media[a];
        }
      }
    }
  }
}