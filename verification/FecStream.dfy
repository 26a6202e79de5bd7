/** The stream an encoder and its caller put on the wire: media and FEC packets
    under unwrapped numbers. */
module FecStream {
  import opened ByteIo
  import opened SeqComparison
  import opened RtpPackets
  import opened SeqLemmas
  import opened FecXor
  import opened FecCodec
  import opened FecRecovery
  import D = FecDecoder

  /** The members of a FEC packet's group and the length it protects. */
  datatype Group = Group(ns: seq<int>, protection: U16)

  datatype Stream = Stream(sent: map<int, RtpPacket>, groups: map<int, Group>) {
    predicate Sent(n: int) { n in sent }

    predicate IsFec(cfg: D.Config, n: int)
      requires n in sent
    {
      sent[n].PayloadType() == cfg.fecType
    }

    function Image(n: int): Buffer
      requires n in sent
    {
      Serialized(sent[n])
    }
  }

  function MembersOf(stream: Stream, ns: seq<int>): (r: seq<Member>)
    requires forall m :: m in ns ==> m in stream.sent
    ensures |r| == |ns|
    ensures forall k :: 0 <= k < |ns| ==> r[k] == Member(Wrap(ns[k]), stream.Image(ns[k]))
  {
    seq(|ns|, k requires 0 <= k < |ns| => Member(Wrap(ns[k]), stream.Image(ns[k])))
  }

  /** A packet of the stream: it reads back unchanged and is copied unchanged. */
  predicate HonestPacket(cfg: D.Config, p: RtpPacket, n: int) {
    && p.WellFormed() && Transparent(p) && Copied(p) == p
    && p.seqNum == Wrap(n) && p.ssrc == cfg.ssrc
    && |Serialized(p)| < RTP_HEADER + 0x1_0000
  }

  /** A FEC packet built for media packets of the stream that span at most 48 numbers. */
  ghost predicate HonestGroup(stream: Stream, cfg: D.Config, n: int)
    requires n in stream.sent
  {
    && n in stream.groups
    && var g := stream.groups[n];
       && g.ns != [] && Ascending(g.ns) && g.ns[|g.ns| - 1] - g.ns[0] < MAX_MEDIA
       && (forall m :: m in g.ns ==> m in stream.sent && !stream.IsFec(cfg, m))
       && Buildable(MembersOf(stream, g.ns), g.protection)
       && var p := stream.sent[n];
          p.csrcs == [] && p.extension.None? && p.payload == Some(FecPayload(MembersOf(stream, g.ns), g.protection))
  }

  ghost predicate Honest(stream: Stream, cfg: D.Config) {
    forall n :: n in stream.sent ==>
      HonestPacket(cfg, stream.sent[n], n) && (stream.IsFec(cfg, n) ==> HonestGroup(stream, cfg, n))
  }

  lemma HonestCarries(cfg: D.Config, p: RtpPacket, n: int)
    requires HonestPacket(cfg, p, n)
    ensures Carries(Serialized(p), Wrap(n), cfg.ssrc)
  {
    hide CsrcImage, ExtensionImage, PaddingImage, Flags, Image16, Image32, Parsed;
    var bytes := Serialized(p);
    ImageLayout(p, bytes, FIXED_LENGTH + 4 * |p.csrcs|, FIXED_LENGTH + 4 * |p.csrcs| + |ExtensionImage(p.extension)|);
    FlagBits(p);
    var h := bytes[..FIXED_LENGTH];
    assert bytes[0] == h[0] == Flags(p);
    assert bytes[2..4] == h[2..4] == Image16(p.seqNum);
    assert bytes[8..12] == h[8..12] == Image32(p.ssrc);
  }

  lemma PlainPart(p: RtpPacket)
    requires p.csrcs == [] && p.extension.None? && p.padSize == 0 && p.payload.Some?
    ensures D.FecPart(Serialized(p)) == p.payload.value
  {
    FivePieces(FixedHeader(p), [], [], p.payload.value, [], Serialized(p));
  }

  /** The FEC part of a FEC packet's image is the built payload. */
  lemma FecPartOf(stream: Stream, cfg: D.Config, n: int)
    requires Honest(stream, cfg) && n in stream.sent && stream.IsFec(cfg, n)
    ensures HonestGroup(stream, cfg, n)
    ensures D.FecPart(stream.Image(n)) ==
            FecPayload(MembersOf(stream, stream.groups[n].ns), stream.groups[n].protection)
  {
    assert HonestPacket(cfg, stream.sent[n], n);
    PlainPart(stream.sent[n]);
  }

  // ---------- the keys of a group ----------

  predicate SortedKeys(members: seq<D.MapEntry>) {
    forall a, b :: 0 <= a < b < |members| ==> members[a].key < members[b].key
  }

  predicate HasKey(members: seq<D.MapEntry>, key: Seq16) {
    exists j :: 0 <= j < |members| && members[j].key == key
  }

  lemma HasKeyCons(x: D.MapEntry, rest: seq<D.MapEntry>, key: Seq16)
    ensures HasKey([x] + rest, key) <==> x.key == key || HasKey(rest, key)
  {
    var r := [x] + rest;
    if x.key == key {
      assert r[0].key == key;
    }
    if j :| 0 <= j < |rest| && rest[j].key == key {
      assert r[j + 1].key == key;
    }
    if j :| 0 <= j < |r| && r[j].key == key {
      assert j > 0 ==> rest[j - 1].key == key;
    }
  }

  lemma {:induction false} EmplacedHasKey(members: seq<D.MapEntry>, key: Seq16, other: Seq16)
    ensures HasKey(D.Emplaced(members, key), other) <==> HasKey(members, other) || other == key
  {
    HasKeyCons(D.MapEntry(key, false), members, other);
    if members != [] {
      assert members == [members[0]] + members[1..];
      HasKeyCons(members[0], members[1..], other);
      if key > members[0].key {
        EmplacedHasKey(members[1..], key, other);
        HasKeyCons(members[0], D.Emplaced(members[1..], key), other);
      }
    }
  }

  lemma {:induction false} EmplacedKeys(members: seq<D.MapEntry>, key: Seq16)
    requires SortedKeys(members)
    ensures SortedKeys(D.Emplaced(members, key))
    ensures forall j :: 0 <= j < |D.Emplaced(members, key)| ==>
              D.Emplaced(members, key)[j] == D.MapEntry(key, false) || D.Emplaced(members, key)[j] in members
  {
    if members != [] && key > members[0].key {
      var rest := members[1..];
      assert forall j :: 0 <= j < |rest| ==> rest[j] == members[j + 1];
      EmplacedKeys(rest, key);
      ConsSorted(members[0], D.Emplaced(rest, key));
    } else if members != [] && key < members[0].key {
      ConsSorted(D.MapEntry(key, false), members);
    }
  }

  lemma ConsSorted(x: D.MapEntry, e: seq<D.MapEntry>)
    requires SortedKeys(e) && forall j :: 0 <= j < |e| ==> x.key < e[j].key
    ensures SortedKeys([x] + e)
  {
  }

  lemma {:induction false} EmplacedAllKeys(members: seq<D.MapEntry>, keys: seq<Seq16>)
    requires SortedKeys(members) && forall j :: 0 <= j < |members| ==> !members[j].received
    ensures SortedKeys(D.EmplacedAll(members, keys))
    ensures forall other :: HasKey(D.EmplacedAll(members, keys), other) <==> HasKey(members, other) || other in keys
    ensures forall j :: 0 <= j < |D.EmplacedAll(members, keys)| ==> !D.EmplacedAll(members, keys)[j].received
    decreases keys
  {
    if keys != [] {
      var m := D.Emplaced(members, keys[0]);
      EmplacedKeys(members, keys[0]);
      forall other ensures HasKey(m, other) <==> HasKey(members, other) || other == keys[0] {
        EmplacedHasKey(members, keys[0], other);
      }
      EmplacedAllKeys(m, keys[1..]);
      assert keys == [keys[0]] + keys[1..];
    }
  }

  lemma WrapAllMember(ns: seq<int>, key: Seq16)
    ensures key in WrapAll(ns) <==> exists k :: 0 <= k < |ns| && Wrap(ns[k]) == key
  {
    if ns != [] {
      WrapAllMember(ns[1..], key);
      assert WrapAll(ns) == [Wrap(ns[0])] + WrapAll(ns[1..]);
      if k :| 0 <= k < |ns| && Wrap(ns[k]) == key {
        assert k > 0 ==> ns[1..][k - 1] == ns[k];
      }
      if key in WrapAll(ns[1..]) {
        var k :| 0 <= k < |ns[1..]| && Wrap(ns[1..][k]) == key;
        assert ns[k + 1] == ns[1..][k];
      }
    }
  }

  /** A fresh record names its group, each member once, none marked as seen. */
  ghost predicate FreshRecord(members: seq<D.MapEntry>, ns: seq<int>) {
    && SortedKeys(members)
    && (forall j :: 0 <= j < |members| ==> !members[j].received)
    && (forall key :: HasKey(members, key) <==> exists k :: 0 <= k < |ns| && Wrap(ns[k]) == key)
  }

  lemma EmplacedNumbers(ns: seq<int>)
    ensures FreshRecord(D.EmplacedAll([], WrapAll(ns)), ns)
  {
    EmplacedAllKeys([], WrapAll(ns));
    forall key ensures key in WrapAll(ns) <==> exists k :: 0 <= k < |ns| && Wrap(ns[k]) == key {
      WrapAllMember(ns, key);
    }
  }

  lemma ReadBack(buffer: Buffer, payload: seq<byte>, ns: seq<int>)
    requires D.FecPart(buffer) == payload && Readable(payload) && ProtectedSeqs(payload) == WrapAll(ns)
    ensures FreshRecord(D.ProtectedMembers(buffer), ns)
  {
    EmplacedNumbers(ns);
  }

  lemma GroupNumbered(stream: Stream, cfg: D.Config, n: int)
    requires n in stream.sent && HonestGroup(stream, cfg, n)
    ensures FecRecovery.Numbered(MembersOf(stream, stream.groups[n].ns), stream.groups[n].ns)
    ensures Buildable(MembersOf(stream, stream.groups[n].ns), stream.groups[n].protection)
  {
  }

  /** The members a cached FEC packet starts with name exactly its group. */
  lemma KeysOfGroup(stream: Stream, cfg: D.Config, n: int)
    requires Honest(stream, cfg) && n in stream.sent && stream.IsFec(cfg, n)
    ensures n in stream.groups && FreshRecord(D.ProtectedMembers(stream.Image(n)), stream.groups[n].ns)
  {
    FecPartOf(stream, cfg, n);
    GroupNumbered(stream, cfg, n);
    KeysRead(stream, stream.groups[n], stream.Image(n));
  }

  lemma KeysRead(stream: Stream, g: Group, buffer: Buffer)
    requires forall m :: m in g.ns ==> m in stream.sent
    requires FecRecovery.Numbered(MembersOf(stream, g.ns), g.ns) && Buildable(MembersOf(stream, g.ns), g.protection)
    requires D.FecPart(buffer) == FecPayload(MembersOf(stream, g.ns), g.protection)
    ensures FreshRecord(D.ProtectedMembers(buffer), g.ns)
  {
    GroupIdentified(MembersOf(stream, g.ns), g.ns, g.protection);
    ReadBack(buffer, FecPayload(MembersOf(stream, g.ns), g.protection), g.ns);
  }
}
