/** SDES packets with CNAME items (section 6.5 of RFC 3550). */
module SdesPacket {
  import opened ByteIo
  import opened RtpPackets
  import opened SeqLemmas
  import opened RtcpHeader

  const SDES_TYPE := 202
  const MAX_CHUNKS := 0x1f
  const TERMINATOR_TAG := 0
  const CNAME_TAG := 1

  datatype Chunk = Chunk(ssrc: U32, cname: seq<byte>)

  /** Four bytes are the least a chunk may have left over, one the least it pads with. */
  function PaddingSize(nameLength: nat): (n: nat)
    ensures 1 <= n <= 4
  {
    4 - (6 + nameLength) % 4
  }

  function ChunkSize(c: Chunk): nat {
    6 + |c.cname| + PaddingSize(|c.cname|)
  }

  predicate Named(c: Chunk) { |c.cname| <= 0xff }

  predicate AllNamed(chunks: seq<Chunk>) {
    forall k :: 0 <= k < |chunks| ==> Named(chunks[k])
  }

  function Zeros(n: nat): (bytes: seq<byte>)
    ensures |bytes| == n && forall k :: 0 <= k < n ==> bytes[k] == 0
  {
    seq(n, _ => 0)
  }

  function ChunkImage(c: Chunk): (bytes: seq<byte>)
    requires Named(c)
    ensures |bytes| == ChunkSize(c)
  {
    Image32(c.ssrc) + [CNAME_TAG, |c.cname|] + c.cname + Zeros(PaddingSize(|c.cname|))
  }

  function ChunksImage(chunks: seq<Chunk>): (bytes: seq<byte>)
    requires AllNamed(chunks)
  {
    if chunks == [] then [] else ChunkImage(chunks[0]) + ChunksImage(chunks[1..])
  }

  lemma {:induction false} ChunksImageAppend(chunks: seq<Chunk>, c: Chunk)
    requires AllNamed(chunks) && Named(c)
    ensures AllNamed(chunks + [c]) && ChunksImage(chunks + [c]) == ChunksImage(chunks) + ChunkImage(c)
  {
    if chunks == [] {
      EmptyLeft([c]);
      assert [c][1..] == [];
      EmptyRight(ChunkImage(c));
      EmptyLeft(ChunkImage(c));
    } else {
      assert (chunks + [c])[1..] == chunks[1..] + [c];
      ChunksImageAppend(chunks[1..], c);
      Assoc(ChunkImage(chunks[0]), ChunksImage(chunks[1..]), ChunkImage(c));
    }
  }

  function SdesImage(chunks: seq<Chunk>): (bytes: seq<byte>)
    requires AllNamed(chunks) && |chunks| <= MAX_CHUNKS
    ensures |bytes| == HEADER_LENGTH + |ChunksImage(chunks)|
  {
    HeaderImage(|chunks|, SDES_TYPE, |ChunksImage(chunks)| / 4) + ChunksImage(chunks)
  }

  // ---------- parsing ----------

  datatype Items = Items(cname: Option<seq<byte>>, next: nat)

  /** The items of a chunk from position `at` on: the CNAME, if there is one, and where
      the terminator ends. Every read is inside the payload. */
  function ItemsFrom(p: seq<byte>, at: nat, cname: Option<seq<byte>>): (r: Option<Items>)
    requires at < |p| && (cname.Some? ==> |cname.value| <= 0xff)
    ensures r.Some? ==> at < r.value.next <= |p|
    ensures r.Some? && r.value.cname.Some? ==> |r.value.cname.value| <= 0xff
    decreases |p| - at
  {
    if p[at] == TERMINATOR_TAG then Some(Items(cname, at + 1))
    else if at + 1 >= |p| then None
    else
      var length := p[at + 1];
      if at + 2 + length + 1 > |p| then None
      else if p[at] == CNAME_TAG && cname.Some? then None
      else ItemsFrom(p, at + 2 + length, if p[at] == CNAME_TAG then Some(p[at + 2..at + 2 + length]) else cname)
  }

  function Aligned(size: nat, at: nat): (next: nat)
    requires at <= size
    ensures at <= next <= size
  {
    at + (size - at) % 4
  }

  /** The chunks with a CNAME among the next `remaining` ones. */
  function ChunksFrom(p: seq<byte>, at: nat, remaining: nat): (r: Option<seq<Chunk>>)
    requires at <= |p|
    ensures r.Some? ==> AllNamed(r.value) && |r.value| <= remaining
    decreases remaining
  {
    if remaining == 0 then Some([])
    else if |p| - at < 8 then None
    else
      var items := ItemsFrom(p, at + 4, None);
      if items.None? then None
      else
        var rest := ChunksFrom(p, Aligned(|p|, items.value.next), remaining - 1);
        if rest.None? then None
        else if items.value.cname.None? then rest
        else Some([Chunk(Value32(p[at..at + 4]), items.value.cname.value)] + rest.value)
  }

  function ParsedSdes(h: CommonHeader): (r: Option<seq<Chunk>>)
    ensures r.Some? ==> AllNamed(r.value) && |r.value| <= h.count
  {
    if h.packetType != SDES_TYPE || |h.payload| % 4 != 0 then None else ChunksFrom(h.payload, 0, h.count)
  }

  // ---------- the round trip ----------

  /** The payload shows a chunk at `at`. */
  ghost predicate ShowsChunk(p: seq<byte>, at: nat, c: Chunk)
    requires Named(c)
  {
    at + ChunkSize(c) <= |p| && p[at..at + ChunkSize(c)] == ChunkImage(c)
  }

  lemma ChunkFields(p: seq<byte>, at: nat, c: Chunk)
    requires Named(c) && ShowsChunk(p, at, c)
    ensures p[at..at + 4] == Image32(c.ssrc) && p[at + 4] == CNAME_TAG && p[at + 5] == |c.cname|
    ensures p[at + 6..at + 6 + |c.cname|] == c.cname && p[at + 6 + |c.cname|] == TERMINATOR_TAG
  {
    var q := p[at..at + ChunkSize(c)];
    var n := |c.cname|;
    assert q[..4] == Image32(c.ssrc) && q[4] == CNAME_TAG && q[5] == n;
    assert q[6..6 + n] == c.cname && q[6 + n] == 0;
    SubSlice(p, at, at + ChunkSize(c), 0, 4);
    SubSlice(p, at, at + ChunkSize(c), 6, 6 + n);
    assert q[6 + n] == p[at + 6 + n] && q[4] == p[at + 4] && q[5] == p[at + 5];
  }

  lemma ChunkItems(p: seq<byte>, at: nat, c: Chunk)
    requires Named(c) && ShowsChunk(p, at, c)
    ensures ItemsFrom(p, at + 4, None) == Some(Items(Some(c.cname), at + 7 + |c.cname|))
    ensures Value32(p[at..at + 4]) == c.ssrc
  {
    ChunkFields(p, at, c);
    RoundTrip32(c.ssrc);
    assert ItemsFrom(p, at + 6 + |c.cname|, Some(c.cname)) == Some(Items(Some(c.cname), at + 7 + |c.cname|));
  }

  /** A chunk pads to the next word: that is where the next one is looked for. */
  lemma ChunkEnds(size: nat, at: nat, c: Chunk)
    requires size % 4 == 0 && at % 4 == 0 && at + ChunkSize(c) <= size
    ensures Aligned(size, at + 7 + |c.cname|) == at + ChunkSize(c) && (at + ChunkSize(c)) % 4 == 0
  {
  }

  lemma ShowsFirst(p: seq<byte>, at: nat, chunks: seq<Chunk>)
    requires AllNamed(chunks) && chunks != [] && at <= |p| && p[at..] == ChunksImage(chunks)
    ensures ShowsChunk(p, at, chunks[0]) && p[at + ChunkSize(chunks[0])..] == ChunksImage(chunks[1..])
  {
    var size := ChunkSize(chunks[0]);
    var q := p[at..|p|];
    assert q == p[at..] == ChunkImage(chunks[0]) + ChunksImage(chunks[1..]);
    JoinSlices(ChunkImage(chunks[0]), ChunksImage(chunks[1..]));
    SubSlice(p, at, |p|, 0, size);
    SubSlice(p, at, |p|, size, |q|);
  }

  /** One chunk of a parse. */
  lemma ParsesChunk(p: seq<byte>, at: nat, remaining: nat, items: Option<Items>, rest: Option<seq<Chunk>>)
    requires at + 8 <= |p| && remaining > 0 && items == ItemsFrom(p, at + 4, None)
    requires items.Some? ==> rest == ChunksFrom(p, Aligned(|p|, items.value.next), remaining - 1)
    ensures ChunksFrom(p, at, remaining) ==
            if items.None? || rest.None? then None
            else if items.value.cname.None? then rest
            else Some([Chunk(Value32(p[at..at + 4]), items.value.cname.value)] + rest.value)
  {
  }

  lemma ChunkParses(p: seq<byte>, at: nat, c: Chunk) returns (items: Items)
    requires Named(c) && |p| % 4 == 0 && at % 4 == 0 && ShowsChunk(p, at, c)
    ensures at + 8 <= |p| && ItemsFrom(p, at + 4, None) == Some(items) && items.cname == Some(c.cname)
    ensures Aligned(|p|, items.next) == at + ChunkSize(c) && (at + ChunkSize(c)) % 4 == 0
    ensures Value32(p[at..at + 4]) == c.ssrc
  {
    ChunkItems(p, at, c);
    ChunkEnds(|p|, at, c);
    items := Items(Some(c.cname), at + 7 + |c.cname|);
  }

  lemma ChunkJoins(p: seq<byte>, at: nat, c: Chunk, items: Items, rest: seq<Chunk>, n: nat)
    requires at + 8 <= |p| && n > 0 && ItemsFrom(p, at + 4, None) == Some(items)
    requires items.cname == Some(c.cname) && Value32(p[at..at + 4]) == c.ssrc
    requires ChunksFrom(p, Aligned(|p|, items.next), n - 1) == Some(rest)
    ensures ChunksFrom(p, at, n) == Some([c] + rest)
  {
  }

  lemma {:induction false} ChunksReadBack(p: seq<byte>, at: nat, chunks: seq<Chunk>, n: nat)
    requires AllNamed(chunks) && |p| % 4 == 0 && at % 4 == 0 && at <= |p| && p[at..] == ChunksImage(chunks) && n == |chunks|
    ensures ChunksFrom(p, at, n) == Some(chunks)
    decreases n
  {
    hide ItemsFrom, Value32;
    if n > 0 {
      ShowsFirst(p, at, chunks);
      var items := ChunkParses(p, at, chunks[0]);
      ChunksReadBack(p, at + ChunkSize(chunks[0]), chunks[1..], n - 1);
      ChunkJoins(p, at, chunks[0], items, chunks[1..], n);
      SplitAt(chunks, 1);
      Singleton(chunks[..1]);
    }
  }

  // ---------- chunks of other senders ----------

  /** A chunk as others may send it: any items, of any type but the terminator's. */
  datatype Item = Item(tag: byte, text: seq<byte>)

  datatype ItemChunk = ItemChunk(ssrc: U32, items: seq<Item>)

  predicate Sendable(items: seq<Item>) {
    forall k :: 0 <= k < |items| ==> items[k].tag != TERMINATOR_TAG && |items[k].text| <= 0xff
  }

  function ItemsImage(items: seq<Item>): (bytes: seq<byte>)
    requires Sendable(items)
    ensures bytes != []
  {
    if items == [] then [TERMINATOR_TAG]
    else [items[0].tag, |items[0].text|] + items[0].text + ItemsImage(items[1..])
  }

  /** The texts of the CNAME items. */
  function Names(items: seq<Item>): seq<seq<byte>> {
    if items == [] then []
    else (if items[0].tag == CNAME_TAG then [items[0].text] else []) + Names(items[1..])
  }

  function ItemChunkImage(c: ItemChunk): (bytes: seq<byte>)
    requires Sendable(c.items)
    ensures |bytes| == ItemChunkSize(|ItemsImage(c.items)|)
  {
    Image32(c.ssrc) + ItemsImage(c.items) + Zeros((4 - |ItemsImage(c.items)| % 4) % 4)
  }

  /** Padded to the next word. */
  function ItemChunkSize(n: nat): nat {
    4 + n + (4 - n % 4) % 4
  }

  predicate AllSendable(chunks: seq<ItemChunk>) {
    forall k :: 0 <= k < |chunks| ==> Sendable(chunks[k].items)
  }

  function ItemChunksImage(chunks: seq<ItemChunk>): (bytes: seq<byte>)
    requires AllSendable(chunks)
  {
    if chunks == [] then [] else ItemChunkImage(chunks[0]) + ItemChunksImage(chunks[1..])
  }

  /** The chunks that have a CNAME. */
  function NamedChunks(chunks: seq<ItemChunk>): seq<Chunk> {
    if chunks == [] then []
    else
      var names := Names(chunks[0].items);
      (if names == [] then [] else [Chunk(chunks[0].ssrc, names[0])]) + NamedChunks(chunks[1..])
  }

  predicate NamedTwice(chunks: seq<ItemChunk>) {
    exists k :: 0 <= k < |chunks| && |Names(chunks[k].items)| > 1
  }

  /** What the items read so far and those to come amount to. */
  function ItemsResult(names: seq<seq<byte>>, next: nat): Option<Items> {
    if |names| > 1 then None else Some(Items(if names == [] then None else Some(names[0]), next))
  }

  lemma FirstItem(p: seq<byte>, at: nat, items: seq<Item>)
    requires Sendable(items) && items != [] && at <= |p| && ItemsImage(items) <= p[at..]
    ensures var n := |items[0].text|;
            && at + 2 + n < |p| && p[at] == items[0].tag && p[at + 1] == n && p[at + 2..at + 2 + n] == items[0].text
            && ItemsImage(items[1..]) <= p[at + 2 + n..] && |ItemsImage(items)| == 2 + n + |ItemsImage(items[1..])|
  {
    var n := |items[0].text|;
    var q, rest := p[at..], ItemsImage(items[1..]);
    assert q[0] == items[0].tag && q[1] == n;
    assert q[2..2 + n] == items[0].text;
    assert q[2 + n..2 + n + |rest|] == rest;
    assert q[2..2 + n] == p[at + 2..at + 2 + n];
    assert q[2 + n..] == p[at + 2 + n..];
    assert p[at + 2 + n..][..|rest|] == rest;
  }

  lemma ItemStep(p: seq<byte>, at: nat, cname: Option<seq<byte>>, n: nat)
    requires at + 2 + n < |p| && p[at] != TERMINATOR_TAG && p[at + 1] == n && (cname.Some? ==> |cname.value| <= 0xff)
    ensures ItemsFrom(p, at, cname) ==
            if p[at] == CNAME_TAG && cname.Some? then None
            else ItemsFrom(p, at + 2 + n, if p[at] == CNAME_TAG then Some(p[at + 2..at + 2 + n]) else cname)
  {
  }

  /** What was found and what is still to come. */
  function Pending(cname: Option<seq<byte>>, items: seq<Item>): seq<seq<byte>> {
    (if cname.Some? then [cname.value] else []) + Names(items)
  }

  lemma PendingStep(cname: Option<seq<byte>>, items: seq<Item>)
    requires items != []
    ensures items[0].tag == CNAME_TAG && cname.Some? ==> |Pending(cname, items)| > 1
    ensures !(items[0].tag == CNAME_TAG && cname.Some?) ==>
              Pending(cname, items) == Pending(if items[0].tag == CNAME_TAG then Some(items[0].text) else cname, items[1..])
  {
  }

  lemma NoItems(p: seq<byte>, at: nat, cname: Option<seq<byte>>)
    requires at < |p| && ItemsImage([]) <= p[at..] && (cname.Some? ==> |cname.value| <= 0xff)
    ensures ItemsFrom(p, at, cname) == ItemsResult(Pending(cname, []), at + |ItemsImage([])|)
  {
    assert p[at..][0] == TERMINATOR_TAG;
    EmptyRight(if cname.Some? then [cname.value] else []);
  }

  lemma {:induction false} ItemsRead(p: seq<byte>, at: nat, items: seq<Item>, cname: Option<seq<byte>>)
    requires Sendable(items) && at < |p| && ItemsImage(items) <= p[at..] && (cname.Some? ==> |cname.value| <= 0xff)
    ensures ItemsFrom(p, at, cname) == ItemsResult(Pending(cname, items), at + |ItemsImage(items)|)
    decreases |items|
  {
    hide ItemsFrom, Pending, ItemsImage;
    if items == [] {
      NoItems(p, at, cname);
    } else {
      var n := |items[0].text|;
      FirstItem(p, at, items);
      ItemStep(p, at, cname, n);
      PendingStep(cname, items);
      if !(items[0].tag == CNAME_TAG && cname.Some?) {
        ItemsRead(p, at + 2 + n, items[1..], if items[0].tag == CNAME_TAG then Some(items[0].text) else cname);
      }
    }
  }

  /** Whatever is read as items is the image of some. */
  lemma {:induction false} ItemsFound(p: seq<byte>, at: nat, cname: Option<seq<byte>>) returns (items: seq<Item>)
    requires at < |p| && (cname.Some? ==> |cname.value| <= 0xff) && ItemsFrom(p, at, cname).Some?
    ensures Sendable(items) && ItemsImage(items) == p[at..ItemsFrom(p, at, cname).value.next]
    decreases |p| - at
  {
    if p[at] == TERMINATOR_TAG {
      items := [];
    } else {
      ItemFits(p, at, cname);
      hide ItemsFrom, ItemsImage;
      var n := p[at + 1];
      var text := p[at + 2..at + 2 + n];
      ItemStep(p, at, cname, n);
      var more := ItemsFound(p, at + 2 + n, if p[at] == CNAME_TAG then Some(text) else cname);
      items := [Item(p[at], text)] + more;
      ItemJoins(p, at, n, more, ItemsFrom(p, at, cname).value.next);
    }
  }

  lemma ItemFits(p: seq<byte>, at: nat, cname: Option<seq<byte>>)
    requires at < |p| && p[at] != TERMINATOR_TAG && (cname.Some? ==> |cname.value| <= 0xff) && ItemsFrom(p, at, cname).Some?
    ensures at + 2 < |p| && at + 2 + p[at + 1] < |p|
  {
  }

  lemma ItemJoins(p: seq<byte>, at: nat, n: byte, more: seq<Item>, end: nat)
    requires at + 2 + n < end <= |p| && p[at] != TERMINATOR_TAG && p[at + 1] == n
    requires Sendable(more) && ItemsImage(more) == p[at + 2 + n..end]
    ensures var items := [Item(p[at], p[at + 2..at + 2 + n])] + more;
            Sendable(items) && ItemsImage(items) == p[at..end]
  {
    var items := [Item(p[at], p[at + 2..at + 2 + n])] + more;
    assert items[1..] == more;
    assert p[at..end] == [p[at], p[at + 1]] + p[at + 2..at + 2 + n] + p[at + 2 + n..end];
  }

  /** What a chunk's items are read as, and where they are refused: they end at the first
      terminator, and at most one of them is a CNAME, the one that is kept. */
  lemma ItemsExactly(p: seq<byte>, at: nat, r: Items)
    requires at < |p|
    ensures ItemsFrom(p, at, None) == Some(r) <==>
            exists items :: ItemsAt(p, at, items, r)
  {
    hide ItemsFrom, ItemsImage;
    if ItemsFrom(p, at, None) == Some(r) {
      var items := ItemsFound(p, at, None);
      assert p[at..][..r.next - at] == p[at..r.next];
      ItemsRead(p, at, items, None);
      EmptyLeft(Names(items));
      assert ItemsAt(p, at, items, r);
    }
    if items :| ItemsAt(p, at, items, r) {
      ItemsRead(p, at, items, None);
      EmptyLeft(Names(items));
    }
  }

  /** The items stand at `at`, and `r` is their CNAME and where they end. */
  predicate ItemsAt(p: seq<byte>, at: nat, items: seq<Item>, r: Items) {
    && Sendable(items) && at <= |p| && ItemsImage(items) <= p[at..] && r.next == at + |ItemsImage(items)|
    && |Names(items)| <= 1 && r.cname == if Names(items) == [] then None else Some(Names(items)[0])
  }

  lemma {:induction false} ChunksFit(p: seq<byte>, at: nat, remaining: nat)
    requires |p| % 4 == 0 && at % 4 == 0 && at <= |p| && ChunksFrom(p, at, remaining).Some?
    ensures at + 8 * remaining <= |p|
    decreases remaining
  {
    hide ItemsFrom;
    if remaining > 0 {
      var next := ItemsFrom(p, at + 4, None).value.next;
      WordAfter(|p|, at, next);
      ChunksFit(p, Aligned(|p|, next), remaining - 1);
    }
  }

  lemma WordAfter(size: nat, at: nat, next: nat)
    requires size % 4 == 0 && at % 4 == 0 && at + 4 < next <= size
    ensures Aligned(size, next) >= at + 8 && Aligned(size, next) % 4 == 0
  {
    assert (size - next) % 4 == (4 - next % 4) % 4;
  }

  /** What is accepted is of SDES type, in whole words, with two words for each chunk at
      least, and every chunk begins with its source and items that can be read. */
  lemma SdesAccepted(h: CommonHeader)
    requires ParsedSdes(h).Some?
    ensures h.packetType == 202 && |h.payload| % 4 == 0 && 8 * h.count <= |h.payload|
    ensures h.count > 0 ==> exists items, r :: ItemsAt(h.payload, 4, items, r)
  {
    hide ItemsFrom, ItemsAt;
    ChunksFit(h.payload, 0, h.count);
    if h.count > 0 {
      ItemsExactly(h.payload, 4, ItemsFrom(h.payload, 4, None).value);
    }
  }

  lemma ItemChunkParts(c: ItemChunk)
    requires Sendable(c.items)
    ensures ItemChunkImage(c)[0..4] == Image32(c.ssrc)
    ensures ItemChunkImage(c)[4..4 + |ItemsImage(c.items)|] == ItemsImage(c.items)
    ensures |ItemChunkImage(c)| >= 8
  {
    hide ItemsImage;
  }

  lemma FirstItemChunk(p: seq<byte>, at: nat, chunks: seq<ItemChunk>)
    requires AllSendable(chunks) && chunks != [] && at <= |p| && p[at..] == ItemChunksImage(chunks)
    ensures at + 8 <= |p| && Value32(p[at..at + 4]) == chunks[0].ssrc
    ensures ItemsImage(chunks[0].items) <= p[at + 4..] && at + ItemChunkSize(|ItemsImage(chunks[0].items)|) <= |p|
    ensures p[at + ItemChunkSize(|ItemsImage(chunks[0].items)|)..] == ItemChunksImage(chunks[1..])
  {
    var c, q := chunks[0], p[at..|p|];
    var bytes, items, tail := ItemChunkImage(c), ItemsImage(c.items), ItemChunksImage(chunks[1..]);
    assert q == p[at..] == bytes + tail;
    hide ItemChunkImage, ItemChunkSize, ItemsImage, ItemChunksImage, Value32, Image32;
    RoundTrip32(c.ssrc);
    ItemChunkParts(c);
    JoinSlices(bytes, tail);
    SubSlice(q, 0, |bytes|, 0, 4);
    SubSlice(q, 0, |bytes|, 4, 4 + |items|);
    SubSlice(p, at, |p|, 0, 4);
    SubSlice(p, at, |p|, 4, 4 + |items|);
    SubSlice(p, at, |p|, |bytes|, |q|);
    SubSlice(p, at + 4, |p|, 0, |items|);
  }

  lemma ItemChunkEnds(size: nat, at: nat, n: nat)
    requires size % 4 == 0 && at % 4 == 0 && at + ItemChunkSize(n) <= size
    ensures Aligned(size, at + 4 + n) == at + ItemChunkSize(n) && (at + ItemChunkSize(n)) % 4 == 0
  {
    assert (size - (at + 4 + n)) % 4 == (4 - n % 4) % 4;
  }

  lemma NamedTwiceStep(chunks: seq<ItemChunk>)
    requires chunks != []
    ensures NamedTwice(chunks) <==> |Names(chunks[0].items)| > 1 || NamedTwice(chunks[1..])
  {
    hide Names;
    if k :| 0 <= k < |chunks| && |Names(chunks[k].items)| > 1 {
      assert k > 0 ==> chunks[1..][k - 1] == chunks[k];
    }
  }

  lemma {:induction false} ItemChunksRead(p: seq<byte>, at: nat, chunks: seq<ItemChunk>, n: nat)
    requires AllSendable(chunks) && |p| % 4 == 0 && at % 4 == 0 && at <= |p| && p[at..] == ItemChunksImage(chunks) && n == |chunks|
    ensures ChunksFrom(p, at, n) == if NamedTwice(chunks) then None else Some(NamedChunks(chunks))
    decreases n
  {
    hide ItemsFrom, Value32, ItemsImage, Names, ItemChunksImage, NamedTwice, ChunksFrom, ItemChunkSize, Aligned;
    if n > 0 {
      var items := chunks[0].items;
      var end := at + ItemChunkSize(|ItemsImage(items)|);
      FirstItemChunk(p, at, chunks);
      ItemsRead(p, at + 4, items, None);
      EmptyLeft(Names(items));
      ItemChunkEnds(|p|, at, |ItemsImage(items)|);
      ItemChunksRead(p, end, chunks[1..], n - 1);
      ParsesChunk(p, at, n, ItemsFrom(p, at + 4, None), ChunksFrom(p, end, n - 1));
      NamedTwiceStep(chunks);
      EmptyLeft(NamedChunks(chunks[1..]));
    } else {
      NoItemChunks(p, at);
    }
  }

  lemma WholeWords(n: nat)
    ensures ItemChunkSize(n) % 4 == 0
  {
  }

  lemma SumOfWords(a: nat, b: nat)
    requires a % 4 == 0 && b % 4 == 0
    ensures (a + b) % 4 == 0
  {
  }

  lemma {:induction false} ItemChunksLength(chunks: seq<ItemChunk>)
    requires AllSendable(chunks)
    ensures |ItemChunksImage(chunks)| % 4 == 0
  {
    hide ItemsImage, ItemChunkImage, ItemChunkSize;
    if chunks != [] {
      ItemChunksLength(chunks[1..]);
      WholeWords(|ItemsImage(chunks[0].items)|);
      SumOfWords(|ItemChunkImage(chunks[0])|, |ItemChunksImage(chunks[1..])|);
    }
  }

  /** Whatever items chunks have, they parse to their CNAMEs, the chunks without one
      dropped; they are refused if and only if a chunk has two. */
  lemma ItemsParse(chunks: seq<ItemChunk>)
    requires AllSendable(chunks) && |chunks| <= MAX_CHUNKS
    ensures ParsedSdes(CommonHeader(SDES_TYPE, |chunks|, ItemChunksImage(chunks))) ==
            if NamedTwice(chunks) then None else Some(NamedChunks(chunks))
  {
    hide ItemChunksImage, NamedTwice, NamedChunks, ChunksFrom;
    ItemChunksLength(chunks);
    ItemChunksRead(ItemChunksImage(chunks), 0, chunks, |chunks|);
  }

  lemma NoItemChunks(p: seq<byte>, at: nat)
    requires at <= |p|
    ensures ChunksFrom(p, at, 0) == Some([]) && !NamedTwice([])
  {
  }

  /** Parsing what was printed gives the same chunks, for every list the object holds. */
  lemma SdesPayloadReadsBack(chunks: seq<Chunk>)
    requires AllNamed(chunks) && |chunks| <= MAX_CHUNKS
    ensures ParsedSdes(CommonHeader(SDES_TYPE, |chunks|, ChunksImage(chunks))) == Some(chunks)
  {
    ChunksLength(chunks);
    ChunksReadBack(ChunksImage(chunks), 0, chunks, |chunks|);
  }

  lemma {:induction false} ChunksLength(chunks: seq<Chunk>)
    requires AllNamed(chunks)
    ensures 8 * |chunks| <= |ChunksImage(chunks)| <= 0x108 * |chunks| && |ChunksImage(chunks)| % 4 == 0
  {
    if chunks != [] {
      ChunksLength(chunks[1..]);
    }
  }

  lemma SdesReadsBack(chunks: seq<Chunk>, rest: seq<byte>)
    requires AllNamed(chunks) && 0 < |chunks| <= MAX_CHUNKS
    ensures ParsedHeader(SdesImage(chunks) + rest) == Some(CommonHeader(SDES_TYPE, |chunks|, ChunksImage(chunks)))
    ensures ParsedSdes(CommonHeader(SDES_TYPE, |chunks|, ChunksImage(chunks))) == Some(chunks)
  {
    ChunksLength(chunks);
    HeaderReadsBack(|chunks|, SDES_TYPE, ChunksImage(chunks), rest);
    SdesPayloadReadsBack(chunks);
  }

  // ---------- the packet object ----------

  /** What a parse gives when `parsed` comes before the rest. */
  function Joined(parsed: seq<Chunk>, rest: Option<seq<Chunk>>): Option<seq<Chunk>> {
    if rest.None? then None else Some(parsed + rest.value)
  }

  lemma EmptyParse(rest: Option<seq<Chunk>>)
    ensures Joined([], rest) == rest
  {
    if rest.Some? {
      EmptyLeft(rest.value);
    }
  }

  lemma JoinedStep(parsed: seq<Chunk>, c: Chunk, rest: Option<seq<Chunk>>)
    ensures Joined(parsed + [c], rest) == Joined(parsed, if rest.None? then None else Some([c] + rest.value))
  {
    if rest.Some? {
      Assoc(parsed, [c], rest.value);
    }
  }

  lemma {:induction false} ChunksPrefix(chunks: seq<Chunk>, k: nat)
    requires AllNamed(chunks) && k < |chunks|
    ensures ChunksImage(chunks[..k + 1]) == ChunksImage(chunks[..k]) + ChunkImage(chunks[k])
    ensures |ChunksImage(chunks[..k + 1])| <= |ChunksImage(chunks)|
    decreases |chunks| - k
  {
    assert chunks[..k + 1] == chunks[..k] + [chunks[k]];
    ChunksImageAppend(chunks[..k], chunks[k]);
    if k + 1 < |chunks| {
      ChunksPrefix(chunks, k + 1);
    } else {
      assert chunks[..k + 1] == chunks;
    }
  }

  lemma NoChunks(chunks: seq<Chunk>)
    ensures ChunksImage(chunks[..0]) == []
  {
  }

  class Sdes {
    var chunks: seq<Chunk>
    var chunksBufferLength: nat

    ghost predicate Valid()
      reads this
    {
      AllNamed(chunks) && |chunks| <= MAX_CHUNKS && chunksBufferLength == |ChunksImage(chunks)|
    }

    constructor ()
      ensures Valid() && chunks == []
    {
      chunks, chunksBufferLength := [], 0;
    }

    /** Refuses names over 255 bytes and more than 31 chunks. */
    method AddCName(ssrc: U32, cname: seq<byte>) returns (ok: bool)
      requires Valid()
      modifies this
      ensures Valid() && (ok <==> |cname| <= 0xff && |old(chunks)| < MAX_CHUNKS)
      ensures chunks == if ok then old(chunks) + [Chunk(ssrc, cname)] else old(chunks)
    {
      if |cname| > 0xff { return false; }
      if |chunks| >= MAX_CHUNKS { return false; }
      ChunksImageAppend(chunks, Chunk(ssrc, cname));
      chunks := chunks + [Chunk(ssrc, cname)];
      chunksBufferLength := chunksBufferLength + ChunkSize(Chunk(ssrc, cname));
      return true;
    }

    /** Refused when there is no room; otherwise writes exactly the length announced. */
    method LoadPacket(buffer: array<byte>, start: nat, maxLength: nat) returns (ok: bool, pos: nat)
      requires Valid() && maxLength <= buffer.Length
      modifies buffer
      ensures ok <==> start + HEADER_LENGTH + chunksBufferLength <= maxLength
      ensures !ok ==> pos == start && buffer[..] == old(buffer[..])
      ensures ok ==> pos == start + HEADER_LENGTH + chunksBufferLength
                     && buffer[..] == Spliced(old(buffer[..]), start, SdesImage(chunks))
    {
      pos := start;
      if start + HEADER_LENGTH + chunksBufferLength > maxLength { return false, pos; }
      pos := CreateHeader(buffer, start, |chunks|, SDES_TYPE, chunksBufferLength / 4);
      pos := LoadChunks(buffer, pos);
      SplicedAppend(old(buffer[..]), start, HeaderImage(|chunks|, SDES_TYPE, chunksBufferLength / 4), ChunksImage(chunks));
      return true, pos;
    }

    method LoadChunks(buffer: array<byte>, start: nat) returns (pos: nat)
      requires Valid() && start + chunksBufferLength <= buffer.Length
      modifies buffer
      ensures pos == start + chunksBufferLength && buffer[..] == Spliced(old(buffer[..]), start, ChunksImage(chunks))
    {
      hide Spliced, ChunkImage, ChunksImage;
      pos := start;
      SplicedNothing(buffer[..], start);
      NoChunks(chunks);
      for k := 0 to |chunks|
        invariant start <= pos == start + |ChunksImage(chunks[..k])| <= start + chunksBufferLength
        invariant buffer[..] == Spliced(old(buffer[..]), start, ChunksImage(chunks[..k]))
      {
        ChunksPrefix(chunks, k);
        pos := LoadChunk(buffer, pos, chunks[k]);
        SplicedAppend(old(buffer[..]), start, ChunksImage(chunks[..k]), ChunkImage(chunks[k]));
      }
      assert chunks[..|chunks|] == chunks;
    }

    method LoadChunk(buffer: array<byte>, start: nat, c: Chunk) returns (pos: nat)
      requires Named(c) && start + ChunkSize(c) <= buffer.Length
      modifies buffer
      ensures pos == start + ChunkSize(c) && buffer[..] == Spliced(old(buffer[..]), start, ChunkImage(c))
    {
      hide Spliced, Image32, Zeros;
      Write32(buffer, start, c.ssrc);
      CopyInto(buffer, start + 4, [CNAME_TAG, |c.cname|]);
      SplicedAppend(old(buffer[..]), start, Image32(c.ssrc), [CNAME_TAG, |c.cname|]);
      CopyInto(buffer, start + 6, c.cname);
      SplicedAppend(old(buffer[..]), start, Image32(c.ssrc) + [CNAME_TAG, |c.cname|], c.cname);
      pos := start + 6 + |c.cname|;
      var paddingSize := PaddingSize(|c.cname|);
      CopyInto(buffer, pos, Zeros(paddingSize));
      SplicedAppend(old(buffer[..]), start, Image32(c.ssrc) + [CNAME_TAG, |c.cname|] + c.cname, Zeros(paddingSize));
      pos := pos + paddingSize;
    }

    /** The items of one chunk, from `start` on. */
    method StoreItems(p: seq<byte>, start: nat) returns (r: Option<Items>)
      requires start < |p|
      ensures r == ItemsFrom(p, start, None)
    {
      var lookingAt := start;
      var cname: Option<seq<byte>> := None;
      while p[lookingAt] != TERMINATOR_TAG
        invariant lookingAt < |p| && (cname.Some? ==> |cname.value| <= 0xff)
        invariant ItemsFrom(p, lookingAt, cname) == ItemsFrom(p, start, None)
        decreases |p| - lookingAt
      {
        var itemType := p[lookingAt];
        if lookingAt + 1 >= |p| { return None; }
        var itemLength := p[lookingAt + 1];
        if lookingAt + 2 + itemLength + 1 > |p| { return None; }
        var next := cname;
        if itemType == CNAME_TAG {
          if cname.Some? { return None; }
          next := Some(p[lookingAt + 2..lookingAt + 2 + itemLength]);
        }
        cname := next;
        lookingAt := lookingAt + 2 + itemLength;
      }
      return Some(Items(cname, lookingAt + 1));
    }

    /** The chunks with a CNAME, read into a temporary list. */
    method StoreChunks(p: seq<byte>, count: nat) returns (ok: bool, parsed: seq<Chunk>, length: nat)
      ensures ok <==> ChunksFrom(p, 0, count).Some?
      ensures ok ==> parsed == ChunksFrom(p, 0, count).value && length == |ChunksImage(parsed)|
    {
      hide ItemsFrom, Value32, ChunkImage;
      parsed, length := [], 0;
      var remaining: nat, lookingAt: nat := count, 0;
      EmptyParse(ChunksFrom(p, 0, count));
      while remaining > 0
        invariant lookingAt <= |p| && AllNamed(parsed) && length == |ChunksImage(parsed)|
        invariant Joined(parsed, ChunksFrom(p, lookingAt, remaining)) == ChunksFrom(p, 0, count)
      {
        if |p| - lookingAt < 8 { return false, [], 0; }
        var ssrc := Read32(p, lookingAt);
        var items := StoreItems(p, lookingAt + 4);
        if items.None? { return false, [], 0; }
        ghost var rest := ChunksFrom(p, Aligned(|p|, items.value.next), remaining - 1);
        ParsesChunk(p, lookingAt, remaining, items, rest);
        if items.value.cname.Some? {
          var c := Chunk(ssrc, items.value.cname.value);
          ChunksImageAppend(parsed, c);
          JoinedStep(parsed, c, rest);
          parsed := parsed + [c];
          length := length + ChunkSize(c);
        }
        lookingAt := Aligned(|p|, items.value.next);
        remaining := remaining - 1;
      }
      EmptyRight(parsed);
      return true, parsed, length;
    }

    /** Takes over the chunks with a CNAME, or leaves the object as it is. */
    method StorePacket(h: CommonHeader) returns (ok: bool)
      requires Valid() && h.count <= MAX_CHUNKS
      modifies this
      ensures Valid() && (ok <==> ParsedSdes(h).Some?)
      ensures chunks == if ok then ParsedSdes(h).value else old(chunks)
    {
      if h.packetType != SDES_TYPE { return false; }
      if |h.payload| % 4 != 0 { return false; }
      var parsed: seq<Chunk>, length: nat;
      ok, parsed, length := StoreChunks(h.payload, h.count);
      if ok {
        chunks, chunksBufferLength := parsed, length;
      }
    }
  }
}
