/** Generic NACK (section 6.2.1 of RFC 4585): packing requested sequence numbers into
    PID/BLP items, unpacking them, and the packet that carries the items. */
module NackItems {
  import opened ByteIo
  import opened SeqComparison
  import opened SeqLemmas
  import FecXor
  import FecShift

  /** A packet identifier and the bitmask of the 16 numbers after it. */
  datatype Item = Item(firstPid: Seq16, bitmask: U16)

  const BLP_BITS := 16

  // ---------- packing ----------

  /** The bit for `n` relative to `first`; 16 or more where there is none. */
  function Shift(first: Seq16, n: Seq16): int
    requires n >= first
  {
    if n == first then MAX_SEQ else n - first - 1
  }

  predicate Fits(first: Seq16, n: Seq16) {
    n >= first && Shift(first, n) < BLP_BITS
  }

  lemma HalfWord()
    ensures Pow2(16) == 0x1_0000
  {
    assert Pow2(4) == 0x10 && Pow2(8) == 0x10 * Pow2(4) && Pow2(12) == 0x10 * Pow2(8) && Pow2(16) == 0x10 * Pow2(12);
  }

  predicate AllFit(first: Seq16, taken: seq<Seq16>) {
    forall k :: 0 <= k < |taken| ==> Fits(first, taken[k])
  }

  function SetBit(mask: U16, shift: nat): U16
    requires shift < BLP_BITS
  {
    HalfWord();
    OrBits(mask, Pow2(shift), BLP_BITS)
  }

  /** How many numbers at the start of `rest` the item that starts at `first` takes. */
  function Taken(first: Seq16, rest: seq<Seq16>): (n: nat)
    ensures n <= |rest|
    ensures forall k :: 0 <= k < n ==> Fits(first, rest[k])
    ensures n < |rest| ==> !Fits(first, rest[n])
  {
    if rest == [] || !Fits(first, rest[0]) then 0 else 1 + Taken(first, rest[1..])
  }

  function MaskOf(first: Seq16, taken: seq<Seq16>): U16
    requires AllFit(first, taken)
  {
    if taken == [] then 0
    else
      assert Fits(first, taken[|taken| - 1]);
      SetBit(MaskOf(first, taken[..|taken| - 1]), Shift(first, taken[|taken| - 1]))
  }

  function Packed(list: seq<Seq16>): (items: seq<Item>)
    decreases |list|
  {
    if list == [] then []
    else
      var n := Taken(list[0], list[1..]);
      [Item(list[0], MaskOf(list[0], list[1..1 + n]))] + Packed(list[1 + n..])
  }

  // ---------- unpacking ----------

  function BitsFrom(pid: Seq16, mask: U16): seq<Seq16>
    decreases mask
  {
    if mask == 0 then []
    else (if mask % 2 == 1 then [pid] else []) + BitsFrom(Wrap(pid + 1), mask / 2)
  }

  function UnpackedItem(item: Item): seq<Seq16> {
    [item.firstPid] + BitsFrom(Wrap(item.firstPid + 1), item.bitmask)
  }

  function Unpacked(items: seq<Item>): seq<Seq16> {
    if items == [] then [] else Unpacked(items[..|items| - 1]) + UnpackedItem(items[|items| - 1])
  }

  lemma {:induction false} UnpackedConcat(a: seq<Item>, b: seq<Item>)
    ensures Unpacked(a + b) == Unpacked(a) + Unpacked(b)
  {
    if b == [] {
      EmptyRight(a);
      EmptyRight(Unpacked(a));
    } else {
      var n := |b| - 1;
      assert (a + b)[..|a + b| - 1] == a + b[..n];
      UnpackedConcat(a, b[..n]);
      Assoc(Unpacked(a), Unpacked(b[..n]), UnpackedItem(b[n]));
    }
  }

  // ---------- the bits of one item ----------

  /** Two increasing lists with the same members are the same. */
  lemma {:induction false} SameMembers(a: seq<int>, b: seq<int>)
    requires Ascending(a) && Ascending(b) && forall m :: m in a <==> m in b
    ensures a == b
    decreases |a|
  {
    if a == [] {
      if b != [] {
        SameFirst(b, a);
      }
    } else {
      SameFirst(a, b);
      var rest, more := a[1..], b[1..];
      forall m ensures m in rest <==> m in more {
        TailMember(a, m);
        TailMember(b, m);
      }
      IncreasingTail(a, 1);
      IncreasingTail(b, 1);
      SameMembers(rest, more);
      SplitAt(a, 1);
      SplitAt(b, 1);
      Singleton(a[..1]);
      Singleton(b[..1]);
    }
  }

  lemma SameFirst(a: seq<int>, b: seq<int>)
    requires Ascending(a) && Ascending(b) && (forall m :: m in a <==> m in b) && a != []
    ensures b != [] && a[0] == b[0]
  {
    assert a[0] in a;
    assert a[0] in b;
    assert b[0] in b;
    assert b[0] in a;
  }

  lemma IncreasingTail(list: seq<int>, from: nat)
    requires Ascending(list) && from <= |list|
    ensures Ascending(list[from..])
  {
  }

  lemma TailMember(a: seq<int>, m: int)
    requires Ascending(a) && a != []
    ensures m in a[1..] <==> m in a && m != a[0]
  {
    assert a == [a[0]] + a[1..];
    if m in a[1..] {
      var k :| 0 <= k < |a[1..]| && a[1..][k] == m;
      assert a[k + 1] == m;
    }
  }

  lemma {:induction false} MaskBits(first: Seq16, taken: seq<Seq16>, i: nat)
    requires AllFit(first, taken)
    requires i < BLP_BITS
    ensures FecXor.BitOf(MaskOf(first, taken), i) == 1 <==> first + 1 + i in taken
  {
    hide FecXor.BitOf, Pow2;
    if taken == [] {
      FecXor.ZeroBit(i);
    } else {
      var before, last := taken[..|taken| - 1], taken[|taken| - 1];
      MaskBits(first, before, i);
      FecXor.OrBit(MaskOf(first, before), Pow2(Shift(first, last)), BLP_BITS, i);
      FecXor.PowerBit(Shift(first, last), i);
      assert taken == before + [last];
    }
  }

  /** `m` is the number of a set bit, when bit 0 stands for `base`. */
  predicate IsSet(mask: nat, base: int, m: int) {
    base <= m && FecXor.BitOf(mask, m - base) == 1
  }

  lemma NothingSet(base: int, m: int)
    ensures !IsSet(0, base, m)
  {
    if base <= m {
      FecXor.ZeroBit(m - base);
    }
  }

  lemma HalfSet(mask: nat, base: int, m: int)
    ensures IsSet(mask, base, m) <==> (m == base && mask % 2 == 1) || IsSet(mask / 2, base + 1, m)
  {
  }

  /** The unwrapped numbers of a mask's bits, when bit 0 stands for `base`. */
  function ReadBits(base: int, mask: nat): seq<int>
    decreases mask
  {
    if mask == 0 then [] else (if mask % 2 == 1 then [base] else []) + ReadBits(base + 1, mask / 2)
  }

  lemma IncreasingCons(x: int, ns: seq<int>)
    requires Ascending(ns) && forall m :: m in ns ==> x < m
    ensures Ascending([x] + ns)
  {
    var r := [x] + ns;
    forall a, b | 0 <= a < b < |r| ensures r[a] < r[b] {
      assert r[b] == ns[b - 1] && ns[b - 1] in ns;
      assert a > 0 ==> r[a] == ns[a - 1];
    }
  }

  /** Reading a mask off gives the numbers of its bits, in increasing order. */
  lemma {:induction false} BitsRead(base: int, mask: nat)
    ensures Ascending(ReadBits(base, mask))
    ensures forall m :: m in ReadBits(base, mask) <==> IsSet(mask, base, m)
    decreases mask
  {
    if mask == 0 {
      forall m ensures !IsSet(mask, base, m) {
        NothingSet(base, m);
      }
    } else {
      BitsRead(base + 1, mask / 2);
      var more := ReadBits(base + 1, mask / 2);
      EmptyLeft(more);
      IncreasingCons(base, more);
      forall m ensures m in ReadBits(base, mask) <==> IsSet(mask, base, m) {
        HalfSet(mask, base, m);
      }
    }
  }

  /** The program reads the same numbers modulo 65536. */
  lemma {:induction false} BitsWrap(base: int, mask: U16)
    ensures |BitsFrom(Wrap(base), mask)| == |ReadBits(base, mask)|
    ensures forall k :: 0 <= k < |ReadBits(base, mask)| ==> BitsFrom(Wrap(base), mask)[k] == Wrap(ReadBits(base, mask)[k])
    decreases mask
  {
    if mask != 0 {
      BitsWrap(base + 1, mask / 2);
      assert Wrap(Wrap(base) + 1) == Wrap(base + 1);
    }
  }

  lemma TakenSet(first: Seq16, taken: seq<Seq16>, m: int)
    requires AllFit(first, taken)
    ensures IsSet(MaskOf(first, taken), first + 1, m) <==> m in taken
  {
    var mask := MaskOf(first, taken);
    if m in taken {
      var k :| 0 <= k < |taken| && taken[k] == m;
      assert Fits(first, taken[k]);
    }
    if first + 1 <= m {
      if m - first - 1 < BLP_BITS {
        MaskBits(first, taken, m - first - 1);
      } else {
        HalfWord();
        FecShift.HighBitZero(mask, BLP_BITS, m - first - 1);
      }
    }
  }

  lemma ReadsTaken(first: Seq16, taken: seq<Seq16>, mask: U16)
    requires Ascending(taken) && forall m :: IsSet(mask, first + 1, m) <==> m in taken
    ensures UnpackedItem(Item(first, mask)) == [first] + taken
  {
    var base := first + 1;
    BitsRead(base, mask);
    SameMembers(ReadBits(base, mask), taken);
    BitsWrap(base, mask);
    assert BitsFrom(Wrap(base), mask) == taken;
  }

  /** An item gives back the numbers it took, when they increase. */
  lemma ItemUnpacks(first: Seq16, taken: seq<Seq16>)
    requires AllFit(first, taken) && Ascending(taken)
    ensures UnpackedItem(Item(first, MaskOf(first, taken))) == [first] + taken
  {
    var mask := MaskOf(first, taken);
    MaskIsTaken(first, taken, mask);
    ReadsTaken(first, taken, mask);
  }

  lemma MaskIsTaken(first: Seq16, taken: seq<Seq16>, mask: U16)
    requires AllFit(first, taken) && mask == MaskOf(first, taken)
    ensures forall m :: IsSet(mask, first + 1, m) <==> m in taken
  {
    forall m ensures IsSet(mask, first + 1, m) <==> m in taken {
      TakenSet(first, taken, m);
    }
  }

  // ---------- the round trip ----------

  /** Each number comes after the one before it. */
  predicate Circular(list: seq<Seq16>) {
    forall k :: 0 < k < |list| ==> IsSeqAfter(list[k - 1], list[k])
  }

  lemma {:induction false} TakenIncreases(first: Seq16, rest: seq<Seq16>)
    requires Circular([first] + rest)
    ensures Ascending(rest[..Taken(first, rest)])
  {
    var taken := rest[..Taken(first, rest)];
    var list := [first] + rest;
    forall k | 0 < k < |taken| ensures taken[k - 1] < taken[k] {
      assert IsSeqAfter(list[k], list[k + 1]);
      assert Fits(first, rest[k - 1]) && Fits(first, rest[k]);
    }
    StepwiseIncreasing(taken);
  }

  lemma {:induction false} StepwiseIncreasing(ns: seq<int>)
    requires forall k :: 0 < k < |ns| ==> ns[k - 1] < ns[k]
    ensures Ascending(ns)
  {
    if ns != [] {
      var before := ns[..|ns| - 1];
      StepwiseIncreasing(before);
      forall a, b | 0 <= a < b < |ns| ensures ns[a] < ns[b] {
        if b == |ns| - 1 && a < b - 1 {
          assert before[a] < before[b - 1];
        }
      }
    }
  }

  lemma CircularTail(list: seq<Seq16>, from: nat)
    requires Circular(list) && from <= |list|
    ensures Circular(list[from..])
  {
    var later := list[from..];
    forall k | 0 < k < |later| ensures IsSeqAfter(later[k - 1], later[k]) {
      var j := from + k;
      assert IsSeqAfter(list[j - 1], list[j]);
    }
  }

  lemma UnpackedCons(item: Item, items: seq<Item>)
    ensures Unpacked([item] + items) == UnpackedItem(item) + Unpacked(items)
  {
    UnpackedConcat([item], items);
    assert [item][..0] == [];
    EmptyLeft(UnpackedItem(item));
  }

  /** The first item of a packed list takes what it can. */
  lemma FirstItem(list: seq<Seq16>, n: nat)
    requires Circular(list) && list != [] && n == Taken(list[0], list[1..])
    ensures 1 + n <= |list| && AllFit(list[0], list[1..1 + n])
    ensures UnpackedItem(Item(list[0], MaskOf(list[0], list[1..1 + n]))) == list[..1 + n]
  {
    var first, rest := list[0], list[1..];
    assert list == [first] + rest;
    assert list[1..1 + n] == rest[..n];
    TakenIncreases(first, rest);
    ItemUnpacks(first, rest[..n]);
    assert list[..1 + n] == [first] + rest[..n];
  }

  /** Unpacking undoes packing on every list in which each number comes after the one
      before it, wrapping ones included. */
  lemma {:induction false} PackRoundTrip(list: seq<Seq16>)
    requires Circular(list)
    ensures Unpacked(Packed(list)) == list
    decreases |list|
  {
    if list != [] {
      var n := Taken(list[0], list[1..]);
      FirstItem(list, n);
      CircularTail(list, 1 + n);
      PackRoundTrip(list[1 + n..]);
      UnpackedCons(Item(list[0], MaskOf(list[0], list[1..1 + n])), Packed(list[1 + n..]));
      SplitAt(list, 1 + n);
    }
  }

  // ---------- the fewest items ----------

  /** What a single item unpacks to is one number and increasing ones at most 16 above it, as
      long as they do not wrap. */
  lemma ItemReach(item: Item, list: seq<Seq16>, c: nat)
    requires Ascending(list) && 0 < c <= |list| && UnpackedItem(item) == list[..c]
    ensures c - 1 <= Taken(list[0], list[1..])
  {
    var all := UnpackedItem(item);
    forall k | 1 <= k < c ensures Fits(list[0], list[k]) {
      assert all[k] == list[k] && all[0] == list[0] == item.firstPid;
      HalfWord();
      BitsReach(Wrap(item.firstPid + 1), item.bitmask, BLP_BITS, k - 1);
    }
    TakenAtLeast(list[0], list[1..], c - 1);
  }

  lemma {:induction false} BitsReach(pid: Seq16, mask: U16, bits: nat, k: nat)
    requires mask < Pow2(bits) && k < |BitsFrom(pid, mask)|
    ensures DiffSeq(pid, BitsFrom(pid, mask)[k]) < bits
    decreases bits
  {
    hide DiffSeq, Wrap;
    var more := BitsFrom(Wrap(pid + 1), mask / 2);
    var d := if mask % 2 == 1 then 1 else 0;
    EmptyLeft(more);
    if k >= d {
      assert BitsFrom(pid, mask)[k] == more[k - d];
      BitsReach(Wrap(pid + 1), mask / 2, bits - 1, k - d);
      NextReach(pid, more[k - d], bits);
    } else {
      SelfReach(pid);
    }
  }

  lemma NextReach(pid: Seq16, n: Seq16, bits: nat)
    requires DiffSeq(Wrap(pid + 1), n) < bits - 1
    ensures DiffSeq(pid, n) < bits
  {
  }

  lemma SelfReach(pid: Seq16)
    ensures DiffSeq(pid, pid) == 0
  {
  }

  lemma {:induction false} TakenAtLeast(first: Seq16, rest: seq<Seq16>, c: nat)
    requires c <= |rest| && forall k :: 0 <= k < c ==> Fits(first, rest[k])
    ensures c <= Taken(first, rest)
  {
    if c > 0 {
      TakenAtLeast(first, rest[1..], c - 1);
    }
  }

  /** How many items the part of a list from `from` on needs. */
  function Needed(list: seq<Seq16>, from: nat): nat
    requires from <= |list|
  {
    |Packed(list[from..])|
  }

  /** Where the item that starts at `from` stops. */
  function Stop(list: seq<Seq16>, from: nat): (stop: nat)
    requires from < |list|
    ensures from < stop <= |list|
  {
    from + 1 + Taken(list[from], list[from + 1..])
  }

  /** One item, then the rest. */
  lemma NeededUnfolds(list: seq<Seq16>, from: nat)
    requires from < |list|
    ensures Needed(list, from) == 1 + Needed(list, Stop(list, from))
  {
    var later := list[from..];
    assert later[1..] == list[from + 1..];
    assert later[Stop(list, from) - from..] == list[Stop(list, from)..];
  }

  /** In an increasing list an item that starts later stops no earlier. */
  lemma LaterStopsLater(list: seq<Seq16>, a: nat, c: nat)
    requires a < |list| && Ascending(list) && a <= c < Stop(list, a)
    ensures c < |list| && Stop(list, a) <= Stop(list, c)
  {
    var n := Stop(list, a) - (c + 1);
    var later := list[c + 1..];
    forall k | 0 <= k < n ensures Fits(list[c], later[k]) {
      assert Fits(list[a], list[a + 1..][c - a + k]);
    }
    TakenAtLeast(list[c], later, n);
  }

  /** Dropping numbers from the front of an increasing list never makes packing need
      more items. */
  lemma {:induction false} ShorterNeedsFewer(list: seq<Seq16>, a: nat, c: nat)
    requires Ascending(list) && a <= c <= |list|
    ensures Needed(list, c) <= Needed(list, a)
    decreases |list| - a
  {
    if a < c < |list| {
      NeededUnfolds(list, a);
      if c < Stop(list, a) {
        LaterStopsLater(list, a, c);
        NeededUnfolds(list, c);
        ShorterNeedsFewer(list, Stop(list, a), Stop(list, c));
      } else {
        ShorterNeedsFewer(list, Stop(list, a), c);
      }
    }
  }

  /** What the first of some other items leaves is no shorter than what packing leaves. */
  lemma FirstTakesMore(list: seq<Seq16>, item: Item, c: nat)
    requires Ascending(list) && 0 < c <= |list| && UnpackedItem(item) == list[..c]
    ensures |Packed(list)| <= 1 + |Packed(list[c..])|
  {
    ItemReach(item, list, c);
    assert list[0..] == list;
    NeededUnfolds(list, 0);
    ShorterNeedsFewer(list, c, Stop(list, 0));
  }

  /** Greedy packing is the best there is: no other items that unpack to a list of
      increasing numbers are fewer. */
  lemma {:induction false} PackIsMinimal(list: seq<Seq16>, other: seq<Item>)
    requires Ascending(list) && Unpacked(other) == list
    ensures |Packed(list)| <= |other|
    decreases |other|
  {
    if other != [] {
      var item, rest := other[0], other[1..];
      assert other == [item] + rest;
      UnpackedCons(item, rest);
      var c := |UnpackedItem(item)|;
      assert UnpackedItem(item) == list[..c] && Unpacked(rest) == list[c..];
      FirstTakesMore(list, item, c);
      IncreasingTail(list, c);
      PackIsMinimal(list[c..], rest);
    }
  }

  /** Across the wrap greedy packing can need one item too many: 65535 and 0. */
  lemma WrapNeedsMore()
    ensures |Packed([65535, 0])| == 2 && Unpacked([Item(65535, 1)]) == [65535, 0]
  {
    var list: seq<Seq16> := [65535, 0];
    assert list[1..] == [0] && Taken(65535, [0]) == 0;
    assert list[1 + 0..] == [0];
    assert Packed(list) == [Item(65535, MaskOf(65535, []))] + Packed([0]);
    assert Packed([0]) == [Item(0, MaskOf(0, []))] + Packed([]);
    UnpackedCons(Item(65535, 1), []);
    assert BitsFrom(0, 1) == [0] + BitsFrom(1, 0);
  }

  // ---------- across the wrap ----------

  /** The same list counted from `k` on. */
  function Renumbered(list: seq<Seq16>, k: int): (r: seq<Seq16>)
    ensures |r| == |list| && forall j :: 0 <= j < |list| ==> r[j] == Wrap(list[j] - k)
  {
    seq(|list|, j requires 0 <= j < |list| => Wrap(list[j] - k))
  }

  function RenumberedItems(items: seq<Item>, k: int): (r: seq<Item>)
    ensures |r| == |items| && forall j :: 0 <= j < |items| ==> r[j] == Item(Wrap(items[j].firstPid - k), items[j].bitmask)
  {
    seq(|items|, j requires 0 <= j < |items| => Item(Wrap(items[j].firstPid - k), items[j].bitmask))
  }

  lemma WrapMoves(x: int, d: int, k: int)
    ensures Wrap(Wrap(x + d) - k) == Wrap(Wrap(x - k) + d)
  {
  }

  lemma RenumberedBack(list: seq<Seq16>, k: int)
    ensures Renumbered(Renumbered(list, k), -k) == list
  {
    hide Wrap;
    forall j | 0 <= j < |list| ensures Renumbered(Renumbered(list, k), -k)[j] == list[j] {
      CountedBack(list[j], k);
    }
  }

  lemma CountedBack(x: Seq16, k: int)
    ensures Wrap(Wrap(x - k) - -k) == x
  {
    WrapMoves(x, 0, k);
  }

  lemma RenumberedConcat(a: seq<Seq16>, b: seq<Seq16>, k: int)
    ensures Renumbered(a + b, k) == Renumbered(a, k) + Renumbered(b, k)
  {
  }

  /** Reading a mask does not care where counting starts. */
  lemma {:induction false} BitsRenumbered(pid: Seq16, mask: U16, k: int)
    ensures BitsFrom(Wrap(pid - k), mask) == Renumbered(BitsFrom(pid, mask), k)
    decreases mask
  {
    hide Wrap;
    if mask != 0 {
      var more := BitsFrom(Wrap(pid + 1), mask / 2);
      BitsRenumbered(Wrap(pid + 1), mask / 2, k);
      WrapMoves(pid, 1, k);
      if mask % 2 == 1 {
        RenumberedConcat([pid], more, k);
        assert Renumbered([pid], k) == [Wrap(pid - k)];
      } else {
        EmptyLeft(more);
        EmptyLeft(Renumbered(more, k));
      }
    }
  }

  lemma ItemRenumbered(item: Item, k: int)
    ensures UnpackedItem(Item(Wrap(item.firstPid - k), item.bitmask)) == Renumbered(UnpackedItem(item), k)
  {
    hide Wrap;
    var pid := item.firstPid;
    BitsRenumbered(Wrap(pid + 1), item.bitmask, k);
    WrapMoves(pid, 1, k);
    RenumberedConcat([pid], BitsFrom(Wrap(pid + 1), item.bitmask), k);
    assert Renumbered([pid], k) == [Wrap(pid - k)];
  }

  lemma {:induction false} UnpackedRenumbered(items: seq<Item>, k: int)
    ensures Unpacked(RenumberedItems(items, k)) == Renumbered(Unpacked(items), k)
  {
    hide Wrap, UnpackedItem;
    if items != [] {
      var n := |items| - 1;
      UnpackedRenumbered(items[..n], k);
      ItemRenumbered(items[n], k);
      assert RenumberedItems(items, k)[..n] == RenumberedItems(items[..n], k);
      RenumberedConcat(Unpacked(items[..n]), UnpackedItem(items[n]), k);
    }
  }

  /** No other items that unpack to the list are fewer. */
  ghost predicate Fewest(items: seq<Item>) {
    forall other :: Unpacked(other) == Unpacked(items) ==> |items| <= |other|
  }

  /** The fewest items for a list that increases when counted from `k` on are as many as
      packing gives that count. */
  lemma FewestItems(list: seq<Seq16>, k: int, other: seq<Item>)
    requires Ascending(Renumbered(list, k)) && Unpacked(other) == list
    ensures |Packed(Renumbered(list, k))| <= |other|
  {
    UnpackedRenumbered(other, k);
    PackIsMinimal(Renumbered(list, k), RenumberedItems(other, k));
  }

  lemma FewestReached(list: seq<Seq16>, k: int)
    requires Ascending(Renumbered(list, k)) && Circular(Renumbered(list, k))
    ensures Unpacked(RenumberedItems(Packed(Renumbered(list, k)), -k)) == list
  {
    PackRoundTrip(Renumbered(list, k));
    UnpackedRenumbered(Packed(Renumbered(list, k)), -k);
    RenumberedBack(list, k);
  }

  lemma StepMoves(a: Seq16, b: Seq16, k: int)
    ensures IsSeqAfter(Wrap(a - k), Wrap(b - k)) <==> IsSeqAfter(a, b)
  {
  }

  lemma CircularMoves(list: seq<Seq16>, k: int)
    requires Circular(list)
    ensures Circular(Renumbered(list, k))
  {
    hide Wrap, IsSeqAfter;
    var r := Renumbered(list, k);
    forall j | 0 < j < |r| ensures IsSeqAfter(r[j - 1], r[j]) {
      StepMoves(list[j - 1], list[j], k);
    }
  }

  /** When packing is the best there is, wrapping lists included: if and only if it takes
      no more items than for the same list counted from a start that keeps it from
      wrapping, its own first number for instance. */
  lemma PackMinimalExactly(list: seq<Seq16>, k: int)
    requires Circular(list) && Ascending(Renumbered(list, k))
    ensures Fewest(Packed(list)) <==> |Packed(list)| == |Packed(Renumbered(list, k))|
  {
    hide Renumbered, RenumberedItems, Circular;
    PackRoundTrip(list);
    FewestItems(list, k, Packed(list));
    CircularMoves(list, k);
    FewestReached(list, k);
    var best := RenumberedItems(Packed(Renumbered(list, k)), -k);
    if |Packed(list)| == |Packed(Renumbered(list, k))| {
      forall other | Unpacked(other) == Unpacked(Packed(list)) ensures |Packed(list)| <= |other| {
        FewestItems(list, k, other);
      }
    }
  }
}
