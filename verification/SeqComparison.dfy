/** The circular order on 16-bit RTP sequence numbers, and its meaning on
    unwrapped (unbounded) numbers.

    Every other module keeps 16-bit numbers where the program does and relates
    them to unwrapped integers through `Wrap`; the bridge lemmas here are the
    only place where modular arithmetic is done. */
module SeqComparison {

  const SEQ_SPACE := 0x1_0000
  const MAX_SEQ := 0xffff
  const HALF_RANGE := 0x7fff

  type Seq16 = n: int | 0 <= n < 0x1_0000

  /** The 16-bit number that carries the unwrapped number `n`. */
  function Wrap(n: int): Seq16 {
    n % SEQ_SPACE
  }

  function WrapAll(ns: seq<int>): (r: seq<Seq16>)
    ensures |r| == |ns|
  {
    if ns == [] then [] else [Wrap(ns[0])] + WrapAll(ns[1..])
  }

  lemma WrapAllAt(ns: seq<int>, k: nat)
    requires k < |ns|
    ensures WrapAll(ns)[k] == Wrap(ns[k])
  {
    if k > 0 {
      WrapAllAt(ns[1..], k - 1);
    }
  }

  /** Is `b` at most `range` steps after `a`? */
  predicate IsSeqAfterInRange(a: Seq16, b: Seq16, range: Seq16) {
    if a == b then false
    else if b > a then b - a <= range
    else MAX_SEQ - a + b + 1 <= range
  }

  /** Is `a` at most `range` steps before `b`? */
  predicate IsSeqBeforeInRange(a: Seq16, b: Seq16, range: Seq16) {
    IsSeqAfterInRange(a, b, range)
  }

  predicate IsNextSeq(a: Seq16, b: Seq16) {
    IsSeqAfterInRange(a, b, 1)
  }

  predicate IsSeqAfter(a: Seq16, b: Seq16) {
    IsSeqAfterInRange(a, b, HALF_RANGE)
  }

  predicate IsSeqBefore(a: Seq16, b: Seq16) {
    IsSeqAfter(a, b)
  }

  function DiffSeq(a: Seq16, b: Seq16): Seq16 {
    if b >= a then b - a else b + MAX_SEQ - a + 1
  }

  /** The bridge: as long as the true distance cannot alias through the wrap,
      the circular test is the integer one. */
  lemma InRangeBridge(x: int, y: int, range: Seq16)
    requires range - SEQ_SPACE < y - x <= SEQ_SPACE
    ensures IsSeqAfterInRange(Wrap(x), Wrap(y), range) <==> 0 < y - x <= range
  {
    WrapDistance(x, y);
  }

  /** For numbers any distance apart the test sees the distance modulo a cycle. */
  lemma InRangeModulo(x: int, y: int, range: Seq16)
    ensures IsSeqAfterInRange(Wrap(x), Wrap(y), range) <==> 0 < (y - x) % SEQ_SPACE <= range
  {
    WrapDistance(x, y);
  }

  lemma AfterBridge(x: int, y: int)
    requires -HALF_RANGE <= y - x <= HALF_RANGE
    ensures IsSeqAfter(Wrap(x), Wrap(y)) <==> x < y
    ensures Wrap(x) == Wrap(y) <==> x == y
  {
    WrapDistance(x, y);
  }

  lemma NextBridge(x: int, y: int)
    requires -HALF_RANGE <= y - x <= HALF_RANGE
    ensures IsNextSeq(Wrap(x), Wrap(y)) <==> y == x + 1
  {
    WrapDistance(x, y);
  }

  lemma DiffBridge(x: int, y: int)
    requires 0 <= y - x < SEQ_SPACE
    ensures DiffSeq(Wrap(x), Wrap(y)) == y - x
  {
    WrapDistance(x, y);
  }

  lemma WrapDistance(x: int, y: int)
    ensures Wrap(y) - Wrap(x) == (y - x) % SEQ_SPACE || Wrap(y) - Wrap(x) == (y - x) % SEQ_SPACE - SEQ_SPACE
  {
    assert x == SEQ_SPACE * (x / SEQ_SPACE) + Wrap(x);
    assert y == SEQ_SPACE * (y / SEQ_SPACE) + Wrap(y);
  }

  /** Two numbers carried by different unwrapped numbers less than a whole
      cycle apart stay different. */
  lemma WrapInjective(x: int, y: int)
    requires -SEQ_SPACE < y - x < SEQ_SPACE
    ensures Wrap(x) == Wrap(y) <==> x == y
  {
    WrapDistance(x, y);
  }

  /** The order is total except for numbers exactly half a cycle apart, which
      are not ordered either way. */
  lemma UnorderedExactly(a: Seq16, b: Seq16)
    ensures !IsSeqAfter(a, b) && !IsSeqAfter(b, a) <==> a == b || DiffSeq(a, b) == 0x8000
    ensures !(IsSeqAfter(a, b) && IsSeqAfter(b, a))
  {
  }
}
