/** XOR over a group of packet buffers of unequal lengths, column by column. */
module FecXor {
  import opened ByteIo

  const RTP_HEADER := 12
  const LENGTH_HIGH := -1
  const LENGTH_LOW := -2

  type Buffer = seq<byte>

  /** A packet buffer seen as an endless column vector: its bytes, zeros after the
      end, and at two negative positions the bytes of its payload length. */
  function Entry(buffer: Buffer, i: int): byte {
    if 0 <= i < |buffer| then buffer[i]
    else if i == LENGTH_HIGH && RTP_HEADER <= |buffer| < RTP_HEADER + 0x1_0000 then (|buffer| - RTP_HEADER) / 0x100
    else if i == LENGTH_LOW && RTP_HEADER <= |buffer| < RTP_HEADER + 0x1_0000 then (|buffer| - RTP_HEADER) % 0x100
    else 0
  }

  function XorColumn(buffers: seq<Buffer>, i: int): byte {
    if buffers == [] then 0
    else Xor(XorColumn(buffers[..|buffers| - 1], i), Entry(buffers[|buffers| - 1], i))
  }

  lemma {:induction false} XorColumnConcat(a: seq<Buffer>, b: seq<Buffer>, i: int)
    ensures XorColumn(a + b, i) == Xor(XorColumn(a, i), XorColumn(b, i))
  {
    if b == [] {
      assert a + b == a;
      XorLaws(XorColumn(a, i), 0, 0);
    } else {
      var init, last := b[..|b| - 1], b[|b| - 1];
      assert (a + b)[..|a + b| - 1] == a + init;
      XorColumnConcat(a, init, i);
      XorLaws(XorColumn(a, i), XorColumn(init, i), Entry(last, i));
    }
  }

  lemma XorColumnOne(x: Buffer, i: int)
    ensures XorColumn([x], i) == Entry(x, i)
  {
    XorLaws(Entry(x, i), 0, 0);
    assert [x][..0] == [];
  }

  /** Taking the member at `k` out. */
  lemma XorColumnSplit(buffers: seq<Buffer>, k: nat, i: int)
    requires k < |buffers|
    ensures XorColumn(buffers, i) == Xor(XorColumn(buffers[..k] + buffers[k + 1..], i), Entry(buffers[k], i))
  {
    var a, x, b := buffers[..k], buffers[k], buffers[k + 1..];
    assert buffers == a + ([x] + b);
    XorColumnConcat(a, [x] + b, i);
    XorColumnConcat([x], b, i);
    XorColumnConcat(a, b, i);
    XorColumnOne(x, i);
    var ca, cx, cb := XorColumn(a, i), Entry(x, i), XorColumn(b, i);
    XorLaws(ca, cx, cb);
    XorLaws(cx, cb, 0);
    XorLaws(ca, cb, cx);
  }

  /** The order of the members does not matter. */
  lemma {:induction false} XorColumnOrder(a: seq<Buffer>, b: seq<Buffer>, i: int)
    requires multiset(a) == multiset(b)
    ensures XorColumn(a, i) == XorColumn(b, i)
    decreases |a|
  {
    if a == [] {
      assert |b| == |multiset(b)|;
    } else {
      var last := a[|a| - 1];
      var init := a[..|a| - 1];
      assert a == init + [last];
      assert last in multiset(b);
      var k :| 0 <= k < |b| && b[k] == last;
      var rest := b[..k] + b[k + 1..];
      assert b == b[..k] + [b[k]] + b[k + 1..];
      assert multiset(rest) == multiset(b) - multiset{last};
      XorColumnOrder(init, rest, i);
      XorColumnSplit(b, k, i);
    }
  }

  /** What is left when all members but one are XORed into the parity. */
  lemma XorCancels(group: seq<Buffer>, others: seq<Buffer>, missing: Buffer, i: int)
    requires multiset(group) == multiset(others) + multiset{missing}
    ensures Xor(XorColumn(group, i), XorColumn(others, i)) == Entry(missing, i)
  {
    assert multiset(others + [missing]) == multiset(group);
    XorColumnOrder(group, others + [missing], i);
    XorColumnConcat(others, [missing], i);
    XorColumnOne(missing, i);
    var x, m := XorColumn(others, i), Entry(missing, i);
    XorLaws(x, m, x);
    XorLaws(m, x, x);
    XorLaws(x, 0, m);
    XorLaws(m, 0, x);
  }

  // ---------- bits ----------

  /** Bit `i` counted from the least significant one. */
  function BitOf(v: nat, i: nat): int
    decreases i
  {
    if i == 0 then v % 2 else BitOf(v / 2, i - 1)
  }

  lemma {:induction false} OrBit(a: nat, b: nat, bits: nat, i: nat)
    requires i < bits
    ensures BitOf(OrBits(a, b, bits), i) == 1 <==> BitOf(a, i) == 1 || BitOf(b, i) == 1
    decreases bits
  {
    if i > 0 {
      OrBit(a / 2, b / 2, bits - 1, i - 1);
    }
  }

  lemma {:induction false} PowerBit(m: nat, i: nat)
    ensures BitOf(Pow2(m), i) == 1 <==> i == m
    decreases m
  {
    if m == 0 {
      if i > 0 {
        ZeroBit(i - 1);
      }
    } else if i > 0 {
      PowerBit(m - 1, i - 1);
    }
  }

  lemma {:induction false} ZeroBit(i: nat)
    ensures BitOf(0, i) == 0
  {
    if i > 0 {
      ZeroBit(i - 1);
    }
  }

  /** The lowest `k` bits of a number. */
  function LowBits(v: nat, k: nat): nat {
    if k == 0 then 0 else 2 * LowBits(v / 2, k - 1) + v % 2
  }

  lemma {:induction false} LowBitsMod(v: nat, k: nat)
    ensures LowBits(v, k) == v % Pow2(k)
    decreases k
  {
    if k > 0 {
      LowBitsMod(v / 2, k - 1);
      HalfMod(v, Pow2(k - 1));
    }
  }

  /** The low bits of an XOR depend on the low bits of its operands only. */
  lemma {:induction false} XorLowBits(a: nat, c: nat, b: nat, k: nat, bits: nat)
    requires k <= bits && LowBits(a, k) == LowBits(c, k)
    ensures LowBits(XorBits(a, b, bits), k) == LowBits(XorBits(c, b, bits), k)
    decreases k
  {
    if k > 0 {
      XorLowBits(a / 2, c / 2, b / 2, k - 1, bits - 1);
      XorHalves(a, b, bits);
      XorHalves(c, b, bits);
    }
  }

  lemma XorHalves(a: nat, b: nat, bits: nat)
    requires bits > 0
    ensures XorBits(a, b, bits) / 2 == XorBits(a / 2, b / 2, bits - 1)
    ensures XorBits(a, b, bits) % 2 == XorBit(a, b)
  {
  }

  lemma HalfMod(a: nat, p: nat)
    requires p > 0
    ensures (a % (2 * p)) / 2 == (a / 2) % p
    ensures (a % (2 * p)) % 2 == a % 2
  {
    var h := a / 2;
    var q := h / p;
    assert h == p * q + h % p;
    assert a == 2 * h + a % 2;
    assert a == (2 * p) * q + (2 * (h % p) + a % 2) by {
      assert 2 * (p * q) == (2 * p) * q;
    }
    var r := 2 * (h % p) + a % 2;
    assert 0 <= r < 2 * p;
    ModUnique(a, 2 * p, q, r);
  }

  lemma ModUnique(a: nat, d: nat, q: int, r: nat)
    requires d > 0 && r < d && a == d * q + r
    ensures a % d == r
  {
    var q' := a / d;
    assert a == d * q' + a % d;
    assert d * (q' - q) == r - a % d;
    if q' != q {
      NonZeroMultiple(d, q' - q);
    }
  }

  lemma NonZeroMultiple(d: nat, x: int)
    requires x != 0
    ensures d * x >= d || d * x + d <= 0
  {
    if x >= 1 {
      assert d * (x - 1) >= 0;
    } else {
      assert d * (-x - 1) >= 0;
    }
  }
}
