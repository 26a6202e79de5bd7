/** Octets as integers, their bitwise operators, and big-endian access to
    fixed-width unsigned values. */
module ByteIo {

  type byte = n: int | 0 <= n < 0x100
  type U16 = n: int | 0 <= n < 0x1_0000
  type U32 = n: int | 0 <= n < 0x1_0000_0000

  // ---------- bitwise operators ----------

  function XorBits(a: nat, b: nat, bits: nat): (r: nat)
    ensures r < Pow2(bits)
  {
    if bits == 0 then 0
    else 2 * XorBits(a / 2, b / 2, bits - 1) + XorBit(a, b)
  }

  function XorBit(a: nat, b: nat): nat {
    if a % 2 == b % 2 then 0 else 1
  }

  function OrBits(a: nat, b: nat, bits: nat): (r: nat)
    ensures r < Pow2(bits)
  {
    if bits == 0 then 0
    else 2 * OrBits(a / 2, b / 2, bits - 1) + if a % 2 == 1 || b % 2 == 1 then 1 else 0
  }

  function Pow2(k: nat): (p: nat)
    ensures p > 0
  {
    if k == 0 then 1 else 2 * Pow2(k - 1)
  }

  function Xor(a: byte, b: byte): byte {
    assert Pow2(8) == 256;
    XorBits(a, b, 8)
  }

  function Or(a: byte, b: byte): byte {
    assert Pow2(8) == 256;
    OrBits(a, b, 8)
  }

  lemma {:induction false} XorBitsAssoc(a: nat, b: nat, c: nat, bits: nat)
    ensures XorBits(XorBits(a, b, bits), c, bits) == XorBits(a, XorBits(b, c, bits), bits)
  {
    if bits != 0 {
      XorBitsAssoc(a / 2, b / 2, c / 2, bits - 1);
      var ab, bc := XorBits(a, b, bits), XorBits(b, c, bits);
      assert ab / 2 == XorBits(a / 2, b / 2, bits - 1) && ab % 2 == XorBit(a, b);
      assert bc / 2 == XorBits(b / 2, c / 2, bits - 1) && bc % 2 == XorBit(b, c);
      assert XorBit(ab, c) == XorBit(a, bc);
    }
  }

  lemma {:induction false} XorBitsUnits(a: nat, b: nat, bits: nat)
    ensures XorBits(a, b, bits) == XorBits(b, a, bits)
    ensures a < Pow2(bits) ==> XorBits(a, 0, bits) == a
    ensures XorBits(a, a, bits) == 0
  {
    if bits != 0 {
      XorBitsUnits(a / 2, b / 2, bits - 1);
    }
  }

  lemma XorLaws(a: byte, b: byte, c: byte)
    ensures Xor(a, b) == Xor(b, a)
    ensures Xor(Xor(a, b), c) == Xor(a, Xor(b, c))
    ensures Xor(a, 0) == a
    ensures Xor(a, a) == 0
  {
    assert Pow2(8) == 256;
    XorBitsAssoc(a, b, c, 8);
    XorBitsUnits(a, b, 8);
  }

  /** Or-ing in bits that are all clear is addition. */
  lemma {:induction false} OrDisjoint(high: nat, low: nat, k: nat, bits: nat)
    requires k <= bits && low < Pow2(k)
    requires high * Pow2(k) + low < Pow2(bits)
    ensures OrBits(high * Pow2(k), low, bits) == high * Pow2(k) + low
    decreases bits
  {
    if bits != 0 {
      if k == 0 {
        OrZero(high, bits);
      } else {
        var half := Pow2(k - 1);
        assert high * Pow2(k) == 2 * (high * half);
        OrDisjoint(high, low / 2, k - 1, bits - 1);
      }
    }
  }

  lemma {:induction false} OrZero(a: nat, bits: nat)
    requires a < Pow2(bits)
    ensures OrBits(a, 0, bits) == a
  {
    if bits != 0 {
      OrZero(a / 2, bits - 1);
    }
  }

  // ---------- fixed-width values ----------

  function Image16(v: U16): (bytes: seq<byte>)
    ensures |bytes| == 2
  {
    [v / 0x100, v % 0x100]
  }

  function Value16(bytes: seq<byte>): U16
    requires |bytes| == 2
  {
    (bytes[0] as int) * 0x100 + bytes[1]
  }

  function Image32(v: U32): (bytes: seq<byte>)
    ensures |bytes| == 4
  {
    Image16(v / 0x1_0000) + Image16(v % 0x1_0000)
  }

  function Value32(bytes: seq<byte>): U32
    requires |bytes| == 4
  {
    Value16(bytes[..2]) * 0x1_0000 + Value16(bytes[2..])
  }

  lemma RoundTrip16(v: U16)
    ensures Value16(Image16(v)) == v
  {
  }

  lemma RoundTrip32(v: U32)
    ensures Value32(Image32(v)) == v
  {
    assert Image32(v)[..2] == Image16(v / 0x1_0000);
    assert Image32(v)[2..] == Image16(v % 0x1_0000);
  }

  lemma ImageOf16(bytes: seq<byte>)
    requires |bytes| == 2
    ensures Image16(Value16(bytes)) == bytes
  {
  }

  lemma ImageOf32(bytes: seq<byte>)
    requires |bytes| == 4
    ensures Image32(Value32(bytes)) == bytes
  {
    ImageOf16(bytes[..2]);
    ImageOf16(bytes[2..]);
    assert bytes == bytes[..2] + bytes[2..];
  }

  /** A value is read exactly from its image. */
  lemma Shown16(bytes: seq<byte>, v: U16)
    requires |bytes| == 2
    ensures Value16(bytes) == v <==> bytes == Image16(v)
  {
    ImageOf16(bytes);
    RoundTrip16(v);
  }

  lemma Shown32(bytes: seq<byte>, v: U32)
    requires |bytes| == 4
    ensures Value32(bytes) == v <==> bytes == Image32(v)
  {
    hide Image32, Value32;
    ImageOf32(bytes);
    RoundTrip32(v);
  }

  /** The bytes of a host integer, least significant first. */
  function Host16(v: U16): (bytes: seq<byte>)
    ensures |bytes| == 2
  {
    [v % 0x100, v / 0x100]
  }

  function Host32(v: U32): (bytes: seq<byte>)
    ensures |bytes| == 4
  {
    Host16(v % 0x1_0000) + Host16(v / 0x1_0000)
  }

  // ---------- buffer access ----------

  /** A buffer's contents after `bytes` is written at `at`. */
  function Spliced(buffer: seq<byte>, at: nat, bytes: seq<byte>): (r: seq<byte>)
    requires at + |bytes| <= |buffer|
    ensures |r| == |buffer|
  {
    buffer[..at] + bytes + buffer[at + |bytes|..]
  }

  /** Writing one piece after another is writing both. */
  lemma SplicedPrefix(buffer: seq<byte>, at: nat, a: seq<byte>)
    requires at + |a| <= |buffer|
    ensures Spliced(buffer, at, a)[..at + |a|] == buffer[..at] + a
  {
  }

  lemma SplicedAppend(buffer: seq<byte>, at: nat, a: seq<byte>, b: seq<byte>)
    requires at + |a| + |b| <= |buffer|
    ensures Spliced(Spliced(buffer, at, a), at + |a|, b) == Spliced(buffer, at, a + b)
  {
  }

  lemma SplicedThree(buffer: seq<byte>, at: nat, a: seq<byte>, b: seq<byte>, c: seq<byte>)
    requires at + |a| + |b| + |c| <= |buffer|
    ensures Spliced(Spliced(Spliced(buffer, at, a), at + |a|, b), at + |a| + |b|, c) == Spliced(buffer, at, a + (b + c))
  {
    SplicedAppend(buffer, at, a, b);
    SplicedAppend(buffer, at, a + b, c);
    assert (a + b) + c == a + (b + c);
  }

  lemma SplicedNothing(buffer: seq<byte>, at: nat)
    requires at <= |buffer|
    ensures Spliced(buffer, at, []) == buffer
  {
  }

  /** Copies a host integer's bytes to the buffer in reverse order. */
  method WriteBigEndian(buffer: array<byte>, at: nat, host: seq<byte>)
    requires at + |host| <= buffer.Length
    modifies buffer
    ensures forall k :: 0 <= k < buffer.Length ==>
              buffer[k] == if at <= k < at + |host| then host[|host| - 1 - (k - at)] else old(buffer[k])
  {
    var width := |host|;
    var i := 0;
    while i < width
      invariant 0 <= i <= width
      invariant forall k :: 0 <= k < buffer.Length ==>
                  buffer[k] == if at + width - i <= k < at + width then host[width - 1 - (k - at)] else old(buffer[k])
    {
      buffer[at + (width - 1) - i] := host[i];
      i := i + 1;
    }
  }

  method Write16(buffer: array<byte>, at: nat, v: U16)
    requires at + 2 <= buffer.Length
    modifies buffer
    ensures buffer[..] == Spliced(old(buffer[..]), at, Image16(v))
  {
    WriteBigEndian(buffer, at, Host16(v));
  }

  method Write32(buffer: array<byte>, at: nat, v: U32)
    requires at + 4 <= buffer.Length
    modifies buffer
    ensures buffer[..] == Spliced(old(buffer[..]), at, Image32(v))
  {
    WriteBigEndian(buffer, at, Host32(v));
  }

  /** `memcpy` into a buffer. */
  method CopyInto(buffer: array<byte>, at: nat, data: seq<byte>)
    requires at + |data| <= buffer.Length
    modifies buffer
    ensures buffer[..] == Spliced(old(buffer[..]), at, data)
  {
    forall i | 0 <= i < |data| {
      buffer[at + i] := data[i];
    }
  }

  /** Fills host bytes from the last buffer position back. */
  method ReadBigEndian(buffer: seq<byte>, at: nat, width: nat) returns (host: seq<byte>)
    requires at + width <= |buffer|
    ensures |host| == width
    ensures forall k :: 0 <= k < width ==> host[k] == buffer[at + width - 1 - k]
  {
    host := [];
    var i := 0;
    while i < width
      invariant 0 <= i <= width
      invariant |host| == i
      invariant forall k :: 0 <= k < i ==> host[k] == buffer[at + width - 1 - k]
    {
      host := host + [buffer[at + (width - 1) - i]];
      i := i + 1;
    }
  }

  method Read16(buffer: seq<byte>, at: nat) returns (v: U16)
    requires at + 2 <= |buffer|
    ensures v == Value16(buffer[at..at + 2])
  {
    var host := ReadBigEndian(buffer, at, 2);
    v := (host[1] as int) * 0x100 + host[0];
  }

  method Read32(buffer: seq<byte>, at: nat) returns (v: U32)
    requires at + 4 <= |buffer|
    ensures v == Value32(buffer[at..at + 4])
  {
    var host := ReadBigEndian(buffer, at, 4);
    v := ((host[3] as int) * 0x100 + host[2]) * 0x1_0000 + ((host[1] as int) * 0x100 + host[0]);
  }
}
