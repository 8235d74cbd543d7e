/** Numbers as bits, most significant first, and the bitwise operations on them. */
module Bits {
  import opened Arithmetic
  import opened Bytes

  type bit = b: int | 0 <= b < 2

  /** The n low bits of v, most significant first; v may be negative (two's complement). */
  function BitsOf(v: int, n: nat): (s: seq<bit>)
    ensures |s| == n
    decreases n
  {
    if n == 0 then [] else BitsOf(v / 2, n - 1) + [v % 2]
  }

  function Value(bits: seq<bit>): (v: nat)
    ensures v < Pow2(|bits|)
  {
    if bits == [] then 0 else Value(bits[..|bits| - 1]) * 2 + bits[|bits| - 1]
  }

  lemma {:induction false} ValueOfBits(v: nat, n: nat)
    requires v < Pow2(n)
    ensures Value(BitsOf(v, n)) == v
  {
    if n > 0 {
      ValueOfBits(v / 2, n - 1);
      assert BitsOf(v, n)[..n - 1] == BitsOf(v / 2, n - 1);
    }
  }

  lemma {:induction false} BitsOfValue(bits: seq<bit>)
    ensures BitsOf(Value(bits), |bits|) == bits
  {
    if bits != [] {
      var n := |bits| - 1;
      BitsOfValue(bits[..n]);
      assert Value(bits) / 2 == Value(bits[..n]) && Value(bits) % 2 == bits[n];
      assert bits == bits[..n] + [bits[n]];
    }
  }

  /** A number is determined by its bits. */
  lemma SameBits(a: nat, b: nat, n: nat)
    requires a < Pow2(n) && b < Pow2(n) && BitsOf(a, n) == BitsOf(b, n)
    ensures a == b
  {
    ValueOfBits(a, n);
    ValueOfBits(b, n);
  }

  lemma {:induction false} ValueAppend(a: seq<bit>, b: seq<bit>)
    ensures Value(a + b) == Value(a) * Pow2(|b|) + Value(b)
    decreases |b|
  {
    if b == [] {
      assert a + b == a && Value(b) == 0 && Pow2(|b|) == 1;
    } else {
      var n := |b| - 1;
      ValueAppend(a, b[..n]);
      assert (a + b)[..|a + b| - 1] == a + b[..n];
      Doubled(Value(a), Pow2(n), Value(b[..n]), b[n]);
    }
  }

  lemma Doubled(v: nat, p: nat, w: nat, x: nat)
    ensures (v * p + w) * 2 + x == v * (2 * p) + (w * 2 + x)
  {
  }

  lemma Pow2Of32()
    ensures Pow2(31) == 0x8000_0000 && Pow2(32) == TWO_32
  {
    assert Pow2(8) == 0x100;
    assert Pow2(16) == 0x1_0000;
    assert Pow2(24) == 0x100_0000;
  }

  // ---- bitwise operations --------------------------------------------------------------------------------------------

  function XorOf(s: seq<bit>, t: seq<bit>): (r: seq<bit>)
    requires |s| == |t|
    ensures |r| == |s|
  {
    seq(|s|, k requires 0 <= k < |s| => if s[k] == t[k] then 0 else 1)
  }

  function AndOf(s: seq<bit>, t: seq<bit>): (r: seq<bit>)
    requires |s| == |t|
    ensures |r| == |s|
  {
    seq(|s|, k requires 0 <= k < |s| => if s[k] == 1 then t[k] else 0)
  }

  function OrOf(s: seq<bit>, t: seq<bit>): (r: seq<bit>)
    requires |s| == |t|
    ensures |r| == |s|
  {
    seq(|s|, k requires 0 <= k < |s| => if s[k] == 1 then 1 else t[k])
  }

  function NotOf(s: seq<bit>): (r: seq<bit>)
    ensures |r| == |s|
  {
    seq(|s|, k requires 0 <= k < |s| => 1 - s[k])
  }

  /** The exclusive or of numbers of n bits. */
  function Xor(a: nat, b: nat, n: nat): (x: nat)
    ensures x < Pow2(n)
  {
    Value(XorOf(BitsOf(a, n), BitsOf(b, n)))
  }

  /** Bit by bit it is the sum modulo two. */
  lemma XorBitwise(a: nat, b: nat, n: nat, k: nat)
    requires k < n
    ensures BitsOf(Xor(a, b, n), n)[k] == (BitsOf(a, n)[k] as int + BitsOf(b, n)[k]) % 2
  {
    hide BitsOf, Value;
    BitsOfValue(XorOf(BitsOf(a, n), BitsOf(b, n)));
  }

  lemma XorTwice(a: nat, b: nat, n: nat)
    requires a < Pow2(n)
    ensures Xor(Xor(a, b, n), b, n) == a
  {
    hide BitsOf, Value;
    var s, t := BitsOf(a, n), BitsOf(b, n);
    BitsOfValue(XorOf(s, t));
    assert XorOf(XorOf(s, t), t) == s;
    ValueOfBits(a, n);
  }

  /** From the last bit on. */
  lemma XorPush(a: nat, b: nat, n: nat, x: bit, y: bit)
    ensures Xor(a * 2 + x, b * 2 + y, n + 1) == Xor(a, b, n) * 2 + if x == y then 0 else 1
    ensures Xor(a, b, 0) == 0
  {
    hide Value;
    var front, last := XorOf(BitsOf(a, n), BitsOf(b, n)), if x == y then 0 else 1;
    assert (a * 2 + x) / 2 == a && (b * 2 + y) / 2 == b;
    assert XorOf(BitsOf(a * 2 + x, n + 1), BitsOf(b * 2 + y, n + 1)) == front + [last];
    ValuePush(front, last);
    NoValue();
    assert XorOf(BitsOf(a, 0), BitsOf(b, 0)) == [];
  }

  lemma ValuePush(s: seq<bit>, x: bit)
    ensures Value(s + [x]) == Value(s) * 2 + x
  {
    assert (s + [x])[..|s|] == s;
  }

  lemma NoValue()
    ensures Value([]) == 0
  {
  }

  // ---- bytes -----------------------------------------------------------------------------------------------------------

  function Zeros(n: nat): (s: seq<bit>)
    ensures |s| == n
  {
    seq(n, i => 0)
  }

  lemma {:induction false} ZeroBits(n: nat)
    ensures BitsOf(0, n) == Zeros(n)
  {
    if n > 0 {
      ZeroBits(n - 1);
    }
  }

  /** The bits of whole bytes. */
  function ByteBits(bytes: seq<byte>): seq<bit> {
    if bytes == [] then [] else ByteBits(bytes[..|bytes| - 1]) + BitsOf(bytes[|bytes| - 1], 8)
  }

  lemma ByteBitsAppend(bytes: seq<byte>, b: byte)
    ensures ByteBits(bytes + [b]) == ByteBits(bytes) + BitsOf(b, 8)
  {
    assert (bytes + [b])[..|bytes|] == bytes;
  }

  lemma {:induction false} ByteBitsLength(bytes: seq<byte>)
    ensures |ByteBits(bytes)| == 8 * |bytes|
  {
    if bytes != [] {
      ByteBitsLength(bytes[..|bytes| - 1]);
    }
  }

  lemma {:induction false} ByteBitsConcat(a: seq<byte>, b: seq<byte>)
    ensures ByteBits(a + b) == ByteBits(a) + ByteBits(b)
    decreases |b|
  {
    hide BitsOf;
    if b == [] {
      assert a + b == a;
    } else {
      var n := |b| - 1;
      ByteBitsConcat(a, b[..n]);
      assert (a + b)[..|a + b| - 1] == a + b[..n];
    }
  }

  lemma {:induction false} ZeroByteBits(n: nat)
    ensures ByteBits(ZeroBytes(n)) == Zeros(8 * n)
  {
    if n > 0 {
      ZeroByteBits(n - 1);
      ZeroBits(8);
      assert ZeroBytes(n)[..n - 1] == ZeroBytes(n - 1);
    }
  }

  function Halved(v: nat, m: nat): nat {
    if m == 0 then v else Halved(v / 2, m - 1)
  }

  lemma {:induction false} BitsSplit(v: nat, n: nat, m: nat)
    ensures BitsOf(v, n + m) == BitsOf(Halved(v, m), n) + BitsOf(v, m)
    decreases m
  {
    if m == 0 {
      assert BitsOf(v, 0) == [] && BitsOf(v, n) + [] == BitsOf(v, n);
    } else {
      BitsSplit(v / 2, n, m - 1);
      assert n + m - 1 == n + (m - 1);
      Regroup(BitsOf(Halved(v / 2, m - 1), n), BitsOf(v / 2, m - 1), [v % 2]);
    }
  }

  lemma {:induction false} LowBits(v: nat, m: nat)
    ensures BitsOf(v % Pow2(m), m) == BitsOf(v, m)
    decreases m
  {
    if m > 0 {
      var q := Pow2(m - 1);
      var r := v % (2 * q);
      LowBits(v / 2, m - 1);
      RemainderHalved(v, q);
    }
  }

  lemma RemainderHalved(v: nat, q: nat)
    requires q > 0
    ensures v % (2 * q) / 2 == v / 2 % q && v % (2 * q) % 2 == v % 2
  {
    var d, r := v / (2 * q), v % (2 * q);
    assert v == d * (2 * q) + r;
    assert d * (2 * q) == 2 * (d * q);
    assert v / 2 == d * q + r / 2;
    Quotient(v / 2, q, d, r / 2);
  }

  /** The low byte of a number apart. */
  lemma LowByte(v: nat, n: nat)
    ensures BitsOf(v, n + 8) == BitsOf(v / 256, n) + BitsOf(v % 256, 8)
  {
    hide BitsOf;
    BitsSplit(v, n, 8);
    LowBits(v, 8);
    EightHalves(v);
  }

  lemma EightHalves(v: nat)
    ensures Halved(v, 8) == v / 256 && Pow2(8) == 256
  {
    var a := v / 2 / 2 / 2 / 2;
    assert Halved(v, 8) == Halved(v / 2, 7) == Halved(v / 2 / 2, 6) == Halved(v / 2 / 2 / 2, 5) == Halved(a, 4);
    assert Halved(a, 4) == Halved(a / 2, 3) == Halved(a / 2 / 2, 2) == Halved(a / 2 / 2 / 2, 1) == a / 2 / 2 / 2 / 2;
  }

  /** The bits of a number of 64 bits are those of its bytes. */
  lemma LongBits(n: nat)
    ensures ByteBits(U64Bytes(n)) == BitsOf(n, 64)
  {
    hide BitsOf;
    WordBits(n, 32);
    WordBits(ShiftRight(n, 4), 0);
    ByteBitsConcat(U32Bytes(ShiftRight(n, 4)), U32Bytes(n));
    assert BitsOf(ShiftRight(ShiftRight(n, 4), 4), 0) == [] by { NoBits(ShiftRight(ShiftRight(n, 4), 4)); }
    assert [] + ByteBits(U32Bytes(ShiftRight(n, 4))) == ByteBits(U32Bytes(ShiftRight(n, 4)));
  }

  lemma NoBits(n: nat)
    ensures BitsOf(n, 0) == []
  {
  }

  lemma WordBits(n: nat, k: nat)
    ensures BitsOf(n, k + 32) == BitsOf(ShiftRight(n, 4), k) + ByteBits(U32Bytes(n))
  {
    hide BitsOf, ByteBits;
    Shifts(n);
    var a, b, c, d := n / 256, n / 256 / 256, n / 256 / 256 / 256, n / 256 / 256 / 256 / 256;
    LowByte(n, k + 24);
    LowByte(a, k + 16);
    LowByte(b, k + 8);
    LowByte(c, k);
    FourByteBits(c % 256, b % 256, a % 256, n % 256);
    var w, x, y, z := BitsOf(c % 256, 8), BitsOf(b % 256, 8), BitsOf(a % 256, 8), BitsOf(n % 256, 8);
    assert BitsOf(d, k) + w + x + y + z == BitsOf(d, k) + (w + x + y + z);
  }

  lemma FourByteBits(a: byte, b: byte, c: byte, d: byte)
    ensures ByteBits([a, b, c, d]) == BitsOf(a, 8) + BitsOf(b, 8) + BitsOf(c, 8) + BitsOf(d, 8)
  {
    hide BitsOf;
    ByteBitsAppend([a, b, c], d);
    ByteBitsAppend([a, b], c);
    ByteBitsAppend([a], b);
    ByteBitsAppend([], a);
    assert [] + [a] == [a] && [a] + [b] == [a, b] && [a, b] + [c] == [a, b, c] && [a, b, c] + [d] == [a, b, c, d];
    assert ByteBits([]) + BitsOf(a, 8) == BitsOf(a, 8);
  }
}
