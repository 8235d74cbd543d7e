/** Bytes, big-endian numbers and concatenation: the vocabulary shared by every codec. */
module Bytes {

  type byte = b: int | 0 <= b < 256

  datatype Option<+T> = None | Some(value: T)

  // ---- concatenation -------------------------------------------------------------------------------------------

  /** The concatenation of a list of sequences, left to right. */
  function Concat<T>(ss: seq<seq<T>>): seq<T> {
    if ss == [] then [] else ss[0] + Concat(ss[1..])
  }

  lemma {:induction false} ConcatAppend<T>(a: seq<seq<T>>, b: seq<seq<T>>)
    ensures Concat(a + b) == Concat(a) + Concat(b)
  {
    if a == [] {
      assert a + b == b;
    } else {
      assert (a + b)[1..] == a[1..] + b;
      ConcatAppend(a[1..], b);
    }
  }

  lemma ConcatOne<T>(s: seq<T>)
    ensures Concat([s]) == s
  {
    assert [s][1..] == [];
  }

  lemma ConcatNone<T>()
    ensures Concat<T>([]) == []
  {
  }

  /** One more part of a list. */
  lemma ConcatMore<T>(parts: seq<seq<T>>, i: nat)
    requires i < |parts|
    ensures Concat(parts[..i + 1]) == Concat(parts[..i]) + parts[i]
  {
    assert parts[..i + 1] == parts[..i] + [parts[i]];
    ConcatAppend(parts[..i], [parts[i]]);
    ConcatOne(parts[i]);
  }

  lemma Regroup<T>(a: seq<T>, b: seq<T>, c: seq<T>)
    ensures (a + b) + c == a + (b + c)
  {
  }

  /** Two ways to cut the same sequence, the first cut being the later one. */
  lemma TwoCuts<T>(a: seq<T>, b: seq<T>, c: seq<T>, d: seq<T>)
    requires a + b == c + d && |a| >= |c|
    ensures a[..|c|] == c && d == a[|c|..] + b
  {
    assert (a + b)[..|c|] == a[..|c|] && (c + d)[..|c|] == c;
    assert (a + b)[|c|..] == a[|c|..] + b && (c + d)[|c|..] == d;
  }

  function ZeroBytes(n: nat): (s: seq<byte>)
    ensures |s| == n
  {
    seq(n, i => 0)
  }

  /** A memory copy into a buffer. */
  method CopyBytes(data: array<byte>, offset: nat, bytes: seq<byte>)
    requires offset + |bytes| <= data.Length
    modifies data
    ensures data[offset..offset + |bytes|] == bytes
    ensures data[..offset] == old(data[..offset]) && data[offset + |bytes|..] == old(data[offset + |bytes|..])
  {
    for k := 0 to |bytes|
      invariant data[offset..offset + k] == bytes[..k]
      invariant data[..offset] == old(data[..offset]) && data[offset + |bytes|..] == old(data[offset + |bytes|..])
    {
      data[offset + k] := bytes[k];
    }
  }

  function Pow2(k: nat): (p: nat)
    ensures p > 0
  {
    if k == 0 then 1 else 2 * Pow2(k - 1)
  }

  // ---- big-endian numbers of 16, 32 and 64 bits ------------------------------------------------------------------

  const TWO_16 := 0x1_0000
  const TWO_32 := 0x1_0000_0000
  const TWO_64 := 0x1_0000_0000_0000_0000

  /** A right shift by a whole number of bytes. */
  function ShiftRight(n: nat, bytes: nat): nat {
    if bytes == 0 then n else ShiftRight(n / 256, bytes - 1)
  }

  /** Byte i of n, counted from the least significant one. */
  function ByteAt(n: nat, i: nat): byte {
    ShiftRight(n, i) % 256
  }

  function U16Bytes(n: nat): seq<byte> {
    [ByteAt(n, 1), ByteAt(n, 0)]
  }

  function U16(s: seq<byte>): (n: nat)
    requires |s| == 2
    ensures n < TWO_16
  {
    s[0] as int * 256 + s[1]
  }

  function U32Bytes(n: nat): seq<byte> {
    [ByteAt(n, 3), ByteAt(n, 2), ByteAt(n, 1), ByteAt(n, 0)]
  }

  function U32(s: seq<byte>): (n: nat)
    requires |s| == 4
    ensures n < TWO_32
  {
    ((s[0] as int * 256 + s[1]) * 256 + s[2]) * 256 + s[3]
  }

  function U64Bytes(n: nat): (s: seq<byte>) {
    U32Bytes(ShiftRight(n, 4)) + U32Bytes(n)
  }

  function U64(s: seq<byte>): (n: nat)
    requires |s| == 8
    ensures n < TWO_64
  {
    U32(s[..4]) * TWO_32 + U32(s[4..])
  }

  lemma Shifts(n: nat)
    ensures ShiftRight(n, 0) == n
    ensures ShiftRight(n, 1) == n / 256
    ensures ShiftRight(n, 2) == n / 256 / 256
    ensures ShiftRight(n, 3) == n / 256 / 256 / 256
    ensures ShiftRight(n, 4) == n / 256 / 256 / 256 / 256
  {
    var a := n / 256;
    var b := a / 256;
    var c := b / 256;
    var d := c / 256;
    assert ShiftRight(d, 0) == d && ShiftRight(c, 1) == d && ShiftRight(b, 2) == d && ShiftRight(a, 3) == d;
    assert ShiftRight(c, 0) == c && ShiftRight(b, 1) == c && ShiftRight(a, 2) == c;
    assert ShiftRight(b, 0) == b && ShiftRight(a, 1) == b;
  }

  lemma {:induction false} ShiftShift(n: nat, i: nat, j: nat)
    ensures ShiftRight(ShiftRight(n, i), j) == ShiftRight(n, i + j)
  {
    if i > 0 {
      ShiftShift(n / 256, i - 1, j);
    }
  }

  lemma U16Inverse(n: nat)
    requires n < TWO_16
    ensures U16(U16Bytes(n)) == n
  {
    Shifts(n);
  }

  lemma U16BytesInverse(s: seq<byte>)
    requires |s| == 2
    ensures U16Bytes(U16(s)) == s
  {
    Shifts(U16(s));
  }

  lemma U32Split(n: nat)
    ensures U32(U32Bytes(n)) + TWO_32 * ShiftRight(n, 4) == n
  {
    Shifts(n);
    var a := n / 256;
    var b := a / 256;
    var c := b / 256;
    var d := c / 256;
    assert U32(U32Bytes(n)) == ((c % 256 * 256 + b % 256) * 256 + a % 256) * 256 + n % 256;
  }

  lemma U32Inverse(n: nat)
    requires n < TWO_32
    ensures U32(U32Bytes(n)) == n
  {
    U32Split(n);
  }

  lemma U32BytesInverse(s: seq<byte>, high: nat)
    requires |s| == 4
    ensures U32Bytes(high * TWO_32 + U32(s)) == s
    ensures ShiftRight(high * TWO_32 + U32(s), 4) == high
  {
    var n := high * TWO_32 + U32(s);
    Shifts(n);
    var a := n / 256;
    var b := a / 256;
    var c := b / 256;
    assert a == ((high * 256 + s[0]) * 256 + s[1]) * 256 + s[2] && n % 256 == s[3];
    assert b == (high * 256 + s[0]) * 256 + s[1] && a % 256 == s[2];
    assert c == high * 256 + s[0] && b % 256 == s[1];
  }

  lemma U64Inverse(n: nat)
    requires n < TWO_64
    ensures U64(U64Bytes(n)) == n
  {
    var s := U64Bytes(n);
    assert s[..4] == U32Bytes(ShiftRight(n, 4)) && s[4..] == U32Bytes(n);
    U32Split(n);
    U32Inverse(ShiftRight(n, 4));
  }

  lemma U64BytesInverse(s: seq<byte>)
    requires |s| == 8
    ensures U64Bytes(U64(s)) == s
  {
    U32BytesInverse(s[4..], U32(s[..4]));
    U32BytesInverse(s[..4], 0);
    assert s == s[..4] + s[4..];
  }

  lemma U64BytesAt(n: nat, i: nat)
    requires i < 8
    ensures U64Bytes(n)[7 - i] == ByteAt(n, i)
  {
    if i >= 4 {
      ShiftShift(n, 4, i - 4);
    }
  }
}
