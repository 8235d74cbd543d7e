/** Streaming SHA-1 against the digest of RFC 3174. */
module Hashing {
  import opened Arithmetic
  import opened Bits
  import opened Bytes

  /** A 32-bit word. */
  type word = w: nat | w < TWO_32

  // ---- the specification: RFC 3174 ----------------------------------------------------------------------------------

  /** The five words of the chaining value, and of the working registers. */
  datatype State = State(a: word, b: word, c: word, d: word, e: word)

  const INITIAL := State(0x67452301, 0xEFCDAB89, 0x98BADCFE, 0x10325476, 0xC3D2E1F0)

  /** The operations of sections 2 and 3 on words: sum modulo 2^32, exclusive or, circular left shift. */
  function Add(x: word, y: word): word {
    (x + y) % TWO_32
  }

  function WordOf(bits: seq<bit>): (w: word)
    requires |bits| == 32
    ensures BitsOf(w, 32) == bits
  {
    Pow2Of32();
    BitsOfValue(bits);
    Value(bits)
  }

  function XorWords(x: word, y: word): word {
    WordOf(XorOf(BitsOf(x, 32), BitsOf(y, 32)))
  }

  /** The bits of x, moved n places to the left and around. */
  function Rotate(x: word, n: nat): word
    requires 0 < n < 32
  {
    WordOf(BitsOf(x, 32)[n..] + BitsOf(x, 32)[..n])
  }

  /** Section 5: the functions and constants of the rounds.  Bit by bit: c where b is one, and d elsewhere. */
  function Choose(b: word, c: word, d: word): word {
    var r, s, t := BitsOf(b, 32), BitsOf(c, 32), BitsOf(d, 32);
    WordOf(seq(32, k requires 0 <= k < 32 => if r[k] == 1 then s[k] else t[k]))
  }

  /** The sum of the three modulo two. */
  function Parity(b: word, c: word, d: word): word {
    var r, s, t := BitsOf(b, 32), BitsOf(c, 32), BitsOf(d, 32);
    WordOf(seq(32, k requires 0 <= k < 32 => (r[k] as int + s[k] + t[k]) % 2))
  }

  /** One where at least two of the three are. */
  function Majority(b: word, c: word, d: word): word {
    var r, s, t := BitsOf(b, 32), BitsOf(c, 32), BitsOf(d, 32);
    WordOf(seq(32, k requires 0 <= k < 32 => if r[k] as int + s[k] + t[k] >= 2 then 1 else 0))
  }

  function F(t: nat, b: word, c: word, d: word): word {
    if t < 20 then Choose(b, c, d)
    else if t < 40 then Parity(b, c, d)
    else if t < 60 then Majority(b, c, d)
    else Parity(b, c, d)
  }

  function K(t: nat): word {
    if t < 20 then 0x5A827999 else if t < 40 then 0x6ED9EBA1 else if t < 60 then 0x8F1BBCDC else 0xCA62C1D6
  }

  /** Section 6.1, steps a and b: the word of round t. */
  function W(block: seq<byte>, t: nat): word
    requires |block| == 64
  {
    if t < 16 then U32(block[4 * t..4 * t + 4])
    else Rotate(XorWords(XorWords(XorWords(W(block, t - 3), W(block, t - 8)), W(block, t - 14)), W(block, t - 16)), 1)
  }

  /** Step d. */
  function Round(s: State, t: nat, w: word): State {
    State(Add(Add(Add(Add(Rotate(s.a, 5), F(t, s.b, s.c, s.d)), s.e), w), K(t)), s.a, Rotate(s.b, 30), s.c, s.d)
  }

  function Rounds(s: State, block: seq<byte>, n: nat): State
    requires |block| == 64
  {
    if n == 0 then s else Round(Rounds(s, block, n - 1), n - 1, W(block, n - 1))
  }

  /** Steps c to e. */
  function Compress(h: State, block: seq<byte>): State
    requires |block| == 64
  {
    var s := Rounds(h, block, 80);
    State(Add(h.a, s.a), Add(h.b, s.b), Add(h.c, s.c), Add(h.d, s.d), Add(h.e, s.e))
  }

  /** The chaining value after the whole blocks of s. */
  function HashBlocks(s: seq<byte>): State
    requires |s| % 64 == 0
  {
    if s == [] then INITIAL else Compress(HashBlocks(s[..|s| - 64]), s[|s| - 64..])
  }

  /** The zeros of section 4: as few as bring the length to 56 modulo 64, behind one byte. */
  function PadZeros(length: nat): (k: nat)
    ensures k < 64 && (length + 1 + k) % 64 == 56
  {
    if length % 64 < 56 then 55 - length % 64 else 119 - length % 64
  }

  /** Section 4: a one bit, zeros, and the length in bits as 64 bits. */
  function Pad(msg: seq<byte>): (p: seq<byte>)
    ensures |p| % 64 == 0
  {
    assert (|msg| + 1 + PadZeros(|msg|) + 8) % 64 == 0 by { EightMore(|msg| + 1 + PadZeros(|msg|)); }
    msg + [0x80] + ZeroBytes(PadZeros(|msg|)) + U64Bytes(BitCount(msg))
  }

  lemma EightMore(n: nat)
    requires n % 64 == 56
    ensures (n + 8) % 64 == 0
  {
  }

  /** Words as big-endian bytes. */
  function WordBytes(words: seq<word>): (s: seq<byte>)
    ensures |s| == 4 * |words|
  {
    if words == [] then [] else WordBytes(words[..|words| - 1]) + U32Bytes(words[|words| - 1])
  }

  function StateBytes(h: State): (s: seq<byte>)
    ensures |s| == 20
  {
    WordBytes([h.a, h.b, h.c, h.d, h.e])
  }

  function Digest(msg: seq<byte>): (s: seq<byte>)
    ensures |s| == 20
  {
    StateBytes(HashBlocks(Pad(msg)))
  }

  /** A message as whole blocks and what is left, and its length in bits as a 64-bit number. */
  function WholeBlocks(m: seq<byte>): seq<byte> {
    m[..|m| - |m| % 64]
  }

  function LastPart(m: seq<byte>): seq<byte> {
    m[|m| - |m| % 64..]
  }

  function BitCount(m: seq<byte>): nat {
    8 * |m| % TWO_64
  }

  // ---- the operations of the code ----------------------------------------------------------------------------------------

  function AndWords(x: word, y: word): word {
    WordOf(AndOf(BitsOf(x, 32), BitsOf(y, 32)))
  }

  function OrWords(x: word, y: word): word {
    WordOf(OrOf(BitsOf(x, 32), BitsOf(y, 32)))
  }

  function NotWord(x: word): word {
    WordOf(NotOf(BitsOf(x, 32)))
  }

  lemma SameWord(x: word, y: word)
    requires BitsOf(x, 32) == BitsOf(y, 32)
    ensures x == y
  {
    Pow2Of32();
    SameBits(x, y, 32);
  }

  lemma ChooseIs(b: word, c: word, d: word)
    ensures OrWords(AndWords(b, c), AndWords(NotWord(b), d)) == Choose(b, c, d)
  {
    hide WordOf, BitsOf;
    var r, s, t := BitsOf(b, 32), BitsOf(c, 32), BitsOf(d, 32);
    assert OrOf(AndOf(r, s), AndOf(NotOf(r), t)) == seq(32, k requires 0 <= k < 32 => if r[k] == 1 then s[k] else t[k]);
  }

  lemma ParityIs(b: word, c: word, d: word)
    ensures XorWords(XorWords(b, c), d) == Parity(b, c, d)
  {
    hide WordOf, BitsOf;
    var r, s, t := BitsOf(b, 32), BitsOf(c, 32), BitsOf(d, 32);
    assert XorOf(XorOf(r, s), t) == seq(32, k requires 0 <= k < 32 => (r[k] as int + s[k] + t[k]) % 2);
  }

  lemma MajorityIs(b: word, c: word, d: word)
    ensures OrWords(OrWords(AndWords(b, c), AndWords(b, d)), AndWords(c, d)) == Majority(b, c, d)
  {
    hide WordOf, BitsOf;
    var r, s, t := BitsOf(b, 32), BitsOf(c, 32), BitsOf(d, 32);
    assert OrOf(OrOf(AndOf(r, s), AndOf(r, t)), AndOf(s, t))
           == seq(32, k requires 0 <= k < 32 => if r[k] as int + s[k] + t[k] >= 2 then 1 else 0);
  }

  /** The two shifts do not overlap, so their disjunction is their sum. */
  function LeftRotate(value: word, bits: nat): (r: word)
    requires 0 < bits < 32
    ensures r == Rotate(value, bits)
  {
    ShiftsRotate(value, bits);
    value * Pow2(bits) % TWO_32 + value / Pow2(32 - bits)
  }

  lemma {:induction false} Pow2Sum(a: nat, b: nat)
    ensures Pow2(a + b) == Pow2(a) * Pow2(b)
    decreases b
  {
    if b > 0 {
      Pow2Sum(a, b - 1);
      assert a + b - 1 == a + (b - 1);
    }
  }

  lemma ShiftsRotate(x: word, n: nat)
    requires 0 < n < 32
    ensures x * Pow2(n) % TWO_32 + x / Pow2(32 - n) == Rotate(x, n)
  {
    hide BitsOf, Value, Pow2;
    Pow2Of32();
    var bits := BitsOf(x, 32);
    var high, low := bits[..n], bits[n..];
    assert bits == high + low;
    ValueOfBits(x, 32);
    ValueAppend(high, low);
    ValueAppend(low, high);
    Pow2Sum(n, 32 - n);
    ShiftedParts(x, Value(high), Value(low), Pow2(n), Pow2(32 - n));
  }

  /** A word as its upper and lower part, shifted to the left by the size of the one, to the right by that of the other. */
  lemma ShiftedParts(x: nat, high: nat, low: nat, p: nat, q: nat)
    requires x == high * q + low && high < p && low < q && p * q == TWO_32
    ensures x / q == high && x * p % TWO_32 == low * p
  {
    Quotient(x, q, high, low);
    assert x * p == high * TWO_32 + low * p by {
      assert x * p == high * q * p + low * p;
      assert high * q * p == high * (p * q);
    }
    assert low * p < q * p by { LessTimes(low, q, p); }
    assert q * p == TWO_32;
    Quotient(x * p, TWO_32, high, low * p);
  }

  lemma LessTimes(a: nat, b: nat, c: nat)
    requires a < b && c > 0
    ensures a * c < b * c
  {
  }

  // ---- what is standard about the standard ---------------------------------------------------------------------------

  /** The constants are 2^30 times the square roots of 2, 3, 5 and 10, rounded down. */
  lemma ConstantsAreRoots(t: nat)
    requires t < 80
    ensures var n := if t < 20 then 2 else if t < 40 then 3 else if t < 60 then 5 else 10;
            K(t) * K(t) <= n * 0x1000_0000_0000_0000 < (K(t) + 1) * (K(t) + 1)
  {
  }

  /** The initial words spell the hexadecimal digits up, down, and alternately, each word from its lowest byte. */
  lemma InitialWords()
    ensures U32Bytes(INITIAL.a) == [0x67, 0x45, 0x23, 0x01] && U32Bytes(INITIAL.b) == [0xEF, 0xCD, 0xAB, 0x89]
    ensures U32Bytes(INITIAL.c) == [0x98, 0xBA, 0xDC, 0xFE] && U32Bytes(INITIAL.d) == [0x10, 0x32, 0x54, 0x76]
    ensures U32Bytes(INITIAL.e) == [0xC3, 0xD2, 0xE1, 0xF0]
  {
    hide U32Bytes;
    HighToLow(INITIAL.a);
    HighToLow(INITIAL.b);
    HighToLow(INITIAL.c);
    HighToLow(INITIAL.d);
    HighToLow(INITIAL.e);
  }

  /** Bit k of a word of the schedule is the sum modulo two of bit k + 1 of the words 3, 8, 14 and 16 before it. */
  lemma ScheduleBits(block: seq<byte>, t: nat, k: nat)
    requires |block| == 64 && 16 <= t < 80 && k < 32
    ensures var j := (k + 1) % 32;
            BitsOf(W(block, t), 32)[k]
            == (BitsOf(W(block, t - 3), 32)[j] as int + BitsOf(W(block, t - 8), 32)[j]
                + BitsOf(W(block, t - 14), 32)[j] + BitsOf(W(block, t - 16), 32)[j]) % 2
  {
    hide BitsOf, WordOf, W;
    assert W(block, t)
           == Rotate(XorWords(XorWords(XorWords(W(block, t - 3), W(block, t - 8)), W(block, t - 14)), W(block, t - 16)), 1)
      by { ScheduleStep(block, t); }
  }

  lemma ScheduleStep(block: seq<byte>, t: nat)
    requires |block| == 64 && 16 <= t
    ensures W(block, t)
            == Rotate(XorWords(XorWords(XorWords(W(block, t - 3), W(block, t - 8)), W(block, t - 14)), W(block, t - 16)), 1)
  {
  }

  /**
   * A round in ordinary arithmetic: rotation by five places is a product with 32 and a quotient by 2^27, rotation by
   * thirty a product with 2^30 and a quotient by four; the function is by bits.
   */
  lemma RoundIs(s: State, t: nat, w: word)
    requires t < 80
    ensures var r, f := Round(s, t, w), F(t, s.b, s.c, s.d);
            && r.a == ((s.a * 32 % TWO_32 + s.a / 0x800_0000) + f + s.e + w + K(t)) % TWO_32
            && r.b == s.a && r.c == s.b * 0x4000_0000 % TWO_32 + s.b / 4 && r.d == s.c && r.e == s.d
            && forall k :: 0 <= k < 32 ==>
                 var x, y, z := BitsOf(s.b, 32)[k], BitsOf(s.c, 32)[k], BitsOf(s.d, 32)[k];
                 BitsOf(f, 32)[k] == if t < 20 then (if x == 1 then y else z)
                                     else if 40 <= t < 60 then (if x == y then x else z)
                                     else (x as int + y + z) % 2
  {
    hide BitsOf, WordOf, K, LeftRotate, Rotate;
    assert Pow2(1) == 2 && Pow2(2) == 4 && Pow2(5) == 32;
    RotationsOf(s.a, s.b);
    SumOfFive(Rotate(s.a, 5), F(t, s.b, s.c, s.d), s.e, w, K(t));
  }

  lemma RotationsOf(a: word, b: word)
    ensures Rotate(a, 5) == a * 32 % TWO_32 + a / 0x800_0000
    ensures Rotate(b, 30) == b * 0x4000_0000 % TWO_32 + b / 4
  {
    hide Rotate;
    Powers();
    ShiftsRotate(a, 5);
    ShiftsRotate(b, 30);
  }

  lemma Powers()
    ensures Pow2(5) == 32 && Pow2(27) == 0x800_0000 && Pow2(30) == 0x4000_0000 && Pow2(2) == 4
  {
    assert Pow2(8) == 0x100;
    assert Pow2(16) == 0x1_0000;
    assert Pow2(24) == 0x100_0000;
  }

  lemma SumOfFive(a: nat, b: word, c: word, d: word, e: word)
    requires a < TWO_32
    ensures Add(Add(Add(Add(a, b), c), d), e) == (a + b + c + d + e) % TWO_32
  {
    AddModulo(a + b, c);
    AddModulo(a + b + c, d);
    AddModulo(a + b + c + d, e);
  }

  /** A block is added to the chaining value after eighty rounds, word by word. */
  lemma CompressIs(h: State, block: seq<byte>)
    requires |block| == 64
    ensures var r, s := Compress(h, block), Rounds(h, block, 80);
            && r.a == (h.a + s.a) % TWO_32 && r.b == (h.b + s.b) % TWO_32 && r.c == (h.c + s.c) % TWO_32
            && r.d == (h.d + s.d) % TWO_32 && r.e == (h.e + s.e) % TWO_32
  {
    hide Rounds;
  }

  /** Section 4, bit by bit: the message, a one, as few zeros as leave 64 bits of a block of 512, and the length. */
  lemma PaddedBits(msg: seq<byte>)
    ensures var bits, z := ByteBits(msg), 8 * PadZeros(|msg|) + 7;
            && z < 512 && (|bits| + 1 + z + 64) % 512 == 0
            && ByteBits(Pad(msg)) == bits + [1] + Zeros(z) + BitsOf(|bits| % TWO_64, 64)
  {
    hide BitsOf, ByteBits, PadZeros, BitCount, Pad, Zeros;
    ByteBitsLength(msg);
    WholeBlock(|msg|, PadZeros(|msg|));
    BitsInAll(msg);
  }

  lemma BitsInAll(msg: seq<byte>)
    ensures ByteBits(Pad(msg)) == ByteBits(msg) + [1] + Zeros(8 * PadZeros(|msg|) + 7) + BitsOf(BitCount(msg), 64)
    ensures BitCount(msg) == |ByteBits(msg)| % TWO_64
  {
    hide BitsOf, ByteBits, PadZeros, U64Bytes, ZeroBytes, Zeros;
    ByteBitsLength(msg);
    StopAndZeros(msg, PadZeros(|msg|));
    ByteBitsConcat(msg + [0x80] + ZeroBytes(PadZeros(|msg|)), U64Bytes(BitCount(msg)));
    LongBits(BitCount(msg));
  }

  lemma WholeBlock(n: nat, k: nat)
    requires k < 64 && (n + 1 + k) % 64 == 56
    ensures 8 * k + 7 < 512 && (8 * n + 1 + (8 * k + 7) + 64) % 512 == 0
  {
    var m := n + 1 + k;
    assert m == 64 * (m / 64) + 56;
    assert 8 * n + 1 + (8 * k + 7) + 64 == 512 * (m / 64 + 1);
  }

  lemma StopAndZeros(msg: seq<byte>, k: nat)
    ensures ByteBits(msg + [0x80] + ZeroBytes(k)) == ByteBits(msg) + [1] + Zeros(8 * k + 7)
  {
    hide BitsOf, ByteBits, ZeroBytes;
    ByteBitsConcat(msg + [0x80], ZeroBytes(k));
    ByteBitsAppend(msg, 0x80);
    ZeroByteBits(k);
    StopByte();
    assert Zeros(7) + Zeros(8 * k) == Zeros(8 * k + 7);
    var bits := ByteBits(msg);
    assert bits + ([1] + Zeros(7)) + Zeros(8 * k) == bits + [1] + (Zeros(7) + Zeros(8 * k));
  }

  lemma StopByte()
    ensures BitsOf(0x80, 8) == [1] + Zeros(7)
  {
  }

  /** The digest is the five words, each from its highest byte to its lowest. */
  lemma DigestWords(h: State)
    ensures var d := StateBytes(h);
            && U32(d[0..4]) == h.a && U32(d[4..8]) == h.b && U32(d[8..12]) == h.c && U32(d[12..16]) == h.d
            && U32(d[16..20]) == h.e
  {
    hide U32, U32Bytes;
    FiveWords(h);
    U32Inverse(h.a);
    U32Inverse(h.b);
    U32Inverse(h.c);
    U32Inverse(h.d);
    U32Inverse(h.e);
  }

  lemma FiveWords(h: State)
    ensures StateBytes(h) == U32Bytes(h.a) + U32Bytes(h.b) + U32Bytes(h.c) + U32Bytes(h.d) + U32Bytes(h.e)
    ensures var d := StateBytes(h);
            && d[0..4] == U32Bytes(h.a) && d[4..8] == U32Bytes(h.b) && d[8..12] == U32Bytes(h.c)
            && d[12..16] == U32Bytes(h.d) && d[16..20] == U32Bytes(h.e)
  {
    FourLong(h);
    hide U32Bytes;
    OneMoreWord([h.a, h.b, h.c, h.d], h.e);
    OneMoreWord([h.a, h.b, h.c], h.d);
    OneMoreWord([h.a, h.b], h.c);
    OneMoreWord([h.a], h.b);
    OneMoreWord([], h.a);
    assert [] + [h.a] == [h.a] && [h.a] + [h.b] == [h.a, h.b] && [h.a, h.b] + [h.c] == [h.a, h.b, h.c]
           && [h.a, h.b, h.c] + [h.d] == [h.a, h.b, h.c, h.d]
           && [h.a, h.b, h.c, h.d] + [h.e] == [h.a, h.b, h.c, h.d, h.e];
    assert WordBytes([]) + U32Bytes(h.a) == U32Bytes(h.a);
  }

  lemma FourLong(h: State)
    ensures |U32Bytes(h.a)| == 4 && |U32Bytes(h.b)| == 4 && |U32Bytes(h.c)| == 4 && |U32Bytes(h.d)| == 4 && |U32Bytes(h.e)| == 4
  {
  }

  lemma OneMoreWord(words: seq<word>, w: word)
    ensures WordBytes(words + [w]) == WordBytes(words) + U32Bytes(w)
  {
    assert (words + [w])[..|words|] == words;
  }

  // ---- the streaming implementation ---------------------------------------------------------------------------------

  class Sha1 {
    const h: array<word>
    const buffer: array<byte>
    var bufferLen: nat
    var totalBits: nat
    /** All bytes taken in so far. */
    ghost var msg: seq<byte>

    ghost function Chain(): State
      reads h
      requires h.Length == 5
    {
      State(h[0], h[1], h[2], h[3], h[4])
    }

    /** What is in the object, as a message cut at the last block boundary: a chaining value and part of a block. */
    ghost predicate Holds(hashed: seq<byte>, rest: seq<byte>)
      reads `bufferLen, h, buffer
    {
      && h.Length == 5 && buffer.Length == 64
      && |hashed| % 64 == 0 && |rest| < 64 && bufferLen == |rest|
      && Chain() == HashBlocks(hashed) && buffer[..bufferLen] == rest
    }

    ghost predicate Valid()
      reads this, h, buffer
    {
      totalBits == BitCount(msg) && Holds(WholeBlocks(msg), LastPart(msg))
    }

    constructor ()
      ensures Valid() && msg == [] && fresh(h) && fresh(buffer)
    {
      h := new word[5] [0x67452301, 0xEFCDAB89, 0x98BADCFE, 0x10325476, 0xC3D2E1F0];
      buffer := new byte[64];
      bufferLen, totalBits, msg := 0, 0, [];
    }

    method ProcessBlock(block: seq<byte>)
      requires |block| == 64 && h.Length == 5
      modifies h
      ensures Chain() == Compress(old(Chain()), block)
    {
      hide Rounds, Add;
      var w := Schedule(block);
      var s := RunRounds(State(h[0], h[1], h[2], h[3], h[4]), w, block);
      h[0], h[1], h[2], h[3], h[4] := Add(h[0], s.a), Add(h[1], s.b), Add(h[2], s.c), Add(h[3], s.d), Add(h[4], s.e);
    }

    /** The block as 16 big-endian words, extended to 80. */
    static method Schedule(block: seq<byte>) returns (w: array<word>)
      requires |block| == 64
      ensures w.Length == 80 && forall j :: 0 <= j < 80 ==> w[j] == W(block, j)
    {
      hide XorWords, Rotate;
      w := new word[80];
      for i := 0 to 16
        invariant forall j :: 0 <= j < i ==> w[j] == W(block, j)
      {
        var p := 4 * i;
        w[i] := block[p] as int * 0x100_0000 + block[p + 1] as int * 0x1_0000 + block[p + 2] as int * 0x100 + block[p + 3];
        assert block[p..p + 4] == [block[p], block[p + 1], block[p + 2], block[p + 3]];
      }
      for i := 16 to 80
        invariant forall j :: 0 <= j < i ==> w[j] == W(block, j)
      {
        w[i] := LeftRotate(XorWords(XorWords(XorWords(w[i - 3], w[i - 8]), w[i - 14]), w[i - 16]), 1);
      }
    }

    /** The eighty rounds, on five variables that are moved along. */
    static method RunRounds(start: State, w: array<word>, ghost block: seq<byte>) returns (s: State)
      requires |block| == 64 && w.Length == 80 && forall j :: 0 <= j < 80 ==> w[j] == W(block, j)
      ensures s == Rounds(start, block, 80)
    {
      hide F, K, Rotate, Add, W;
      var a, b, c, d, e := start.a, start.b, start.c, start.d, start.e;
      assert Rounds(start, block, 0) == start;
      for i := 0 to 80
        invariant State(a, b, c, d, e) == Rounds(start, block, i)
      {
        var f, k := RoundFunction(i, b, c, d);
        var temp := Add(Add(Add(Add(LeftRotate(a, 5), f), e), k), w[i]);
        AddLast(Add(Add(Rotate(a, 5), f), e), k, w[i]);
        e := d;
        d := c;
        c := LeftRotate(b, 30);
        b := a;
        a := temp;
      }
      s := State(a, b, c, d, e);
    }

    static method RoundFunction(i: nat, b: word, c: word, d: word) returns (f: word, k: word)
      requires i < 80
      ensures f == F(i, b, c, d) && k == K(i)
    {
      hide Choose, Parity, Majority, AndWords, OrWords, XorWords, NotWord;
      if i < 20 {
        ChooseIs(b, c, d);
        f := OrWords(AndWords(b, c), AndWords(NotWord(b), d));
        k := 0x5A827999;
      } else if i < 40 {
        ParityIs(b, c, d);
        f := XorWords(XorWords(b, c), d);
        k := 0x6ED9EBA1;
      } else if i < 60 {
        MajorityIs(b, c, d);
        f := OrWords(OrWords(AndWords(b, c), AndWords(b, d)), AndWords(c, d));
        k := 0x8F1BBCDC;
      } else {
        ParityIs(b, c, d);
        f := XorWords(XorWords(b, c), d);
        k := 0xCA62C1D6;
      }
    }

    /** What fits goes into the block that was begun; a full one is hashed. */
    method FillBuffer(data: seq<byte>) returns (take: nat)
      requires h.Length == 5 && buffer.Length == 64 && 0 < bufferLen < 64
      modifies `bufferLen, h, buffer
      ensures take == if |data| < 64 - old(bufferLen) then |data| else 64 - old(bufferLen)
      ensures old(bufferLen) + take < 64 ==>
                && Chain() == old(Chain()) && bufferLen == old(bufferLen) + take
                && buffer[..bufferLen] == old(buffer[..bufferLen]) + data
      ensures old(bufferLen) + take == 64 ==>
                bufferLen == 0 && Chain() == Compress(old(Chain()), old(buffer[..bufferLen]) + data[..take])
    {
      hide Compress;
      var need := 64 - bufferLen;
      take := if |data| < need then |data| else need;
      CopyBytes(buffer, bufferLen, data[..take]);
      assert buffer[..bufferLen + take] == buffer[..bufferLen] + buffer[bufferLen..bufferLen + take];
      bufferLen := bufferLen + take;
      if bufferLen == 64 {
        assert buffer[..] == buffer[..64];
        ProcessBlock(buffer[..]);
        bufferLen := 0;
      } else {
        assert data[..take] == data;
      }
    }

    /** The second part: whole blocks are hashed where they are. */
    method HashWholeBlocks(data: seq<byte>, p0: nat, ghost before: seq<byte>) returns (p: nat)
      requires h.Length == 5 && p0 <= |data|
      requires |before + data[..p0]| % 64 == 0 && Chain() == HashBlocks(before + data[..p0])
      modifies h
      ensures p0 <= p <= |data| < p + 64 && (p - p0) % 64 == 0
      ensures |before + data[..p]| % 64 == 0 && Chain() == HashBlocks(before + data[..p])
    {
      hide Compress, HashBlocks;
      p := p0;
      while |data| - p >= 64
        invariant p0 <= p <= |data| && (p - p0) % 64 == 0
        invariant |before + data[..p]| % 64 == 0 && Chain() == HashBlocks(before + data[..p])
      {
        OneMoreBlock(before + data[..p], data[p..p + 64]);
        assert before + data[..p] + data[p..p + 64] == before + data[..p + 64];
        ProcessBlock(data[p..p + 64]);
        p := p + 64;
      }
    }

    /** The second and third part of Update, at a block boundary. */
    method AbsorbRest(data: seq<byte>, p0: nat, ghost before: seq<byte>)
      requires p0 <= |data| && Holds(before + data[..p0], [])
      modifies `bufferLen, h, buffer
      ensures exists p :: p0 <= p <= |data| && Holds(before + data[..p], data[p..])
    {
      hide Compress, HashBlocks;
      var p := HashWholeBlocks(data, p0, before);
      if p < |data| {
        CopyBytes(buffer, 0, data[p..]);
        bufferLen := |data| - p;
        assert buffer[..bufferLen] == buffer[0..0 + bufferLen];
      }
      assert Holds(before + data[..p], data[p..]);
    }

    /** The first part of Update: afterwards all of data is in, or the buffer is empty. */
    method CompleteBlock(data: seq<byte>, ghost hashed: seq<byte>, ghost rest: seq<byte>) returns (p: nat)
      requires Holds(hashed, rest)
      modifies `bufferLen, h, buffer
      ensures p <= |data|
      ensures if bufferLen > 0 then Holds(hashed, rest + data) else Holds((hashed + rest) + data[..p], [])
    {
      hide Compress, HashBlocks;
      p := 0;
      if bufferLen > 0 {
        p := FillBuffer(data);
        if bufferLen == 0 {
          OneMoreBlock(hashed, rest + data[..p]);
          Regroup(hashed, rest, data[..p]);
        } else {
          assert data[..p] == data;
        }
      } else {
        assert (hashed + rest) + data[..p] == hashed;
      }
    }

    /** Takes in more of the message. */
    method Update(data: seq<byte>)
      requires Valid()
      modifies this, h, buffer
      ensures Valid() && msg == old(msg) + data
    {
      hide Holds, BitCount, WholeBlocks, LastPart;
      if |data| == 0 {
        assert msg + data == msg;
        return;
      }
      totalBits := (totalBits + 8 * |data|) % TWO_64;
      MoreBits(msg, data);
      ghost var hashed, rest := WholeBlocks(msg), LastPart(msg);
      Cut(msg);
      msg := msg + data;
      var p := CompleteBlock(data, hashed, rest);
      if bufferLen > 0 {
        Regroup(hashed, rest, data);
        LengthsHeld(hashed, rest + data);
        CutIs(msg, hashed, rest + data);
      } else {
        AbsorbRest(data, p, old(msg));
        ghost var q :| p <= q <= |data| && Holds(old(msg) + data[..q], data[q..]);
        CutData(old(msg), data, q);
        LengthsHeld(old(msg) + data[..q], data[q..]);
        CutIs(msg, old(msg) + data[..q], data[q..]);
      }
    }

    lemma LengthsHeld(hashed: seq<byte>, rest: seq<byte>)
      requires Holds(hashed, rest)
      ensures |hashed| % 64 == 0 && |rest| < 64 && bufferLen == |rest|
    {
    }

    lemma BufferLength()
      requires Valid()
      ensures bufferLen == |msg| % 64
    {
      hide HashBlocks, BitCount;
    }

    /** Takes in several parts of the message. */
    method UpdateAll(parts: seq<seq<byte>>)
      requires Valid()
      modifies this, h, buffer
      ensures Valid() && msg == old(msg) + Concat(parts)
    {
      hide Holds, BitCount, WholeBlocks, LastPart, Concat;
      ghost var before := msg;
      ConcatNone<byte>();
      assert msg == before + [];
      for i := 0 to |parts|
        invariant Valid() && msg == before + Concat(parts[..i])
      {
        Update(parts[i]);
        ConcatMore(parts, i);
        Regroup(before, Concat(parts[..i]), parts[i]);
      }
      assert parts[..|parts|] == parts;
    }

    /** The zeros of the padding, one byte at a time through Update until eight bytes of the block are left. */
    method PadToLength(ghost before: seq<byte>)
      requires Valid() && msg == before + [0x80]
      modifies this, h, buffer
      ensures Valid() && msg == before + [0x80] + ZeroBytes(PadZeros(|before|)) && bufferLen == 56
    {
      hide Holds, BitCount, WholeBlocks, LastPart, PadZeros;
      ghost var k, zeros := 0, PadZeros(|before|);
      BufferLength();
      while bufferLen % 64 != 56
        invariant Valid() && bufferLen == (|before| + 1 + k) % 64
        invariant k <= zeros && msg == before + [0x80] + ZeroBytes(k)
        decreases zeros - k
      {
        assert before + [0x80] + ZeroBytes(k) + [0] == before + [0x80] + ZeroBytes(k + 1);
        Update([0]);
        BufferLength();
        k := k + 1;
      }
      PadIsUnique(|before|, k);
    }

    /** The length as eight bytes, from the last to the first. */
    static method LengthBytes(bits: nat) returns (bytes: array<byte>)
      ensures bytes.Length == 8 && fresh(bytes) && bytes[..] == U64Bytes(bits)
    {
      bytes := new byte[8];
      var n := bits;
      for i := 8 downto 0
        invariant n == ShiftRight(bits, 8 - i)
        invariant forall j :: i <= j < 8 ==> bytes[j] == U64Bytes(bits)[j]
      {
        U64BytesAt(bits, 7 - i);
        ShiftShift(bits, 7 - i, 1);
        bytes[i] := n % 256;
        n := n / 256;
      }
    }

    /** Fills the last block with the length and hashes it. */
    method AppendLength(bits: nat, ghost hashed: seq<byte>, ghost rest: seq<byte>)
      requires Holds(hashed, rest) && |rest| == 56
      modifies `bufferLen, h, buffer
      ensures h.Length == 5 && |(hashed + rest) + U64Bytes(bits)| % 64 == 0
      ensures Chain() == HashBlocks((hashed + rest) + U64Bytes(bits))
    {
      hide HashBlocks, Compress, U64Bytes;
      var length := LengthBytes(bits);
      assert |U64Bytes(bits)| == 8;
      CopyBytes(buffer, bufferLen, length[..]);
      assert buffer[..] == buffer[..56] + buffer[56..64];
      OneMoreBlock(hashed, rest + U64Bytes(bits));
      Regroup(hashed, rest, U64Bytes(bits));
      bufferLen := bufferLen + 8;
      ProcessBlock(buffer[..]);
      bufferLen := 0;
    }

    /** The digest of all that was taken in; afterwards the object is used up. */
    method Final() returns (digest: seq<byte>)
      requires Valid()
      modifies this, h, buffer
      ensures digest == Digest(old(msg))
    {
      hide HashBlocks, Compress, U64Bytes, PadZeros, StateBytes, ZeroBytes, WholeBlocks, LastPart;
      var bits := totalBits;
      Update([0x80]);
      PadToLength(old(msg));
      Cut(msg);
      AppendLength(bits, WholeBlocks(msg), LastPart(msg));
      digest := DigestBytes();
    }

    /** The chaining value, each word from its highest byte to its lowest. */
    method DigestBytes() returns (digest: seq<byte>)
      requires h.Length == 5
      ensures digest == StateBytes(Chain())
    {
      digest := [];
      for i := 0 to 5
        invariant digest == WordBytes(h[..i])
      {
        HighToLow(h[i]);
        assert h[..i + 1][..i] == h[..i];
        digest := digest + [h[i] / 0x100_0000 % 256, h[i] / 0x1_0000 % 256, h[i] / 0x100 % 256, h[i] % 256];
      }
      assert h[..5] == [h[0], h[1], h[2], h[3], h[4]];
    }
  }

  lemma CutData(before: seq<byte>, data: seq<byte>, q: nat)
    requires q <= |data|
    ensures before + data == (before + data[..q]) + data[q..]
  {
    assert data == data[..q] + data[q..];
  }

  lemma Cut(m: seq<byte>)
    ensures WholeBlocks(m) + LastPart(m) == m
  {
  }

  lemma CutIs(m: seq<byte>, a: seq<byte>, b: seq<byte>)
    requires m == a + b && |a| % 64 == 0 && |b| < 64
    ensures WholeBlocks(m) == a && LastPart(m) == b
  {
    assert |m| % 64 == |b|;
  }

  lemma AddLast(x: word, k: word, w: word)
    ensures Add(Add(x, k), w) == Add(Add(x, w), k)
  {
    AddModulo(x + k, w);
    AddModulo(x + w, k);
  }

  lemma AddModulo(n: nat, w: word)
    ensures (n % TWO_32 + w) % TWO_32 == (n + w) % TWO_32
  {
    assert n == TWO_32 * (n / TWO_32) + n % TWO_32;
  }

  lemma MoreBits(before: seq<byte>, more: seq<byte>)
    ensures BitCount(before + more) == (BitCount(before) + 8 * |more|) % TWO_64
  {
    var n := 8 * |before|;
    assert n == TWO_64 * (n / TWO_64) + n % TWO_64;
  }

  lemma OneMoreBlock(done: seq<byte>, block: seq<byte>)
    requires |done| % 64 == 0 && |block| == 64
    ensures HashBlocks(done + block) == Compress(HashBlocks(done), block)
  {
    hide Compress;
    var t := done + block;
    assert t[..|t| - 64] == done && t[|t| - 64..] == block;
  }

  lemma HighToLow(w: word)
    ensures U32Bytes(w) == [w / 0x100_0000 % 256, w / 0x1_0000 % 256, w / 0x100 % 256, w % 256]
  {
    Shifts(w);
    assert w / 256 / 256 == w / 0x1_0000 && w / 256 / 256 / 256 == w / 0x100_0000;
  }

  lemma PadIsUnique(length: nat, k: nat)
    requires k <= PadZeros(length) && (length + 1 + k) % 64 == 56
    ensures k == PadZeros(length)
  {
    hide PadZeros;
    var more := PadZeros(length) - k;
    assert (length + 1 + k + more) % 64 == 56;
    assert more % 64 == 0 by { Difference(length + 1 + k, more); }
  }

  lemma Difference(a: nat, b: nat)
    requires a % 64 == (a + b) % 64
    ensures b % 64 == 0
  {
  }

  /** One-shot hashing. */
  method Hash(data: seq<byte>) returns (digest: seq<byte>)
    ensures digest == Digest(data)
  {
    var sha := new Sha1();
    assert [] + data == data;
    sha.Update(data);
    digest := sha.Final();
  }

  /** However a message is split into parts, empty ones included, the digest is that of the whole. */
  method HashParts(parts: seq<seq<byte>>) returns (digest: seq<byte>)
    ensures digest == Digest(Concat(parts))
  {
    hide Digest;
    var sha := new Sha1();
    sha.UpdateAll(parts);
    assert [] + Concat(parts) == Concat(parts);
    digest := sha.Final();
  }
}
