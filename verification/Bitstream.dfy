/** The bit writer of the elementary-stream generator, and the reader of sections 9.1 and 9.1.1 of ITU-T H.264. */
module Bitstream {
  import opened Bits
  import opened Bytes

  // ---- bits and numbers --------------------------------------------------------------------------------------------

  /** An arithmetic right shift by i. */
  function Shift(v: int, i: nat): int
    decreases i
  {
    if i == 0 then v else Shift(v / 2, i - 1)
  }

  lemma {:induction false} BitsOfAt(v: int, n: nat, k: nat)
    requires k < n
    ensures BitsOf(v, n)[k] == Shift(v, n - 1 - k) % 2
    decreases n
  {
    if k < n - 1 {
      BitsOfAt(v / 2, n - 1, k);
    }
  }

  /** A number of n + 1 bits starts with a one. */
  lemma {:induction false} LeadingOne(v: nat, n: nat)
    requires Pow2(n) <= v < Pow2(n + 1)
    ensures BitsOf(v, n + 1) == [1] + BitsOf(v - Pow2(n), n)
  {
    if n == 0 {
      assert v == 1 && BitsOf(v, 1) == BitsOf(0, 0) + [1];
    } else {
      LeadingOne(v / 2, n - 1);
      assert (v - Pow2(n)) / 2 == v / 2 - Pow2(n - 1);
      assert ([1] + BitsOf(v / 2 - Pow2(n - 1), n - 1)) + [v % 2] == [1] + (BitsOf(v / 2 - Pow2(n - 1), n - 1) + [v % 2]);
    }
  }

  /** Only the low n bits matter. */
  lemma {:induction false} BitsOfWrap(v: int, n: nat)
    ensures BitsOf(v - Pow2(n), n) == BitsOf(v, n)
    decreases n
  {
    if n > 0 {
      BitsOfWrap(v / 2, n - 1);
      assert (v - Pow2(n)) / 2 == v / 2 - Pow2(n - 1);
    }
  }

  // ---- Exp-Golomb codes --------------------------------------------------------------------------------------------

  function Log2(v: nat): (n: nat)
    requires v > 0
    ensures Pow2(n) <= v < Pow2(n + 1)
  {
    if v == 1 then 0 else 1 + Log2(v / 2)
  }

  /** ue(v): as many zeros as the binary form of value + 1 has bits after its first, then that form. */
  function UeCode(value: nat): seq<bit> {
    Zeros(Log2(value + 1)) + BitsOf(value + 1, Log2(value + 1) + 1)
  }

  function SeNumber(value: int): nat {
    if value <= 0 then -value * 2 else value * 2 - 1
  }

  /** Number of zeros in front of the first one; none if there is no one. */
  function LeadingZeros(bits: seq<bit>): Option<nat> {
    if bits == [] then None
    else if bits[0] == 1 then Some(0)
    else
      match LeadingZeros(bits[1..])
      case None => None
      case Some(n) => Some(n + 1)
  }

  datatype Read<+T> = Bad | Got(value: T, rest: seq<bit>)

  function ReadBits(bits: seq<bit>, n: nat): Read<nat> {
    if |bits| < n then Bad else Got(Value(bits[..n]), bits[n..])
  }

  /** Section 9.1: codeNum = 2^leadingZeroBits - 1 + read_bits(leadingZeroBits). */
  function ReadUe(bits: seq<bit>): Read<nat> {
    match LeadingZeros(bits)
    case None => Bad
    case Some(n) =>
      if |bits| < 2 * n + 1 then Bad
      else Got(Pow2(n) - 1 + Value(bits[n + 1..2 * n + 1]), bits[2 * n + 1..])
  }

  /** Section 9.1.1: odd code numbers are the positive values, even ones the others. */
  function SignedOf(k: nat): int {
    if k % 2 == 1 then (k + 1) / 2 else -(k / 2)
  }

  function ReadSe(bits: seq<bit>): Read<int> {
    match ReadUe(bits)
    case Bad => Bad
    case Got(k, rest) => Got(SignedOf(k), rest)
  }

  lemma {:induction false} LeadingZerosOf(n: nat, rest: seq<bit>)
    ensures LeadingZeros(Zeros(n) + [1] + rest) == Some(n)
  {
    if n > 0 {
      LeadingZerosOf(n - 1, rest);
      assert (Zeros(n) + [1] + rest)[1..] == Zeros(n - 1) + [1] + rest;
    }
  }

  /** Reading an Exp-Golomb code gives back the value and leaves the rest. */
  lemma ReadUeCode(value: nat, rest: seq<bit>)
    ensures ReadUe(UeCode(value) + rest) == Got(value, rest)
  {
    var n := Log2(value + 1);
    LeadingOne(value + 1, n);
    var info := BitsOf(value + 1 - Pow2(n), n);
    var bits := UeCode(value) + rest;
    assert bits == Zeros(n) + [1] + (info + rest);
    LeadingZerosOf(n, info + rest);
    assert bits[n + 1..2 * n + 1] == info;
    assert bits[2 * n + 1..] == rest;
    ValueOfBits(value + 1 - Pow2(n), n);
  }

  lemma ReadSeCode(value: int, rest: seq<bit>)
    ensures ReadSe(UeCode(SeNumber(value)) + rest) == Got(value, rest)
  {
    hide UeCode, ReadUe;
    ReadUeCode(SeNumber(value), rest);
  }

  /** The first codes of section 9.1, and the numbers of section 9.1.1. */
  lemma FirstCodes()
    ensures UeCode(0) == [1] && UeCode(1) == [0, 1, 0] && UeCode(2) == [0, 1, 1] && UeCode(3) == [0, 0, 1, 0, 0]
    ensures SeNumber(0) == 0 && SeNumber(1) == 1 && SeNumber(-1) == 2 && SeNumber(2) == 3 && SeNumber(-2) == 4
  {
    assert Log2(1) == 0 && Log2(2) == 1 && Log2(3) == 1 && Log2(4) == 2;
    assert BitsOf(4, 3) == BitsOf(2, 2) + [0] == BitsOf(1, 1) + [0] + [0] == [1, 0, 0];
  }

  /** The length of a code: 2 floor(log2(value + 1)) + 1 bits. */
  lemma UeLength(value: nat, n: nat)
    requires Pow2(n) <= value + 1 < Pow2(n + 1)
    ensures |UeCode(value)| == 2 * n + 1
  {
    Log2Unique(value + 1, n);
  }

  lemma {:induction false} Log2Unique(v: nat, n: nat)
    requires Pow2(n) <= v < Pow2(n + 1)
    ensures v > 0 && Log2(v) == n
  {
    if n > 0 {
      assert Pow2(n) >= 2;
      Log2Unique(v / 2, n - 1);
    }
  }

  // ---- sequences of syntax elements --------------------------------------------------------------------------------

  datatype Element = U(value: nat, n: nat) | Ue(value: nat) | Se(signed: int)

  /** The ranges in which the writer's 32-bit arithmetic is exact. */
  predicate InRange(e: Element) {
    match e
    case U(v, n) => n <= 32 && v < Pow2(n)
    case Ue(v) => v < TWO_32 - 1
    case Se(v) => -0x8000_0000 < v < 0x8000_0000
  }

  function ElementBits(e: Element): seq<bit> {
    match e
    case U(v, n) => BitsOf(v, n)
    case Ue(v) => UeCode(v)
    case Se(v) => UeCode(SeNumber(v))
  }

  function ElementsBits(es: seq<Element>): seq<bit> {
    if es == [] then [] else ElementBits(es[0]) + ElementsBits(es[1..])
  }

  datatype Kind = KindU(n: nat) | KindUe | KindSe

  function KindOf(e: Element): Kind {
    match e
    case U(_, n) => KindU(n)
    case Ue(_) => KindUe
    case Se(_) => KindSe
  }

  function ReadElement(k: Kind, bits: seq<bit>): Read<Element> {
    match k
    case KindU(n) => (match ReadBits(bits, n) case Bad => Bad case Got(v, rest) => Got(U(v, n), rest))
    case KindUe => (match ReadUe(bits) case Bad => Bad case Got(v, rest) => Got(Ue(v), rest))
    case KindSe => (match ReadSe(bits) case Bad => Bad case Got(v, rest) => Got(Se(v), rest))
  }

  /** Read elements of the given kinds, one after the other. */
  function ReadElements(kinds: seq<Kind>, bits: seq<bit>): Read<seq<Element>> {
    if kinds == [] then Got([], bits)
    else
      match ReadElement(kinds[0], bits)
      case Bad => Bad
      case Got(e, rest) =>
        match ReadElements(kinds[1..], rest)
        case Bad => Bad
        case Got(es, rest') => Got([e] + es, rest')
  }

  function Kinds(es: seq<Element>): seq<Kind> {
    if es == [] then [] else [KindOf(es[0])] + Kinds(es[1..])
  }

  lemma ReadElementBits(e: Element, rest: seq<bit>)
    requires InRange(e)
    ensures ReadElement(KindOf(e), ElementBits(e) + rest) == Got(e, rest)
  {
    match e
    case U(v, n) =>
      ValueOfBits(v, n);
      assert (BitsOf(v, n) + rest)[..n] == BitsOf(v, n) && (BitsOf(v, n) + rest)[n..] == rest;
    case Ue(v) => ReadUeCode(v, rest);
    case Se(v) => ReadSeCode(v, rest);
  }

  /** Bit-level round trip: a reader that knows the kinds recovers every sequence of elements. */
  lemma {:induction false} ReadElementsBits(es: seq<Element>, rest: seq<bit>)
    requires forall e :: e in es ==> InRange(e)
    ensures ReadElements(Kinds(es), ElementsBits(es) + rest) == Got(es, rest)
  {
    hide ReadElement, ElementBits;
    if es == [] {
      assert [] + rest == rest;
    } else {
      assert es == [es[0]] + es[1..];
      ReadElementBits(es[0], ElementsBits(es[1..]) + rest);
      ReadElementsBits(es[1..], rest);
      assert ElementsBits(es) + rest == ElementBits(es[0]) + (ElementsBits(es[1..]) + rest);
      assert Kinds(es)[1..] == Kinds(es[1..]);
    }
  }

  /** The stop bit and the zeros that align the whole to bytes. */
  function TrailingBits(written: nat): (t: seq<bit>)
    ensures (written + |t|) % 8 == 0
  {
    [1] + Zeros((8 - (written + 1) % 8) % 8)
  }

  /** A one and then zeros, fewer than eight of them. */
  lemma TrailingBitsAre(written: nat)
    ensures var t := TrailingBits(written);
            1 <= |t| <= 8 && t[0] == 1 && forall k :: 1 <= k < |t| ==> t[k] == 0
  {
  }

  /** The bits of a raw byte sequence payload. */
  function RbspBits(es: seq<Element>): seq<bit> {
    RbspWritten(ElementsBits(es))
  }

  // ---- the writer --------------------------------------------------------------------------------------------------

  lemma {:induction false} Pow2Monotone(a: nat, b: nat)
    requires a <= b
    ensures Pow2(a) <= Pow2(b)
    decreases b
  {
    if a < b {
      Pow2Monotone(a, b - 1);
    }
  }

  lemma ShiftIn(buf: nat, b: bit, n: nat)
    requires n < 8 && buf < Pow2(n)
    ensures buf * 2 + b < Pow2(n + 1) <= 256
  {
    Pow2Monotone(n + 1, 8);
    assert Pow2(4) == 16;
    assert Pow2(8) == 256;
  }

  /** Shifting a bit into the buffer appends it to the bits written. */
  lemma AppendBit(front: seq<bit>, buf: nat, b: bit, n: nat)
    ensures front + BitsOf(buf * 2 + b, n + 1) == front + BitsOf(buf, n) + [b]
  {
    hide BitsOf;
    assert BitsOf(buf * 2 + b, n + 1) == BitsOf(buf, n) + [b] by { PushBit(buf, b, n); }
    assert front + (BitsOf(buf, n) + [b]) == front + BitsOf(buf, n) + [b];
  }

  lemma PushBit(buf: nat, b: bit, n: nat)
    ensures BitsOf(buf * 2 + b, n + 1) == BitsOf(buf, n) + [b]
  {
    assert (buf * 2 + b) / 2 == buf && (buf * 2 + b) % 2 == b;
  }

  /** The conversion of an unsigned argument to the signed parameter of WriteBits. */
  function ToInt32(v: nat): (i: int)
    requires v < TWO_32
    ensures -0x8000_0000 <= i < 0x8000_0000
  {
    if v >= 0x8000_0000 then v - TWO_32 else v
  }

  lemma Log2Below32(v: nat)
    requires 0 < v < TWO_32
    ensures Log2(v) <= 31
    ensures v >= 0x8000_0000 ==> Log2(v) == 31
  {
    hide Log2, Pow2;
    Pow2Of32();
    if Log2(v) > 31 {
      Pow2Monotone(32, Log2(v));
    }
    if v >= 0x8000_0000 {
      Log2Unique(v, 31);
    }
  }

  /** Handing an unsigned number over as a signed one does not change its n low bits. */
  lemma SignedBits(v: nat, n: nat)
    requires v < TWO_32 && n <= 32 && v < Pow2(n)
    ensures BitsOf(ToInt32(v), n) == BitsOf(v, n)
  {
    hide BitsOf, Pow2;
    Pow2Of32();
    if v >= 0x8000_0000 {
      if n <= 31 {
        Pow2Monotone(n, 31);
      }
      BitsOfWrap(v, 32);
    }
  }

  /** What WriteUe appends; the largest value is the one it has no code for. */
  function UeWritten(value: nat): seq<bit>
    requires value < TWO_32
  {
    if value < TWO_32 - 1 then UeCode(value) else [0]
  }

  /**
   * When the writer is right: whatever bits follow, a reader of section 9.1 gets the value back and stops in front of
   * them if and only if the value is not the largest of 32 bits.
   */
  lemma UeReadBackIff(value: nat, rest: seq<bit>)
    requires value < TWO_32
    ensures ReadUe(UeWritten(value) + rest) == Got(value, rest) <==> value < TWO_32 - 1
  {
    if value < TWO_32 - 1 {
      ReadUeCode(value, rest);
    } else {
      ReadAfterZero(rest);
    }
  }

  /** A zero in front is part of a code: the reader goes on into what follows. */
  lemma ReadAfterZero(rest: seq<bit>)
    ensures ReadUe([0] + rest).Got? ==> |ReadUe([0] + rest).rest| < |rest|
  {
    assert ([0] + rest)[1..] == rest;
  }

  /** The largest value in a payload of its own, flushed: a reader takes it for the value 1. */
  lemma LargestUeIsReadAsOne()
    ensures ReadUe(RbspWritten(UeWritten(TWO_32 - 1))) == Got(1, Zeros(5))
  {
    var bits := [0, 1] + Zeros(6);
    assert RbspWritten([0]) == bits;
    assert LeadingZeros(bits) == Some(1) by { assert bits[1..][0] == 1; }
    assert bits[2..3] == [0] && Value([0]) == 0 by { assert [0][..0] == []; }
    assert bits[3..] == Zeros(5);
    assert Pow2(1) == 2;
  }

  /** Written bits with the trailing bits that Flush appends. */
  function RbspWritten(bits: seq<bit>): seq<bit> {
    bits + TrailingBits(|bits|)
  }

  /** The zeros and the bits of the incremented value, which may have wrapped, are what is written. */
  lemma UeWrittenIs(value: nat, v: nat, n: nat)
    requires value < TWO_32 && v == (value + 1) % TWO_32
    requires n <= 31 && n == if v == 0 then 0 else Log2(v)
    ensures Zeros(n) + BitsOf(ToInt32(v), n + 1) == UeWritten(value)
  {
    hide BitsOf, Pow2, Log2;
    SignedBits(v, n + 1);
    if v == 0 {
      ZeroBits(1);
      assert Zeros(0) + Zeros(1) == [0];
    }
  }

  class BitWriter {
    var bytes: seq<byte>
    var buf: nat
    var bitsInBuf: nat

    ghost predicate Valid()
      reads this
    {
      bitsInBuf < 8 && buf < Pow2(bitsInBuf)
    }

    /** The bits written so far. */
    ghost function Contents(): seq<bit>
      reads this
    {
      ByteBits(bytes) + BitsOf(buf, bitsInBuf)
    }

    constructor ()
      ensures Valid() && Contents() == []
    {
      bytes, buf, bitsInBuf := [], 0, 0;
    }

    method Clear()
      modifies this
      ensures Valid() && Contents() == []
    {
      bytes, buf, bitsInBuf := [], 0, 0;
    }

    method WriteBit(b: int)
      requires Valid()
      modifies this
      ensures Valid() && Contents() == old(Contents()) + [b % 2]
    {
      hide BitsOf, ByteBits;
      ShiftIn(buf, b % 2, bitsInBuf);
      AppendBit(ByteBits(bytes), buf, b % 2, bitsInBuf);
      buf := buf * 2 + b % 2;
      bitsInBuf := bitsInBuf + 1;
      if bitsInBuf == 8 {
        ByteBitsAppend(bytes, buf);
        assert BitsOf(0, 0) == [];
        bytes := bytes + [buf];
        buf := 0;
        bitsInBuf := 0;
      }
    }

    method WriteBits(value: int, n: nat)
      requires Valid() && n <= 32
      modifies this
      ensures Valid() && Contents() == old(Contents()) + BitsOf(value, n)
    {
      hide BitsOf;
      ghost var all := BitsOf(value, n);
      for i := n downto 0
        invariant Valid() && Contents() == old(Contents()) + all[..n - i]
      {
        BitsOfAt(value, n, n - 1 - i);
        assert all[..n - i] == all[..n - 1 - i] + [all[n - 1 - i]];
        WriteBit(Shift(value, i) % 2);
      }
    }

    method WriteUe(value: nat)
      requires Valid() && value < TWO_32
      modifies this
      ensures Valid() && Contents() == old(Contents()) + UeWritten(value)
    {
      hide BitsOf, ByteBits, Pow2, Log2, UeWritten;
      var v := (value + 1) % TWO_32;
      var leadingZeros := CountLeadingZeros(v);
      ghost var before := Contents();
      WriteZeros(leadingZeros);
      UeWrittenIs(value, v, leadingZeros);
      WriteBits(ToInt32(v), leadingZeros + 1);
      Regroup(before, Zeros(leadingZeros), BitsOf(ToInt32(v), leadingZeros + 1));
    }

    method WriteZeros(n: nat)
      requires Valid()
      modifies this
      ensures Valid() && Contents() == old(Contents()) + Zeros(n)
    {
      hide BitsOf, ByteBits;
      for i := 0 to n
        invariant Valid() && Contents() == old(Contents()) + Zeros(i)
      {
        WriteBit(0);
      }
    }

    method CountLeadingZeros(v: nat) returns (leadingZeros: nat)
      requires v < TWO_32
      ensures leadingZeros <= 31
      ensures leadingZeros == if v == 0 then 0 else Log2(v)
    {
      ghost var t: nat := v;
      leadingZeros := 0;
      var tmp: nat := v / 2;
      while tmp != 0
        invariant tmp == t / 2
        invariant v > 0 ==> t > 0 && Log2(v) == leadingZeros + Log2(t)
        invariant v == 0 ==> t == 0 && leadingZeros == 0
        decreases tmp
      {
        t := tmp;
        leadingZeros := leadingZeros + 1;
        tmp := tmp / 2;
      }
      if v > 0 {
        Log2Below32(v);
      }
    }

    method WriteSe(value: int)
      requires Valid() && -0x8000_0000 < value < 0x8000_0000
      modifies this
      ensures Valid() && Contents() == old(Contents()) + UeCode(SeNumber(value))
    {
      hide UeCode;
      var codeNum: nat;
      if value <= 0 {
        codeNum := -value * 2;
      } else {
        codeNum := value * 2 - 1;
      }
      WriteUe(codeNum);
    }

    /** One syntax element of any kind. */
    method WriteElement(e: Element)
      requires Valid() && InRange(e)
      modifies this
      ensures Valid() && Contents() == old(Contents()) + ElementBits(e)
    {
      hide BitsOf, ByteBits, UeCode, Pow2;
      match e {
        case U(v, n) =>
          Pow2Of32();
          Pow2Monotone(n, 32);
          SignedBits(v, n);
          WriteBits(ToInt32(v), n);
        case Ue(v) =>
          WriteUe(v);
        case Se(v) =>
          WriteSe(v);
      }
    }

    /** Append the stop bit and zeros up to the next byte boundary. */
    method Flush()
      requires Valid()
      modifies this
      ensures Valid() && bitsInBuf == 0
      ensures ByteBits(bytes) == old(Contents()) + TrailingBits(|old(Contents())|)
    {
      hide BitsOf, ByteBits, Pow2, TrailingBits;
      ghost var written := |Contents()|;
      ghost var m, k := (written + 1) % 8, 0;
      WriteBit(1);
      Filled(bytes, buf, bitsInBuf);
      while bitsInBuf != 0
        invariant Valid() && Contents() == old(Contents()) + ([1] + Zeros(k))
        invariant m + k <= 8 && (m == 0 ==> k == 0)
        invariant bitsInBuf == if m + k == 8 then 0 else m + k
        decreases 8 - k
      {
        WriteBit(0);
        k := k + 1;
        assert [1] + Zeros(k) == [1] + Zeros(k - 1) + [0];
        Filled(bytes, buf, bitsInBuf);
        Carry(written + 1, k);
      }
      Carry(written + 1, k);
      Padding(written, k);
      assert BitsOf(buf, 0) == [];
    }
  }

  lemma Carry(a: nat, k: nat)
    requires a % 8 + k <= 8
    ensures (a + k) % 8 == if a % 8 + k == 8 then 0 else a % 8 + k
  {
    assert a == 8 * (a / 8) + a % 8;
  }

  lemma Filled(bytes: seq<byte>, buf: nat, n: nat)
    requires n < 8
    ensures |ByteBits(bytes) + BitsOf(buf, n)| % 8 == n
  {
    hide BitsOf, ByteBits;
    ByteBitsLength(bytes);
    assert (8 * |bytes| + n) % 8 == n;
  }

  lemma Padding(written: nat, k: nat)
    requires k < 8 && (written + 1 + k) % 8 == 0
    ensures TrailingBits(written) == [1] + Zeros(k)
  {
  }

  /** The writer over a whole payload: cleared, filled with elements, flushed. */
  method WriteRbsp(w: BitWriter, es: seq<Element>)
    requires forall e :: e in es ==> InRange(e)
    modifies w
    ensures ByteBits(w.bytes) == RbspBits(es)
  {
    hide ElementBits, ByteBits, BitsOf, Pow2, TrailingBits;
    w.Clear();
    for i := 0 to |es|
      invariant w.Valid() && w.Contents() == ElementsBits(es[..i])
    {
      ElementsBitsAppend(es[..i], es[i]);
      assert es[..i + 1] == es[..i] + [es[i]];
      w.WriteElement(es[i]);
    }
    assert es[..|es|] == es;
    w.Flush();
  }

  lemma {:induction false} ElementsBitsAppend(es: seq<Element>, e: Element)
    ensures ElementsBits(es + [e]) == ElementsBits(es) + ElementBits(e)
  {
    hide ElementBits;
    if es == [] {
      assert [e][1..] == [];
    } else {
      assert (es + [e])[1..] == es[1..] + [e];
      ElementsBitsAppend(es[1..], e);
    }
  }

  /**
   * Round trip through bytes: whatever bytes carry the payload bits, reading elements of the same kinds from them
   * recovers the elements and stops in front of the trailing bits.
   */
  lemma RbspRoundTrip(bytes: seq<byte>, es: seq<Element>)
    requires forall e :: e in es ==> InRange(e)
    requires ByteBits(bytes) == RbspBits(es)
    ensures ReadElements(Kinds(es), ByteBits(bytes)) == Got(es, TrailingBits(|ElementsBits(es)|))
  {
    ReadElementsBits(es, TrailingBits(|ElementsBits(es)|));
  }

  /** The last byte holds the stop bit: it is never zero. */
  lemma LastByteNonZero(bytes: seq<byte>, es: seq<Element>)
    requires ByteBits(bytes) == RbspBits(es)
    ensures bytes != [] && bytes[|bytes| - 1] != 0
  {
    hide ElementsBits, BitsOf;
    ByteBitsLength(bytes);
    var bits := ElementsBits(es);
    var stop, front := |bits|, ByteBits(bytes[..|bytes| - 1]);
    assert ByteBits(bytes)[stop] == 1 && |front| <= stop;
    OneBit(bytes[|bytes| - 1], stop - |front|);
  }

  lemma OneBit(b: byte, k: nat)
    requires k < 8 && BitsOf(b, 8)[k] == 1
    ensures b != 0
  {
    ZeroBits(8);
  }
}
