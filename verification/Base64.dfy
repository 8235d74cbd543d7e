/** Base64 against section 4 of RFC 4648. */
module Base64 {
  import opened Bytes

  /** The table of the encoder. */
  const TABLE := "ABCDEFGHIJKLMNOPQRSTUVWXYZ" + "abcdefghijklmnopqrstuvwxyz" + "0123456789" + "+/"
  const PAD := '='

  // ---- the alphabet -------------------------------------------------------------------------------------------------

  /** Table 1: the digit of a value. */
  function Digit(v: nat): char
    requires v < 64
  {
    if v < 26 then 'A' + v as char
    else if v < 52 then 'a' + (v - 26) as char
    else if v < 62 then '0' + (v - 52) as char
    else if v == 62 then '+'
    else '/'
  }

  /** The value of a digit; none for anything else, the padding included. */
  function ValueOf(c: char): (v: Option<nat>)
    ensures v.Some? ==> v.value < 64
  {
    if 'A' <= c <= 'Z' then Some(c as int - 'A' as int)
    else if 'a' <= c <= 'z' then Some(c as int - 'a' as int + 26)
    else if '0' <= c <= '9' then Some(c as int - '0' as int + 52)
    else if c == '+' then Some(62)
    else if c == '/' then Some(63)
    else None
  }

  lemma TableIsAlphabet(v: nat)
    requires v < 64
    ensures |TABLE| == 64 && TABLE[v] == Digit(v)
  {
    if v < 26 {
      UpperCase(v);
    } else if v < 52 {
      LowerCase(v - 26);
    } else if v < 62 {
      assert "0123456789"[v - 52] as int == '0' as int + (v - 52);
    }
  }

  lemma UpperCase(v: nat)
    requires v < 26
    ensures "ABCDEFGHIJKLMNOPQRSTUVWXYZ"[v] == 'A' + v as char
  {
    assert "ABCDEFGHIJKLMNOPQRSTUVWXYZ"[v] as int == 'A' as int + v;
  }

  lemma LowerCase(v: nat)
    requires v < 26
    ensures "abcdefghijklmnopqrstuvwxyz"[v] == 'a' + v as char
  {
    assert "abcdefghijklmnopqrstuvwxyz"[v] as int == 'a' as int + v;
  }

  lemma DigitInverse(v: nat)
    requires v < 64
    ensures ValueOf(Digit(v)) == Some(v) && Digit(v) != PAD
  {
  }

  lemma ValueInverse(c: char)
    requires ValueOf(c).Some?
    ensures Digit(ValueOf(c).value) == c && c != PAD
  {
  }

  // ---- groups -------------------------------------------------------------------------------------------------------

  /** 24 bits as four digits. */
  function Digits(n: nat): (s: string)
    requires n < 0x100_0000
    ensures |s| == 4
  {
    [Digit(n / 0x4_0000), Digit(n / 0x1000 % 64), Digit(n / 64 % 64), Digit(n % 64)]
  }

  function Group(a: byte, b: byte, c: byte): (n: nat)
    ensures n < 0x100_0000
  {
    a as int * 0x1_0000 + b as int * 0x100 + c
  }

  /** Section 4: groups of three bytes; a last group of one or two is filled with zero bits, and with padding. */
  function Encoded(data: seq<byte>): string {
    if |data| == 0 then []
    else if |data| == 1 then Digits(Group(data[0], 0, 0))[..2] + [PAD, PAD]
    else if |data| == 2 then Digits(Group(data[0], data[1], 0))[..3] + [PAD]
    else Digits(Group(data[0], data[1], data[2])) + Encoded(data[3..])
  }

  /** Test vectors of section 10, and one for the two digits that are neither letters nor numbers. */
  lemma TestVectors()
    ensures Encoded([0x66]) == "Zg==" && Encoded([0x66, 0x6F]) == "Zm8="
    ensures Encoded([0x66, 0x6F, 0x6F]) == "Zm9v" && Encoded([0x66, 0x6F, 0x6F, 0x62, 0x61, 0x72]) == "Zm9vYmFy"
    ensures Encoded([0xFB, 0xFF, 0xBF]) == "+/+/"
  {
    hide Digits, Digit;
    assert [0x66, 0x6F, 0x6F, 0x62, 0x61, 0x72][3..] == [0x62, 0x61, 0x72];
    assert [0x62, 0x61, 0x72][3..] == [] && [0xFB, 0xFF, 0xBF][3..] == [] && [0x66, 0x6F, 0x6F][3..] == [];
    FourDigits(0x66_0000, 'Z', 'g', 'A', 'A');
    FourDigits(0x66_6F00, 'Z', 'm', '8', 'A');
    FourDigits(0x66_6F6F, 'Z', 'm', '9', 'v');
    FourDigits(0x62_6172, 'Y', 'm', 'F', 'y');
    FourDigits(0xFB_FFBF, '+', '/', '+', '/');
  }

  lemma FourDigits(n: nat, a: char, b: char, c: char, d: char)
    requires n < 0x100_0000
    requires ValueOf(a) == Some(n / 0x4_0000) && ValueOf(b) == Some(n / 0x1000 % 64)
    requires ValueOf(c) == Some(n / 64 % 64) && ValueOf(d) == Some(n % 64)
    ensures Digits(n) == [a, b, c, d]
  {
    ValueInverse(a);
    ValueInverse(b);
    ValueInverse(c);
    ValueInverse(d);
  }

  function Pow64(k: nat): (p: nat)
    ensures p > 0
  {
    if k == 0 then 1 else 64 * Pow64(k - 1)
  }

  /** Digits as a number of six bits each; none if one of them is not a digit. */
  function Number(text: string): (n: Option<nat>)
    ensures n.Some? ==> n.value < Pow64(|text|)
  {
    if text == [] then Some(0)
    else
      match (Number(text[..|text| - 1]), ValueOf(text[|text| - 1]))
      case (Some(high), Some(low)) => Some(high * 64 + low)
      case _ => None
  }

  /** Whole groups, padding only in the last one, and no bit set among those that padding leaves over. */
  function Decoded(text: string): Option<seq<byte>> {
    if text == [] then Some([])
    else if |text| < 4 then None
    else if |text| == 4 && text[3] == PAD then DecodedLast(text)
    else
      match (Number(text[..4]), Decoded(text[4..]))
      case (Some(n), Some(rest)) =>
        assert Pow64(4) == 0x100_0000;
        Some([n / 0x1_0000, n / 0x100 % 256, n % 256] + rest)
      case _ => None
  }

  function DecodedLast(text: string): Option<seq<byte>>
    requires |text| == 4
  {
    assert Pow64(2) == 0x1000 && Pow64(3) == 0x4_0000;
    if text[2] == PAD then
      match Number(text[..2])
      case Some(n) => if n % 16 == 0 then Some([n / 16]) else None
      case None => None
    else
      match Number(text[..3])
      case Some(n) => if n % 4 == 0 then Some([n / 4 / 256, n / 4 % 256]) else None
      case None => None
  }

  // ---- the encoder --------------------------------------------------------------------------------------------------

  lemma Digits4(n: nat)
    requires n < 0x100_0000
    ensures [TABLE[n / 0x4_0000 % 64], TABLE[n / 0x1000 % 64], TABLE[n / 64 % 64], TABLE[n % 64]] == Digits(n)
  {
    hide Digit;
    TableIsAlphabet(n / 0x4_0000 % 64);
    TableIsAlphabet(n / 0x1000 % 64);
    TableIsAlphabet(n / 64 % 64);
    TableIsAlphabet(n % 64);
  }

  /** The encoder: four digits for each three bytes, then what is left, with padding. */
  method Base64Encode(data: seq<byte>) returns (out: string)
    ensures out == Encoded(data)
  {
    hide Digits, Group;
    out := [];
    var i := 0;
    assert data[0..] == data;
    while i + 2 < |data|
      invariant i <= |data|
      invariant out + Encoded(data[i..]) == Encoded(data)
      decreases |data| - i
    {
      ghost var rest := data[i..];
      var digits := EncodeGroup(data[i], data[i + 1], data[i + 2]);
      assert rest[3..] == data[i + 3..];
      Regroup(out, digits, Encoded(data[i + 3..]));
      out := out + digits;
      i := i + 3;
    }
    if i < |data| {
      var last := EncodeLast(data[i..]);
      out := out + last;
    } else {
      assert data[i..] == [];
    }
  }

  method EncodeGroup(a: byte, b: byte, c: byte) returns (digits: string)
    ensures digits == Digits(Group(a, b, c))
  {
    var n := a as int * 0x1_0000 + b as int * 0x100 + c;
    Digits4(n);
    digits := [TABLE[n / 0x4_0000 % 64], TABLE[n / 0x1000 % 64], TABLE[n / 64 % 64], TABLE[n % 64]];
  }

  lemma EncodedShort(data: seq<byte>)
    requires 0 < |data| < 3
    ensures |data| == 1 ==> Encoded(data) == Digits(data[0] as int * 0x1_0000)[..2] + [PAD, PAD]
    ensures |data| == 2 ==> Encoded(data) == Digits(data[0] as int * 0x1_0000 + data[1] as int * 0x100)[..3] + [PAD]
  {
    hide Digits;
  }

  /** The last one or two bytes. */
  method EncodeLast(data: seq<byte>) returns (digits: string)
    requires 0 < |data| < 3
    ensures digits == Encoded(data)
  {
    hide Digit, Digits, Encoded;
    EncodedShort(data);
    if |data| == 1 {
      var n := data[0] as int * 0x1_0000;
      Digits4(n);
      digits := [TABLE[n / 0x4_0000 % 64], TABLE[n / 0x1000 % 64], PAD, PAD];
    } else {
      var n := data[0] as int * 0x1_0000 + data[1] as int * 0x100;
      Digits4(n);
      digits := [TABLE[n / 0x4_0000 % 64], TABLE[n / 0x1000 % 64], TABLE[n / 64 % 64], PAD];
    }
  }

  // ---- round trips --------------------------------------------------------------------------------------------------

  lemma NumberPush(text: string, c: char)
    requires Number(text).Some? && ValueOf(c).Some?
    ensures Number(text + [c]) == Some(Number(text).value * 64 + ValueOf(c).value)
  {
    hide ValueOf;
    assert (text + [c])[..|text|] == text;
  }

  /** Two, three or four digits of a 24-bit number are its upper 12, 18 or 24 bits. */
  lemma NumberOfDigits(n: nat)
    requires n < 0x100_0000
    ensures Number(Digits(n)[..2]) == Some(n / 0x1000)
    ensures Number(Digits(n)[..3]) == Some(n / 64)
    ensures Number(Digits(n)) == Some(n)
  {
    hide Digit, Number, ValueOf;
    var s := Digits(n);
    var a, b, c, d := n / 0x4_0000, n / 0x1000 % 64, n / 64 % 64, n % 64;
    DigitInverse(a);
    DigitInverse(b);
    DigitInverse(c);
    DigitInverse(d);
    NumberOfNone();
    var one, two, three := [Digit(a)], [Digit(a), Digit(b)], [Digit(a), Digit(b), Digit(c)];
    assert [] + [Digit(a)] == one && one + [Digit(b)] == two && two + [Digit(c)] == three;
    NumberPush([], Digit(a));
    NumberPush(one, Digit(b));
    NumberPush(two, Digit(c));
    NumberPush(three, Digit(d));
    assert s[..2] == two && s[..3] == three && s == three + [Digit(d)];
  }

  lemma NumberOfNone()
    ensures Number([]) == Some(0)
  {
  }

  lemma NoPadding(n: nat, k: nat)
    requires n < 0x100_0000 && k < 4
    ensures Digits(n)[k] != PAD
  {
    hide Digit;
    DigitInverse(n / 0x4_0000);
    DigitInverse(n / 0x1000 % 64);
    DigitInverse(n / 64 % 64);
    DigitInverse(n % 64);
  }

  lemma DecodedOne(a: byte)
    ensures Decoded(Digits(Group(a, 0, 0))[..2] + [PAD, PAD]) == Some([a])
  {
    hide Digits, Number;
    var n := Group(a, 0, 0);
    NumberOfDigits(n);
    var s := Digits(n)[..2] + [PAD, PAD];
    assert s[..2] == Digits(n)[..2];
    assert n / 0x1000 == 16 * a;
  }

  lemma DecodedTwo(a: byte, b: byte)
    ensures Decoded(Digits(Group(a, b, 0))[..3] + [PAD]) == Some([a, b])
  {
    hide Digits, Number, Group;
    var n := Group(a, b, 0);
    NumberOfDigits(n);
    NoPadding(n, 2);
    var s := Digits(n)[..3] + [PAD];
    assert s[..3] == Digits(n)[..3] && s[2] == Digits(n)[2];
    HighAndLow(a, b);
  }

  lemma HighAndLow(a: byte, b: byte)
    ensures var n := Group(a, b, 0) / 64; n % 4 == 0 && n / 4 / 256 == a && n / 4 % 256 == b
  {
    assert Group(a, b, 0) / 64 == 4 * (256 * a + b);
  }

  lemma DecodedThree(a: byte, b: byte, c: byte, text: string, data: seq<byte>)
    requires Decoded(text) == Some(data)
    ensures Decoded(Digits(Group(a, b, c)) + text) == Some([a, b, c] + data)
  {
    hide Digits, Number, DecodedLast;
    var n := Group(a, b, c);
    NumberOfDigits(n);
    NoPadding(n, 3);
    var s := Digits(n) + text;
    assert s[..4] == Digits(n) && s[4..] == text && s[3] == Digits(n)[3];
    assert n / 0x1_0000 == a && n / 0x100 == 256 * a + b;
  }

  /** Round trip: the decoder gives back what was encoded. */
  lemma {:induction false} DecodedEncoded(data: seq<byte>)
    ensures Decoded(Encoded(data)) == Some(data)
    decreases |data|
  {
    hide Digits, Decoded, Group;
    if |data| == 0 {
      DecodedNone();
    } else if |data| == 1 {
      assert data == [data[0]];
      DecodedOne(data[0]);
    } else if |data| == 2 {
      assert data == [data[0], data[1]];
      DecodedTwo(data[0], data[1]);
    } else {
      DecodedEncoded(data[3..]);
      DecodedThree(data[0], data[1], data[2], Encoded(data[3..]), data[3..]);
      assert data == [data[0], data[1], data[2]] + data[3..];
    }
  }

  lemma DecodedNone()
    ensures Decoded([]) == Some([])
  {
  }

  // ---- and back: the decoder accepts nothing but encodings

  lemma NumberPop(text: string)
    requires text != [] && Number(text).Some?
    ensures Number(text[..|text| - 1]).Some? && ValueOf(text[|text| - 1]).Some?
    ensures Number(text).value == Number(text[..|text| - 1]).value * 64 + ValueOf(text[|text| - 1]).value
  {
    hide ValueOf;
  }

  lemma SixBitParts(a: nat, b: nat, c: nat, d: nat)
    requires a < 64 && b < 64 && c < 64 && d < 64
    ensures var n := ((a * 64 + b) * 64 + c) * 64 + d;
            n < 0x100_0000 && n / 0x4_0000 == a && n / 0x1000 % 64 == b && n / 64 % 64 == c && n % 64 == d
  {
    var n := ((a * 64 + b) * 64 + c) * 64 + d;
    assert n / 64 == (a * 64 + b) * 64 + c;
    assert n / 0x1000 == a * 64 + b;
  }

  /** Four characters with a number are the digits of that number. */
  lemma DigitsOfNumber(text: string)
    requires |text| == 4 && Number(text).Some?
    ensures Number(text).value < 0x100_0000 && Digits(Number(text).value) == text
  {
    hide Digit, ValueOf, Number;
    var one, two, three := text[..1], text[..2], text[..3];
    assert three[..2] == two && two[..1] == one && one[..0] == [];
    NumberPop(text);
    NumberPop(three);
    NumberPop(two);
    NumberPop(one);
    NumberOfNone();
    var a, b, c, d := ValueOf(text[0]).value, ValueOf(text[1]).value, ValueOf(text[2]).value, ValueOf(text[3]).value;
    SixBitParts(a, b, c, d);
    ValueInverse(text[0]);
    ValueInverse(text[1]);
    ValueInverse(text[2]);
    ValueInverse(text[3]);
  }

  /** Digits filled up with zero digits. */
  lemma FilledUp(text: string)
    requires Number(text).Some?
    ensures Number(text + ['A']) == Some(Number(text).value * 64)
  {
    NumberPush(text, 'A');
  }

  lemma BackOne(text: string)
    requires |text| == 4 && text[2..] == [PAD, PAD] && Number(text[..2]).Some? && Number(text[..2]).value % 16 == 0
    ensures Number(text[..2]).value < 0x1000
    ensures Encoded([Number(text[..2]).value / 16]) == text
  {
    hide Digits, Number;
    assert Pow64(2) == 0x1000;
    var n, t := Number(text[..2]).value, text[..2];
    FilledUp(t);
    FilledUp(t + ['A']);
    var full := t + ['A'] + ['A'];
    DigitsOfNumber(full);
    assert Group(n / 16, 0, 0) == n * 64 * 64;
    assert Digits(n * 64 * 64)[..2] == t;
    assert text == t + [PAD, PAD];
  }

  lemma BackTwo(text: string)
    requires |text| == 4 && text[3] == PAD && Number(text[..3]).Some? && Number(text[..3]).value % 4 == 0
    ensures Number(text[..3]).value < 0x4_0000
    ensures var n := Number(text[..3]).value / 4; Encoded([n / 256, n % 256]) == text
  {
    hide Digits, Number;
    assert Pow64(3) == 0x4_0000;
    var n, t := Number(text[..3]).value, text[..3];
    FilledUp(t);
    DigitsOfNumber(t + ['A']);
    assert Group(n / 4 / 256, n / 4 % 256, 0) == n * 64;
    assert Digits(n * 64)[..3] == t;
    assert text == t + [PAD];
  }

  /** Canonicity: a text that the decoder accepts is the encoding of what it decodes to. */
  lemma {:induction false} EncodedDecoded(text: string)
    requires Decoded(text).Some?
    ensures Encoded(Decoded(text).value) == text
    decreases |text|
  {
    hide Digits, Number, Group;
    if text == [] {
    } else if |text| == 4 && text[3] == PAD {
      if text[2] == PAD {
        BackOne(text);
      } else {
        BackTwo(text);
      }
    } else {
      var n := Number(text[..4]).value;
      DigitsOfNumber(text[..4]);
      EncodedDecoded(text[4..]);
      BackThree(n, Decoded(text[4..]).value, text[4..]);
      assert text == text[..4] + text[4..];
    }
  }

  lemma BackThree(n: nat, data: seq<byte>, text: string)
    requires n < 0x100_0000 && Encoded(data) == text
    ensures Encoded([n / 0x1_0000, n / 0x100 % 256, n % 256] + data) == Digits(n) + text
  {
    hide Digits;
    var all: seq<byte> := [n / 0x1_0000, n / 0x100 % 256, n % 256] + data;
    assert all[3..] == data;
    assert Group(n / 0x1_0000, n / 0x100 % 256, n % 256) == n;
  }

  /** The length is 4 ceil(n / 3), and the padding is the last (3 - n mod 3) mod 3 characters and nothing else. */
  lemma {:induction false} LengthAndPadding(data: seq<byte>)
    ensures |Encoded(data)| == 4 * ((|data| + 2) / 3)
    ensures PaddedAtEnd(Encoded(data), (3 - |data| % 3) % 3)
    decreases |data|
  {
    hide Digits, Group, PaddedAtEnd;
    if |data| == 0 {
      assert PaddedAtEnd([], 0) by { NothingPadded(); }
    } else if |data| == 1 {
      PaddedGroup(Group(data[0], 0, 0), 2);
    } else if |data| == 2 {
      PaddedGroup(Group(data[0], data[1], 0), 1);
    } else {
      LengthAndPadding(data[3..]);
      PaddedRest(Group(data[0], data[1], data[2]), Encoded(data[3..]), (3 - |data| % 3) % 3);
    }
  }

  /** Padding is what the last count characters are, and no others. */
  predicate PaddedAtEnd(text: string, count: nat) {
    forall k :: 0 <= k < |text| ==> (text[k] == PAD <==> k >= |text| - count)
  }

  lemma NothingPadded()
    ensures PaddedAtEnd([], 0)
  {
  }

  lemma PaddedGroup(n: nat, count: nat)
    requires n < 0x100_0000 && 1 <= count <= 2
    ensures PaddedAtEnd(Digits(n)[..4 - count] + if count == 2 then [PAD, PAD] else [PAD], count)
  {
    hide Digits;
    NoPadding(n, 0);
    NoPadding(n, 1);
    NoPadding(n, 2);
  }

  lemma PaddedRest(n: nat, rest: string, count: nat)
    requires n < 0x100_0000 && PaddedAtEnd(rest, count) && count <= 2 && (rest == [] ==> count == 0)
    requires rest != [] ==> |rest| >= 4
    ensures PaddedAtEnd(Digits(n) + rest, count)
  {
    hide Digits;
    var text := Digits(n) + rest;
    forall k | 0 <= k < |text| ensures text[k] == PAD <==> k >= |text| - count {
      if k < 4 {
        NoPadding(n, k);
      } else {
        assert text[k] == rest[k - 4];
      }
    }
  }
}
