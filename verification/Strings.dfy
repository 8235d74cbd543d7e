/** Texts as bytes: white space, lower case, searching, lines and words. */
module Strings {
  import opened Bytes

  const LF: byte := 0x0A
  const CR: byte := 0x0D

  /** The bytes of an ASCII text. */
  function Ascii(s: string): (t: seq<byte>)
    ensures |t| == |s|
  {
    seq(|s|, i requires 0 <= i < |s| => s[i] as int % 256)
  }

  /** White space in the C locale. */
  predicate IsSpace(b: byte) {
    b == 0x20 || 0x09 <= b <= 0x0D
  }

  function ToLower(b: byte): byte {
    if 0x41 <= b <= 0x5A then b + 0x20 else b
  }

  function Lower(s: seq<byte>): (t: seq<byte>)
    ensures |t| == |s|
  {
    seq(|s|, i requires 0 <= i < |s| => ToLower(s[i]))
  }

  function SkipSpaces(s: seq<byte>): seq<byte> {
    if s != [] && IsSpace(s[0]) then SkipSpaces(s[1..]) else s
  }

  /** The first position of b in s; the length if there is none. */
  function Find(s: seq<byte>, b: byte): (i: nat)
    ensures i <= |s| && (i < |s| ==> s[i] == b)
  {
    if s == [] || s[0] == b then 0 else Find(s[1..], b) + 1
  }

  /** It is the first one. */
  lemma {:induction false} FindIsFirst(s: seq<byte>, b: byte, i: nat)
    requires i <= |s| && (i < |s| ==> s[i] == b) && forall k :: 0 <= k < i ==> s[k] != b
    ensures Find(s, b) == i
    decreases i
  {
    if i > 0 {
      FindIsFirst(s[1..], b, i - 1);
    }
  }

  lemma {:induction false} FindInPrefix(s: seq<byte>, more: seq<byte>, b: byte)
    requires Find(s, b) < |s|
    ensures Find(s + more, b) == Find(s, b)
  {
    if s[0] != b {
      assert (s + more)[1..] == s[1..] + more;
      FindInPrefix(s[1..], more, b);
    }
  }

  /** A line without its line end, which is LF or CR LF. */
  function StripCr(s: seq<byte>): seq<byte> {
    if s != [] && s[|s| - 1] == CR then s[..|s| - 1] else s
  }

  /** The first word of s and what follows it, as a formatted extraction from a stream takes them. */
  function WordLength(s: seq<byte>): (n: nat)
    ensures n <= |s|
  {
    if s == [] || IsSpace(s[0]) then 0 else 1 + WordLength(s[1..])
  }

  /** The first count words of a line; none if there are fewer. */
  function Words(s: seq<byte>, count: nat): (w: Option<seq<seq<byte>>>)
    ensures w.Some? ==> |w.value| == count
    decreases count
  {
    if count == 0 then Some([])
    else
      var t := SkipSpaces(s);
      if t == [] then None
      else
        match Words(t[WordLength(t)..], count - 1)
        case None => None
        case Some(rest) => Some([t[..WordLength(t)]] + rest)
  }
}
