/** Header token lists of the opening handshake, and the choice of a subprotocol. */
module WsProtocols {
  import opened Bytes
  import opened Strings

  const COMMA: byte := 0x2C

  predicate AllSpaces(s: seq<byte>) {
    forall k :: 0 <= k < |s| ==> IsSpace(s[k])
  }

  /** Neither the first nor the last byte is white space. */
  predicate IsTrimmed(s: seq<byte>) {
    s != [] ==> !IsSpace(s[0]) && !IsSpace(s[|s| - 1])
  }

  /** t is s without the white space around it. */
  predicate TrimsTo(s: seq<byte>, t: seq<byte>) {
    IsTrimmed(t) && exists i :: 0 <= i <= |s| - |t| && Surrounded(s, t, i)
  }

  predicate Surrounded(s: seq<byte>, t: seq<byte>, i: nat)
    requires i <= |s| - |t|
  {
    AllSpaces(s[..i]) && s[i..i + |t|] == t && AllSpaces(s[i + |t|..])
  }

  /** There is only one way to trim. */
  lemma TrimIsUnique(s: seq<byte>, t: seq<byte>, t': seq<byte>)
    requires TrimsTo(s, t) && TrimsTo(s, t')
    ensures t == t'
  {
    var i :| 0 <= i <= |s| - |t| && Surrounded(s, t, i);
    var j :| 0 <= j <= |s| - |t'| && Surrounded(s, t', j);
    if t != [] {
      Inside(s, t, i, t', j);
    }
    if t' != [] {
      Inside(s, t', j, t, i);
    }
  }

  lemma BlankOutside(s: seq<byte>, t: seq<byte>, i: nat, k: nat)
    requires i <= |s| - |t| && Surrounded(s, t, i) && k < |s|
    ensures k < i || i + |t| <= k ==> IsSpace(s[k])
  {
    if k < i {
      assert s[..i][k] == s[k];
    } else if i + |t| <= k {
      assert s[i + |t|..][k - i - |t|] == s[k];
    }
  }

  lemma Inside(s: seq<byte>, t: seq<byte>, i: nat, t': seq<byte>, j: nat)
    requires i <= |s| - |t| && Surrounded(s, t, i) && t != [] && IsTrimmed(t)
    requires j <= |s| - |t'| && Surrounded(s, t', j)
    ensures j <= i && i + |t| <= j + |t'|
  {
    assert s[i] == t[0] && s[i + |t| - 1] == t[|t| - 1];
    BlankOutside(s, t', j, i);
    BlankOutside(s, t', j, i + |t| - 1);
  }

  method Trim(value: seq<byte>) returns (t: seq<byte>)
    ensures TrimsTo(value, t)
  {
    var begin := 0;
    while begin < |value| && IsSpace(value[begin])
      invariant 0 <= begin <= |value| && AllSpaces(value[..begin])
    {
      begin := begin + 1;
    }
    var end := |value|;
    while end > begin && IsSpace(value[end - 1])
      invariant begin <= end <= |value| && AllSpaces(value[end..])
    {
      end := end - 1;
    }
    t := value[begin..end];
    assert Surrounded(value, t, begin);
  }

  /** The parts of a text between its commas. */
  function Parts(value: seq<byte>): (parts: seq<seq<byte>>)
    ensures |parts| > 0
    decreases |value|
  {
    var i := Find(value, COMMA);
    if i == |value| then [value] else [value[..i]] + Parts(value[i + 1..])
  }

  /** The tokens are the parts, trimmed, without the empty ones. */
  ghost predicate AreTokens(parts: seq<seq<byte>>, tokens: seq<seq<byte>>)
    decreases |parts|
  {
    if parts == [] then tokens == []
    else
      (TrimsTo(parts[0], []) && AreTokens(parts[1..], tokens))
      || (tokens != [] && tokens[0] != [] && TrimsTo(parts[0], tokens[0]) && AreTokens(parts[1..], tokens[1..]))
  }

  method SplitHeaderTokens(value: seq<byte>) returns (tokens: seq<seq<byte>>)
    ensures AreTokens(Parts(value), tokens)
  {
    tokens := [];
    var start := 0;
    ghost var done: seq<seq<byte>> := [];
    assert AreTokens(done, tokens) && Parts(value) == done + Parts(value[start..]) by { assert value[0..] == value; }
    hide *;
    while true
      invariant start <= |value| && AreTokens(done, tokens) && Parts(value) == done + Parts(value[start..])
      decreases |value| - start
    {
      ghost var part;
      var token, end;
      token, end, part := NextToken(value, start, done);
      OneMorePart(done, tokens, part, token);
      done := done + [part];
      if token != [] {
        tokens := tokens + [token];
      }
      if end == |value| {
        return;
      }
      start := end + 1;
    }
  }

  /** The text from a position to the next comma, trimmed, and where the comma is, or the end. */
  method NextToken(value: seq<byte>, start: nat, ghost done: seq<seq<byte>>)
    returns (token: seq<byte>, end: nat, ghost part: seq<byte>)
    requires start <= |value| && Parts(value) == done + Parts(value[start..])
    ensures start <= end <= |value| && TrimsTo(part, token)
    ensures Parts(value) == if end == |value| then done + [part] else (done + [part]) + Parts(value[end + 1..])
  {
    hide TrimsTo, Find, Parts, IsSpace;
    var i := Find(value[start..], COMMA);
    end := start + i;
    part := value[start..][..i];
    assert part == value[start..end];
    FirstPart(value, start, done);
    token := Trim(value[start..end]);
  }

  /** The part up to the next comma moves over. */
  lemma FirstPart(value: seq<byte>, start: nat, done: seq<seq<byte>>)
    requires start <= |value| && Parts(value) == done + Parts(value[start..])
    ensures var rest := value[start..];
            var i := Find(rest, COMMA);
            Parts(value) == if i == |rest| then done + [rest[..i]]
                            else (done + [rest[..i]]) + Parts(value[start + i + 1..])
  {
    hide Find;
    var rest := value[start..];
    var i := Find(rest, COMMA);
    if i == |rest| {
      assert rest[..i] == rest;
    } else {
      assert rest[i + 1..] == value[start + i + 1..];
      Regroup(done, [rest[..i]], Parts(rest[i + 1..]));
    }
  }

  lemma {:induction false} OneMorePart(parts: seq<seq<byte>>, tokens: seq<seq<byte>>, part: seq<byte>, token: seq<byte>)
    requires AreTokens(parts, tokens) && TrimsTo(part, token)
    ensures AreTokens(parts + [part], if token == [] then tokens else tokens + [token])
    decreases |parts|
  {
    hide TrimsTo;
    if parts == [] {
      assert [part][1..] == [] && [token][1..] == [];
      assert AreTokens([], []);
    } else {
      assert (parts + [part])[1..] == parts[1..] + [part];
      if TrimsTo(parts[0], []) && AreTokens(parts[1..], tokens) {
        OneMorePart(parts[1..], tokens, part, token);
      } else {
        OneMorePart(parts[1..], tokens[1..], part, token);
        assert (tokens + [token])[1..] == tokens[1..] + [token];
      }
    }
  }

  /** Tokens are determined by the parts. */
  lemma {:induction false} TokensAreUnique(parts: seq<seq<byte>>, a: seq<seq<byte>>, b: seq<seq<byte>>)
    requires AreTokens(parts, a) && AreTokens(parts, b)
    ensures a == b
    decreases |parts|
  {
    hide TrimsTo;
    if parts != [] {
      if TrimsTo(parts[0], []) {
        if a != [] && TrimsTo(parts[0], a[0]) { TrimIsUnique(parts[0], [], a[0]); }
        if b != [] && TrimsTo(parts[0], b[0]) { TrimIsUnique(parts[0], [], b[0]); }
        TokensAreUnique(parts[1..], a, b);
      } else {
        TrimIsUnique(parts[0], a[0], b[0]);
        TokensAreUnique(parts[1..], a[1..], b[1..]);
        assert a == [a[0]] + a[1..] && b == [b[0]] + b[1..];
      }
    }
  }

  lemma {:induction false} TokensAreNonEmpty(parts: seq<seq<byte>>, tokens: seq<seq<byte>>)
    requires AreTokens(parts, tokens)
    ensures [] !in tokens
    decreases |parts|
  {
    hide TrimsTo;
    if parts != [] {
      if TrimsTo(parts[0], []) && AreTokens(parts[1..], tokens) {
        TokensAreNonEmpty(parts[1..], tokens);
      } else {
        TokensAreNonEmpty(parts[1..], tokens[1..]);
      }
    }
  }

  /** Round trip: texts without commas, joined by commas, are the parts again. */
  lemma {:induction false} PartsOfJoined(parts: seq<seq<byte>>)
    requires |parts| > 0 && forall k :: 0 <= k < |parts| ==> COMMA !in parts[k]
    ensures Parts(Joined(parts)) == parts
    decreases |parts|
  {
    var text := Joined(parts);
    if |parts| == 1 {
      assert parts == [text];
      FindIsFirst(text, COMMA, |text|);
    } else {
      PartsOfJoined(parts[1..]);
      PartInFront(parts[0], Joined(parts[1..]));
      assert parts == [parts[0]] + parts[1..];
    }
  }

  lemma PartInFront(p: seq<byte>, rest: seq<byte>)
    requires COMMA !in p
    ensures Parts(p + [COMMA] + rest) == [p] + Parts(rest)
  {
    var text := p + [COMMA] + rest;
    assert text[..|p|] == p && text[|p| + 1..] == rest;
    assert forall k :: 0 <= k < |p| ==> text[k] == p[k];
    FindIsFirst(text, COMMA, |p|);
  }

  lemma {:induction false} TrimmedParts(parts: seq<seq<byte>>, tokens: seq<seq<byte>>)
    requires |parts| == |tokens|
    requires forall k :: 0 <= k < |parts| ==> tokens[k] != [] && TrimsTo(parts[k], tokens[k])
    ensures AreTokens(parts, tokens)
    decreases |parts|
  {
    hide TrimsTo;
    if parts != [] {
      TrimmedParts(parts[1..], tokens[1..]);
    }
  }

  /** Round trip: a list of names, each with any white space around it and joined by commas, is split into the names. */
  lemma JoinedNamesAreSplit(parts: seq<seq<byte>>, names: seq<seq<byte>>, split: seq<seq<byte>>)
    requires |parts| == |names| > 0
    requires forall k :: 0 <= k < |parts| ==> COMMA !in parts[k] && names[k] != [] && TrimsTo(parts[k], names[k])
    requires AreTokens(Parts(Joined(parts)), split)
    ensures split == names
  {
    hide TrimsTo, AreTokens, Parts;
    PartsOfJoined(parts);
    TrimmedParts(parts, names);
    TokensAreUnique(parts, split, names);
  }

  function Joined(parts: seq<seq<byte>>): seq<byte>
    requires |parts| > 0
  {
    if |parts| == 1 then parts[0] else parts[0] + [COMMA] + Joined(parts[1..])
  }

  /** An example of section 1.3 of RFC 6455. */
  lemma TwoNames(split: seq<seq<byte>>)
    requires AreTokens(Parts(Ascii("chat, superchat")), split)
    ensures split == [Ascii("chat"), Ascii("superchat")]
  {
    hide Parts, AreTokens, IsSpace;
    var parts, names := [Ascii("chat"), [0x20] + Ascii("superchat")], [Ascii("chat"), Ascii("superchat")];
    JoinedTwo();
    NamesTrim();
    JoinedNamesAreSplit(parts, names, split);
  }

  lemma JoinedTwo()
    ensures Joined([Ascii("chat"), [0x20] + Ascii("superchat")]) == Ascii("chat, superchat")
    ensures COMMA !in Ascii("chat") && COMMA !in [0x20] + Ascii("superchat")
  {
    assert [Ascii("chat"), [0x20] + Ascii("superchat")][1..] == [[0x20] + Ascii("superchat")];
  }

  lemma NamesTrim()
    ensures TrimsTo(Ascii("chat"), Ascii("chat")) && TrimsTo([0x20] + Ascii("superchat"), Ascii("superchat"))
  {
    assert Surrounded(Ascii("chat"), Ascii("chat"), 0);
    assert Surrounded([0x20] + Ascii("superchat"), Ascii("superchat"), 1);
  }

  type Headers = map<seq<byte>, seq<byte>>

  /** The names in the protocol header of the request; none without the header. */
  ghost predicate Requests(headers: Headers, names: seq<seq<byte>>) {
    var key := Ascii("sec-websocket-protocol");
    if key in headers then AreTokens(Parts(headers[key]), names) else names == []
  }

  /** The first supported protocol among the names; the empty text if there is none. */
  ghost predicate IsChoice(chosen: seq<byte>, supported: seq<seq<byte>>, names: seq<seq<byte>>) {
    if chosen == [] then forall p :: p in supported ==> p !in names
    else
      exists k :: 0 <= k < |supported| && supported[k] == chosen && chosen in names
                  && forall j :: 0 <= j < k ==> supported[j] !in names
  }

  /** The names the client asks for. */
  method ParseSubProtocols(headers: Headers) returns (names: seq<seq<byte>>)
    ensures Requests(headers, names) && [] !in names
  {
    hide AreTokens, Ascii;
    var key := Ascii("sec-websocket-protocol");
    if key !in headers {
      return [];
    }
    names := SplitHeaderTokens(headers[key]);
    TokensAreNonEmpty(Parts(headers[key]), names);
  }

  method NegotiateSubProtocol(headers: Headers, supported: seq<seq<byte>>) returns (chosen: seq<byte>)
    ensures forall names :: Requests(headers, names) ==> IsChoice(chosen, supported, names)
  {
    hide AreTokens, Ascii;
    if supported == [] {
      return [];
    }
    var names := ParseSubProtocols(headers);
    chosen := FirstCommon(supported, names);
    forall other | Requests(headers, other) ensures other == names {
      var key := Ascii("sec-websocket-protocol");
      if key in headers {
        TokensAreUnique(Parts(headers[key]), other, names);
      }
    }
  }

  /** The nested loops of the negotiation. */
  method FirstCommon(supported: seq<seq<byte>>, names: seq<seq<byte>>) returns (chosen: seq<byte>)
    requires [] !in names
    ensures IsChoice(chosen, supported, names)
  {
    for k := 0 to |supported|
      invariant forall j :: 0 <= j < k ==> supported[j] !in names
    {
      for i := 0 to |names|
        invariant forall j :: 0 <= j < i ==> names[j] != supported[k]
      {
        if supported[k] == names[i] {
          return supported[k];
        }
      }
    }
    return [];
  }
}
