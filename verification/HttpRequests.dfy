/** Printed HTTP requests, and what the parser makes of them. */
module HttpRequests {
  import opened Bytes
  import opened Incremental
  import opened Strings
  import opened HttpParser

  // ---- requests as a client writes them --------------------------------------------------------------------------------

  /** White space inside a line. */
  predicate Blank(s: seq<byte>) {
    forall k :: 0 <= k < |s| ==> s[k] in {0x20, 0x09, 0x0B, 0x0C}
  }

  /** A word: not empty, and without white space. */
  predicate IsWord(s: seq<byte>) {
    s != [] && forall k :: 0 <= k < |s| ==> s[k] != 0x20 && !(0x09 <= s[k] <= 0x0D)
  }

  /** The lower case of s, byte by byte. */
  predicate IsLowerOf(t: seq<byte>, s: seq<byte>) {
    && |t| == |s|
    && forall k :: 0 <= k < |s| ==> t[k] == if 0x41 <= s[k] <= 0x5A then s[k] + 0x20 else s[k]
  }

  datatype Field = Field(name: seq<byte>, gap: seq<byte>, value: seq<byte>, crlf: bool)

  /** A name without a colon, then blanks, then a value that starts with none and is within the line. */
  predicate FieldOk(f: Field) {
    && COLON !in f.name && LF !in f.name
    && Blank(f.gap)
    && LF !in f.value && (f.value != [] ==> f.value[0] != 0x20 && !(0x09 <= f.value[0] <= 0x0D) && f.value[|f.value| - 1] != CR)
  }

  datatype Line = Line(pads: (seq<byte>, seq<byte>, seq<byte>, seq<byte>), words: (seq<byte>, seq<byte>, seq<byte>), crlf: bool)

  /** Three words with blanks between them, and possibly in front of them and behind them. */
  predicate LineOk(l: Line) {
    && Blank(l.pads.0) && Blank(l.pads.1) && Blank(l.pads.2) && Blank(l.pads.3) && l.pads.1 != [] && l.pads.2 != []
    && IsWord(l.words.0) && IsWord(l.words.1) && IsWord(l.words.2)
  }

  function Eol(crlf: bool): seq<byte> {
    if crlf then [13, 10] else [10]
  }

  function LineText(l: Line): seq<byte> {
    l.pads.0 + (l.words.0 + (l.pads.1 + (l.words.1 + (l.pads.2 + (l.words.2 + l.pads.3)))))
  }

  function FieldText(f: Field): seq<byte> {
    f.name + [0x3A] + f.gap + f.value
  }

  function FieldsText(fs: seq<Field>): seq<byte> {
    if fs == [] then [] else FieldText(fs[0]) + Eol(fs[0].crlf) + FieldsText(fs[1..])
  }

  function NameOf(v: Verb): string {
    match v
    case GET => "GET"
    case POST => "POST"
    case PUT => "PUT"
    case DELETE => "DELETE"
    case HEAD => "HEAD"
    case OPTIONS => "OPTIONS"
    case PATCH => "PATCH"
    case UNKNOWN => ""
  }

  /** The verb is the one with that name; a word that is no name of a verb is unknown. */
  predicate IsVerb(v: Verb, word: seq<byte>) {
    if v == UNKNOWN then forall w: Verb :: w != UNKNOWN ==> word != Ascii(NameOf(w)) else word == Ascii(NameOf(v))
  }

  predicate KnownVersion(word: seq<byte>) {
    word == [72, 84, 84, 80, 47, 49, 46, 48] || word == [72, 84, 84, 80, 47, 49, 46, 49]
  }

  /**
   * The header fields of a parsed request: every name in lower case, with the value of the last field of that name, and no
   * other keys.
   */
  ghost predicate Holds(headers: map<seq<byte>, seq<byte>>, fs: seq<Field>) {
    && (forall key :: key in headers ==> exists i :: 0 <= i < |fs| && IsLowerOf(key, fs[i].name))
    && (forall i, key :: 0 <= i < |fs| && IsLowerOf(key, fs[i].name)
                         && (forall j :: i < j < |fs| ==> !IsLowerOf(key, fs[j].name)) ==>
          key in headers && headers[key] == fs[i].value)
  }

  // ---- lines -----------------------------------------------------------------------------------------------------------

  lemma {:induction false} SkipBlank(pad: seq<byte>, t: seq<byte>)
    requires Blank(pad) && (t != [] ==> !IsSpace(t[0]))
    ensures SkipSpaces(pad + t) == t
    decreases |pad|
  {
    if pad == [] {
      assert pad + t == t;
    } else {
      assert (pad + t)[1..] == pad[1..] + t;
      SkipBlank(pad[1..], t);
    }
  }

  lemma {:induction false} WordEnds(w: seq<byte>, tail: seq<byte>)
    requires forall k :: 0 <= k < |w| ==> !IsSpace(w[k])
    requires tail != [] ==> IsSpace(tail[0])
    ensures WordLength(w + tail) == |w|
    decreases |w|
  {
    if w == [] {
      assert w + tail == tail;
    } else {
      assert (w + tail)[1..] == w[1..] + tail;
      WordEnds(w[1..], tail);
    }
  }

  lemma FirstWord(pad: seq<byte>, w: seq<byte>, tail: seq<byte>, count: nat)
    requires Blank(pad) && IsWord(w) && (tail != [] ==> IsSpace(tail[0]))
    ensures Words(pad + (w + tail), count + 1)
            == match Words(tail, count) case None => None case Some(rest) => Some([w] + rest)
  {
    SkipBlank(pad, w + tail);
    WordEnds(w, tail);
    assert (w + tail)[|w|..] == tail && (w + tail)[..|w|] == w;
  }

  lemma ThreeWords(l: Line)
    requires LineOk(l)
    ensures Words(LineText(l), 3) == Some([l.words.0, l.words.1, l.words.2])
  {
    hide Words, IsWord;
    assert Words(l.pads.3, 0) == Some([]) by { NoMoreWords(l.pads.3); }
    FirstWord(l.pads.2, l.words.2, l.pads.3, 0);
    FirstWord(l.pads.1, l.words.1, l.pads.2 + (l.words.2 + l.pads.3), 1);
    FirstWord(l.pads.0, l.words.0, l.pads.1 + (l.words.1 + (l.pads.2 + (l.words.2 + l.pads.3))), 2);
    assert [l.words.0] + ([l.words.1] + ([l.words.2] + [])) == [l.words.0, l.words.1, l.words.2];
  }

  lemma NoMoreWords(s: seq<byte>)
    ensures Words(s, 0) == Some([])
  {
  }

  /** The first line of a buffer. */
  lemma LineFound(line: seq<byte>, crlf: bool, rest: seq<byte>)
    requires LF !in line && (line != [] ==> line[|line| - 1] != CR)
    ensures var buf := line + Eol(crlf) + rest;
            var i := Find(buf, LF);
            i < |buf| && StripCr(buf[..i]) == line && buf[i + 1..] == rest
  {
    var buf, n := line + Eol(crlf) + rest, if crlf then |line| + 1 else |line|;
    forall k | 0 <= k < n ensures buf[k] != LF {
      if k < |line| {
        assert buf[k] == line[k] && line[k] in line;
      }
    }
    FindIsFirst(buf, LF, n);
    if crlf {
      assert buf[..n] == line + [13] && buf[n + 1..] == rest;
    } else {
      assert buf[..n] == line && buf[n + 1..] == rest;
    }
  }

  // ---- the parser on printed requests ------------------------------------------------------------------------------------

  lemma VerbIs(v: Verb, word: seq<byte>)
    requires IsVerb(v, word)
    ensures VerbOf(word) == v
  {
    hide Ascii;
    if v == UNKNOWN {
      assert word != Ascii(NameOf(GET)) && word != Ascii(NameOf(POST)) && word != Ascii(NameOf(PUT))
             && word != Ascii(NameOf(DELETE)) && word != Ascii(NameOf(HEAD)) && word != Ascii(NameOf(OPTIONS))
             && word != Ascii(NameOf(PATCH));
    } else {
      NamesDiffer();
      assert NameOf(GET) == "GET" && NameOf(POST) == "POST" && NameOf(PUT) == "PUT" && NameOf(DELETE) == "DELETE"
             && NameOf(HEAD) == "HEAD" && NameOf(OPTIONS) == "OPTIONS" && NameOf(PATCH) == "PATCH";
    }
  }

  lemma NamesDiffer()
    ensures forall v: Verb, w: Verb :: v != UNKNOWN && w != UNKNOWN && v != w ==> Ascii(NameOf(v)) != Ascii(NameOf(w))
  {
    assert Ascii(NameOf(GET)) == [71, 69, 84] && Ascii(NameOf(PUT)) == [80, 85, 84];
    assert Ascii(NameOf(POST)) == [80, 79, 83, 84] && Ascii(NameOf(HEAD)) == [72, 69, 65, 68];
    assert |Ascii(NameOf(DELETE))| == 6 && |Ascii(NameOf(OPTIONS))| == 7 && |Ascii(NameOf(PATCH))| == 5;
  }

  lemma Versions()
    ensures Ascii("HTTP/1.0") == [72, 84, 84, 80, 47, 49, 46, 48] && Ascii("HTTP/1.1") == [72, 84, 84, 80, 47, 49, 46, 49]
  {
  }

  /** A line of three words is taken if and only if the last is a known version; a line of fewer words never is. */
  lemma RequestLineIs(l: Line, v: Verb)
    requires LineOk(l) && IsVerb(v, l.words.0)
    ensures var p := OnRequestLine(START, LineText(l));
            && p.req == Request(v, l.words.1, l.words.2, map[], [])
            && p.phase == if KnownVersion(l.words.2) then HeaderKey else Error
  {
    hide Ascii, VerbOf, Words;
    ThreeWords(l);
    VerbIs(v, l.words.0);
    Versions();
  }

  lemma TooFewWords(pads: (seq<byte>, seq<byte>, seq<byte>), words: (seq<byte>, seq<byte>))
    requires Blank(pads.0) && Blank(pads.1) && Blank(pads.2) && pads.1 != [] && IsWord(words.0) && IsWord(words.1)
    ensures OnRequestLine(START, pads.0 + (words.0 + (pads.1 + (words.1 + pads.2)))).phase == Error
    ensures OnRequestLine(START, pads.0 + (words.0 + pads.1)).phase == Error
    ensures OnRequestLine(START, pads.0).phase == Error
  {
    hide IsWord;
    NoWord(pads.2, 1);
    FirstWord(pads.1, words.1, pads.2, 1);
    FirstWord(pads.0, words.0, pads.1 + (words.1 + pads.2), 2);
    NoWord(pads.1, 2);
    FirstWord(pads.0, words.0, pads.1, 2);
    NoWord(pads.0, 3);
  }

  lemma NoWord(pad: seq<byte>, count: nat)
    requires Blank(pad) && count > 0
    ensures Words(pad, count) == None
  {
    SkipBlank(pad, []);
    assert pad + [] == pad;
  }

  lemma FieldLine(p: Parse, f: Field)
    requires FieldOk(f) && p.phase == HeaderKey
    ensures var p' := OnHeaderLine(p, FieldText(f));
            && p'.phase == HeaderKey
            && p'.req == p.req.(headers := p.req.headers[Lower(f.name) := f.value])
    ensures IsLowerOf(Lower(f.name), f.name)
  {
    var line, n := FieldText(f), |f.name|;
    assert forall k :: 0 <= k < n ==> line[k] == f.name[k];
    FindIsFirst(line, COLON, n);
    assert line[..n] == f.name && line[n + 1..] == f.gap + f.value;
    SkipBlank(f.gap, f.value);
  }

  lemma NoColon(p: Parse, line: seq<byte>)
    requires line != [] && COLON !in line
    ensures OnHeaderLine(p, line).phase == Error
  {
    FindIsFirst(line, COLON, |line|);
  }

  lemma FieldLineShape(f: Field)
    requires FieldOk(f)
    ensures FieldText(f) != [] && LF !in FieldText(f) && FieldText(f)[|FieldText(f)| - 1] != CR
  {
  }

  /** One more field in front. */
  lemma HoldsFirst(headers: map<seq<byte>, seq<byte>>, before: seq<Field>, f: Field)
    requires Holds(headers, before)
    ensures Holds(headers[Lower(f.name) := f.value], before + [f])
  {
    var fs, headers' := before + [f], headers[Lower(f.name) := f.value];
    forall key | key in headers' ensures exists i :: 0 <= i < |fs| && IsLowerOf(key, fs[i].name) {
      if key == Lower(f.name) {
        assert IsLowerOf(key, fs[|before|].name);
      } else {
        var i :| 0 <= i < |before| && IsLowerOf(key, before[i].name);
        assert fs[i] == before[i];
      }
    }
    forall i, key | 0 <= i < |fs| && IsLowerOf(key, fs[i].name)
                    && (forall j :: i < j < |fs| ==> !IsLowerOf(key, fs[j].name))
      ensures key in headers' && headers'[key] == fs[i].value
    {
      if i == |before| {
        assert key == Lower(f.name);
      } else {
        assert !IsLowerOf(key, fs[|before|].name) && fs[i] == before[i];
        assert forall j :: i < j < |before| ==> fs[j] == before[j];
      }
    }
  }

  lemma FieldTurn(p: Parse, f: Field, rest: seq<byte>, toNumber: Conversion)
    requires Productive(StepWith(toNumber)) && p.phase == HeaderKey && FieldOk(f)
    ensures Run(StepWith(toNumber), p, FieldText(f) + Eol(f.crlf) + rest)
            == Run(StepWith(toNumber), OnHeaderLine(p, FieldText(f)), rest)
    ensures OnHeaderLine(p, FieldText(f)).phase == HeaderKey
    ensures OnHeaderLine(p, FieldText(f)).req == p.req.(headers := p.req.headers[Lower(f.name) := f.value])
  {
    hide Run, StepWith, Find, StripCr, Lower, FieldOk, FieldText, OnHeaderLine;
    FieldLineShape(f);
    LineFound(FieldText(f), f.crlf, rest);
    FieldLine(p, f);
    LineTurn(p, FieldText(f) + Eol(f.crlf) + rest, toNumber);
  }

  lemma EmptyLineTurn(p: Parse, crlf: bool, rest: seq<byte>, toNumber: Conversion)
    requires Productive(StepWith(toNumber)) && p.phase == HeaderKey
    ensures Run(StepWith(toNumber), p, Eol(crlf) + rest) == Run(StepWith(toNumber), p.(phase := Body), rest)
  {
    hide Run, StepWith, Find, StripCr, OnHeaderLine;
    LineFound([], crlf, rest);
    assert [] + Eol(crlf) + rest == Eol(crlf) + rest;
    HeaderLineCases(p, []);
    LineTurn(p, Eol(crlf) + rest, toNumber);
  }

  /** The parse of the fields. */
  lemma {:induction false} FieldsAre(p: Parse, before: seq<Field>, fs: seq<Field>, rest: seq<byte>, toNumber: Conversion)
      returns (headers: map<seq<byte>, seq<byte>>)
    requires Productive(StepWith(toNumber)) && p.phase == HeaderKey && Holds(p.req.headers, before)
    requires forall f :: f in fs ==> FieldOk(f)
    ensures Run(StepWith(toNumber), p, FieldsText(fs) + rest)
            == Run(StepWith(toNumber), Parse(HeaderKey, p.req.(headers := headers)), rest)
    ensures Holds(headers, before + fs)
    decreases |fs|
  {
    hide Run, StepWith, Holds, Lower, FieldOk, FieldText, OnHeaderLine, Eol;
    if fs == [] {
      headers := p.req.headers;
      assert [] + rest == rest && before + fs == before;
      assert p.req.(headers := headers) == p.req;
    } else {
      var f, more := fs[0], FieldsText(fs[1..]) + rest;
      FieldTurn(p, f, more, toNumber);
      assert FieldsText(fs) + rest == FieldText(f) + Eol(f.crlf) + more;
      HoldsFirst(p.req.headers, before, f);
      headers := FieldsAre(OnHeaderLine(p, FieldText(f)), before + [f], fs[1..], rest, toNumber);
      assert before + [f] + fs[1..] == before + fs;
    }
  }

  lemma LineTextShape(l: Line)
    requires LineOk(l)
    ensures LF !in LineText(l) && LineText(l) != [] && LineText(l)[|LineText(l)| - 1] != CR
  {
    var t := LineText(l);
    if l.pads.3 == [] {
      assert t[|t| - 1] == l.words.2[|l.words.2| - 1];
    } else {
      assert t[|t| - 1] == l.pads.3[|l.pads.3| - 1];
    }
  }

  /** The request line, and what follows it. */
  lemma RequestLineTurn(l: Line, rest: seq<byte>, toNumber: Conversion)
    requires Productive(StepWith(toNumber)) && LineOk(l)
    ensures var p := OnRequestLine(START, LineText(l));
            Run(StepWith(toNumber), START, LineText(l) + Eol(l.crlf) + rest)
            == if p.phase == Error then Halted(p, rest) else Run(StepWith(toNumber), p, rest)
  {
    hide Run, StepWith, Find, StripCr, OnRequestLine, LineText, LineOk;
    LineTextShape(l);
    LineFound(LineText(l), l.crlf, rest);
    LineTurn(START, LineText(l) + Eol(l.crlf) + rest, toNumber);
  }

  /** A body of the announced length: none without a Content-Length. */
  ghost predicate Announced(headers: map<seq<byte>, seq<byte>>, body: seq<byte>, toNumber: Conversion) {
    var name := [99, 111, 110, 116, 101, 110, 116, 45, 108, 101, 110, 103, 116, 104];
    if name in headers then toNumber(headers[name]) == Some(|body|) else body == []
  }

  lemma BodyTurn(p: Parse, body: seq<byte>, rest: seq<byte>, toNumber: Conversion)
    requires Productive(StepWith(toNumber)) && p.phase == Body && p.req.body == [] && Announced(p.req.headers, body, toNumber)
    ensures Run(StepWith(toNumber), p, body + rest) == Halted(Parse(Done, p.req.(body := body)), rest)
  {
    hide Run, Ascii;
    ContentLengthName();
    RunTurn(StepWith(toNumber), p, body + rest);
    assert (body + rest)[..|body|] == body && (body + rest)[|body|..] == rest;
    assert [] + rest == rest && rest[0..] == rest;
  }

  lemma ContentLengthName()
    ensures Ascii("content-length") == [99, 111, 110, 116, 101, 110, 116, 45, 108, 101, 110, 103, 116, 104]
  {
  }

  /** A request as it is written. */
  function Printed(l: Line, fs: seq<Field>, crlf: bool, body: seq<byte>): seq<byte> {
    LineText(l) + Eol(l.crlf) + (FieldsText(fs) + (Eol(crlf) + body))
  }

  /**
   * Round trip: of every request that a client can write, in any layout of its lines and with names in any case, the
   * parser finds the verb, the uri, the version, every field under its name in lower case, and the body; and it leaves
   * what follows.  A request of another version is refused after its first line.
   */
  lemma PrintedIsParsed(l: Line, v: Verb, fs: seq<Field>, crlf: bool, body: seq<byte>, rest: seq<byte>, toNumber: Conversion)
      returns (headers: map<seq<byte>, seq<byte>>)
    requires LineOk(l) && IsVerb(v, l.words.0) && forall f :: f in fs ==> FieldOk(f)
    requires forall headers :: Holds(headers, fs) ==> Announced(headers, body, toNumber)
    ensures Productive(StepWith(toNumber)) && Holds(headers, fs)
    ensures var r := Run(StepWith(toNumber), START, Printed(l, fs, crlf, body) + rest);
            if KnownVersion(l.words.2) then
              r == Halted(Parse(Done, Request(v, l.words.1, l.words.2, headers, body)), rest)
            else
              r.Halted? && r.state.phase == Error
  {
    hide Run, StepWith, Holds, FieldOk, LineOk, IsVerb, LineText, FieldsText, OnRequestLine, Eol, Announced, KnownVersion;
    StepIsProductive(toNumber);
    var more := FieldsText(fs) + (Eol(crlf) + (body + rest));
    assert Printed(l, fs, crlf, body) + rest == LineText(l) + Eol(l.crlf) + more;
    RequestLineIs(l, v);
    RequestLineTurn(l, more, toNumber);
    NoFields();
    if KnownVersion(l.words.2) {
      headers := FieldsAre(OnRequestLine(START, LineText(l)), [], fs, Eol(crlf) + (body + rest), toNumber);
      EmptyLineTurn(Parse(HeaderKey, Request(v, l.words.1, l.words.2, headers, [])), crlf, body + rest, toNumber);
      assert [] + fs == fs;
      BodyTurn(Parse(Body, Request(v, l.words.1, l.words.2, headers, [])), body, rest, toNumber);
    } else {
      headers := FieldsAre(Parse(HeaderKey, EMPTY), [], fs, [], toNumber);
      assert [] + fs == fs;
    }
  }

  /**
   * What is refused behind a good request line and good fields: a line without a colon ends the parse with an error, and
   * a Content-Length that is no number makes the conversion throw.
   */
  lemma BadFieldIsRefused(l: Line, v: Verb, fs: seq<Field>, line: seq<byte>, crlf: bool, rest: seq<byte>,
                          toNumber: Conversion) returns (headers: map<seq<byte>, seq<byte>>)
    requires LineOk(l) && IsVerb(v, l.words.0) && KnownVersion(l.words.2) && forall f :: f in fs ==> FieldOk(f)
    requires LF !in line && (line != [] ==> line[|line| - 1] != CR && COLON !in line)
    ensures Productive(StepWith(toNumber)) && Holds(headers, fs)
    ensures var r := Run(StepWith(toNumber), START, LineText(l) + Eol(l.crlf) + (FieldsText(fs) + (line + Eol(crlf) + rest)));
            && (line != [] ==> r.Halted? && r.state.phase == Error && r.rest == rest)
            && (line == [] && Unreadable(headers, toNumber) ==> r.Halted? && r.state.phase == Thrown)
  {
    hide Run, StepWith, Holds, FieldOk, LineOk, IsVerb, LineText, FieldsText, OnRequestLine, OnHeaderLine, Eol, Find, StripCr,
         KnownVersion;
    StepIsProductive(toNumber);
    var more := line + Eol(crlf) + rest;
    RequestLineIs(l, v);
    RequestLineTurn(l, FieldsText(fs) + more, toNumber);
    NoFields();
    headers := FieldsAre(OnRequestLine(START, LineText(l)), [], fs, more, toNumber);
    assert [] + fs == fs;
    var p := Parse(HeaderKey, Request(v, l.words.1, l.words.2, headers, []));
    if line == [] {
      assert more == Eol(crlf) + rest;
      EmptyLineTurn(p, crlf, rest, toNumber);
      ThrownTurn(p.(phase := Body), rest, toNumber);
    } else {
      NoColon(p, line);
      LineFound(line, crlf, rest);
      LineTurn(p, more, toNumber);
    }
  }

  predicate Unreadable(headers: map<seq<byte>, seq<byte>>, toNumber: Conversion) {
    var name := [99, 111, 110, 116, 101, 110, 116, 45, 108, 101, 110, 103, 116, 104];
    name in headers && toNumber(headers[name]) == None
  }

  lemma ThrownTurn(p: Parse, rest: seq<byte>, toNumber: Conversion)
    requires Productive(StepWith(toNumber)) && p.phase == Body
    ensures Unreadable(p.req.headers, toNumber) ==>
              var r := Run(StepWith(toNumber), p, rest); r.Halted? && r.state.phase == Thrown
  {
    hide Run, Ascii;
    ContentLengthName();
    RunTurn(StepWith(toNumber), p, rest);
  }

  lemma NoFields()
    ensures Holds(map[], [])
  {
  }
}
