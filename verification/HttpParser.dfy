/** The incremental HTTP request parser, against a left-to-right parse of everything fed to it. */
module HttpParser {
  import opened Bytes
  import opened Incremental
  import opened Strings

  const COLON: byte := 0x3A

  // ---- the parse ----------------------------------------------------------------------------------------------------

  datatype Verb = GET | POST | PUT | DELETE | HEAD | OPTIONS | PATCH | UNKNOWN

  function VerbOf(word: seq<byte>): Verb {
    if word == Ascii("GET") then GET
    else if word == Ascii("POST") then POST
    else if word == Ascii("PUT") then PUT
    else if word == Ascii("DELETE") then DELETE
    else if word == Ascii("HEAD") then HEAD
    else if word == Ascii("OPTIONS") then OPTIONS
    else if word == Ascii("PATCH") then PATCH
    else UNKNOWN
  }

  datatype Request = Request(verb: Verb, uri: seq<byte>, version: seq<byte>, headers: map<seq<byte>, seq<byte>>, body: seq<byte>)

  const EMPTY := Request(UNKNOWN, [], [], map[], [])

  /**
   * The parser states that are ever entered, and Thrown: the state after an exception from the conversion of a
   * Content-Length that is no number.
   */
  datatype Phase = RequestLine | HeaderKey | Body | Done | Error | Thrown

  datatype Parse = Parse(phase: Phase, req: Request)

  const START := Parse(RequestLine, EMPTY)

  /** The library's conversion of text to a number; none where it throws. */
  type Conversion = seq<byte> -> Option<nat>

  function OnRequestLine(p: Parse, line: seq<byte>): Parse {
    match Words(line, 3)
    case None => p.(phase := Error)
    case Some(words) =>
      var req := p.req.(verb := VerbOf(words[0]), uri := words[1], version := words[2]);
      if words[2] == Ascii("HTTP/1.0") || words[2] == Ascii("HTTP/1.1") then Parse(HeaderKey, req) else Parse(Error, req)
  }

  function OnHeaderLine(p: Parse, line: seq<byte>): Parse {
    var colon := Find(line, COLON);
    if line == [] then p.(phase := Body)
    else if colon == |line| then p.(phase := Error)
    else
      var key, value := Lower(line[..colon]), SkipSpaces(line[colon + 1..]);
      Parse(p.phase, p.req.(headers := p.req.headers[key := value]))
  }

  /** The length of the body: none where the conversion throws; nothing is read without the header. */
  function ContentLength(req: Request, toNumber: Conversion): Option<nat> {
    var name := Ascii("content-length");
    if name in req.headers then toNumber(req.headers[name]) else Some(0)
  }

  function OnBody(p: Parse, buf: seq<byte>, toNumber: Conversion): Outcome<Parse> {
    match ContentLength(p.req, toNumber)
    case None => Halt(p.(phase := Thrown), 0)
    case Some(n) =>
      if |buf| < n then Wait
      else if Ascii("content-length") in p.req.headers then Halt(Parse(Done, p.req.(body := buf[..n])), n)
      else Halt(p.(phase := Done), 0)
  }

  /** One line, or the body. */
  function ParseStep(p: Parse, buf: seq<byte>, toNumber: Conversion): Outcome<Parse> {
    match p.phase
    case RequestLine => OnLine(OnRequestLine, p, buf)
    case HeaderKey => OnLine(OnHeaderLine, p, buf)
    case Body => OnBody(p, buf, toNumber)
    case _ => Halt(p, 0)
  }

  function OnLine(take: (Parse, seq<byte>) -> Parse, p: Parse, buf: seq<byte>): Outcome<Parse> {
    var i := Find(buf, LF);
    if i == |buf| then Wait
    else
      var next := take(p, StripCr(buf[..i]));
      if next.phase == Error then Halt(next, i + 1) else Next(next, i + 1)
  }

  ghost function StepWith(toNumber: Conversion): Step<Parse> {
    (p: Parse, buf: seq<byte>) => ParseStep(p, buf, toNumber)
  }

  lemma StepIsProductive(toNumber: Conversion)
    ensures Productive(StepWith(toNumber))
  {
  }

  lemma StepIsStable(toNumber: Conversion)
    ensures Stable(StepWith(toNumber))
  {
    var step := StepWith(toNumber);
    forall p: Parse, buf: seq<byte>, more: seq<byte> | step(p, buf) != Wait
      ensures step(p, buf + more) == step(p, buf)
    {
      StableAt(p, buf, more, toNumber);
    }
  }

  lemma StableAt(p: Parse, buf: seq<byte>, more: seq<byte>, toNumber: Conversion)
    requires ParseStep(p, buf, toNumber) != Wait
    ensures ParseStep(p, buf + more, toNumber) == ParseStep(p, buf, toNumber)
  {
    hide OnRequestLine, OnHeaderLine, ContentLength;
    if p.phase == RequestLine || p.phase == HeaderKey {
      FindInPrefix(buf, more, LF);
      assert (buf + more)[..Find(buf, LF)] == buf[..Find(buf, LF)];
    } else if p.phase == Body {
      if ContentLength(p.req, toNumber).Some? {
        var n := ContentLength(p.req, toNumber).value;
        assert (buf + more)[..n] == buf[..n];
      }
    }
  }

  /**
   * Chunk independence: however the bytes of a connection are cut into pieces, empty ones included, the parser ends in
   * the same phase with the same request, and with the same bytes left over while it waits for more.
   */
  lemma ChunkIndependence(chunks: seq<seq<byte>>, toNumber: Conversion)
    ensures Productive(StepWith(toNumber))
    ensures var step := StepWith(toNumber);
            var fed, whole := FeedAll(step, START, [], chunks), Run(step, START, Concat(chunks));
            && fed.state == whole.state && fed.Live? == whole.Live?
            && (whole.Live? ==> fed.rest == whole.rest)
            && (whole.Halted? ==> fed.rest <= whole.rest)
  {
    StepIsProductive(toNumber);
    StepIsStable(toNumber);
    assert StepWith(toNumber)(START, []) == Wait;
    FeedAllIsRun(StepWith(toNumber), START, [], chunks);
    assert [] + Concat(chunks) == Concat(chunks);
  }

  // ---- how much a request takes -------------------------------------------------------------------------------------

  /** The bytes up to and including the first empty line; none if there is no such line. */
  function HeaderEnd(buf: seq<byte>): Option<nat>
    decreases |buf|
  {
    var i := Find(buf, LF);
    if i == |buf| then None
    else if StripCr(buf[..i]) == [] then Some(i + 1)
    else
      match HeaderEnd(buf[i + 1..])
      case None => None
      case Some(n) => Some(i + 1 + n)
  }

  /** A finished parse took the lines up to the empty one and as many bytes as Content-Length says, which are the body. */
  ghost predicate TookWhole(buf: seq<byte>, rest: seq<byte>, req: Request, toNumber: Conversion) {
    match (HeaderEnd(buf), ContentLength(req, toNumber))
    case (Some(h), Some(n)) =>
      h + n <= |buf| && rest == buf[h + n..] && (Ascii("content-length") in req.headers ==> req.body == buf[h..h + n])
    case _ => false
  }

  lemma BodyTakesWhole(p: Parse, buf: seq<byte>, toNumber: Conversion)
    requires Productive(StepWith(toNumber)) && p.phase == Body
    requires var r := Run(StepWith(toNumber), p, buf); r.Halted? && r.state.phase == Done
    ensures var r := Run(StepWith(toNumber), p, buf);
            && r.state.req.headers == p.req.headers
            && ContentLength(r.state.req, toNumber).Some?
            && var n := ContentLength(r.state.req, toNumber).value;
               n <= |buf| && r.rest == buf[n..] && (Ascii("content-length") in p.req.headers ==> r.state.req.body == buf[..n])
  {
    RunTurn(StepWith(toNumber), p, buf);
  }

  /** One line of the header. */
  lemma LineTurn(p: Parse, buf: seq<byte>, toNumber: Conversion)
    requires Productive(StepWith(toNumber)) && (p.phase == RequestLine || p.phase == HeaderKey)
    ensures var i, r := Find(buf, LF), Run(StepWith(toNumber), p, buf);
            if i == |buf| then r == Live(p, buf)
            else
              var line := StripCr(buf[..i]);
              var next := if p.phase == RequestLine then OnRequestLine(p, line) else OnHeaderLine(p, line);
              r == if next.phase == Error then Halted(next, buf[i + 1..]) else Run(StepWith(toNumber), next, buf[i + 1..])
  {
    hide Run, OnRequestLine, OnHeaderLine, Find, StripCr;
    RunTurn(StepWith(toNumber), p, buf);
  }

  lemma TookMore(buf: seq<byte>, i: nat, rest: seq<byte>, req: Request, toNumber: Conversion)
    requires i == Find(buf, LF) < |buf| && StripCr(buf[..i]) != []
    requires TookWhole(buf[i + 1..], rest, req, toNumber)
    ensures TookWhole(buf, rest, req, toNumber)
  {
    hide ContentLength, Ascii, Find, StripCr, HeaderEnd;
    var h, n := HeaderEnd(buf[i + 1..]).value, ContentLength(req, toNumber).value;
    Shifted(buf, i + 1, h, n);
    HeaderEndMore(buf, i);
  }

  lemma HeaderEndMore(buf: seq<byte>, i: nat)
    requires i == Find(buf, LF) < |buf| && StripCr(buf[..i]) != [] && HeaderEnd(buf[i + 1..]).Some?
    ensures HeaderEnd(buf) == Some(i + 1 + HeaderEnd(buf[i + 1..]).value)
  {
    hide Find, StripCr;
  }

  lemma TookLength(buf: seq<byte>, rest: seq<byte>, req: Request, toNumber: Conversion)
    requires TookWhole(buf, rest, req, toNumber)
    ensures HeaderEnd(buf).Some? && ContentLength(req, toNumber).Some?
    ensures |buf| - |rest| == HeaderEnd(buf).value + ContentLength(req, toNumber).value
  {
    hide HeaderEnd, ContentLength, Ascii;
  }

  lemma TookBody(buf: seq<byte>, i: nat, rest: seq<byte>, req: Request, toNumber: Conversion)
    requires i == Find(buf, LF) < |buf| && StripCr(buf[..i]) == []
    requires ContentLength(req, toNumber).Some?
    requires var n, left := ContentLength(req, toNumber).value, buf[i + 1..];
             n <= |left| && rest == left[n..] && (Ascii("content-length") in req.headers ==> req.body == left[..n])
    ensures TookWhole(buf, rest, req, toNumber)
  {
    hide ContentLength, Ascii, Find, StripCr;
    var n := ContentLength(req, toNumber).value;
    Shifted(buf, i + 1, 0, n);
    assert buf[i + 1..][0..n] == buf[i + 1..][..n];
  }

  lemma Shifted(s: seq<byte>, i: nat, h: nat, n: nat)
    requires i <= |s| && h + n <= |s| - i
    ensures s[i..][h + n..] == s[i + h + n..] && s[i..][h..h + n] == s[i + h..i + h + n]
  {
  }

  lemma {:induction false} HeadersTakeWhole(p: Parse, buf: seq<byte>, toNumber: Conversion)
    requires Productive(StepWith(toNumber)) && p.phase == HeaderKey
    requires var r := Run(StepWith(toNumber), p, buf); r.Halted? && r.state.phase == Done
    ensures var r := Run(StepWith(toNumber), p, buf); TookWhole(buf, r.rest, r.state.req, toNumber)
    decreases |buf|
  {
    hide Run, ContentLength, Ascii, Lower, SkipSpaces, TookWhole, Find, StripCr, StepWith;
    LineTurn(p, buf, toNumber);
    var i, r := Find(buf, LF), Run(StepWith(toNumber), p, buf);
    var next := OnHeaderLine(p, StripCr(buf[..i]));
    if next.phase == Body {
      BodyTakesWhole(next, buf[i + 1..], toNumber);
      TookBody(buf, i, r.rest, r.state.req, toNumber);
    } else {
      HeadersTakeWhole(next, buf[i + 1..], toNumber);
      TookMore(buf, i, r.rest, r.state.req, toNumber);
    }
  }

  /** Conservation: of a connection that ends in a request, exactly its header and its body have been taken. */
  lemma RequestTakesHeaderAndBody(buf: seq<byte>, toNumber: Conversion)
    requires Productive(StepWith(toNumber))
    requires var r := Run(StepWith(toNumber), START, buf); r.Halted? && r.state.phase == Done
    ensures var r := Run(StepWith(toNumber), START, buf); TookWhole(buf, r.rest, r.state.req, toNumber)
  {
    hide Run, ContentLength, Ascii, TookWhole, Find, StripCr, StepWith, Words;
    LineTurn(START, buf, toNumber);
    var i, r := Find(buf, LF), Run(StepWith(toNumber), START, buf);
    var line := StripCr(buf[..i]);
    NoWords(3);
    var next := OnRequestLine(START, line);
    HeadersTakeWhole(next, buf[i + 1..], toNumber);
    TookMore(buf, i, r.rest, r.state.req, toNumber);
  }

  lemma NoWords(count: nat)
    requires count > 0
    ensures Words([], count) == None
  {
  }

  // ---- the parser ---------------------------------------------------------------------------------------------------

  class Parser {
    var phase: Phase
    var req: Request
    var buffer: seq<byte>

    constructor ()
      ensures Parse(phase, req) == START && buffer == []
    {
      phase, req, buffer := RequestLine, EMPTY, [];
    }

    method Reset()
      modifies this
      ensures Parse(phase, req) == START && buffer == []
    {
      phase, req, buffer := RequestLine, EMPTY, [];
    }

    predicate Completed()
      reads this
    {
      phase == Done
    }

    predicate HasError()
      reads this
    {
      phase == Error
    }

    /** The next line of the view that starts at pos, if it is complete; the view then starts behind it. */
    method TryConsumeLine(pos: nat) returns (found: bool, line: seq<byte>, next: nat)
      requires pos <= |buffer|
      ensures var i := Find(buffer[pos..], LF);
              && found == (i < |buffer| - pos)
              && (found ==> line == StripCr(buffer[pos..][..i]) && next == pos + i + 1)
              && (!found ==> next == pos)
    {
      var i := Find(buffer[pos..], LF);
      if i == |buffer| - pos {
        return false, [], pos;
      }
      line := buffer[pos..pos + i];
      assert line == buffer[pos..][..i];
      if line != [] && line[|line| - 1] == CR {
        line := line[..|line| - 1];
      }
      return true, line, pos + i + 1;
    }

    /** The request line: three words, of which the last must be a known version. */
    method TakeRequestLine(line: seq<byte>) returns (ok: bool)
      requires phase == RequestLine
      modifies `phase, `req
      ensures Parse(phase, req) == OnRequestLine(old(Parse(phase, req)), line)
      ensures ok == (phase == HeaderKey) && (ok || phase == Error)
    {
      var words := Words(line, 3);
      if words == None {
        phase := Error;
        return false;
      }
      req := req.(verb := VerbOf(words.value[0]), uri := words.value[1], version := words.value[2]);
      if words.value[2] != Ascii("HTTP/1.0") && words.value[2] != Ascii("HTTP/1.1") {
        phase := Error;
        return false;
      }
      phase := HeaderKey;
      return true;
    }

    /** A line of the header with a colon: the key in lower case and the value without leading white space. */
    method TakeHeaderLine(line: seq<byte>, colon: nat)
      requires colon == Find(line, COLON) < |line|
      modifies `req
      ensures Parse(phase, req) == OnHeaderLine(old(Parse(phase, req)), line)
    {
      var key: seq<byte> := [];
      for k := 0 to colon
        invariant key == Lower(line[..k])
      {
        key := key + [ToLower(line[k])];
      }
      var start := colon + 1;
      assert line[start..] == line[colon + 1..];
      while start < |line| && IsSpace(line[start])
        invariant colon < start <= |line| && SkipSpaces(line[colon + 1..]) == SkipSpaces(line[start..])
      {
        assert line[start..][1..] == line[start + 1..];
        start := start + 1;
      }
      assert start == |line| ==> line[start..] == [];
      req := req.(headers := req.headers[key := line[start..]]);
    }

    /** The loop over header lines, from position pos of the buffer; stops at the empty line, or where it must wait. */
    method TakeHeaders(pos0: nat, ghost toNumber: Conversion) returns (pos: nat)
      requires Productive(StepWith(toNumber))
      requires phase == HeaderKey && pos0 <= |buffer|
      modifies `phase, `req
      ensures pos0 <= pos <= |buffer|
      ensures var r := Run(StepWith(toNumber), old(Parse(phase, req)), buffer[pos0..]);
              && phase in {HeaderKey, Body, Error}
              && (phase == HeaderKey ==> r == Live(Parse(phase, req), buffer[pos..]))
              && (phase == Error ==> r == Halted(Parse(phase, req), buffer[pos..]))
              && (phase == Body ==> r == Run(StepWith(toNumber), Parse(phase, req), buffer[pos..]))
    {
      hide Run, Find, StripCr, StepWith, OnHeaderLine;
      pos := pos0;
      while true
        invariant phase == HeaderKey && pos0 <= pos <= |buffer|
        invariant Run(StepWith(toNumber), Parse(phase, req), buffer[pos..])
                  == Run(StepWith(toNumber), old(Parse(phase, req)), buffer[pos0..])
        decreases |buffer| - pos
      {
        LineTurn(Parse(phase, req), buffer[pos..], toNumber);
        var found, line, next := TryConsumeLine(pos);
        if !found {
          return;
        }
        assert buffer[pos..][next - pos..] == buffer[next..];
        pos := next;
        HeaderLineCases(Parse(phase, req), line);
        if line == [] {
          phase := Body;
          return;
        }
        var colon := Find(line, COLON);
        if colon == |line| {
          phase := Error;
          return;
        }
        TakeHeaderLine(line, colon);
      }
    }

    /** The body, from position pos of the buffer on; the conversion of its length may throw. */
    method TakeBody(pos0: nat, toNumber: Conversion) returns (pos: nat, threw: bool)
      requires Productive(StepWith(toNumber))
      requires phase == Body && pos0 <= |buffer|
      modifies `phase, `req
      ensures pos0 <= pos <= |buffer| && phase in {Body, Done}
      ensures var r := Run(StepWith(toNumber), old(Parse(phase, req)), buffer[pos0..]);
              && threw == (r.Halted? && r.state.phase == Thrown)
              && (threw ==> phase == Body)
              && (!threw && phase == Body ==> r == Live(Parse(phase, req), buffer[pos..]))
              && (phase == Done ==> r == Halted(Parse(phase, req), buffer[pos..]))
    {
      RunTurn(StepWith(toNumber), Parse(phase, req), buffer[pos0..]);
      hide Run, Ascii;
      pos := pos0;
      var name := Ascii("content-length");
      if name in req.headers {
        var length := toNumber(req.headers[name]);
        if length == None {
          return pos, true;
        }
        var bodySize := |buffer| - pos;
        if bodySize < length.value {
          return pos, false;
        }
        assert buffer[pos..][..length.value] == buffer[pos..pos + length.value];
        assert buffer[pos..][length.value..] == buffer[pos + length.value..];
        req := req.(body := buffer[pos..pos + length.value]);
        pos := pos + length.value;
      }
      phase := Done;
      threw := false;
    }

    /**
     * Takes in more bytes and parses as far as possible; returns how many bytes were used up.  A finished or failed
     * parser takes nothing.  After a failure the buffer is not shortened, and an exception leaves it whole as well.
     */
    method Feed(data: seq<byte>, toNumber: Conversion) returns (consumed: nat, threw: bool)
      requires phase != Thrown
      modifies this
      ensures Productive(StepWith(toNumber)) && phase != Thrown
      ensures old(phase) in {Done, Error} ==>
                consumed == 0 && !threw && phase == old(phase) && req == old(req) && buffer == old(buffer)
      ensures old(phase) !in {Done, Error} ==>
                var all := old(buffer) + data;
                var r := Run(StepWith(toNumber), old(Parse(phase, req)), all);
                && threw == (r.Halted? && r.state.phase == Thrown)
                && (threw ==> phase == Body && buffer == all)
                && (!threw ==> Parse(phase, req) == r.state && (r.Halted? <==> phase in {Done, Error}))
                && (!threw ==> consumed == |all| - |r.rest| && buffer == if phase == Error then all else r.rest)
    {
      StepIsProductive(toNumber);
      hide Run, StepWith, Find, StripCr, OnRequestLine;
      if phase == Done || phase == Error {
        return 0, false;
      }
      buffer := buffer + data;
      consumed := 0;
      threw := false;
      assert buffer[0..] == buffer;
      if phase == RequestLine {
        LineTurn(Parse(phase, req), buffer, toNumber);
        var found, line, next := TryConsumeLine(0);
        if !found {
          return 0, false;
        }
        consumed := next;
        var ok := TakeRequestLine(line);
        if !ok {
          return consumed, false;
        }
      }
      if phase == HeaderKey {
        consumed := TakeHeaders(consumed, toNumber);
        if phase == Error {
          return consumed, false;
        }
      }
      if phase == Body {
        consumed, threw := TakeBody(consumed, toNumber);
        if threw {
          return;
        }
      }
      buffer := buffer[consumed..];
    }
  }

  /**
   * A connection fed in pieces.  Unless the conversion throws, the parser ends where the parse of all the bytes ends;
   * while it waits, what it has used up and what it holds are all it was given; and if it is done, it has used up the
   * header and the body and nothing else.
   */
  method FeedParts(parser: Parser, chunks: seq<seq<byte>>, toNumber: Conversion) returns (total: nat, threw: bool)
    requires Parse(parser.phase, parser.req) == START && parser.buffer == []
    modifies parser
    ensures Productive(StepWith(toNumber))
    ensures var all := Concat(chunks);
            var r := Run(StepWith(toNumber), START, all);
            && threw == (r.Halted? && r.state.phase == Thrown)
            && (!threw ==> Parse(parser.phase, parser.req) == r.state)
            && (!threw ==> (r.Halted? <==> parser.Completed() || parser.HasError()))
            && (r.Live? ==> parser.buffer == r.rest && total + |parser.buffer| == |all|)
            && (parser.Completed() ==>
                  && TookWhole(all, r.rest, parser.req, toNumber)
                  && total == HeaderEnd(all).value + ContentLength(parser.req, toNumber).value)
  {
    StepIsProductive(toNumber);
    hide Run, StepWith, Concat, TookWhole;
    ghost var step := StepWith(toNumber);
    total, threw := 0, false;
    FirstWaits(toNumber);
    for k := 0 to |chunks|
      invariant !threw && parser.phase != Thrown
      invariant Fed(Run(step, START, Concat(chunks[..k])), Parse(parser.phase, parser.req), parser.buffer, |Concat(chunks[..k])|, total)
    {
      ghost var sofar, before := Concat(chunks[..k]), parser.buffer;
      StepIsStable(toNumber);
      RunAppend(step, START, sofar, chunks[k]);
      ConcatMore(chunks, k);
      var consumed;
      consumed, threw := parser.Feed(chunks[k], toNumber);
      total := total + consumed;
      if threw {
        RestIsIgnored(chunks, k + 1, toNumber);
        return;
      }
    }
    assert chunks[..|chunks|] == chunks;
    if parser.Completed() {
      ghost var all := Concat(chunks);
      RequestTakesHeaderAndBody(all, toNumber);
      TookLength(all, Run(step, START, all).rest, parser.req, toNumber);
    }
  }

  lemma RestIsIgnored(chunks: seq<seq<byte>>, k: nat, toNumber: Conversion)
    requires Productive(StepWith(toNumber)) && k <= |chunks|
    requires Run(StepWith(toNumber), START, Concat(chunks[..k])).Halted?
    ensures var r, r' := Run(StepWith(toNumber), START, Concat(chunks[..k])), Run(StepWith(toNumber), START, Concat(chunks));
            r'.Halted? && r'.state == r.state
  {
    hide Run, StepWith, Concat;
    StepIsStable(toNumber);
    RunAppend(StepWith(toNumber), START, Concat(chunks[..k]), Concat(chunks[k..]));
    ConcatAppend(chunks[..k], chunks[k..]);
    assert chunks[..k] + chunks[k..] == chunks;
  }

  /** Where a parser is after some bytes: as the parse of them, with everything accounted for until it fails. */
  ghost predicate Fed(r: Result<Parse>, p: Parse, buffer: seq<byte>, length: nat, total: nat) {
    && p == r.state && p.phase != Thrown
    && (r.Live? ==> buffer == r.rest && total + |buffer| == length)
    && (r.Halted? <==> p.phase in {Done, Error})
    && (r.Halted? ==> total + |r.rest| == length)
  }

  lemma FirstWaits(toNumber: Conversion)
    requires Productive(StepWith(toNumber))
    ensures Concat<byte>([]) == [] && Run(StepWith(toNumber), START, []) == Live(START, [])
  {
    RunTurn(StepWith(toNumber), START, []);
  }

  lemma HeaderLineCases(p: Parse, line: seq<byte>)
    ensures line == [] ==> OnHeaderLine(p, line) == p.(phase := Body)
    ensures line != [] && Find(line, COLON) == |line| ==> OnHeaderLine(p, line) == p.(phase := Error)
    ensures line != [] && Find(line, COLON) < |line| ==> OnHeaderLine(p, line).phase == p.phase
  {
  }
}
