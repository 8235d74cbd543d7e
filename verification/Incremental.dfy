/**
 * Resumable parsing, once for all the byte protocols of the program.
 *
 * A step function looks at the front of a buffer and either waits for more bytes, consumes some and goes on, or
 * halts.  A step function is stable when what it decides on a buffer does not change if bytes are appended.  For a
 * stable step function the way a stream is cut into reads cannot be observed.
 */
module Incremental {
  import opened Bytes

  datatype Outcome<+S> = Wait | Next(state: S, used: nat) | Halt(state: S, used: nat)

  datatype Result<+S> = Live(state: S, rest: seq<byte>) | Halted(state: S, rest: seq<byte>)

  type Step<!S> = (S, seq<byte>) -> Outcome<S>

  ghost predicate Productive<S(!new)>(step: Step<S>) {
    forall s: S, buf: seq<byte> {:trigger step(s, buf)} ::
      && (step(s, buf).Next? ==> 0 < step(s, buf).used <= |buf|)
      && (step(s, buf).Halt? ==> step(s, buf).used <= |buf|)
  }

  ghost predicate Stable<S(!new)>(step: Step<S>) {
    forall s: S, buf: seq<byte>, more: seq<byte> {:trigger step(s, buf + more)} ::
      step(s, buf) != Wait ==> step(s, buf + more) == step(s, buf)
  }

  /** Parse as much of the buffer as the step function accepts. */
  ghost function Run<S(!new)>(step: Step<S>, s: S, buf: seq<byte>): Result<S>
    requires Productive(step)
    decreases |buf|
  {
    match step(s, buf)
    case Wait => Live(s, buf)
    case Next(s', n) => Run(step, s', buf[n..])
    case Halt(s', n) => Halted(s', buf[n..])
  }

  /** One turn of Run. */
  lemma {:induction false} RunTurn<S(!new)>(step: Step<S>, s: S, buf: seq<byte>)
    requires Productive(step)
    ensures match step(s, buf)
            case Wait => Run(step, s, buf) == Live(s, buf)
            case Next(s', n) => 0 < n <= |buf| && Run(step, s, buf) == Run(step, s', buf[n..])
            case Halt(s', n) => n <= |buf| && Run(step, s, buf) == Halted(s', buf[n..])
  {
  }

  /** Append each read to what is left over and parse again, until the parser halts. */
  ghost function FeedAll<S(!new)>(step: Step<S>, s: S, buf: seq<byte>, chunks: seq<seq<byte>>): Result<S>
    requires Productive(step)
    decreases |chunks|
  {
    if chunks == [] then Live(s, buf)
    else
      match Run(step, s, buf + chunks[0])
      case Live(s', rest) => FeedAll(step, s', rest, chunks[1..])
      case Halted(s', rest) => Halted(s', rest)
  }

  lemma {:induction false} RunAppend<S(!new)>(step: Step<S>, s: S, a: seq<byte>, b: seq<byte>)
    requires Productive(step) && Stable(step)
    ensures match Run(step, s, a)
            case Live(s', rest) => Run(step, s, a + b) == Run(step, s', rest + b)
            case Halted(s', rest) => Run(step, s, a + b) == Halted(s', rest + b)
    decreases |a|
  {
    match step(s, a)
    case Wait =>
    case Next(s', n) =>
      assert step(s, a + b) == step(s, a);
      assert (a + b)[n..] == a[n..] + b;
      RunAppend(step, s', a[n..], b);
    case Halt(s', n) =>
      assert step(s, a + b) == step(s, a);
      assert (a + b)[n..] == a[n..] + b;
  }

  /** What is left over after a parse is a buffer on which the parser waits. */
  lemma {:induction false} RunRest<S(!new)>(step: Step<S>, s: S, buf: seq<byte>)
    requires Productive(step)
    ensures var r := Run(step, s, buf); r.Live? ==> step(r.state, r.rest) == Wait
    decreases |buf|
  {
    match step(s, buf)
    case Wait =>
    case Next(s', n) => RunRest(step, s', buf[n..]);
    case Halt(_, _) =>
  }

  /**
   * Chunk independence: any cut of a stream into reads ends as the parse of the whole stream does: with the same
   * state and the same left-over bytes while the parser is live, and halted in the same state otherwise.
   */
  lemma {:induction false} FeedAllIsRun<S(!new)>(step: Step<S>, s: S, buf: seq<byte>, chunks: seq<seq<byte>>)
    requires Productive(step) && Stable(step)
    requires step(s, buf) == Wait
    ensures var fed, whole := FeedAll(step, s, buf, chunks), Run(step, s, buf + Concat(chunks));
            && fed.state == whole.state
            && fed.Live? == whole.Live?
            && (whole.Live? ==> fed.rest == whole.rest)
            && (whole.Halted? ==> fed.rest <= whole.rest)
    decreases |chunks|
  {
    if chunks == [] {
      assert buf + Concat(chunks) == buf;
    } else {
      var c, tail := chunks[0], Concat(chunks[1..]);
      assert buf + Concat(chunks) == (buf + c) + tail;
      RunAppend(step, s, buf + c, tail);
      RunRest(step, s, buf + c);
      match Run(step, s, buf + c)
      case Live(s', rest) => FeedAllIsRun(step, s', rest, chunks[1..]);
      case Halted(_, _) =>
    }
  }

  // ---- streams made of whole tokens ------------------------------------------------------------------------------

  /** Every token is consumed exactly, one after the other. */
  ghost predicate Tokens<S(!new)>(step: Step<S>, s: S, tokens: seq<seq<byte>>)
    decreases |tokens|
  {
    tokens == [] ||
    match step(s, tokens[0])
    case Next(s', n) => n == |tokens[0]| && Tokens(step, s', tokens[1..])
    case _ => false
  }

  ghost function After<S(!new)>(step: Step<S>, s: S, tokens: seq<seq<byte>>): S
    requires Tokens(step, s, tokens)
    decreases |tokens|
  {
    if tokens == [] then s else After(step, step(s, tokens[0]).state, tokens[1..])
  }

  lemma {:induction false} TokensAppend<S(!new)>(step: Step<S>, s: S, a: seq<seq<byte>>, b: seq<seq<byte>>)
    requires Tokens(step, s, a) && Tokens(step, After(step, s, a), b)
    ensures Tokens(step, s, a + b) && After(step, s, a + b) == After(step, After(step, s, a), b)
    decreases |a|
  {
    if a == [] {
      assert a + b == b;
    } else {
      assert (a + b)[1..] == a[1..] + b;
      TokensAppend(step, step(s, a[0]).state, a[1..], b);
    }
  }

  lemma OneToken<S(!new)>(step: Step<S>, s: S, token: seq<byte>, s': S)
    requires step(s, token) == Next(s', |token|)
    ensures Tokens(step, s, [token]) && After(step, s, [token]) == s'
  {
    assert [token][1..] == [];
  }

  lemma {:induction false} RunTokens<S(!new)>(step: Step<S>, s: S, tokens: seq<seq<byte>>, rest: seq<byte>)
    requires Productive(step) && Stable(step)
    requires Tokens(step, s, tokens)
    ensures Run(step, s, Concat(tokens) + rest) == Run(step, After(step, s, tokens), rest)
    decreases |tokens|
  {
    if tokens == [] {
      assert Concat(tokens) + rest == rest;
    } else {
      var t, tail := tokens[0], Concat(tokens[1..]);
      assert Concat(tokens) + rest == t + (tail + rest);
      assert step(s, t + (tail + rest)) == step(s, t);
      assert (t + (tail + rest))[|t|..] == tail + rest;
      RunTokens(step, step(s, t).state, tokens[1..], rest);
    }
  }

  /** On any prefix of a token stream the parser stays live, and what is left over is shorter than one token. */
  lemma {:induction false} RestOfPrefix<S(!new)>(step: Step<S>, s: S, tokens: seq<seq<byte>>, p: seq<byte>, bound: nat)
    requires Productive(step) && Stable(step)
    requires Tokens(step, s, tokens) && p <= Concat(tokens)
    requires forall t :: t in tokens ==> |t| <= bound
    requires step(After(step, s, tokens), []) == Wait
    ensures var r := Run(step, s, p); r.Live? && (r.rest == [] || |r.rest| < bound)
    decreases |tokens|
  {
    if tokens == [] {
      assert p == [];
    } else {
      var t, tail := tokens[0], Concat(tokens[1..]);
      if |p| < |t| {
        assert t == p + t[|p|..];
        assert step(s, p) == Wait;
      } else {
        assert p == t + p[|t|..];
        assert (t + tail)[..|p|] == p;
        assert p[|t|..] <= tail;
        RestOfPrefix(step, step(s, t).state, tokens[1..], p[|t|..], bound);
      }
    }
  }
}
