/**
 * What a session hears over whole runs, with writes, posted tasks, sends, timer firings and closes between the reads: the
 * parse of all bytes that arrived behind the request, as if nothing else had happened.
 */
module WsRuns {
  import opened Bytes
  import opened Strings
  import opened WsFrame
  import opened Incremental
  import opened WsReceive
  import opened WsHandshake
  import opened WsEndToEnd
  import opened WsHeadroom
  import opened WsSystem

  /** All bytes that the reads of a run bring. */
  function Arrived(events: seq<Event>): seq<byte> {
    if events == [] then []
    else (if events[0].action.Arrives? then events[0].action.chunk else []) + Arrived(events[1..])
  }

  /** What comes behind the blank line of the request. */
  function FrameBytes(data: seq<byte>): seq<byte> {
    match FirstEnd(data, 0)
    case None => []
    case Some(i) => data[i + 4..]
  }

  /** The elements of a, in order, among those of b. */
  predicate Subsequence<T(==)>(a: seq<T>, b: seq<T>)
    decreases |b|
  {
    || a == []
    || (b != [] && Subsequence(a, b[..|b| - 1]))
    || (b != [] && a[|a| - 1] == b[|b| - 1] && Subsequence(a[..|a| - 1], b[..|b| - 1]))
  }

  lemma SubsequenceNext<T>(a: seq<T>, b: seq<T>, x: T)
    requires Subsequence(a, b)
    ensures Subsequence(a, b + [x]) && Subsequence(a + [x], b + [x])
  {
    assert (a + [x])[..|a|] == a && (b + [x])[..|b|] == b;
  }

  lemma {:induction false} SubsequenceMore<T>(a: seq<T>, b: seq<T>, c: seq<T>)
    requires Subsequence(a, b) && b <= c
    ensures Subsequence(a, c)
    decreases |c|
  {
    if |b| == |c| {
      assert b == c;
    } else {
      var n := |c| - 1;
      SubsequenceMore(a, b, c[..n]);
      SubsequenceNext(a, c[..n], c[n]);
      assert c == c[..n] + [c[n]];
    }
  }

  // ---- two sessions that hear the same -----------------------------------------------------------------------------

  /**
   * The session s has heard what the undisturbed session p has: the same messages and fragments; and what p has posted
   * is, in order, among what s has posted.
   */
  predicate Hears(p: Sess, s: Sess) {
    && p.state == Active && s.state != Handshaking
    && s.opt == p.opt && s.started == p.started && s.opcode == p.opcode && s.payload == p.payload
    && s.delivered == p.delivered
    && Subsequence(p.posted, s.posted)
  }

  lemma DataHears(p: Sess, s: Sess, op: OpCode, fin: bool, payload: seq<byte>)
    requires Hears(p, s)
    ensures var p', s' := HandleDataFrame(p, op, fin, payload), HandleDataFrame(s, op, fin, payload);
            && (p'.state == Active ==> Hears(p', s') && p.delivered <= p'.delivered && s'.state == s.state)
            && (p'.state != Active && s.state == Active ==> s'.state.Rank() > 1)
  {
    hide Ascii, CloseItem, Subsequence;
  }

  lemma ControlHears(p: Sess, s: Sess, op: OpCode, payload: seq<byte>)
    requires Hears(p, s)
    ensures var p', s' := HandleControlFrame(p, op, payload), HandleControlFrame(s, op, payload);
            && s'.delivered == s.delivered
            && (p'.state == Active ==> Hears(p', s') && p.delivered <= p'.delivered && s'.state == s.state)
            && (p'.state != Active && s.state == Active ==> s'.state.Rank() > 1)
  {
    hide CloseItem, PongItem, Subsequence;
    SubsequenceNext(p.posted, s.posted, PongItem(payload));
  }

  /** How the frame loop treats s where the undisturbed session p is treated in some way. */
  ghost predicate Follows(p: Sess, s: Sess, op: Outcome<Sess>, os: Outcome<Sess>) {
    match op
    case Wait => os == Wait
    case Next(p', n) =>
      && p.delivered <= p'.delivered
      && os != Wait
      && (os.Next? ==> os.used == n && Hears(p', os.state) && os.state.state == s.state)
      && (os.Halt? ==> s.state != Active && os.state.state.Rank() > 1 && os.state.delivered == p.delivered)
    case Halt(_, _) => s.state == Active ==> os != Wait && os.state.state.Rank() > 1
  }

  lemma FrameHears(p: Sess, s: Sess, h: Header, payload: seq<byte>)
    requires Hears(p, s)
    ensures var op := HandleFrame(p, h, payload);
            && op != Wait
            && Follows(p, s, if op.state.state == Active then op else Halt(op.state, op.used), HandleFrame(s, h, payload))
  {
    hide HandleDataFrame, HandleControlFrame, Subsequence;
    var p1, s1 := p.(refreshes := p.refreshes + 1), s.(refreshes := s.refreshes + 1);
    if !h.opcode.IsControl() {
      DataHears(p1, s1, h.opcode, h.fin, payload);
    } else {
      ControlHears(p1, s1, h.opcode, payload);
    }
  }

  lemma StepHears(p: Sess, s: Sess, buf: seq<byte>)
    requires Hears(p, s)
    ensures Follows(p, s, ActiveStep(p, buf), FrameStep(s, buf))
  {
    hide HandleFrame, Subsequence, Ascii, CloseItem, Masked, Decode;
    var v := Decode(buf);
    if v.Accepted? && |buf| >= v.hdr.TotalSize() {
      FrameHears(p, s, v.hdr, Masked(buf[v.hdr.headerLen..v.hdr.TotalSize()], v.hdr.maskKey));
    }
  }

  lemma {:induction false} RunHears(p: Sess, s: Sess, buf: seq<byte>)
    requires Hears(p, s)
    ensures Productive(FrameStep) && Productive(ActiveStep)
    ensures match Run(ActiveStep, p, buf)
            case Live(p', rest) =>
              var r := Run(FrameStep, s, buf);
              && p.delivered <= p'.delivered
              && (s.state == Active ==> r.Live?)
              && (r.Live? ==> r.rest == rest && Hears(p', r.state) && r.state.state == s.state)
              && (r.Halted? ==> r.state.state.Rank() > 1 && r.state.delivered <= p'.delivered)
            case Halted(_, _) => s.state == Active ==> Run(FrameStep, s, buf).state.state.Rank() > 1
    decreases |buf|
  {
    hide Hears, FrameStep, ActiveStep;
    FrameStepProductive();
    StepHears(p, s, buf);
    RunTurn(ActiveStep, p, buf);
    RunTurn(FrameStep, s, buf);
    match ActiveStep(p, buf)
    case Next(p', n) =>
      if FrameStep(s, buf).Next? {
        RunHears(p', FrameStep(s, buf).state, buf[n..]);
      } else {
        StaysActive(p, buf);
        RunDelivers(p', buf[n..]);
      }
    case Wait =>
    case Halt(_, _) =>
      if s.state == Active && FrameStep(s, buf).Next? {
        RunState(FrameStep(s, buf).state, buf[FrameStep(s, buf).used..]);
      }
  }

  /** The undisturbed session only ever adds to what it has delivered. */
  lemma {:induction false} RunDelivers(p: Sess, buf: seq<byte>)
    requires p.state == Active
    ensures Productive(ActiveStep)
    ensures var r := Run(ActiveStep, p, buf); r.Live? ==> p.delivered <= r.state.delivered && r.state.state == Active
    decreases |buf|
  {
    hide Hears, FrameStep, ActiveStep;
    FrameStepProductive();
    Itself(p);
    StepHears(p, p, buf);
    RunTurn(ActiveStep, p, buf);
    if ActiveStep(p, buf).Next? {
      StaysActive(p, buf);
      RunDelivers(ActiveStep(p, buf).state, buf[ActiveStep(p, buf).used..]);
    }
  }

  lemma StaysActive(p: Sess, buf: seq<byte>)
    requires ActiveStep(p, buf).Next?
    ensures ActiveStep(p, buf).state.state == Active
  {
    hide FrameStep;
  }

  lemma Itself(p: Sess)
    requires p.state == Active
    ensures Hears(p, p)
  {
    SubsequenceSelf(p.posted);
  }

  lemma {:induction false} SubsequenceSelf<T>(a: seq<T>)
    ensures Subsequence(a, a)
  {
    if a != [] {
      SubsequenceSelf(a[..|a| - 1]);
    }
  }

  // ---- runs --------------------------------------------------------------------------------------------------------

  /**
   * What the session has heard of the bytes, which an undisturbed session that starts as p would parse.  While it reads
   * it has heard the same and holds the same left-over bytes; while it is Active it reads; what it has delivered is at
   * any time the beginning of what the undisturbed session has.
   */
  ghost predicate HasHeard(p: Sess, bytes: seq<byte>, c: Conn) {
    FrameStepProductive();
    match Run(ActiveStep, p, bytes)
    case Live(p', rest) =>
      && c.rcv.sess.delivered <= p'.delivered
      && (c.rcv.sess.state == Active ==> c.rcv.reading)
      && (c.rcv.reading ==> c.rcv.buf == rest && Hears(p', c.rcv.sess))
    case Halted(_, _) => c.rcv.sess.state != Active
  }

  /** A session that has stopped reading and will not become Active has heard all it is going to hear. */
  lemma StoppedHasHeard(p: Sess, bytes: seq<byte>, more: seq<byte>, c: Conn, c': Conn)
    requires HasHeard(p, bytes, c) && p.state == Active
    requires c'.rcv.sess.delivered == c.rcv.sess.delivered && !c'.rcv.reading && c'.rcv.sess.state != Active
    ensures HasHeard(p, bytes + more, c')
  {
    hide ActiveStep, FrameStep, Hears;
    FrameStepProductive();
    FrameStepStable();
    RunAppend(ActiveStep, p, bytes, more);
    RunDelivers(p, bytes);
    var r := Run(ActiveStep, p, bytes);
    if r.Live? {
      RunDelivers(r.state, r.rest + more);
    }
  }

  /** The frame loop on what is left over and a new read. */
  lemma ProcessHears(p: Sess, s: Sess, buf: seq<byte>)
    requires Hears(p, s)
    ensures HasHeard(p, buf, Conn([], ProcessFrameBuffer(s, buf)))
  {
    hide ActiveStep, FrameStep, Subsequence;
    FrameStepProductive();
    RunHears(p, s, buf);
    ProcessEvolves(s, buf);
  }

  lemma ReadHears(p: Sess, bytes: seq<byte>, c: Conn, chunk: seq<byte>)
    requires HasHeard(p, bytes, c) && p.state == Active && c.rcv.reading && c.rcv.sess.state != Handshaking
    ensures HasHeard(p, bytes + chunk, c.(rcv := Receive(c.rcv, chunk)))
  {
    hide ActiveStep, FrameStep, ProcessFrameBuffer;
    FrameStepProductive();
    FrameStepStable();
    var r, c' := Run(ActiveStep, p, bytes), c.(rcv := Receive(c.rcv, chunk));
    RunAppend(ActiveStep, p, bytes, chunk);
    if |c.rcv.buf| + |chunk| > c.rcv.sess.opt.maxFrameBufferBytes {
      StoppedHasHeard(p, bytes, chunk, c, c');
    } else if r.Live? {
      ProcessHears(r.state, c.rcv.sess, r.rest + chunk);
    } else {
      ProcessEvolves(c.rcv.sess, c.rcv.buf + chunk);
    }
  }

  lemma StepHasHeard(upgrade: UpgradeCheck, p: Sess, bytes: seq<byte>, s: Sys, e: Event)
    requires HasHeard(p, bytes, s.conn) && p.state == Active && Session(s).state != Handshaking && Enabled(s, e.action)
    ensures var s' := Apply(upgrade, s, e);
            HasHeard(p, bytes + Arrived([e]), s'.conn) && Session(s').state != Handshaking
  {
    hide HasHeard, Receive, KeepsReceiver, OnTimer, AfterWrite, OnWriteDone, RunPosted, DoClose, WsReceive.Close;
    StepEvolves(upgrade, s, e);
    assert [e][1..] == [];
    if e.action.Arrives? {
      assert Arrived([e]) == e.action.chunk + [] == e.action.chunk;
      ReadHears(p, bytes, s.conn, e.action.chunk);
    } else {
      assert bytes + Arrived([e]) == bytes;
      OtherStepsKeepReceiver(upgrade, s, e);
      KeptReceiverHasHeard(p, bytes, s.conn, Apply(upgrade, s, e).conn);
    }
  }

  lemma KeptReceiverHasHeard(p: Sess, bytes: seq<byte>, c: Conn, c': Conn)
    requires HasHeard(p, bytes, c) && KeepsReceiver(c, c') && c'.rcv.sess.state != Handshaking
    ensures HasHeard(p, bytes, c')
  {
    hide ActiveStep, FrameStep, Run, Subsequence;
    FrameStepProductive();
    var r := Run(ActiveStep, p, bytes);
    if r.Live? && c'.rcv.reading {
      SubsequenceMore(r.state.posted, c.rcv.sess.posted, c'.rcv.sess.posted);
    }
  }

  lemma {:induction false} RunHasHeard(upgrade: UpgradeCheck, p: Sess, bytes: seq<byte>, s: Sys, events: seq<Event>)
    requires Possible(upgrade, s, events) && p.state == Active
    requires HasHeard(p, bytes, s.conn) && Session(s).state != Handshaking
    ensures HasHeard(p, bytes + Arrived(events), Execute(upgrade, s, events).conn)
    decreases |events|
  {
    hide HasHeard, Apply, Enabled;
    if events == [] {
      assert bytes + Arrived(events) == bytes;
    } else {
      var e := events[0];
      StepHasHeard(upgrade, p, bytes, s, e);
      RunHasHeard(upgrade, p, bytes + Arrived([e]), Apply(upgrade, s, e), events[1..]);
      ArrivedFirst(events);
      Regroup(bytes, Arrived([e]), Arrived(events[1..]));
    }
  }

  lemma ArrivedFirst(events: seq<Event>)
    requires events != []
    ensures Arrived(events) == Arrived([events[0]]) + Arrived(events[1..])
  {
    assert [events[0]][1..] == [];
  }

  // ---- from the start ------------------------------------------------------------------------------------------------

  /** The session before the end of its request. */
  function Waiting(opt: Options, request: seq<byte>): Sys {
    var s := Start(opt);
    s.(conn := s.conn.(handshake := request))
  }

  /** The session that reads frames and has read none, as if opened at time zero. */
  function Fresh(opt: Options): Sess {
    Opened(Session(Start(opt)), 0)
  }

  lemma {:induction false} StoppedStays(upgrade: UpgradeCheck, s: Sys, events: seq<Event>)
    requires Possible(upgrade, s, events)
    requires !s.conn.rcv.reading && Session(s).state == Closed && Session(s).delivered == []
    ensures var s' := Execute(upgrade, s, events);
            !s'.conn.rcv.reading && Session(s').state == Closed && Session(s').delivered == []
    decreases |events|
  {
    hide Apply;
    if events != [] {
      OtherStepsKeepReceiver(upgrade, s, events[0]);
      StepEvolves(upgrade, s, events[0]);
      StoppedStays(upgrade, Apply(upgrade, s, events[0]), events[1..]);
    }
  }

  lemma StoppedAtStart(upgrade: UpgradeCheck, opt: Options, bytes: seq<byte>, s: Sys, events: seq<Event>)
    requires Possible(upgrade, s, events)
    requires !s.conn.rcv.reading && Session(s).state == Closed && Session(s).delivered == []
    ensures HasHeard(Fresh(opt), bytes, Execute(upgrade, s, events).conn)
  {
    hide ActiveStep, FrameStep, Hears, Execute, Possible;
    FrameStepProductive();
    StoppedStays(upgrade, s, events);
  }

  /** The read that completes the request, if it is accepted. */
  lemma HandOverHears(opt: Options, now: int, rest: seq<byte>)
    ensures HasHeard(Fresh(opt), rest, Conn([], HandOver(Opened(Session(Start(opt)), now), rest)))
    ensures HandOver(Opened(Session(Start(opt)), now), rest).sess.state != Handshaking
  {
    hide ActiveStep, FrameStep, ProcessFrameBuffer;
    FrameStepProductive();
    var s := Opened(Session(Start(opt)), now);
    ProcessHears(Fresh(opt), s, rest);
    ProcessEvolves(s, rest);
    if rest == [] {
      NothingYet(Fresh(opt));
    }
  }

  lemma NothingYet(p: Sess)
    ensures FrameStep(p, []) == Wait && ActiveStep(p, []) == Wait
  {
  }

  lemma FrameBytesMore(data: seq<byte>, more: seq<byte>)
    requires FirstEnd(data, 0).Some?
    ensures FrameBytes(data + more) == FrameBytes(data) + more
  {
    hide FirstEnd;
    FirstEndStable(data, more);
    var n := FirstEnd(data, 0).value + 4;
    assert n <= |data| by { EndInside(data); }
    assert (data + more)[n..] == data[n..] + more;
  }

  lemma {:induction false} RunFromWaiting(upgrade: UpgradeCheck, opt: Options, request: seq<byte>, events: seq<Event>)
    requires FirstEnd(request, 0) == None && Possible(upgrade, Waiting(opt, request), events)
    ensures var s' := Execute(upgrade, Waiting(opt, request), events);
            || (Session(s').state == Handshaking && Session(s').delivered == [])
            || HasHeard(Fresh(opt), FrameBytes(request + Arrived(events)), s'.conn)
    decreases |events|
  {
    hide HasHeard, FirstEnd, HandOver, FrameBytes, DoClose, Fresh;
    var s := Waiting(opt, request);
    if events != [] {
      var e, tail := events[0], Arrived(events[1..]);
      var s1 := Apply(upgrade, s, e);
      WaitingStep(upgrade, opt, request, e);
      if s1 == Waiting(opt, request + Arrived([e])) && FirstEnd(request + Arrived([e]), 0) == None {
        RunFromWaiting(upgrade, opt, request + Arrived([e]), events[1..]);
      } else if Session(s1).state == Closed && !s1.conn.rcv.reading && Session(s1).delivered == [] {
        StoppedAtStart(upgrade, opt, FrameBytes(request + Arrived(events)), s1, events[1..]);
      } else {
        RunHasHeard(upgrade, Fresh(opt), FrameBytes(request + Arrived([e])), s1, events[1..]);
        FrameBytesMore(request + Arrived([e]), tail);
      }
      ArrivedFirst(events);
      Regroup(request, Arrived([e]), tail);
    }
  }

  /** A step before the end of the request: more of the request, the end of the connection, or the hand-over. */
  lemma WaitingStep(upgrade: UpgradeCheck, opt: Options, request: seq<byte>, e: Event)
    requires FirstEnd(request, 0) == None && Enabled(Waiting(opt, request), e.action)
    ensures var s', data := Apply(upgrade, Waiting(opt, request), e), request + Arrived([e]);
            || (s' == Waiting(opt, data) && FirstEnd(data, 0) == None)
            || (Session(s').state == Closed && !s'.conn.rcv.reading && Session(s').delivered == [])
            || (FirstEnd(data, 0).Some? && Session(s').state != Handshaking
                && HasHeard(Fresh(opt), FrameBytes(data), s'.conn))
    ensures Fresh(opt).state == Active
  {
    hide HasHeard, HandOver, FirstEnd;
    var data := request + Arrived([e]);
    assert [e][1..] == [];
    if e.action.Arrives? {
      assert Arrived([e]) == e.action.chunk;
      if FirstEnd(data, 0).Some? {
        assert FirstEnd(data, 0).value + 4 <= |data| by { EndInside(data); }
        var rest := FrameBytes(data);
        assert [] + rest == rest;
        HandOverHears(opt, e.now, rest);
      }
    } else {
      assert request + [] == request;
    }
  }

  // ---- the theorems --------------------------------------------------------------------------------------------------

  /**
   * Over every run from a session that reads frames, whatever happens between the reads.  If all bytes that arrive keep
   * an undisturbed session Active, what the handler has got is the beginning of what it would get there, and all of it
   * while the session is Active, with the same fragments and left-over bytes and with its replies among the frames
   * posted.  If they do not, the session is no longer Active.
   */
  lemma RunFromActive(upgrade: UpgradeCheck, s: Sys, events: seq<Event>)
    requires Possible(upgrade, s, events) && Reading(s.conn.rcv)
    ensures Productive(ActiveStep)
    ensures var c := Execute(upgrade, s, events).conn;
            match Run(ActiveStep, Session(s), s.conn.rcv.buf + Arrived(events))
            case Live(p, rest) =>
              && c.rcv.sess.delivered <= p.delivered
              && (c.rcv.sess.state == Active ==> c.rcv.reading && c.rcv.buf == rest && Hears(p, c.rcv.sess))
            case Halted(_, _) => c.rcv.sess.state != Active
  {
    hide ActiveStep, FrameStep, Possible, Execute, Hears;
    FrameStepProductive();
    Itself(Session(s));
    RunTurn(ActiveStep, Session(s), s.conn.rcv.buf);
    assert ActiveStep(Session(s), s.conn.rcv.buf) == Wait by { WaitsAlike(Session(s), s.conn.rcv.buf); }
    RunHasHeard(upgrade, Session(s), s.conn.rcv.buf, s, events);
  }

  lemma WaitsAlike(s: Sess, buf: seq<byte>)
    ensures ActiveStep(s, buf) == Wait <==> FrameStep(s, buf) == Wait
  {
    hide FrameStep;
  }

  /** The same over every run from the start, for the bytes behind the request. */
  lemma RunFromStart(upgrade: UpgradeCheck, opt: Options, events: seq<Event>)
    requires Possible(upgrade, Start(opt), events)
    ensures Productive(ActiveStep)
    ensures var c := Execute(upgrade, Start(opt), events).conn;
            match Run(ActiveStep, Fresh(opt), FrameBytes(Arrived(events)))
            case Live(p, rest) =>
              && c.rcv.sess.delivered <= p.delivered
              && (c.rcv.sess.state == Active ==> c.rcv.reading && c.rcv.buf == rest && Hears(p, c.rcv.sess))
            case Halted(_, _) => c.rcv.sess.state != Active
  {
    hide ActiveStep, FrameStep, FrameBytes, Possible, Execute, Hears;
    FrameStepProductive();
    assert Waiting(opt, []) == Start(opt) && [] + Arrived(events) == Arrived(events);
    RunFromWaiting(upgrade, opt, [], events);
  }

  /** On the beginning of a script the undisturbed session stays Active, and has delivered the first of the messages. */
  lemma PartOfScript(opt: Options, script: Script, bytes: seq<byte>)
    requires ScriptOk(opt, script) && bytes <= Concat(ScriptFrames(script))
    ensures Productive(ActiveStep)
    ensures var r := Run(ActiveStep, Fresh(opt), bytes);
            && r.Live? && r.state.delivered <= Messages(script.messages)
            && (bytes == Concat(ScriptFrames(script)) ==>
                  && r.rest == [] && Idle(r.state) && r.state.delivered == Messages(script.messages)
                  && r.state.posted == Pongs(script.lead) + MessagePongs(script.messages))
  {
    hide ActiveStep, FrameStep, Run, ScriptFrames, Tokens, ScriptOk;
    FrameStepProductive();
    FrameStepStable();
    var p, frames := Fresh(opt), ScriptFrames(script);
    var more := Concat(frames)[|bytes|..];
    assert bytes + more == Concat(frames);
    ScriptIsTokens(p, script);
    var all := After(ActiveStep, p, frames);
    assert [] + Messages(script.messages) == Messages(script.messages);
    RunTokens(ActiveStep, p, frames, []);
    NothingYet(all);
    RunTurn(ActiveStep, all, []);
    assert Concat(frames) + [] == Concat(frames);
    RunAppend(ActiveStep, p, bytes, more);
    var r := Run(ActiveStep, p, bytes);
    RunDelivers(p, bytes);
    if r.Live? {
      RunDelivers(r.state, r.rest + more);
    }
  }

  /**
   * A conforming peer, over every run from the start.  Whatever happens between the reads, however the bytes are cut and
   * however the session ends, the handler has got the first of the peer's messages, in order, none twice and none
   * skipped.  If the session is Active when all bytes have arrived, it has got all of them, nothing is left over, and
   * the pongs are, in order, among the frames posted.
   */
  lemma ScriptOverRuns(upgrade: UpgradeCheck, opt: Options, script: Script, events: seq<Event>)
    requires Possible(upgrade, Start(opt), events) && ScriptOk(opt, script)
    requires FrameBytes(Arrived(events)) <= Concat(ScriptFrames(script))
    ensures var s := Execute(upgrade, Start(opt), events);
            && Session(s).delivered <= Messages(script.messages)
            && (Session(s).state == Active && FrameBytes(Arrived(events)) == Concat(ScriptFrames(script)) ==>
                  && Session(s).delivered == Messages(script.messages)
                  && s.conn.rcv.reading && s.conn.rcv.buf == [] && Idle(Session(s))
                  && Subsequence(Pongs(script.lead) + MessagePongs(script.messages), Posted(s)))
  {
    hide ActiveStep, FrameStep, FrameBytes, Possible, Execute, Run, Subsequence, ScriptFrames, Fresh, Concat;
    RunFromStart(upgrade, opt, events);
    PartOfScript(opt, script, FrameBytes(Arrived(events)));
  }

  // ---- what ends a session -------------------------------------------------------------------------------------------

  /** On the beginning of a script less than one of its largest frames is left over. */
  lemma LeftOverOfScript(opt: Options, script: Script, bytes: seq<byte>)
    requires ScriptOk(opt, script) && bytes <= Concat(ScriptFrames(script))
    ensures Productive(ActiveStep) && Run(ActiveStep, Fresh(opt), bytes).Live?
    ensures |Run(ActiveStep, Fresh(opt), bytes).rest| < FrameSize(LargestPayload(opt))
  {
    hide ActiveStep, FrameStep, Run, ScriptFrames, Tokens, ScriptOk, FrameSize, LargestPayload;
    FrameStepProductive();
    FrameStepStable();
    var p, frames := Fresh(opt), ScriptFrames(script);
    ScriptIsTokens(p, script);
    NothingYet(After(ActiveStep, p, frames));
    ScriptWithin(opt, script);
    SizeIsPositive(LargestPayload(opt));
    RestOfPrefix(ActiveStep, p, frames, bytes, FrameSize(LargestPayload(opt)));
  }

  /** A read that fits and that the undisturbed session survives leaves the session Active. */
  lemma ReadKeepsActive(p: Sess, s: Sess, buf: seq<byte>)
    requires Hears(p, s) && s.state == Active
    ensures Productive(ActiveStep)
    ensures Run(ActiveStep, p, buf).Live? ==> ProcessFrameBuffer(s, buf).sess.state == Active
  {
    hide ActiveStep, FrameStep, Subsequence;
    FrameStepProductive();
    RunHears(p, s, buf);
  }

  /** With room for the largest frame less a byte and a read, no read of a conforming peer ends the session. */
  lemma ReadOfScript(upgrade: UpgradeCheck, opt: Options, script: Script, events: seq<Event>, chunk: seq<byte>)
    requires Possible(upgrade, Start(opt), events) && ScriptOk(opt, script)
    requires FrameSize(LargestPayload(opt)) - 1 + READ_SIZE <= opt.maxFrameBufferBytes
    requires FrameBytes(Arrived(events)) + chunk <= Concat(ScriptFrames(script)) && |chunk| <= READ_SIZE
    requires Session(Execute(upgrade, Start(opt), events)).state == Active
    ensures Receive(Execute(upgrade, Start(opt), events).conn.rcv, chunk).sess.state == Active
  {
    hide ActiveStep, FrameStep, FrameBytes, Possible, Execute, Run, Hears, ScriptFrames, Concat, FrameSize, LargestPayload,
         ProcessFrameBuffer, Fresh;
    FrameStepProductive();
    FrameStepStable();
    var sofar, r := FrameBytes(Arrived(events)), Execute(upgrade, Start(opt), events).conn.rcv;
    RunFromStart(upgrade, opt, events);
    RunKeepsOptions(upgrade, Start(opt), events);
    BeginningOf(sofar, chunk, Concat(ScriptFrames(script)));
    LeftOverOfScript(opt, script, sofar);
    PartOfScript(opt, script, sofar + chunk);
    RunAppend(ActiveStep, Fresh(opt), sofar, chunk);
    ReadKeepsActive(Run(ActiveStep, Fresh(opt), sofar).state, r.sess, r.buf + chunk);
  }

  lemma BeginningOf(a: seq<byte>, b: seq<byte>, whole: seq<byte>)
    requires a + b <= whole
    ensures a <= whole
  {
    assert (a + b)[..|a|] == a;
  }

  /** While the session is Active, no Close frame is being written. */
  lemma NoCloseInProgress(t: Tx, s: Sess)
    requires TxOk(t, s) && s.state == Active
    ensures forall w :: w in t.writes ==> !w.item.isClose
  {
    if t.writes != [] {
      assert t.writes[0].item == t.queue[0] == (t.wire + t.queue)[|t.wire|] == s.posted[|t.wire|];
    }
  }

  lemma OtherEnds(upgrade: UpgradeCheck, s: Sys, e: Event)
    requires Enabled(s, e.action) && !e.action.Arrives? && Session(s).state == Active
    requires forall w :: w in s.tx.writes ==> !w.item.isClose
    requires Session(Apply(upgrade, s, e)).state != Active
    ensures match e.action
            case ReadFails => true
            case UserCloses(_, _) => true
            case WriteDone(_, ok) => !ok
            case TimerFires => s.beat.awaitingPong && e.now - s.beat.lastActivity >= Session(s).opt.heartbeatTimeout
            case _ => false
  {
    hide CloseItem, PingItem, RunPosted, OnWriteDone, ServerFrame;
  }

  /**
   * What ends the session of a conforming peer, if the buffer has room for the largest frame less a byte and a read: the
   * application, a failed read, a failed write, or the heartbeat; never the bytes that the peer sends or how they are cut.
   */
  lemma WhatEndsASession(upgrade: UpgradeCheck, opt: Options, script: Script, events: seq<Event>, e: Event)
    requires Possible(upgrade, Start(opt), events) && ScriptOk(opt, script)
    requires FrameSize(LargestPayload(opt)) - 1 + READ_SIZE <= opt.maxFrameBufferBytes
    requires e.action.Arrives? ==>
               && |e.action.chunk| <= READ_SIZE
               && FrameBytes(Arrived(events)) + e.action.chunk <= Concat(ScriptFrames(script))
    requires var s := Execute(upgrade, Start(opt), events);
             && Enabled(s, e.action)
             && Session(s).state == Active && Session(Apply(upgrade, s, e)).state != Active
    ensures var s := Execute(upgrade, Start(opt), events);
            match e.action
            case ReadFails => true
            case UserCloses(_, _) => true
            case WriteDone(_, ok) => !ok
            case TimerFires => s.beat.awaitingPong && e.now - s.beat.lastActivity >= opt.heartbeatTimeout
            case _ => false
  {
    hide FrameBytes, Arrived, Possible, Execute, ScriptFrames, Concat, FrameSize, LargestPayload, TxOk, Receive;
    var s := Execute(upgrade, Start(opt), events);
    RunKeepsOptions(upgrade, Start(opt), events);
    if e.action.Arrives? {
      ReadOfScript(upgrade, opt, script, events, e.action.chunk);
    } else {
      assert TxOk(Start(opt).tx, Session(Start(opt))) by { StartIsOk(opt); }
      RunKeepsQueue(upgrade, Start(opt), events);
      NoCloseInProgress(s.tx, Session(s));
      OtherEnds(upgrade, s, e);
    }
  }

  lemma StartIsOk(opt: Options)
    ensures TxOk(Start(opt).tx, Session(Start(opt)))
  {
  }
}
