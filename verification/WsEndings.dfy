/** How a session ends over whole runs: a refused request, a frame that ends the session, and the codes that are reported. */
module WsEndings {
  import opened Bytes
  import opened Strings
  import opened WsFrame
  import opened Incremental
  import opened WsReceive
  import opened WsHandshake
  import opened WsEndToEnd
  import opened WsReactions
  import opened WsSystem
  import opened WsRuns

  // ---- the handshake -----------------------------------------------------------------------------------------------------

  /** The request of a connection has arrived and is a valid upgrade. */
  predicate Accepted(upgrade: UpgradeCheck, data: seq<byte>) {
    match FirstEnd(data, 0)
    case None => false
    case Some(i) => i <= |data| && upgrade(data[..i])
  }

  lemma AcceptedStays(upgrade: UpgradeCheck, data: seq<byte>, more: seq<byte>)
    requires Accepted(upgrade, data)
    ensures Accepted(upgrade, data + more)
  {
    hide FirstEnd;
    FirstEndStable(data, more);
    var i := FirstEnd(data, 0).value;
    assert (data + more)[..i] == data[..i];
  }

  /** Before its request has been accepted a session is waiting for it, or has been closed for good. */
  predicate NotOpened(opt: Options, data: seq<byte>, s: Sys) {
    || (s == Waiting(opt, data) && FirstEnd(data, 0) == None)
    || (Session(s).state == Closed && !s.conn.rcv.reading && Session(s).refreshes == 0 && Session(s).delivered == [])
  }

  lemma WaitingReads(upgrade: UpgradeCheck, opt: Options, data: seq<byte>, e: Event)
    requires Enabled(Waiting(opt, data), e.action) && FirstEnd(data, 0) == None
    ensures var s', all := Apply(upgrade, Waiting(opt, data), e), data + Arrived([e]);
            NotOpened(opt, all, s') || (Accepted(upgrade, all) && Session(s').state != Handshaking)
  {
    hide FirstEnd, HandOver, Arrive, OnTimer, AfterWrite, OnWriteDone, RunPosted, ServerFrame, CloseItem, NotOpened;
    assert [e][1..] == [];
    if e.action.Arrives? {
      assert Arrived([e]) == e.action.chunk;
      WaitingArrives(upgrade, opt, data, e);
    } else {
      assert data + [] == data;
      WaitingElse(upgrade, opt, data, e);
    }
  }

  lemma WaitingElse(upgrade: UpgradeCheck, opt: Options, data: seq<byte>, e: Event)
    requires Enabled(Waiting(opt, data), e.action) && !e.action.Arrives? && FirstEnd(data, 0) == None
    ensures NotOpened(opt, data, Apply(upgrade, Waiting(opt, data), e))
  {
    hide FirstEnd, OnTimer, AfterWrite, OnWriteDone, RunPosted, ServerFrame, CloseItem;
  }

  lemma WaitingArrives(upgrade: UpgradeCheck, opt: Options, data: seq<byte>, e: Event)
    requires e.action.Arrives? && FirstEnd(data, 0) == None
    ensures var s', all := Apply(upgrade, Waiting(opt, data), e), data + e.action.chunk;
            NotOpened(opt, all, s') || (Accepted(upgrade, all) && Session(s').state != Handshaking)
  {
    hide FirstEnd, HandOver;
    var all := data + e.action.chunk;
    if FirstEnd(all, 0).Some? {
      EndInside(all);
      OpenedRefreshed(Session(Start(opt)), e.now, [] + all[FirstEnd(all, 0).value + 4..]);
    }
  }

  lemma OpenedRefreshed(s: Sess, now: int, rest: seq<byte>)
    requires s.state == Handshaking
    ensures var s' := HandOver(Opened(s, now), rest).sess; s'.state != Handshaking && s'.refreshes > s.refreshes
  {
    hide ProcessFrameBuffer;
    ProcessEvolves(Opened(s, now), rest);
  }

  lemma ClosedStays(upgrade: UpgradeCheck, opt: Options, data: seq<byte>, s: Sys, e: Event)
    requires Enabled(s, e.action)
    requires Session(s).state == Closed && !s.conn.rcv.reading && Session(s).refreshes == 0 && Session(s).delivered == []
    ensures NotOpened(opt, data, Apply(upgrade, s, e))
  {
    hide Apply, FirstEnd;
    OtherStepsKeepReceiver(upgrade, s, e);
    StepEvolves(upgrade, s, e);
  }

  lemma {:induction false} RunOpens(upgrade: UpgradeCheck, opt: Options, data: seq<byte>, s: Sys, events: seq<Event>)
    requires Possible(upgrade, s, events)
    requires NotOpened(opt, data, s) || (Accepted(upgrade, data) && Session(s).state != Handshaking)
    ensures var s', all := Execute(upgrade, s, events), data + Arrived(events);
            NotOpened(opt, all, s') || (Accepted(upgrade, all) && Session(s').state != Handshaking)
    decreases |events|
  {
    hide Apply, Enabled, Accepted, FirstEnd, NotOpened;
    if events == [] {
      assert data + Arrived(events) == data;
    } else {
      var e := events[0];
      OpenStep(upgrade, opt, data, s, e);
      RunOpens(upgrade, opt, data + Arrived([e]), Apply(upgrade, s, e), events[1..]);
      ArrivedFirst(events);
      Regroup(data, Arrived([e]), Arrived(events[1..]));
    }
  }

  lemma OpenStep(upgrade: UpgradeCheck, opt: Options, data: seq<byte>, s: Sys, e: Event)
    requires Enabled(s, e.action)
    requires NotOpened(opt, data, s) || (Accepted(upgrade, data) && Session(s).state != Handshaking)
    ensures var s', all := Apply(upgrade, s, e), data + Arrived([e]);
            NotOpened(opt, all, s') || (Accepted(upgrade, all) && Session(s').state != Handshaking)
  {
    hide Apply, Enabled, Accepted, FirstEnd;
    if s == Waiting(opt, data) && FirstEnd(data, 0) == None {
      WaitingReads(upgrade, opt, data, e);
    } else if Accepted(upgrade, data) && Session(s).state != Handshaking {
      AcceptedStays(upgrade, data, Arrived([e]));
      StepEvolves(upgrade, s, e);
    } else {
      ClosedStays(upgrade, opt, data + Arrived([e]), s, e);
    }
  }

  /**
   * Only an accepted request opens a session.  In every run: a session that is Active or Closing, has refreshed its
   * heartbeat or has delivered a message has got the whole of a request that is a valid upgrade.  Until then it is
   * waiting for the rest of it and nothing else has happened, or it has been closed.
   */
  lemma OnlyAcceptedRequestsOpen(upgrade: UpgradeCheck, opt: Options, events: seq<Event>)
    requires Possible(upgrade, Start(opt), events)
    ensures var s, data := Execute(upgrade, Start(opt), events), Arrived(events);
            && (Session(s).state in {Active, Closing} || Session(s).refreshes > 0 || Session(s).delivered != [] ==>
                  Accepted(upgrade, data))
            && (Session(s).state == Handshaking ==> s == Waiting(opt, data) && FirstEnd(data, 0) == None)
  {
    hide Accepted, FirstEnd, Possible, Execute;
    assert Waiting(opt, []) == Start(opt) && [] + Arrived(events) == Arrived(events);
    assert FirstEnd([], 0) == None by { EmptyRequest(); }
    RunOpens(upgrade, opt, [], Start(opt), events);
  }

  lemma EmptyRequest()
    ensures FirstEnd([], 0) == None
  {
  }

  /**
   * What the next read makes of the request, in every run that is still waiting for it, with the codes that are reported.
   */
  lemma RequestArrives(upgrade: UpgradeCheck, opt: Options, events: seq<Event>, chunk: seq<byte>, replyOk: bool, now: int)
    requires Possible(upgrade, Start(opt), events)
    requires Session(Execute(upgrade, Start(opt), events)).state == Handshaking
    ensures var s := Execute(upgrade, Start(opt), events);
            var data := Arrived(events) + chunk;
            && Enabled(s, Arrives(chunk, replyOk))
            && var s' := Apply(upgrade, s, Event(now, Arrives(chunk, replyOk)));
               var sess := Session(s');
               if |data| > opt.maxHandshakeBytes || (FirstEnd(data, 0).Some? && !Accepted(upgrade, data)) then
                 sess.state == Closed && sess.closes == [1002] && !s'.conn.rcv.reading && sess.refreshes == 0 && sess.timer == None
               else if FirstEnd(data, 0) == None then
                 sess.state == Handshaking
               else if !replyOk then
                 sess.state == Closed && sess.closes == [1006] && !s'.conn.rcv.reading && sess.refreshes == 0 && sess.timer == None
               else
                 sess.state != Handshaking && sess.refreshes > 0 && s'.beat.lastActivity == now && !s'.beat.awaitingPong
  {
    hide FirstEnd, Possible, Execute, HandOver;
    OnlyAcceptedRequestsOpen(upgrade, opt, events);
    var data := Arrived(events) + chunk;
    if FirstEnd(data, 0).Some? {
      EndInside(data);
      OpenedRefreshed(Session(Start(opt)), now, [] + data[FirstEnd(data, 0).value + 4..]);
    }
  }

  // ---- the frame that ends a session -----------------------------------------------------------------------------------

  /** A frame that is all there is. */
  lemma OnlyFrame(s: Sess, fin: bool, op: OpCode, key: nat, payload: seq<byte>)
    requires s.state == Active && key < TWO_32 && |payload| < TWO_32
    ensures Productive(FrameStep)
    ensures var frame := ClientFrame(fin, op, key, payload);
            var s', reaction := Run(FrameStep, s, frame).state, ReactionTo(s, fin, op, payload, |frame|);
            && Reacted(s, s', reaction)
            && (s'.state == Active <==> reaction.Keeps?)
  {
    hide FrameStep, Run, ReactionTo, Reacted;
    FrameStepProductive();
    var frame := ClientFrame(fin, op, key, payload);
    FrameReaction(s, fin, op, key, payload);
    RunTurn(FrameStep, s, frame);
    if FrameStep(s, frame).Next? {
      assert frame[|frame|..] == [];
      RunTurn(FrameStep, FrameStep(s, frame).state, []);
      NothingYet(FrameStep(s, frame).state);
    }
  }

  lemma SameReaction(p: Sess, s: Sess, fin: bool, op: OpCode, payload: seq<byte>, size: nat)
    requires Hears(p, s)
    ensures ReactionTo(s, fin, op, payload, size) == ReactionTo(p, fin, op, payload, size)
  {
    hide Subsequence;
  }

  /** What has arrived, cut at the beginning of the last frame or behind it. */
  lemma CutAtFrame(sofar: seq<byte>, chunk: seq<byte>, front: seq<byte>, frame: seq<byte>)
    requires sofar + chunk == front + frame
    ensures |sofar| <= |front| ==> sofar + front[|sofar|..] == front && chunk == front[|sofar|..] + frame
    ensures |sofar| > |front| ==> sofar == front + sofar[|front|..] && sofar[|front|..] + chunk == frame
  {
    var all := front + frame;
    if |sofar| <= |front| {
      assert sofar == all[..|sofar|] == front[..|sofar|];
      assert chunk == all[|sofar|..];
    } else {
      assert front == all[..|front|] == sofar[..|front|];
      assert frame == all[|front|..];
    }
  }

  /** A frame is not taken before it is complete. */
  lemma PartOfFrame(p: Sess, x: seq<byte>, y: seq<byte>)
    requires p.state == Active && y != []
    requires FrameStep(p, x + y).Next? ==> FrameStep(p, x + y).used == |x + y|
    ensures Productive(ActiveStep)
    ensures Run(ActiveStep, p, x) == Live(p, x) || Run(ActiveStep, p, x).Halted?
  {
    hide FrameStep, Run;
    FrameStepProductive();
    FrameStepStable();
    RunTurn(ActiveStep, p, x);
  }

  lemma LoopEvolves(s: Sess, buf: seq<byte>)
    ensures Productive(FrameStep) && Evolves(s, Run(FrameStep, s, buf).state)
  {
    hide Run, FrameStep, Evolves;
    FrameStepProductive();
    ProcessEvolves(s, buf);
  }

  /**
   * The read that completes a frame.  The session has heard the front of the stream as the undisturbed session p has, and
   * s1 is the session in front of the frame: it reacts as is due.
   */
  lemma FrameArrives(opt: Options, sofar: seq<byte>, c: Conn, chunk: seq<byte>, front: seq<byte>, p: Sess,
                     fin: bool, op: OpCode, key: nat, payload: seq<byte>) returns (s1: Sess)
    requires HasHeard(Fresh(opt), sofar, c) && c.rcv.sess.state == Active && Fresh(opt).state == Active
    requires Productive(ActiveStep) && Run(ActiveStep, Fresh(opt), front) == Live(p, [])
    requires key < TWO_32 && |payload| < TWO_32 && chunk != []
    requires sofar + chunk == front + ClientFrame(fin, op, key, payload)
    ensures Productive(FrameStep)
    ensures Hears(p, s1) && s1.state == Active && Evolves(c.rcv.sess, s1)
    ensures var s', reaction := Run(FrameStep, c.rcv.sess, c.rcv.buf + chunk).state,
                                ReactionTo(p, fin, op, payload, |ClientFrame(fin, op, key, payload)|);
            Reacted(s1, s', reaction) && (s'.state == Active <==> reaction.Keeps?)
  {
    hide ActiveStep, FrameStep, Run, ReactionTo, Reacted, Hears, ClientFrame, Evolves;
    FrameStepProductive();
    FrameStepStable();
    var s, frame := c.rcv.sess, ClientFrame(fin, op, key, payload);
    CutAtFrame(sofar, chunk, front, frame);
    var p0 := Run(ActiveStep, Fresh(opt), sofar);
    if |sofar| <= |front| {
      var x := front[|sofar|..];
      RunAppend(ActiveStep, Fresh(opt), sofar, x);
      RunHears(p0.state, s, p0.rest + x);
      s1 := Run(FrameStep, s, c.rcv.buf + x).state;
      RunAppend(FrameStep, s, c.rcv.buf + x, frame);
      Regroup(c.rcv.buf, x, frame);
      assert [] + frame == frame;
      LoopEvolves(s, c.rcv.buf + x);
    } else {
      var x := sofar[|front|..];
      RunAppend(ActiveStep, Fresh(opt), front, x);
      assert [] + x == x;
      s1 := s;
      RunDelivers(Fresh(opt), front);
      FrameReaction(p, fin, op, key, payload);
      PartOfFrame(p, x, chunk);
      RefreshEvolves(s);
    }
    OnlyFrame(s1, fin, op, key, payload);
    SameReaction(p, s1, fin, op, payload, |frame|);
  }

  /** What can be seen of a session that was Active, and had heard what p has, after a frame to which it reacts. */
  ghost predicate Ended(p: Sess, s': Sess, reaction: Reaction) {
    && (reaction.Keeps? <==> s'.state == Active)
    && (reaction.Drops? ==> s'.state == Closed && s'.closes == [1002] && s'.delivered == p.delivered)
    && (reaction.TooBig? ==>
          && s'.state == Closing && s'.closes == [] && s'.delivered == p.delivered
          && var notice := Item([0x88, (2 + |reaction.reason|) % 256, 0x03, 0xF1] + Ascii(reaction.reason), true);
             EndsIn(p.posted, notice, s'.posted))
    && (reaction.Answers? ==>
          && s'.state == Closing && s'.closes == [] && s'.delivered == p.delivered
          && EndsIn(p.posted, Item([0x88, 0x02, reaction.high, reaction.low], true), s'.posted))
  }

  /** The last frame posted is the given one, and those before it contain the given ones, in order. */
  predicate EndsIn(earlier: seq<Item>, last: Item, posted: seq<Item>) {
    posted != [] && posted[|posted| - 1] == last && Subsequence(earlier, posted[..|posted| - 1])
  }

  lemma ReactedEnds(p: Sess, s1: Sess, s': Sess, reaction: Reaction)
    requires Hears(p, s1) && s1.closes == [] && Reacted(s1, s', reaction) && (s'.state == Active <==> reaction.Keeps?)
    ensures Ended(p, s', reaction)
  {
    hide Subsequence, Ascii;
    assert forall last: Item :: (s1.posted + [last])[..|s1.posted|] == s1.posted;
  }

  /**
   * Any frame, in any run.  A session that is Active reads the last bytes of a frame; what came before it keeps an
   * undisturbed session Active and leaves nothing over.  Then the session stays Active if and only if the frame is one to
   * keep it; otherwise it is dropped with 1002, or its last frame posted is the Close that is due, byte by byte.
   */
  lemma FrameOverRuns(upgrade: UpgradeCheck, opt: Options, events: seq<Event>, chunk: seq<byte>, front: seq<byte>, p: Sess,
                      fin: bool, op: OpCode, key: nat, payload: seq<byte>)
    requires Possible(upgrade, Start(opt), events)
    requires Productive(ActiveStep) && Run(ActiveStep, Fresh(opt), front) == Live(p, [])
    requires key < TWO_32 && |payload| < TWO_32 && chunk != []
    requires FrameBytes(Arrived(events)) + chunk == front + ClientFrame(fin, op, key, payload)
    requires var s := Execute(upgrade, Start(opt), events);
             Session(s).state == Active && |s.conn.rcv.buf| + |chunk| <= opt.maxFrameBufferBytes
    ensures var s' := Receive(Execute(upgrade, Start(opt), events).conn.rcv, chunk).sess;
            Ended(p, s', ReactionTo(p, fin, op, payload, |ClientFrame(fin, op, key, payload)|))
  {
    hide ActiveStep, FrameStep, FrameBytes, Possible, Execute, Run, ReactionTo, Reacted, Ended, ClientFrame, Hears, Fresh, QueueOk;
    FrameStepProductive();
    var c := Execute(upgrade, Start(opt), events).conn;
    RunKeepsOptions(upgrade, Start(opt), events);
    ActiveHasHeard(upgrade, opt, events);
    StartIsOk(opt);
    RunKeepsQueue(upgrade, Start(opt), events);
    var s1 := FrameArrives(opt, FrameBytes(Arrived(events)), c, chunk, front, p, fin, op, key, payload);
    StillOpen(c.rcv.sess, s1);
    var s' := Run(FrameStep, c.rcv.sess, c.rcv.buf + chunk).state;
    ReactedEnds(p, s1, s', ReactionTo(p, fin, op, payload, |ClientFrame(fin, op, key, payload)|));
  }

  lemma StillOpen(s: Sess, s1: Sess)
    requires s.closes == [] && Evolves(s, s1) && s1.state == Active
    ensures s1.closes == []
  {
  }

  lemma ActiveHasHeard(upgrade: UpgradeCheck, opt: Options, events: seq<Event>)
    requires Possible(upgrade, Start(opt), events)
    requires Session(Execute(upgrade, Start(opt), events)).state == Active
    ensures HasHeard(Fresh(opt), FrameBytes(Arrived(events)), Execute(upgrade, Start(opt), events).conn)
    ensures Fresh(opt).state == Active
  {
    hide HasHeard, FrameBytes, Possible, Execute;
    assert Waiting(opt, []) == Start(opt) && [] + Arrived(events) == Arrived(events);
    RunFromWaiting(upgrade, opt, [], events);
  }

  /**
   * The closing handshake, in any run.  A conforming peer sends its messages and then a Close, and the session is Active
   * when it reads the last of it: the handler has got all the messages, and the last frame posted is a Close with the
   * status that the peer sent, behind the pongs; nothing more is read, and nothing has been reported yet.
   */
  lemma PeerCloseIsAnswered(upgrade: UpgradeCheck, opt: Options, script: Script, key: nat, payload: seq<byte>,
                            events: seq<Event>, chunk: seq<byte>)
    requires Possible(upgrade, Start(opt), events) && ScriptOk(opt, script)
    requires key < TWO_32 && |payload| <= 125 && 6 + |payload| <= opt.maxFrameBufferBytes && chunk != []
    requires FrameBytes(Arrived(events)) + chunk
             == Concat(ScriptFrames(script)) + ClientFrame(true, OpCode.Close, key, payload)
    requires var s := Execute(upgrade, Start(opt), events);
             Session(s).state == Active && |s.conn.rcv.buf| + |chunk| <= opt.maxFrameBufferBytes
    ensures var r := Receive(Execute(upgrade, Start(opt), events).conn.rcv, chunk);
            && r.sess.state == Closing && !r.reading && r.sess.closes == []
            && r.sess.delivered == Messages(script.messages)
            && var high, low := if |payload| >= 2 then payload[0] else 0x03, if |payload| >= 2 then payload[1] else 0xED;
               EndsIn(Pongs(script.lead) + MessagePongs(script.messages), Item([0x88, 0x02, high, low], true), r.sess.posted)
  {
    hide ActiveStep, FrameStep, FrameBytes, Possible, Execute, Run, ClientFrame, EndsIn, Concat, ScriptFrames, ScriptOk;
    FrameStepProductive();
    PartOfScript(opt, script, Concat(ScriptFrames(script)));
    var p := Run(ActiveStep, Fresh(opt), Concat(ScriptFrames(script))).state;
    DecodedFrame(true, OpCode.Close, key, payload);
    OptionsStay(opt, Concat(ScriptFrames(script)));
    FrameOverRuns(upgrade, opt, events, chunk, Concat(ScriptFrames(script)), p, true, OpCode.Close, key, payload);
  }

  lemma OptionsStay(opt: Options, bytes: seq<byte>)
    ensures Productive(ActiveStep)
    ensures var r := Run(ActiveStep, Fresh(opt), bytes); r.Live? ==> r.state.opt == opt
  {
    hide Run, ActiveStep;
    FrameStepProductive();
    ActiveRun(Fresh(opt), bytes);
  }

  // ---- what the close handler hears ------------------------------------------------------------------------------------

  /** The codes that frames can lead to. */
  predicate OnlyProtocolErrors(s: Sess, s': Sess) {
    s.closes <= s'.closes && forall k :: |s.closes| <= k < |s'.closes| ==> s'.closes[k] == 1002
  }

  lemma DataReports(s: Sess, op: OpCode, fin: bool, payload: seq<byte>)
    ensures OnlyProtocolErrors(s, HandleDataFrame(s, op, fin, payload))
  {
    hide Ascii, CloseItem;
  }

  lemma StepReports(s: Sess, buf: seq<byte>)
    requires FrameStep(s, buf) != Wait
    ensures OnlyProtocolErrors(s, FrameStep(s, buf).state)
  {
    hide Ascii, CloseItem, PongItem, Decode, Masked, HandleDataFrame;
    var v := Decode(buf);
    if v.Accepted? && |buf| >= v.hdr.TotalSize() {
      DataReports(s.(refreshes := s.refreshes + 1), v.hdr.opcode, v.hdr.fin,
                  Masked(buf[v.hdr.headerLen..v.hdr.TotalSize()], v.hdr.maskKey));
    }
  }

  lemma {:induction false} FramesReport(s: Sess, buf: seq<byte>)
    ensures OnlyProtocolErrors(s, ProcessFrameBuffer(s, buf).sess)
    decreases |buf|
  {
    hide FrameStep;
    FrameStepProductive();
    if FrameStep(s, buf) != Wait {
      StepReports(s, buf);
      if FrameStep(s, buf).Next? {
        FramesReport(FrameStep(s, buf).state, buf[FrameStep(s, buf).used..]);
      }
    }
  }

  /**
   * Which codes are reported, step by step: 1006 for a failed read, a failed write, a reply that could not be written and
   * a peer that has fallen silent; 1000 once a Close has been written; 1002 for whatever the peer sends.
   */
  lemma ReportedCodes(upgrade: UpgradeCheck, s: Sys, e: Event)
    requires Enabled(s, e.action)
    ensures var before, after := Session(s), Session(Apply(upgrade, s, e));
            match e.action
            case ReadFails => after.closes == before.closes + [1006]
            case WriteDone(i, ok) =>
              after.closes == before.closes + if !ok then [1006] else if s.tx.writes[i].item.isClose then [1000] else []
            case TimerFires =>
              after.closes == before.closes + if before.state == Active && s.beat.awaitingPong
                                                 && e.now - s.beat.lastActivity >= before.opt.heartbeatTimeout
                                              then [1006] else []
            case Arrives(_, replyOk) =>
              || (before.state == Handshaking && !replyOk && after.closes == before.closes + [1006])
              || OnlyProtocolErrors(before, after)
            case _ => after.closes == before.closes
  {
    hide CloseItem, PingItem, RunPosted, OnWriteDone, ServerFrame, Arrive, OnlyProtocolErrors, Ascii;
    if e.action.Arrives? {
      ReadReports(upgrade, s.conn, e.action.chunk, e.action.replyOk, e.now);
    }
  }

  lemma ReadReports(upgrade: UpgradeCheck, c: Conn, chunk: seq<byte>, replyOk: bool, now: int)
    ensures var s, s' := c.rcv.sess, Arrive(upgrade, c, chunk, replyOk, now).rcv.sess;
            || (s.state == Handshaking && !replyOk && s'.closes == s.closes + [1006])
            || OnlyProtocolErrors(s, s')
  {
    hide ProcessFrameBuffer, FirstEnd, CloseItem, Ascii;
    var s := c.rcv.sess;
    if s.state == Handshaking {
      var buf := c.handshake + chunk;
      if FirstEnd(buf, 0).Some? {
        EndInside(buf);
        FramesReport(Opened(s, now), c.rcv.buf + buf[FirstEnd(buf, 0).value + 4..]);
      }
    } else {
      FramesReport(s, c.rcv.buf + chunk);
    }
  }
}
