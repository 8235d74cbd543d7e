/**
 * The whole session as a step system: reads, the write queue on its strand, the heartbeat timer and both sides of the
 * close, one completion handler at a time and in any interleaving.
 */
module WsSystem {
  import opened Bytes
  import opened Strings
  import opened WsFrame
  import opened Incremental
  import opened WsReceive
  import opened WsHandshake

  /** A write in progress; `live` says that the socket was open when the write began. */
  datatype Write = Write(item: Item, live: bool)

  /**
   * The sending half: `posted[..ran]` are the frames the strand has moved to `queue`; `writes` are the writes in
   * progress, `wire` the frames written with success, `failed` records that some write failed.
   */
  datatype Tx = Tx(ran: nat, queue: seq<Item>, writing: bool, writes: seq<Write>, wire: seq<Item>, failed: bool)

  datatype Beat = Beat(lastActivity: int, awaitingPong: bool, pings: nat)

  datatype Sys = Sys(conn: Conn, tx: Tx, beat: Beat)

  datatype Action =
    | Arrives(chunk: seq<byte>, replyOk: bool)
    | ReadFails
    | Sends(opcode: OpCode, payload: seq<byte>)
    | UserCloses(code: CloseCode, reason: seq<byte>)
    | RunsPosted
    | WriteDone(index: nat, ok: bool)
    | TimerFires

  datatype Event = Event(now: int, action: Action)

  function Start(opt: Options): Sys {
    Sys(Conn([], Receiver(Sess(opt, Handshaking, false, Text, [], 0, [], [], None, None, []), [], true)),
        Tx(0, [], false, [], [], false), Beat(0, false, 0))
  }

  function Session(s: Sys): Sess {
    s.conn.rcv.sess
  }

  function Posted(s: Sys): seq<Item> {
    Session(s).posted
  }

  predicate SocketOpen(s: Sys) {
    Session(s).closes == []
  }

  function WithSession(s: Sys, sess: Sess): Sys {
    s.(conn := s.conn.(rcv := s.conn.rcv.(sess := sess)))
  }

  function DoWrite(t: Tx, open: bool): Tx {
    if t.queue == [] then t.(writing := false)
    else t.(writing := true, writes := t.writes + [Write(t.queue[0], open)])
  }

  /** A posted task runs: its frame joins the queue, and a write starts if none is in progress. */
  function RunPosted(t: Tx, item: Item, open: bool): Tx {
    var t' := t.(ran := t.ran + 1, queue := t.queue + [item]);
    if t.queue == [] && !t.writing then DoWrite(t', open) else t'
  }

  function Remove(writes: seq<Write>, i: nat): seq<Write>
    requires i < |writes|
  {
    writes[..i] + writes[i + 1..]
  }

  /** A write completes: its frame leaves the queue, and the next write starts unless the connection is dropped. */
  function OnWriteDone(t: Tx, i: nat, ok: bool, open: bool): Tx
    requires i < |t.writes|
  {
    var rest := if t.queue == [] then [] else t.queue[1..];
    Continue(t.(writes := Remove(t.writes, i), queue := rest), t.writes[i].item, ok, open)
  }

  function Continue(t: Tx, item: Item, ok: bool, open: bool): Tx {
    if !ok then t.(writing := false, failed := true)
    else if item.isClose then t.(writing := false, wire := t.wire + [item])
    else DoWrite(t.(wire := t.wire + [item]), open)
  }

  /** A failed write drops the connection, and so does the end of the write of a Close frame. */
  function AfterWrite(sess: Sess, item: Item, ok: bool): Sess {
    if !ok then DoClose(sess, ABNORMAL_CLOSURE)
    else if item.isClose then DoClose(sess, NORMAL_CLOSURE)
    else sess
  }

  function PingItem(): Item {
    Item(ServerFrame(true, Ping, []), false)
  }

  /** The timer fires: the session is closed, or pinged, or left alone, and the timer is armed again. */
  function OnTimer(sess: Sess, b: Beat, now: int): (Sess, Beat) {
    var s, idle := sess.(timer := None), now - b.lastActivity;
    if s.state != Active then (s, b)
    else if b.awaitingPong then
      if idle >= s.opt.heartbeatTimeout then (DoClose(s, ABNORMAL_CLOSURE), b)
      else (s.(timer := Some(now)), b)
    else if idle >= s.opt.heartbeatInterval then
      (s.(timer := Some(now), posted := s.posted + [PingItem()]), b.(awaitingPong := true, pings := b.pings + 1))
    else (s.(timer := Some(now)), b)
  }

  /** Whatever was accepted in a handler refreshed the heartbeat at the time of the handler. */
  function Refreshed(b: Beat, before: Sess, after: Sess, now: int): Beat {
    if after.refreshes > before.refreshes then b.(lastActivity := now, awaitingPong := false) else b
  }

  ghost function Apply(upgrade: UpgradeCheck, s: Sys, e: Event): Sys
    requires Enabled(s, e.action)
  {
    match e.action
    case Arrives(chunk, replyOk) =>
      var conn := Arrive(upgrade, s.conn, chunk, replyOk, e.now);
      s.(conn := conn, beat := Refreshed(s.beat, Session(s), conn.rcv.sess, e.now))
    case ReadFails => s.(conn := Drop(s.conn, ABNORMAL_CLOSURE))
    case Sends(op, payload) =>
      WithSession(s, Session(s).(posted := Posted(s) + [Item(ServerFrame(true, op, payload), false)]))
    case UserCloses(code, reason) => WithSession(s, WsReceive.Close(Session(s), code, reason))
    case RunsPosted => s.(tx := RunPosted(s.tx, Posted(s)[s.tx.ran], SocketOpen(s)))
    case WriteDone(i, ok) =>
      WithSession(s, AfterWrite(Session(s), s.tx.writes[i].item, ok)).(tx := OnWriteDone(s.tx, i, ok, SocketOpen(s)))
    case TimerFires =>
      var (sess, beat) := OnTimer(Session(s), s.beat, e.now);
      WithSession(s, sess).(beat := beat)
  }

  /**
   * Which completions can happen.  The application gets hold of the session when it is opened, so it sends nothing
   * during the handshake; it can send texts, binary messages and pings; a write that began on a closed socket fails.
   */
  predicate Enabled(s: Sys, a: Action) {
    match a
    case Arrives(_, _) => s.conn.rcv.reading
    case ReadFails => s.conn.rcv.reading
    case Sends(op, _) => Session(s).state != Handshaking && op in {Text, Binary, Ping}
    case UserCloses(_, _) => true
    case RunsPosted => s.tx.ran < |Posted(s)|
    case WriteDone(i, ok) => i < |s.tx.writes| && (ok ==> s.tx.writes[i].live)
    case TimerFires => Session(s).timer.Some?
  }

  ghost predicate Possible(upgrade: UpgradeCheck, s: Sys, events: seq<Event>)
    decreases |events|
  {
    events == [] || (Enabled(s, events[0].action) && Possible(upgrade, Apply(upgrade, s, events[0]), events[1..]))
  }

  ghost function Execute(upgrade: UpgradeCheck, s: Sys, events: seq<Event>): Sys
    requires Possible(upgrade, s, events)
    decreases |events|
  {
    if events == [] then s else Execute(upgrade, Apply(upgrade, s, events[0]), events[1..])
  }

  // ---- how reads change a session ----------------------------------------------------------------------------------

  /** What any handler does to the session: the state moves forward, the logs grow, at most one Close is posted. */
  predicate Grows(s: Sess, s': Sess) {
    && s'.opt == s.opt
    && s.state.Rank() <= s'.state.Rank()
    && s.closes <= s'.closes
    && s.posted <= s'.posted
    && s.delivered <= s'.delivered
    && s.refreshes <= s'.refreshes
    && (s'.state == Active ==> s'.closes == s.closes)
    && (s'.closes != s.closes ==> s'.state == Closed)
  }

  /** The frames posted between the two states contain a Close only if the state left Active, and then just one. */
  ghost predicate OneClose(s: Sess, s': Sess)
    requires s.posted <= s'.posted
  {
    && (forall i :: |s.posted| <= i < |s'.posted| && s'.posted[i].isClose ==> s.state.Rank() <= 1 < s'.state.Rank())
    && (forall i, j :: |s.posted| <= i < j < |s'.posted| ==> !(s'.posted[i].isClose && s'.posted[j].isClose))
  }

  ghost predicate Evolves(s: Sess, s': Sess) {
    Grows(s, s') && OneClose(s, s')
  }

  lemma EvolvesTwice(a: Sess, b: Sess, c: Sess)
    requires Evolves(a, b) && Evolves(b, c)
    ensures Evolves(a, c)
  {
    assert forall i :: 0 <= i < |b.posted| ==> c.posted[i] == b.posted[i];
  }

  lemma ClosingEvolves(s: Sess, code: CloseCode, reason: seq<byte>)
    ensures Evolves(s, DoClose(s, code))
    ensures Evolves(s, WsReceive.Close(s, code, reason))
  {
  }

  lemma ControlEvolves(s: Sess, op: OpCode, payload: seq<byte>)
    ensures Evolves(s, HandleControlFrame(s, op, payload))
  {
  }

  lemma DataEvolves(s: Sess, op: OpCode, fin: bool, payload: seq<byte>)
    ensures Evolves(s, HandleDataFrame(s, op, fin, payload))
  {
    hide DoClose, WsReceive.Close, Ascii;
    ClosingEvolves(s, PROTOCOL_ERROR, []);
    ClosingEvolves(s, MESSAGE_TOO_BIG, Ascii("message too large"));
    ClosingEvolves(s.(started := true, opcode := op, payload := []), MESSAGE_TOO_BIG, Ascii("message too large"));
  }

  lemma RefreshEvolves(s: Sess)
    ensures Evolves(s, s)
    ensures Evolves(s, s.(refreshes := s.refreshes + 1))
    ensures Evolves(s, s.(timer := None))
  {
  }

  lemma OpenEvolves(s: Sess, now: int)
    requires s.state == Handshaking
    ensures Evolves(s, Opened(s, now))
  {
  }

  lemma FrameEvolves(s: Sess, h: Header, payload: seq<byte>)
    ensures Evolves(s, HandleFrame(s, h, payload).state)
  {
    hide HandleDataFrame, HandleControlFrame, DoClose, Evolves;
    var s1 := s.(refreshes := s.refreshes + 1);
    RefreshEvolves(s);
    if !h.opcode.IsControl() {
      DataEvolves(s1, h.opcode, h.fin, payload);
      EvolvesTwice(s, s1, HandleDataFrame(s1, h.opcode, h.fin, payload));
    } else if !h.fin || h.payloadLen > 125 {
      ClosingEvolves(s1, PROTOCOL_ERROR, []);
      EvolvesTwice(s, s1, DoClose(s1, PROTOCOL_ERROR));
    } else {
      ControlEvolves(s1, h.opcode, payload);
      EvolvesTwice(s, s1, HandleControlFrame(s1, h.opcode, payload));
    }
  }

  lemma FrameStepEvolves(s: Sess, buf: seq<byte>)
    requires FrameStep(s, buf) != Wait
    ensures Evolves(s, FrameStep(s, buf).state)
  {
    hide HandleFrame, DoClose, WsReceive.Close, Evolves;
    ClosingEvolves(s, PROTOCOL_ERROR, []);
    ClosingEvolves(s, MESSAGE_TOO_BIG, Ascii("message too large"));
    ClosingEvolves(s, MESSAGE_TOO_BIG, Ascii("frame too large"));
    var v := Decode(buf);
    if v.Accepted? {
      if |buf| >= v.hdr.TotalSize() {
        FrameEvolves(s, v.hdr, Masked(buf[v.hdr.headerLen..v.hdr.TotalSize()], v.hdr.maskKey));
      }
    }
  }

  lemma {:induction false} ProcessEvolves(s: Sess, buf: seq<byte>)
    ensures Evolves(s, ProcessFrameBuffer(s, buf).sess)
    decreases |buf|
  {
    hide FrameStep;
    FrameStepProductive();
    if FrameStep(s, buf) != Wait {
      FrameStepEvolves(s, buf);
      if FrameStep(s, buf).Next? {
        var s', rest := FrameStep(s, buf).state, buf[FrameStep(s, buf).used..];
        ProcessEvolves(s', rest);
        EvolvesTwice(s, s', ProcessFrameBuffer(s', rest).sess);
        assert ProcessFrameBuffer(s, buf).sess == ProcessFrameBuffer(s', rest).sess;
      }
    }
  }

  lemma ArriveEvolves(upgrade: UpgradeCheck, c: Conn, chunk: seq<byte>, replyOk: bool, now: int)
    ensures Evolves(c.rcv.sess, Arrive(upgrade, c, chunk, replyOk, now).rcv.sess)
  {
    hide ProcessFrameBuffer, DoClose, WsReceive.Close, Evolves;
    var s := c.rcv.sess;
    RefreshEvolves(s);
    ClosingEvolves(s, PROTOCOL_ERROR, []);
    ClosingEvolves(s, ABNORMAL_CLOSURE, []);
    ClosingEvolves(s, MESSAGE_TOO_BIG, Ascii("frame buffer too large"));
    if s.state == Handshaking {
      var buf := c.handshake + chunk;
      var end := FirstEnd(buf, 0);
      if end.Some? {
        OpenEvolves(s, now);
        var s1, rest := Opened(s, now), c.rcv.buf + buf[end.value + 4..];
        ProcessEvolves(s1, rest);
        EvolvesTwice(s, s1, HandOver(s1, rest).sess);
      }
    } else {
      ProcessEvolves(s, c.rcv.buf + chunk);
    }
  }

  lemma TimerEvolves(s: Sess, b: Beat, now: int)
    ensures Evolves(s, OnTimer(s, b, now).0)
  {
    hide DoClose, ServerFrame, Evolves;
    var idle := s.(timer := None);
    var armed := idle.(timer := Some(now));
    RefreshEvolves(s);
    PostEvolves(s, armed, PingItem());
    ClosingEvolves(idle, ABNORMAL_CLOSURE, []);
    EvolvesTwice(s, idle, DoClose(idle, ABNORMAL_CLOSURE));
  }

  /** Arming the timer and posting a frame that is not a Close. */
  lemma PostEvolves(s: Sess, armed: Sess, item: Item)
    requires armed == s.(timer := armed.timer) && !item.isClose
    ensures Evolves(s, armed) && Evolves(s, armed.(posted := s.posted + [item]))
  {
  }

  lemma WriteDoneEvolves(s: Sess, item: Item, ok: bool)
    ensures Evolves(s, AfterWrite(s, item, ok))
  {
    hide DoClose, Evolves;
    RefreshEvolves(s);
    ClosingEvolves(s, ABNORMAL_CLOSURE, []);
    ClosingEvolves(s, NORMAL_CLOSURE, []);
  }

  /** Every step: the state never moves back, no log is rewritten, and at most one Close frame is added. */
  lemma StepEvolves(upgrade: UpgradeCheck, s: Sys, e: Event)
    requires Enabled(s, e.action)
    ensures Evolves(Session(s), Session(Apply(upgrade, s, e)))
  {
    hide Arrive, DoClose, WsReceive.Close, AfterWrite, OnWriteDone, OnTimer, ServerFrame, Evolves;
    var sess := Session(s);
    match e.action
    case Arrives(chunk, replyOk) => ArriveEvolves(upgrade, s.conn, chunk, replyOk, e.now);
    case ReadFails => ClosingEvolves(sess, ABNORMAL_CLOSURE, []);
    case Sends(op, payload) => PostEvolves(sess, sess, Item(ServerFrame(true, op, payload), false));
    case UserCloses(code, reason) => ClosingEvolves(sess, code, reason);
    case RunsPosted => RefreshEvolves(sess);
    case WriteDone(i, ok) => WriteDoneEvolves(sess, s.tx.writes[i].item, ok);
    case TimerFires => TimerEvolves(sess, s.beat, e.now);
  }

  // ---- the write queue ---------------------------------------------------------------------------------------------

  /**
   * At most one write is in progress, exactly while `writing` is set, and it is the write of the front of the queue, so
   * the pop of its completion never meets an empty queue.  The frames written are a prefix of the frames posted; until
   * a write fails, every frame the strand has taken over is either written or still queued, in order.
   */
  predicate QueueOk(t: Tx, s: Sess) {
    && t.ran <= |s.posted|
    && |t.writes| <= 1
    && (t.writing <==> t.writes != [])
    && (t.writes != [] ==> t.queue != [] && t.writes[0].item == t.queue[0])
    && (t.queue != [] && !t.writing ==> s.closes != [])
    && t.wire <= s.posted
    && (!t.failed ==> s.posted[..t.ran] == t.wire + t.queue)
    && (t.failed ==> DeadWrites(t, s))
  }

  /** The socket is closed, and what is still being written began after that. */
  predicate DeadWrites(t: Tx, s: Sess) {
    s.closes != [] && forall w :: w in t.writes ==> !w.live
  }

  /** At most one Close frame is ever posted, none while the session is open, and none is followed on the wire. */
  ghost predicate CloseOk(t: Tx, s: Sess) {
    && (s.state.Rank() <= 1 ==> s.closes == [] && forall i :: 0 <= i < |s.posted| ==> !s.posted[i].isClose)
    && (s.closes != [] ==> s.state == Closed)
    && (forall i, j :: 0 <= i < j < |s.posted| ==> !(s.posted[i].isClose && s.posted[j].isClose))
    && (forall i :: 0 <= i < |t.wire| && t.wire[i].isClose ==> i == |t.wire| - 1 && DeadWrites(t, s))
  }

  ghost predicate TxOk(t: Tx, s: Sess) {
    QueueOk(t, s) && CloseOk(t, s)
  }

  lemma SessionStepKeepsQueue(t: Tx, s: Sess, s': Sess)
    requires TxOk(t, s) && Evolves(s, s')
    ensures TxOk(t, s')
  {
    assert s'.posted[..t.ran] == s.posted[..t.ran];
  }

  lemma RunPostedKeepsQueue(t: Tx, s: Sess)
    requires TxOk(t, s) && t.ran < |s.posted|
    ensures TxOk(RunPosted(t, s.posted[t.ran], s.closes == []), s)
  {
    var p, item := s.posted, s.posted[t.ran];
    assert p[..t.ran + 1] == p[..t.ran] + [item];
    assert (t.wire + t.queue) + [item] == t.wire + (t.queue + [item]);
  }

  lemma WriteFailureKeepsQueue(t: Tx, s: Sess)
    requires TxOk(t, s) && t.writes != []
    ensures TxOk(OnWriteDone(t, 0, false, s.closes == []), DoClose(s, ABNORMAL_CLOSURE))
  {
  }

  lemma WriteMovesFront(t: Tx, s: Sess)
    requires QueueOk(t, s) && t.writes != [] && t.writes[0].live
    ensures var wire' := t.wire + [t.writes[0].item];
            s.posted[..t.ran] == wire' + t.queue[1..] && wire' <= s.posted
    ensures Remove(t.writes, 0) == []
  {
    var item := t.queue[0];
    assert t.wire + t.queue == (t.wire + [item]) + t.queue[1..];
    assert t.wire + [item] == s.posted[..t.ran][..|t.wire| + 1];
  }

  lemma WriteSuccessKeepsQueue(t: Tx, s: Sess)
    requires TxOk(t, s) && t.writes != [] && t.writes[0].live && !t.writes[0].item.isClose
    ensures TxOk(OnWriteDone(t, 0, true, s.closes == []), s)
  {
    WriteMovesFront(t, s);
  }

  lemma WrittenCloseKeepsQueue(t: Tx, s: Sess)
    requires TxOk(t, s) && t.writes != [] && t.writes[0].live && t.writes[0].item.isClose
    ensures TxOk(OnWriteDone(t, 0, true, s.closes == []), DoClose(s, NORMAL_CLOSURE))
  {
    WriteMovesFront(t, s);
  }

  lemma FrontWrite(t: Tx, s: Sess)
    requires QueueOk(t, s)
    ensures |t.writes| <= 1
    ensures t.writes != [] ==> t.queue != [] && t.queue[0] == t.writes[0].item
  {
  }

  /** Every step of every kind keeps the write queue and the close in order. */
  lemma StepKeepsQueue(upgrade: UpgradeCheck, s: Sys, e: Event)
    requires TxOk(s.tx, Session(s)) && Enabled(s, e.action)
    ensures var s' := Apply(upgrade, s, e); TxOk(s'.tx, Session(s'))
  {
    hide QueueOk, CloseOk, Arrive, DoClose, WsReceive.Close, OnWriteDone, RunPosted, OnTimer, Evolves;
    var t, sess := s.tx, Session(s);
    match e.action
    case RunsPosted => RunPostedKeepsQueue(t, sess);
    case WriteDone(_, ok) =>
      FrontWrite(t, sess);
      if !ok {
        WriteFailureKeepsQueue(t, sess);
      } else if t.writes[0].item.isClose {
        WrittenCloseKeepsQueue(t, sess);
      } else {
        WriteSuccessKeepsQueue(t, sess);
      }
    case _ =>
      StepEvolves(upgrade, s, e);
      SessionStepKeepsQueue(t, sess, Session(Apply(upgrade, s, e)));
  }

  lemma {:induction false} RunKeepsQueue(upgrade: UpgradeCheck, s: Sys, events: seq<Event>)
    requires Possible(upgrade, s, events)
    requires TxOk(s.tx, Session(s))
    ensures var s' := Execute(upgrade, s, events);
            TxOk(s'.tx, Session(s')) && Evolves(Session(s), Session(s'))
    decreases |events|
  {
    hide TxOk, Evolves, Apply, Enabled;
    if events == [] {
      RefreshEvolves(Session(s));
    } else {
      var s1 := Apply(upgrade, s, events[0]);
      StepKeepsQueue(upgrade, s, events[0]);
      StepEvolves(upgrade, s, events[0]);
      RunKeepsQueue(upgrade, s1, events[1..]);
      EvolvesTwice(Session(s), Session(s1), Session(Execute(upgrade, s, events)));
    }
  }

  /**
   * The write queue over every interleaving.  At most one write is in progress and it is the write of the front of the
   * queue; the frames written are a prefix of the frames posted, and while the socket is open and no write is in
   * progress nothing the strand has taken over is left unwritten.  At most one Close frame is ever posted, and nothing
   * follows it on the wire.
   */
  lemma WriteQueueSafety(upgrade: UpgradeCheck, opt: Options, events: seq<Event>)
    requires Possible(upgrade, Start(opt), events)
    ensures var s := Execute(upgrade, Start(opt), events);
            && |s.tx.writes| <= 1
            && (forall w :: w in s.tx.writes ==> s.tx.queue != [] && s.tx.queue[0] == w.item)
            && s.tx.wire <= Posted(s)
            && (SocketOpen(s) && s.tx.writes == [] ==> s.tx.ran <= |Posted(s)| && s.tx.wire == Posted(s)[..s.tx.ran])
            && (forall i, j :: 0 <= i < j < |Posted(s)| ==> !(Posted(s)[i].isClose && Posted(s)[j].isClose))
            && (forall i :: 0 <= i < |s.tx.wire| && s.tx.wire[i].isClose ==> i == |s.tx.wire| - 1 && DeadWrites(s.tx, Session(s)))
  {
    RunKeepsQueue(upgrade, Start(opt), events);
  }

  /** Once the state has left Active it never returns, and the logs of the past are never rewritten. */
  lemma StateMovesForward(upgrade: UpgradeCheck, opt: Options, before: seq<Event>, after: seq<Event>)
    requires Possible(upgrade, Start(opt), before)
    requires Possible(upgrade, Execute(upgrade, Start(opt), before), after)
    ensures var s := Execute(upgrade, Start(opt), before);
            var s' := Execute(upgrade, s, after);
            && Session(s).state.Rank() <= Session(s').state.Rank()
            && Posted(s) <= Posted(s') && Session(s).delivered <= Session(s').delivered
  {
    RunKeepsQueue(upgrade, Start(opt), before);
    RunKeepsQueue(upgrade, Execute(upgrade, Start(opt), before), after);
  }

  // ---- memory ------------------------------------------------------------------------------------------------------

  ghost predicate MemoryOk(c: Conn) {
    var s := c.rcv.sess;
    && MessagesBounded(s)
    && (s.state == Handshaking ==> c.rcv.buf == [])
    && (c.rcv.reading ==> |c.handshake| <= s.opt.maxHandshakeBytes && HoldsPartOfOneFrame(s.opt, c.rcv.buf))
  }

  lemma ArriveKeepsMemory(upgrade: UpgradeCheck, c: Conn, chunk: seq<byte>, replyOk: bool, now: int)
    requires MemoryOk(c) && c.rcv.reading
    ensures MemoryOk(Arrive(upgrade, c, chunk, replyOk, now))
  {
    hide ProcessFrameBuffer;
    var s := c.rcv.sess;
    if s.state == Handshaking {
      var buf := c.handshake + chunk;
      var end := FirstEnd(buf, 0);
      if end.Some? {
        MemoryBounds(Opened(s, now), c.rcv.buf + buf[end.value + 4..]);
        ProcessEvolves(Opened(s, now), c.rcv.buf + buf[end.value + 4..]);
      }
    } else {
      MemoryBounds(s, c.rcv.buf + chunk);
      ProcessEvolves(s, c.rcv.buf + chunk);
    }
  }

  /** A change of the session that leaves the messages and the frame count alone. */
  predicate KeepsMessages(s: Sess, s': Sess) {
    && s'.opt == s.opt && s'.started == s.started && s'.opcode == s.opcode && s'.payload == s.payload
    && s'.delivered == s.delivered && s'.refreshes == s.refreshes && s.posted <= s'.posted
    && (s'.state == Handshaking ==> s.state == Handshaking)
    && (s'.state == Active ==> s.state == Active)
  }

  /** What a step that is not a read does to the receiving half. */
  predicate KeepsReceiver(c: Conn, c': Conn) {
    && c'.handshake == c.handshake && c'.rcv.buf == c.rcv.buf
    && (c'.rcv.reading ==> c.rcv.reading) && (c'.rcv.sess.state == Active ==> c'.rcv.reading == c.rcv.reading)
    && KeepsMessages(c.rcv.sess, c'.rcv.sess)
  }

  lemma ClosingKeepsMessages(s: Sess, code: CloseCode, reason: seq<byte>)
    ensures KeepsMessages(s, DoClose(s, code)) && KeepsMessages(s, WsReceive.Close(s, code, reason))
    ensures DoClose(s, code).state == Closed
  {
  }

  lemma TimerKeepsMessages(s: Sess, b: Beat, now: int)
    ensures KeepsMessages(s, OnTimer(s, b, now).0)
  {
    hide PingItem;
  }

  lemma OtherStepsKeepReceiver(upgrade: UpgradeCheck, s: Sys, e: Event)
    requires Enabled(s, e.action) && !e.action.Arrives?
    ensures KeepsReceiver(s.conn, Apply(upgrade, s, e).conn)
  {
    hide CloseItem, PingItem, RunPosted, OnWriteDone, Arrive, DoClose, WsReceive.Close, OnTimer, ServerFrame;
    var sess := Session(s);
    match e.action
    case ReadFails => ClosingKeepsMessages(sess, ABNORMAL_CLOSURE, []);
    case UserCloses(code, reason) => ClosingKeepsMessages(sess, code, reason);
    case WriteDone(_, _) =>
      ClosingKeepsMessages(sess, ABNORMAL_CLOSURE, []);
      ClosingKeepsMessages(sess, NORMAL_CLOSURE, []);
    case TimerFires => TimerKeepsMessages(sess, s.beat, e.now);
    case _ =>
  }

  lemma KeptReceiverKeepsMemory(c: Conn, c': Conn)
    requires MemoryOk(c) && KeepsReceiver(c, c')
    ensures MemoryOk(c')
  {
  }

  /** Every step keeps the bounds on messages, on the handshake buffer and on the frame buffer. */
  lemma StepKeepsMemory(upgrade: UpgradeCheck, s: Sys, e: Event)
    requires MemoryOk(s.conn) && Enabled(s, e.action)
    ensures MemoryOk(Apply(upgrade, s, e).conn)
  {
    hide Arrive, MemoryOk, KeepsReceiver, OnTimer, AfterWrite, OnWriteDone, RunPosted, DoClose, WsReceive.Close;
    if e.action.Arrives? {
      ArriveKeepsMemory(upgrade, s.conn, e.action.chunk, e.action.replyOk, e.now);
    } else {
      OtherStepsKeepReceiver(upgrade, s, e);
      KeptReceiverKeepsMemory(s.conn, Apply(upgrade, s, e).conn);
    }
  }

  /** Memory bounds in every reachable state. */
  lemma {:induction false} RunKeepsMemory(upgrade: UpgradeCheck, s: Sys, events: seq<Event>)
    requires Possible(upgrade, s, events) && MemoryOk(s.conn)
    ensures MemoryOk(Execute(upgrade, s, events).conn)
    decreases |events|
  {
    hide MemoryOk, Apply, Enabled;
    if events != [] {
      StepKeepsMemory(upgrade, s, events[0]);
      RunKeepsMemory(upgrade, Apply(upgrade, s, events[0]), events[1..]);
    }
  }

  lemma {:induction false} RunKeepsOptions(upgrade: UpgradeCheck, s: Sys, events: seq<Event>)
    requires Possible(upgrade, s, events)
    ensures Session(Execute(upgrade, s, events)).opt == Session(s).opt
    decreases |events|
  {
    hide Apply, Enabled;
    if events != [] {
      StepEvolves(upgrade, s, events[0]);
      RunKeepsOptions(upgrade, Apply(upgrade, s, events[0]), events[1..]);
    }
  }

  /**
   * In every state a session can reach: no message in progress or delivered is larger than its limit, and while it
   * reads, the handshake buffer is within its limit and the frame buffer holds part of one admissible frame.
   */
  lemma ReachableMemory(upgrade: UpgradeCheck, opt: Options, events: seq<Event>)
    requires Possible(upgrade, Start(opt), events)
    ensures var c := Execute(upgrade, Start(opt), events).conn;
            && |c.rcv.sess.payload| <= opt.maxMessageBytes
            && (forall m :: m in c.rcv.sess.delivered ==> |m.payload| <= opt.maxMessageBytes)
            && (c.rcv.reading ==> |c.handshake| <= opt.maxHandshakeBytes && HoldsPartOfOneFrame(opt, c.rcv.buf))
  {
    hide Apply, Enabled, Possible, Execute;
    RunKeepsMemory(upgrade, Start(opt), events);
    RunKeepsOptions(upgrade, Start(opt), events);
  }
}
