/** The session class: the handlers, with the fields they update, against the step system. */
module WsHandlers {
  import opened Bytes
  import opened Strings
  import opened WsFrame
  import opened Incremental
  import opened WsReceive
  import opened WsHandshake
  import WsOutgoing
  import WsSystem

  type Item = WsReceive.Item

  class WsSession {
    const opt: Options
    const upgrade: UpgradeCheck

    var state: State
    var handshakeBuf: seq<byte>
    var frameBuf: seq<byte>
    var msgOpcode: OpCode
    var msgPayload: seq<byte>
    var msgStarted: bool
    var sendQueue: seq<Item>
    var writing: bool
    var lastActivity: int
    var awaitingPong: bool

    // The environment: outstanding operations and logs of what the session asked for.
    var reading: bool
    var timer: Option<int>
    var writes: seq<WsSystem.Write>
    var posted: seq<Item>
    var ran: nat
    var wire: seq<Item>
    var failed: bool
    var delivered: seq<Message>
    var closes: seq<CloseCode>
    var refreshes: nat
    var pings: nat
    ghost var exit: Option<Exit>

    ghost function Sess(): WsReceive.Sess
      reads this
    {
      WsReceive.Sess(opt, state, msgStarted, msgOpcode, msgPayload, refreshes, delivered, posted, timer, exit, closes)
    }

    ghost function Receiver(): WsReceive.Receiver
      reads this
    {
      WsReceive.Receiver(Sess(), frameBuf, reading)
    }

    ghost function Connection(): Conn
      reads this
    {
      Conn(handshakeBuf, Receiver())
    }

    ghost function Tx(): WsSystem.Tx
      reads this
    {
      WsSystem.Tx(ran, sendQueue, writing, writes, wire, failed)
    }

    ghost function Beat(): WsSystem.Beat
      reads this
    {
      WsSystem.Beat(lastActivity, awaitingPong, pings)
    }

    ghost function System(): WsSystem.Sys
      reads this
    {
      WsSystem.Sys(Connection(), Tx(), Beat())
    }

    constructor (opt: Options, upgrade: UpgradeCheck)
      ensures System() == WsSystem.Start(opt) && this.upgrade == upgrade
    {
      this.opt, this.upgrade := opt, upgrade;
      state, handshakeBuf, frameBuf := Handshaking, [], [];
      msgOpcode, msgPayload, msgStarted := Text, [], false;
      sendQueue, writing, lastActivity, awaitingPong := [], false, 0, false;
      reading, timer, writes, posted, ran, wire, failed := true, None, [], [], 0, [], false;
      delivered, closes, refreshes, pings, exit := [], [], 0, 0, None;
    }

    ghost method RecordExit(cause: Cause)
      modifies `exit
      ensures Sess() == Leave(old(Sess()), cause)
    {
      if state == Active {
        exit := Some(Exit(cause, refreshes, delivered, posted));
      }
    }

    /** Whatever the state was, it becomes Closed, and the close handler runs, even if it ran before. */
    method DoClose(code: CloseCode)
      modifies `state, `timer, `closes, `exit
      ensures Sess() == WsReceive.DoClose(old(Sess()), code)
    {
      RecordExit(Dropped(code));
      state := Closed;
      timer := None;
      closes := closes + [code];
    }

    /** Post a frame to the strand. */
    method EnqueueFrame(item: Item)
      modifies `posted
      ensures posted == old(posted) + [item]
    {
      posted := posted + [item];
    }

    method Close(code: CloseCode, reason: seq<byte>)
      requires |reason| < TWO_64 - 2
      modifies `state, `posted, `exit
      ensures Sess() == WsReceive.Close(old(Sess()), code, reason)
    {
      if state != Active { return; }
      RecordExit(CloseSent(code));
      state := Closing;
      var payload: seq<byte> := [];
      Shifts(code);
      payload := payload + [code / 256 % 256];
      payload := payload + [code % 256];
      payload := payload + reason;
      assert payload == U16Bytes(code) + reason;
      var frame := EncodeServerFrame(true, OpCode.Close, payload);
      EnqueueFrame(Item(frame, true));
    }

    method RefreshHeartbeat(now: int)
      modifies `lastActivity, `awaitingPong, `refreshes
      ensures lastActivity == now && !awaitingPong && refreshes == old(refreshes) + 1
    {
      lastActivity := now;
      awaitingPong := false;
      refreshes := refreshes + 1;
    }

    method HandleControlFrame(op: OpCode, payload: seq<byte>)
      requires |payload| <= 125 && op.IsControl()
      modifies `state, `posted, `exit
      ensures Sess() == WsReceive.HandleControlFrame(old(Sess()), op, payload)
    {
      if op == OpCode.Close {
        var code: CloseCode := NO_STATUS_RECEIVED;
        if |payload| >= 2 {
          code := payload[0] as int * 256 + payload[1];
        }
        if state == Active {
          RecordExit(PeerClosed(code));
          state := Closing;
          Shifts(code);
          var closePayload: seq<byte> := [code / 256 % 256, code % 256];
          assert closePayload == U16Bytes(code) + [];
          var frame := EncodeServerFrame(true, OpCode.Close, closePayload);
          EnqueueFrame(Item(frame, true));
        }
        return;
      }
      if op == Ping {
        var frame := EncodeServerFrame(true, Pong, payload);
        EnqueueFrame(Item(frame, false));
        return;
      }
    }

    method DeliverMessage()
      modifies `delivered, `msgPayload
      ensures delivered == old(delivered) + [Message(msgOpcode, old(msgPayload))] && msgPayload == []
    {
      delivered := delivered + [Message(msgOpcode, msgPayload)];
      msgPayload := [];
    }

    method HandleDataFrame(op: OpCode, fin: bool, payload: seq<byte>)
      modifies `state, `timer, `closes, `exit, `posted, `msgStarted, `msgOpcode, `msgPayload, `delivered
      ensures Sess() == WsReceive.HandleDataFrame(old(Sess()), op, fin, payload)
    {
      if op == Text || op == Binary {
        if msgStarted {
          DoClose(PROTOCOL_ERROR);
          return;
        }
        msgStarted := true;
        msgOpcode := op;
        msgPayload := [];
        if |payload| > 0 {
          if |payload| > opt.maxMessageBytes {
            Close(MESSAGE_TOO_BIG, Ascii("message too large"));
            return;
          }
          msgPayload := payload;
        }
      } else if op == Continuation {
        if !msgStarted {
          DoClose(PROTOCOL_ERROR);
          return;
        }
        if |payload| > 0 {
          if |msgPayload| + |payload| > opt.maxMessageBytes {
            Close(MESSAGE_TOO_BIG, Ascii("message too large"));
            return;
          }
          msgPayload := msgPayload + payload;
        }
      } else {
        DoClose(PROTOCOL_ERROR);
        return;
      }
      assert msgPayload == (if op == Continuation then old(msgPayload) else []) + payload;
      if fin {
        DeliverMessage();
        msgStarted := false;
        msgPayload := [];
      }
    }

    /** Copy the payload out of the buffer and unmask it in place. */
    method ExtractPayload(buf: seq<byte>, hdr: Header) returns (payload: seq<byte>)
      requires hdr.TotalSize() <= |buf| && hdr.masked && hdr.maskKey < TWO_32
      ensures payload == Masked(buf[hdr.headerLen..hdr.TotalSize()], hdr.maskKey)
    {
      payload := [];
      if hdr.payloadLen > 0 {
        var data := new byte[hdr.payloadLen](i requires 0 <= i < hdr.payloadLen && hdr.TotalSize() <= |buf| => buf[hdr.headerLen + i]);
        assert data[..] == buf[hdr.headerLen..hdr.TotalSize()];
        ApplyMask(data, hdr.maskKey);
        payload := data[..];
      }
    }

    /** One turn of the frame loop: a frame is handled, more bytes are needed, or the loop is left for good. */
    method ProcessFrame(base: seq<byte>, now: int) returns (turn: Turn, used: nat)
      modifies `state, `timer, `closes, `exit, `posted, `msgStarted, `msgOpcode, `msgPayload, `delivered,
               `refreshes, `lastActivity, `awaitingPong
      ensures match FrameStep(old(Sess()), base)
              case Wait => turn == Starved && Sess() == old(Sess())
              case Halt(s, _) => turn == Stopped && Sess() == s
              case Next(s, n) => turn == Consumed && Sess() == s && used == n
      ensures refreshes >= old(refreshes)
      ensures refreshes > old(refreshes) ==> lastActivity == now && !awaitingPong
      ensures refreshes == old(refreshes) ==> lastActivity == old(lastActivity) && awaitingPong == old(awaitingPong)
    {
      hide WsReceive.HandleControlFrame, WsReceive.HandleDataFrame, WsReceive.DoClose, WsReceive.Close, Decode, Masked;
      used := 0;
      var headerLen, hdr := ParseHeader(base);
      if hdr.payloadLen == UINT64_MAX {
        DoClose(PROTOCOL_ERROR);
        return Stopped, used;
      }
      if headerLen == 0 { return Starved, used; }
      if !hdr.masked {
        DoClose(PROTOCOL_ERROR);
        return Stopped, used;
      }
      if !hdr.opcode.IsControl() {
        var accumulated := if hdr.opcode == Continuation then |msgPayload| else 0;
        if accumulated + hdr.payloadLen > opt.maxMessageBytes {
          Close(MESSAGE_TOO_BIG, Ascii("message too large"));
          return Stopped, used;
        }
      }
      var total := hdr.TotalSize();
      if total > opt.maxFrameBufferBytes {
        Close(MESSAGE_TOO_BIG, Ascii("frame too large"));
        return Stopped, used;
      }
      if |base| < total { return Starved, used; }
      RefreshHeartbeat(now);
      var payload := ExtractPayload(base, hdr);
      if hdr.opcode.IsControl() {
        if !hdr.fin || hdr.payloadLen > 125 {
          DoClose(PROTOCOL_ERROR);
          return Stopped, used;
        }
        HandleControlFrame(hdr.opcode, payload);
        if state == Closed { return Stopped, used; }
      } else {
        HandleDataFrame(hdr.opcode, hdr.fin, payload);
      }
      return Consumed, total;
    }

    /** Handle every complete frame of the buffer, keep the rest, and read on unless the session is closing. */
    method ProcessFrameBuffer(now: int)
      requires !reading
      modifies `state, `timer, `closes, `exit, `posted, `msgStarted, `msgOpcode, `msgPayload, `delivered,
               `refreshes, `lastActivity, `awaitingPong, `frameBuf, `reading
      ensures Receiver() == WsReceive.ProcessFrameBuffer(old(Sess()), old(frameBuf))
      ensures refreshes >= old(refreshes)
      ensures refreshes > old(refreshes) ==> lastActivity == now && !awaitingPong
      ensures refreshes == old(refreshes) ==> lastActivity == old(lastActivity) && awaitingPong == old(awaitingPong)
    {
      hide FrameStep, Run;
      FrameStepProductive();
      var offset, available := 0, |frameBuf|;
      assert frameBuf[0..] == frameBuf;
      while offset < available
        invariant 0 <= offset <= available == |frameBuf| && frameBuf == old(frameBuf) && !reading
        invariant Run(FrameStep, Sess(), frameBuf[offset..]) == Run(FrameStep, old(Sess()), frameBuf)
        invariant refreshes >= old(refreshes)
        invariant refreshes > old(refreshes) ==> lastActivity == now && !awaitingPong
        invariant refreshes == old(refreshes) ==> lastActivity == old(lastActivity) && awaitingPong == old(awaitingPong)
        decreases available - offset
      {
        var base := frameBuf[offset..];
        RunTurn(FrameStep, Sess(), base);
        var turn, used := ProcessFrame(base, now);
        if turn == Stopped { return; }
        if turn == Starved { break; }
        assert base[used..] == frameBuf[offset + used..];
        offset := offset + used;
      }
      if offset == available {
        assert frameBuf[offset..] == [];
        EmptyWaits(Sess());
      }
      RunTurn(FrameStep, Sess(), frameBuf[offset..]);
      if offset > 0 {
        frameBuf := frameBuf[offset..];
      }
      if state != Closed && state != Closing {
        reading := true;
      }
    }

    /** A read of the frame phase completed. */
    method OnFrameData(chunk: seq<byte>, now: int)
      requires reading && state != Handshaking
      modifies `state, `timer, `closes, `exit, `posted, `msgStarted, `msgOpcode, `msgPayload, `delivered,
               `refreshes, `lastActivity, `awaitingPong, `frameBuf, `reading
      ensures Receiver() == Receive(old(Receiver()), chunk)
      ensures refreshes >= old(refreshes)
      ensures refreshes > old(refreshes) ==> lastActivity == now && !awaitingPong
      ensures refreshes == old(refreshes) ==> lastActivity == old(lastActivity) && awaitingPong == old(awaitingPong)
    {
      hide WsReceive.Close, WsReceive.ProcessFrameBuffer;
      reading := false;
      frameBuf := frameBuf + chunk;
      if |frameBuf| > opt.maxFrameBufferBytes {
        Close(MESSAGE_TOO_BIG, Ascii("frame buffer too large"));
        return;
      }
      ProcessFrameBuffer(now);
    }

    /** A read of the handshake phase completed. */
    method OnHandshakeData(chunk: seq<byte>, replyOk: bool, now: int)
      requires reading && state == Handshaking
      modifies `state, `timer, `closes, `exit, `posted, `msgStarted, `msgOpcode, `msgPayload, `delivered,
               `refreshes, `lastActivity, `awaitingPong, `frameBuf, `reading, `handshakeBuf
      ensures var c := Handshake(upgrade, old(Connection()), chunk, replyOk, now);
              handshakeBuf == c.handshake && frameBuf == c.rcv.buf && reading == c.rcv.reading && Sess() == c.rcv.sess
      ensures refreshes >= old(refreshes)
      ensures refreshes > old(refreshes) ==> lastActivity == now && !awaitingPong
      ensures refreshes == old(refreshes) ==> lastActivity == old(lastActivity) && awaitingPong == old(awaitingPong)
    {
      hide FirstEnd, WsReceive.DoClose, HandOver;
      reading := false;
      handshakeBuf := handshakeBuf + chunk;
      if |handshakeBuf| > opt.maxHandshakeBytes {
        DoClose(PROTOCOL_ERROR);
        return;
      }
      var consumed := FindHeaderEnd(handshakeBuf);
      if consumed == 0 {
        reading := true;
        return;
      }
      if !upgrade(handshakeBuf[..consumed - 4]) {
        DoClose(PROTOCOL_ERROR);
        return;
      }
      if !replyOk {
        DoClose(ABNORMAL_CLOSURE);
        return;
      }
      OpenSession(handshakeBuf[consumed..], now);
    }

    /** The session becomes Active; what came behind the request is frame data. */
    method OpenSession(rest: seq<byte>, now: int)
      requires !reading
      modifies `state, `timer, `closes, `exit, `posted, `msgStarted, `msgOpcode, `msgPayload, `delivered,
               `refreshes, `lastActivity, `awaitingPong, `frameBuf, `reading, `handshakeBuf
      ensures handshakeBuf == [] && Receiver() == HandOver(Opened(old(Sess()), now), old(frameBuf) + rest)
      ensures refreshes > old(refreshes) && lastActivity == now && !awaitingPong
    {
      hide HandOver;
      state := Active;
      RefreshHeartbeat(now);
      timer := Some(now);
      handshakeBuf := [];
      StartFrames(rest, now);
    }

    /** The bytes behind the request are handled as frames, or a read of frames is started if there are none. */
    method StartFrames(rest: seq<byte>, now: int)
      requires !reading
      modifies `state, `timer, `closes, `exit, `posted, `msgStarted, `msgOpcode, `msgPayload, `delivered,
               `refreshes, `lastActivity, `awaitingPong, `frameBuf, `reading
      ensures Receiver() == HandOver(old(Sess()), old(frameBuf) + rest)
      ensures refreshes >= old(refreshes)
      ensures refreshes > old(refreshes) ==> lastActivity == now && !awaitingPong
      ensures refreshes == old(refreshes) ==> lastActivity == old(lastActivity) && awaitingPong == old(awaitingPong)
    {
      hide WsReceive.ProcessFrameBuffer;
      frameBuf := frameBuf + rest;
      if frameBuf != [] {
        ProcessFrameBuffer(now);
      } else {
        reading := true;
      }
    }

    method OnReadError()
      requires reading
      modifies `reading, `state, `timer, `closes, `exit
      ensures Connection() == Drop(old(Connection()), ABNORMAL_CLOSURE)
    {
      reading := false;
      DoClose(ABNORMAL_CLOSURE);
    }

    // ---- sending ---------------------------------------------------------------------------------------------------

    /** SendText, SendBinary and SendPing: encode one unfragmented frame and post it. */
    method Send(op: OpCode, payload: seq<byte>)
      requires |payload| < TWO_64
      modifies `posted
      ensures posted == old(posted) + [Item(ServerFrame(true, op, payload), false)]
    {
      var frame := EncodeServerFrame(true, op, payload);
      EnqueueFrame(Item(frame, false));
    }

    /** The task that EnqueueFrame posted runs on the strand. */
    method RunPosted()
      requires ran < |posted|
      modifies `ran, `sendQueue, `writing, `writes
      ensures Tx() == WsSystem.RunPosted(old(Tx()), posted[old(ran)], closes == [])
    {
      var wasEmpty := sendQueue == [];
      sendQueue := sendQueue + [posted[ran]];
      ran := ran + 1;
      if wasEmpty && !writing {
        DoWrite();
      }
    }

    method DoWrite()
      modifies `writing, `writes
      ensures Tx() == WsSystem.DoWrite(old(Tx()), closes == [])
    {
      if sendQueue == [] {
        writing := false;
        return;
      }
      writing := true;
      writes := writes + [WsSystem.Write(sendQueue[0], closes == [])];
    }

    /** The write in progress completed; that its frame is in front of the queue is the queue invariant. */
    method OnWriteDone(ok: bool)
      requires |writes| == 1 && sendQueue != [] && writes[0].item == sendQueue[0]
      modifies `sendQueue, `writing, `writes, `wire, `failed, `state, `timer, `closes, `exit
      ensures Tx() == WsSystem.OnWriteDone(old(Tx()), 0, ok, old(closes) == [])
      ensures Sess() == WsSystem.AfterWrite(old(Sess()), old(writes[0].item), ok)
    {
      hide WsSystem.Continue, WsSystem.AfterWrite;
      var item := sendQueue[0];
      assert WsSystem.Remove(writes, 0) == [];
      writes := [];
      sendQueue := sendQueue[1..];
      ContinueWriting(item, ok);
    }

    /** After the pop: drop the connection, or start the next write. */
    method ContinueWriting(item: Item, ok: bool)
      modifies `writing, `writes, `wire, `failed, `state, `timer, `closes, `exit
      ensures Tx() == WsSystem.Continue(old(Tx()), item, ok, old(closes) == [])
      ensures Sess() == WsSystem.AfterWrite(old(Sess()), item, ok)
    {
      hide WsReceive.DoClose;
      if !ok {
        failed := true;
        writing := false;
        DoClose(ABNORMAL_CLOSURE);
        return;
      }
      wire := wire + [item];
      if item.isClose {
        writing := false;
        DoClose(NORMAL_CLOSURE);
        return;
      }
      if sendQueue != [] {
        DoWrite();
      } else {
        writing := false;
      }
    }

    // ---- heartbeat -------------------------------------------------------------------------------------------------

    method OnHeartbeatTimer(now: int)
      requires timer.Some?
      modifies `timer, `awaitingPong, `pings, `posted, `state, `closes, `exit
      ensures (Sess(), Beat()) == WsSystem.OnTimer(old(Sess()), old(Beat()), now)
    {
      hide WsReceive.DoClose, ServerFrame;
      timer := None;
      if state != Active { return; }
      var idle := now - lastActivity;
      if awaitingPong {
        if idle >= opt.heartbeatTimeout {
          DoClose(ABNORMAL_CLOSURE);
          return;
        }
      } else if idle >= opt.heartbeatInterval {
        awaitingPong := true;
        pings := pings + 1;
        var frame := EncodeServerFrame(true, Ping, []);
        EnqueueFrame(Item(frame, false));
      }
      timer := Some(now);
    }

    // ---- the class refines the step system -------------------------------------------------------------------------

    method OnRead(chunk: seq<byte>, replyOk: bool, now: int)
      requires reading
      modifies `state, `timer, `closes, `exit, `posted, `msgStarted, `msgOpcode, `msgPayload, `delivered,
               `refreshes, `lastActivity, `awaitingPong, `frameBuf, `reading, `handshakeBuf
      ensures Connection() == Arrive(upgrade, old(Connection()), chunk, replyOk, now)
      ensures refreshes >= old(refreshes)
      ensures refreshes > old(refreshes) ==> lastActivity == now && !awaitingPong
      ensures refreshes == old(refreshes) ==> lastActivity == old(lastActivity) && awaitingPong == old(awaitingPong)
    {
      hide Handshake, Receive;
      if state == Handshaking {
        OnHandshakeData(chunk, replyOk, now);
      } else {
        OnFrameData(chunk, now);
      }
    }

    method HandleRead(e: WsSystem.Event)
      requires WsSystem.Enabled(System(), e.action) && (e.action.Arrives? || e.action.ReadFails?)
      modifies this
      ensures System() == WsSystem.Apply(upgrade, old(System()), e)
    {
      hide WsReceive.DoClose, Arrive;
      match e.action
      case Arrives(chunk, replyOk) => OnRead(chunk, replyOk, e.now);
      case ReadFails => OnReadError();
    }

    method HandlePosted(e: WsSystem.Event)
      requires WsSystem.Enabled(System(), e.action) && e.action.RunsPosted?
      modifies this
      ensures System() == WsSystem.Apply(upgrade, old(System()), e)
    {
      hide WsSystem.RunPosted;
      RunPosted();
    }

    method HandleWritten(e: WsSystem.Event)
      requires WsSystem.QueueOk(Tx(), Sess()) && WsSystem.Enabled(System(), e.action) && e.action.WriteDone?
      modifies this
      ensures System() == WsSystem.Apply(upgrade, old(System()), e)
    {
      hide WsSystem.QueueOk, WsSystem.OnWriteDone, WsSystem.AfterWrite, WsSystem.OnTimer, WsSystem.RunPosted, Arrive, WsReceive.Close,
           Drop, ServerFrame;
      WsSystem.FrontWrite(Tx(), Sess());
      OnWriteDone(e.action.ok);
    }

    method HandleTimer(e: WsSystem.Event)
      requires WsSystem.Enabled(System(), e.action) && e.action.TimerFires?
      modifies this
      ensures System() == WsSystem.Apply(upgrade, old(System()), e)
    {
      hide WsSystem.OnTimer;
      OnHeartbeatTimer(e.now);
    }

    /**
     * Every completion handler does to the fields of the session what its step of the system does, so that what is
     * proved of the runs of the system holds of the runs of this class.
     */
    method Handle(e: WsSystem.Event)
      requires WsSystem.QueueOk(Tx(), Sess()) && WsSystem.Enabled(System(), e.action)
      requires WsOutgoing.Encodable(e.action)
      modifies this
      ensures System() == WsSystem.Apply(upgrade, old(System()), e)
    {
      hide WsReceive.Close, ServerFrame, WsSystem.QueueOk;
      match e.action
      case Sends(op, payload) => Send(op, payload);
      case UserCloses(code, reason) => Close(code, reason);
      case TimerFires => HandleTimer(e);
      case RunsPosted => HandlePosted(e);
      case WriteDone(_, _) => HandleWritten(e);
      case _ => HandleRead(e);
    }
  }

  /**
   * A run of the class: a new session to which the completions of a possible run happen is in the state that the step
   * system reaches, so every theorem about runs of the system is about this class.
   */
  method RunSession(opt: Options, upgrade: UpgradeCheck, events: seq<WsSystem.Event>) returns (session: WsSession)
    requires WsSystem.Possible(upgrade, WsSystem.Start(opt), events)
    requires forall e :: e in events ==> WsOutgoing.Encodable(e.action)
    ensures fresh(session) && session.System() == WsSystem.Execute(upgrade, WsSystem.Start(opt), events)
  {
    hide WsSystem.Enabled, WsSystem.Apply, WsSystem.TxOk, WsSystem.QueueOk;
    session := new WsSession(opt, upgrade);
    ghost var goal := WsSystem.Execute(upgrade, WsSystem.Start(opt), events);
    NewSessionIsOk(opt);
    assert events[0..] == events;
    for i := 0 to |events|
      invariant fresh(session) && session.upgrade == upgrade
      invariant WsSystem.TxOk(session.Tx(), session.Sess())
      invariant WsSystem.Possible(upgrade, session.System(), events[i..])
      invariant WsSystem.Execute(upgrade, session.System(), events[i..]) == goal
    {
      assert events[i..][1..] == events[i + 1..];
      QueueIsOk(session.Tx(), session.Sess());
      WsSystem.StepKeepsQueue(upgrade, session.System(), events[i]);
      session.Handle(events[i]);
    }
  }

  lemma NewSessionIsOk(opt: Options)
    ensures var s := WsSystem.Start(opt); WsSystem.TxOk(s.tx, WsSystem.Session(s))
  {
  }

  lemma QueueIsOk(t: WsSystem.Tx, s: WsReceive.Sess)
    requires WsSystem.TxOk(t, s)
    ensures WsSystem.QueueOk(t, s)
  {
    hide WsSystem.QueueOk;
  }

  datatype Turn = Consumed | Starved | Stopped

  lemma EmptyWaits(s: Sess)
    ensures FrameStep(s, []) == Wait
  {
  }
}
