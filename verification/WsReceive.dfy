/**
 * The receiving half of a WebSocket session: what one frame does to the session, and what a buffer of frames does.
 * Outgoing frames and calls of the user's handlers are appends to a log.
 */
module WsReceive {
  import opened Bytes
  import opened Strings
  import opened WsFrame
  import opened Incremental

  datatype State = Handshaking | Active | Closing | Closed {
    function Rank(): nat {
      match this
      case Handshaking => 0
      case Active => 1
      case Closing => 2
      case Closed => 3
    }
  }

  datatype Options = Options(maxHandshakeBytes: nat, maxFrameBufferBytes: nat, maxMessageBytes: nat,
                             heartbeatInterval: nat, heartbeatTimeout: nat)

  datatype Message = Message(opcode: OpCode, payload: seq<byte>)

  datatype Item = Item(data: seq<byte>, isClose: bool)

  type CloseCode = c: nat | c < TWO_16
  const NORMAL_CLOSURE: CloseCode := 1000
  const PROTOCOL_ERROR: CloseCode := 1002
  const NO_STATUS_RECEIVED: CloseCode := 1005
  const ABNORMAL_CLOSURE: CloseCode := 1006
  const MESSAGE_TOO_BIG: CloseCode := 1009

  datatype Cause = Dropped(code: CloseCode) | CloseSent(code: CloseCode) | PeerClosed(code: CloseCode)

  /** The moment the session first leaves Active: why, at which frame, and what had happened until then. */
  datatype Exit = Exit(cause: Cause, refreshes: nat, delivered: seq<Message>, posted: seq<Item>)

  /**
   * The part of the session that frames change.  `refreshes` counts the calls of RefreshHeartbeat: one for the handshake
   * and one for every complete frame.  `delivered` logs the calls of the message handler, `posted` the frames handed
   * to EnqueueFrame, `closes` the calls of the close handler; the socket is open until the first of them.  `timer` is
   * the time at which the pending heartbeat timer was armed.
   */
  datatype Sess = Sess(opt: Options, state: State,
                       started: bool, opcode: OpCode, payload: seq<byte>,
                       refreshes: nat, delivered: seq<Message>, posted: seq<Item>,
                       timer: Option<int>,
                       exit: Option<Exit>, closes: seq<CloseCode>)

  function Leave(s: Sess, cause: Cause): Sess {
    if s.state == Active then s.(exit := Some(Exit(cause, s.refreshes, s.delivered, s.posted))) else s
  }

  /** Drop the connection: cancel the timer, close the socket, call the close handler. */
  function DoClose(s: Sess, code: CloseCode): Sess {
    Leave(s, Dropped(code)).(state := Closed, timer := None, closes := s.closes + [code])
  }

  /** Start the closing handshake, once. */
  function Close(s: Sess, code: CloseCode, reason: seq<byte>): Sess {
    if s.state != Active then s
    else Leave(s, CloseSent(code)).(state := Closing, posted := s.posted + [CloseItem(code, reason)])
  }

  function CloseItem(code: CloseCode, reason: seq<byte>): Item {
    Item(ServerFrame(true, OpCode.Close, U16Bytes(code) + reason), true)
  }

  function PongItem(payload: seq<byte>): Item {
    Item(ServerFrame(true, Pong, payload), false)
  }

  function HandleControlFrame(s: Sess, op: OpCode, payload: seq<byte>): Sess {
    match op
    case Close =>
      var code := if |payload| >= 2 then U16(payload[..2]) else NO_STATUS_RECEIVED;
      if s.state != Active then s
      else Leave(s, PeerClosed(code)).(state := Closing, posted := s.posted + [CloseItem(code, [])])
    case Ping => s.(posted := s.posted + [PongItem(payload)])
    case _ => s
  }

  function HandleDataFrame(s: Sess, op: OpCode, fin: bool, payload: seq<byte>): Sess {
    if op == Text || op == Binary then
      if s.started then DoClose(s, PROTOCOL_ERROR)
      else
        var s := s.(started := true, opcode := op, payload := []);
        if |payload| > s.opt.maxMessageBytes then Close(s, MESSAGE_TOO_BIG, Ascii("message too large"))
        else Append(s, payload, fin)
    else if op == Continuation then
      if !s.started then DoClose(s, PROTOCOL_ERROR)
      else if |payload| > 0 && |s.payload| + |payload| > s.opt.maxMessageBytes then
        Close(s, MESSAGE_TOO_BIG, Ascii("message too large"))
      else Append(s, payload, fin)
    else DoClose(s, PROTOCOL_ERROR)
  }

  /** Add a fragment to the message in progress; deliver the message if the fragment is its last. */
  function Append(s: Sess, payload: seq<byte>, fin: bool): Sess {
    if fin then s.(delivered := s.delivered + [Message(s.opcode, s.payload + payload)], started := false, payload := [])
    else s.(payload := s.payload + payload)
  }

  predicate MessageTooLarge(s: Sess, h: Header) {
    && !h.opcode.IsControl()
    && (if h.opcode == Continuation then |s.payload| else 0) + h.payloadLen > s.opt.maxMessageBytes
  }

  /** One turn of the frame loop.  Halt stands for the early returns, which leave the buffer alone. */
  function FrameStep(s: Sess, buf: seq<byte>): Outcome<Sess> {
    match Decode(buf)
    case Incomplete => Wait
    case Malformed => Halt(DoClose(s, PROTOCOL_ERROR), 0)
    case Accepted(h) =>
      if !h.masked then Halt(DoClose(s, PROTOCOL_ERROR), 0)
      else if MessageTooLarge(s, h) then Halt(Close(s, MESSAGE_TOO_BIG, Ascii("message too large")), 0)
      else if h.TotalSize() > s.opt.maxFrameBufferBytes then
        Halt(Close(s, MESSAGE_TOO_BIG, Ascii("frame too large")), 0)
      else if |buf| < h.TotalSize() then Wait
      else HandleFrame(s, h, Masked(buf[h.headerLen..h.TotalSize()], h.maskKey))
  }

  function HandleFrame(s: Sess, h: Header, payload: seq<byte>): Outcome<Sess> {
    var s := s.(refreshes := s.refreshes + 1);
    if !h.opcode.IsControl() then Next(HandleDataFrame(s, h.opcode, h.fin, payload), h.TotalSize())
    else if !h.fin || h.payloadLen > 125 then Halt(DoClose(s, PROTOCOL_ERROR), 0)
    else
      var s' := HandleControlFrame(s, h.opcode, payload);
      if s'.state == Closed then Halt(s', 0) else Next(s', h.TotalSize())
  }

  /** The same turn, for a reader that stops at the first frame after which the session is no longer Active. */
  function ActiveStep(s: Sess, buf: seq<byte>): Outcome<Sess> {
    match FrameStep(s, buf)
    case Next(s', n) => if s'.state == Active then Next(s', n) else Halt(s', n)
    case other => other
  }

  lemma FrameStepProductive()
    ensures Productive(FrameStep) && Productive(ActiveStep)
  {
    hide Decode, Masked, HandleDataFrame, HandleControlFrame, DoClose, Close, Ascii;
  }

  /** What the loop does at the front of the buffer never depends on bytes that are still to come. */
  lemma FrameStepStable()
    ensures Stable(FrameStep) && Stable(ActiveStep)
  {
    forall s: Sess, buf: seq<byte>, more: seq<byte> | FrameStep(s, buf) != Wait
      ensures FrameStep(s, buf + more) == FrameStep(s, buf)
    {
      DecodeStable(buf, more);
      var v := Decode(buf);
      if v.Accepted? && |buf| >= v.hdr.TotalSize() {
        assert (buf + more)[v.hdr.headerLen..v.hdr.TotalSize()] == buf[v.hdr.headerLen..v.hdr.TotalSize()];
      }
    }
  }

  // ---- reads -------------------------------------------------------------------------------------------------------

  /** The receiving half with its frame buffer; `reading` says that another read has been requested. */
  datatype Receiver = Receiver(sess: Sess, buf: seq<byte>, reading: bool)

  ghost function ProcessFrameBuffer(s: Sess, buf: seq<byte>): Receiver {
    FrameStepProductive();
    match Run(FrameStep, s, buf)
    case Live(s', rest) => Receiver(s', rest, s'.state != Closed && s'.state != Closing)
    case Halted(s', _) => Receiver(s', buf, false)
  }

  /** A read completed: the size guard, then the frame loop. */
  ghost function Receive(r: Receiver, chunk: seq<byte>): Receiver {
    var buf := r.buf + chunk;
    if |buf| > r.sess.opt.maxFrameBufferBytes then
      Receiver(Close(r.sess, MESSAGE_TOO_BIG, Ascii("frame buffer too large")), buf, false)
    else ProcessFrameBuffer(r.sess, buf)
  }

  ghost function ReceiveAll(r: Receiver, chunks: seq<seq<byte>>): Receiver
    decreases |chunks|
  {
    if chunks == [] || !r.reading then r else ReceiveAll(Receive(r, chunks[0]), chunks[1..])
  }

  /** No read makes the buffer outgrow the guard. */
  ghost predicate Fits(r: Receiver, chunks: seq<seq<byte>>)
    decreases |chunks|
  {
    chunks == [] || !r.reading ||
    (|r.buf| + |chunks[0]| <= r.sess.opt.maxFrameBufferBytes && Fits(Receive(r, chunks[0]), chunks[1..]))
  }

  /** A session that reads: Active, nothing recorded, waiting for the rest of a frame. */
  ghost predicate Reading(r: Receiver) {
    r.reading && r.sess.state == Active && r.sess.exit == None && FrameStep(r.sess, r.buf) == Wait
  }

  /** One step moves the state forward and records the exit exactly when the session leaves Active. */
  lemma StepState(s: Sess, buf: seq<byte>)
    requires FrameStep(s, buf) != Wait
    ensures var s' := FrameStep(s, buf).state;
            && s'.state.Rank() >= s.state.Rank()
            && s'.opt == s.opt
            && (s.state != Active ==> s'.exit == s.exit)
            && (s.state == Active && s'.state == Active ==> s'.exit == s.exit)
            && (s.state == Active && s'.state != Active ==> s'.exit.Some?)
            && (s.state == Active && FrameStep(s, buf).Halt? ==> s'.state != Active)
  {
    hide Decode, Masked, Ascii, CloseItem, PongItem;
  }

  lemma {:induction false} RunState(s: Sess, buf: seq<byte>)
    requires s.state != Active
    ensures Productive(FrameStep)
    ensures var s' := Run(FrameStep, s, buf).state;
            s'.state.Rank() >= s.state.Rank() && s'.exit == s.exit && s'.opt == s.opt
    decreases |buf|
  {
    FrameStepProductive();
    if FrameStep(s, buf) != Wait {
      StepState(s, buf);
      var s' := FrameStep(s, buf).state;
      if FrameStep(s, buf).Next? {
        RunState(s', buf[FrameStep(s, buf).used..]);
      }
    }
  }

  /** The frame loop agrees with the reader that stops at the exit, up to and including the exit. */
  lemma {:induction false} ActiveRun(s: Sess, buf: seq<byte>)
    requires s.state == Active && s.exit == None
    ensures Productive(FrameStep) && Productive(ActiveStep)
    ensures match Run(ActiveStep, s, buf)
            case Live(s', rest) =>
              && Run(FrameStep, s, buf) == Live(s', rest)
              && s'.state == Active && s'.exit == None && s'.opt == s.opt
              && FrameStep(s', rest) == Wait
            case Halted(s', _) =>
              && s'.exit.Some?
              && Run(FrameStep, s, buf).state.exit == s'.exit
              && Run(FrameStep, s, buf).state.state.Rank() >= Closing.Rank()
    decreases |buf|
  {
    FrameStepProductive();
    if FrameStep(s, buf) != Wait {
      StepState(s, buf);
      var s' := FrameStep(s, buf).state;
      if FrameStep(s, buf).Next? {
        var rest := buf[FrameStep(s, buf).used..];
        if s'.state == Active {
          ActiveRun(s', rest);
        } else {
          RunState(s', rest);
        }
      }
    }
  }

  /**
   * Chunk independence on arbitrary bytes.  As long as no read overflows the buffer, cutting the stream into reads
   * changes nothing: either the whole stream keeps the session Active and every cut ends in the same session with the
   * same left-over bytes, or every cut leaves Active at the same frame, for the same reason and with the same logs.
   */
  lemma {:induction false} ChunkIndependence(r: Receiver, chunks: seq<seq<byte>>)
    requires Reading(r) && Fits(r, chunks)
    ensures Productive(ActiveStep)
    ensures var out := ReceiveAll(r, chunks);
            match Run(ActiveStep, r.sess, r.buf + Concat(chunks))
            case Live(s', rest) => out == Receiver(s', rest, true) && Reading(out)
            case Halted(s', _) => !out.reading && out.sess.state != Active && out.sess.exit == s'.exit && s'.exit.Some?
    decreases |chunks|
  {
    hide FrameStep, Run;
    FrameStepProductive();
    FrameStepStable();
    if chunks == [] {
      assert r.buf + Concat(chunks) == r.buf;
      RunTurn(ActiveStep, r.sess, r.buf);
    } else {
      var buf, tail := r.buf + chunks[0], Concat(chunks[1..]);
      assert r.buf + Concat(chunks) == buf + tail;
      RunAppend(ActiveStep, r.sess, buf, tail);
      ActiveRun(r.sess, buf);
      var r' := Receive(r, chunks[0]);
      if Run(ActiveStep, r.sess, buf).Live? {
        ChunkIndependence(r', chunks[1..]);
      }
    }
  }

  /**
   * The buffer guard is the only thing a cut can trigger: on a stream that keeps the session Active, the session that
   * received it in pieces is the expected one if and only if every read fitted.
   */
  lemma {:induction false} GuardIsDecisive(r: Receiver, chunks: seq<seq<byte>>)
    requires Reading(r)
    ensures Productive(ActiveStep)
    ensures var whole := Run(ActiveStep, r.sess, r.buf + Concat(chunks));
            whole.Live? ==> (ReceiveAll(r, chunks) == Receiver(whole.state, whole.rest, true) <==> Fits(r, chunks))
  {
    FrameStepProductive();
    if Fits(r, chunks) {
      ChunkIndependence(r, chunks);
    } else {
      OverflowCloses(r, chunks);
    }
  }

  lemma {:induction false} OverflowCloses(r: Receiver, chunks: seq<seq<byte>>)
    requires Reading(r) && !Fits(r, chunks)
    ensures ReceiveAll(r, chunks).sess.state != Active && !ReceiveAll(r, chunks).reading
    decreases |chunks|
  {
    FrameStepProductive();
    var r' := Receive(r, chunks[0]);
    if |r.buf| + |chunks[0]| <= r.sess.opt.maxFrameBufferBytes {
      ActiveRun(r.sess, r.buf + chunks[0]);
      if Run(ActiveStep, r.sess, r.buf + chunks[0]).Live? {
        OverflowCloses(r', chunks[1..]);
      }
    }
  }

  // ---- memory ------------------------------------------------------------------------------------------------------

  /** No message in progress and no delivered message is larger than the limit. */
  ghost predicate MessagesBounded(s: Sess) {
    && |s.payload| <= s.opt.maxMessageBytes
    && forall m :: m in s.delivered ==> |m.payload| <= s.opt.maxMessageBytes
  }

  /** The buffer holds less than one frame: an incomplete header, or part of a frame of admissible size. */
  predicate HoldsPartOfOneFrame(opt: Options, buf: seq<byte>) {
    match Decode(buf)
    case Incomplete => |buf| < 14
    case Malformed => false
    case Accepted(h) => |buf| < h.TotalSize() <= opt.maxFrameBufferBytes
  }

  lemma FrameStepBounded(s: Sess, buf: seq<byte>)
    requires MessagesBounded(s) && FrameStep(s, buf) != Wait
    ensures MessagesBounded(FrameStep(s, buf).state)
  {
    hide Decode, Ascii, CloseItem, PongItem;
  }

  /** On any bytes, in any state: messages stay bounded, and a session that reads on holds part of one frame. */
  lemma {:induction false} MemoryBounds(s: Sess, buf: seq<byte>)
    requires MessagesBounded(s)
    ensures var r := ProcessFrameBuffer(s, buf);
            && MessagesBounded(r.sess)
            && (r.reading ==> HoldsPartOfOneFrame(s.opt, r.buf))
    decreases |buf|
  {
    FrameStepProductive();
    if FrameStep(s, buf) != Wait {
      FrameStepBounded(s, buf);
      StepState(s, buf);
      if FrameStep(s, buf).Next? {
        MemoryBounds(FrameStep(s, buf).state, buf[FrameStep(s, buf).used..]);
      }
    }
  }
}
