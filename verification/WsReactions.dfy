/** What each frame of a peer does to an Active session: which ones keep it Active, and how it answers the others. */
module WsReactions {
  import opened Bits
  import opened Bytes
  import opened Strings
  import opened WsFrame
  import opened Incremental
  import opened WsReceive
  import opened WsEndToEnd

  /**
   * The session goes on; drops the connection as after a protocol error (1002); starts the closing handshake because
   * something is too big (1009); or answers a Close with a Close of the same status.
   */
  datatype Reaction = Keeps | Drops | TooBig(reason: string) | Answers(high: byte, low: byte)

  /** The reaction that section 5 of RFC 6455 and the limits call for. */
  function ReactionTo(s: Sess, fin: bool, op: OpCode, payload: seq<byte>, size: nat): Reaction {
    var length := (if op == Continuation then |s.payload| else 0) + |payload|;
    if op in {Continuation, Text, Binary} && length > s.opt.maxMessageBytes then TooBig("message too large")
    else if size > s.opt.maxFrameBufferBytes then TooBig("frame too large")
    else if op in {Continuation, Text, Binary} then
      if s.started == (op == Continuation) then Keeps else Drops
    else if !fin || |payload| > 125 then Drops
    else if op == OpCode.Close then
      // 1005 stands for a Close without a status
      if |payload| >= 2 then Answers(payload[0], payload[1]) else Answers(0x03, 0xED)
    else Keeps
  }

  /** How the session looks after a reaction, with every number that goes out or is reported written out. */
  ghost predicate Reacted(s: Sess, s': Sess, reaction: Reaction) {
    match reaction
    case Keeps => s'.state == Active && s'.closes == s.closes
    case Drops =>
      s'.state == Closed && s'.closes == s.closes + [1002] && s'.posted == s.posted && s'.delivered == s.delivered
    case TooBig(reason) =>
      && s'.state == Closing && s'.closes == s.closes && s'.delivered == s.delivered
      && s'.posted == s.posted + [Item([0x88, (2 + |reason|) % 256, 0x03, 0xF1] + Ascii(reason), true)]
    case Answers(high, low) =>
      && s'.state == Closing && s'.closes == s.closes && s'.delivered == s.delivered
      && s'.posted == s.posted + [Item([0x88, 0x02, high, low], true)]
  }

  lemma ClosePayload(code: CloseCode, high: byte, low: byte, reason: seq<byte>)
    requires code == high as int * 256 + low && |reason| <= 123
    ensures CloseItem(code, reason) == Item([0x88, 2 + |reason|, high, low] + reason, true)
  {
    Shifts(code);
    assert U16Bytes(code) == [high, low];
    var payload := U16Bytes(code) + reason;
    assert ServerFrame(true, OpCode.Close, payload) == [0x88, 2 + |reason|] + [] + payload;
  }

  lemma TooBigReacted(s: Sess, reason: string)
    requires s.state == Active && |reason| < 62
    ensures WsReceive.Close(s, MESSAGE_TOO_BIG, Ascii(reason)).refreshes == s.refreshes
    ensures Reacted(s, WsReceive.Close(s, MESSAGE_TOO_BIG, Ascii(reason)), TooBig(reason))
  {
    hide CloseItem;
    ClosePayload(MESSAGE_TOO_BIG, 0x03, 0xF1, Ascii(reason));
  }

  lemma ControlReacted(s: Sess, op: OpCode, payload: seq<byte>)
    requires s.state == Active && op in {OpCode.Close, Ping, Pong} && |payload| <= 125
    requires |payload| + 6 <= s.opt.maxFrameBufferBytes
    ensures var s' := HandleControlFrame(s, op, payload);
            && s'.state != Closed && s'.refreshes == s.refreshes
            && Reacted(s, s', ReactionTo(s, true, op, payload, |payload| + 6))
  {
    hide CloseItem, PongItem;
    if op == OpCode.Close {
      var high: byte, low: byte := if |payload| >= 2 then payload[0] else 0x03, if |payload| >= 2 then payload[1] else 0xED;
      ClosePayload(high as int * 256 + low, high, low, []);
      assert [0x88, 0x02, high, low] + [] == [0x88, 0x02, high, low];
    }
  }

  lemma DataReacted(s: Sess, op: OpCode, fin: bool, payload: seq<byte>)
    requires s.state == Active && op in {Continuation, Text, Binary}
    requires (if op == Continuation then |s.payload| else 0) + |payload| <= s.opt.maxMessageBytes
    ensures Reacted(s, HandleDataFrame(s, op, fin, payload), if s.started == (op == Continuation) then Keeps else Drops)
    ensures HandleDataFrame(s, op, fin, payload).refreshes == s.refreshes
  {
    hide CloseItem, Ascii;
  }

  /**
   * Exactly which frames a session accepts.  For every Active session and every frame of a client: the session takes the
   * frame, and reacts to it as is due; it stays Active if and only if that is to keep on.  Whatever the frame is, the
   * peer has been heard, unless something was too big.
   */
  lemma FrameReaction(s: Sess, fin: bool, op: OpCode, key: nat, payload: seq<byte>)
    requires s.state == Active && key < TWO_32 && |payload| < TWO_32
    ensures var frame := ClientFrame(fin, op, key, payload);
            var step, reaction := FrameStep(s, frame), ReactionTo(s, fin, op, payload, |frame|);
            && step != Wait
            && Reacted(s, step.state, reaction)
            && step.state.refreshes == s.refreshes + (if reaction.TooBig? then 0 else 1)
            && (step.Next? ==> step.used == |frame|)
            && (reaction.Keeps? || reaction.Answers? ==> step.Next?)
            && (step.state.state == Active <==> reaction.Keeps?)
  {
    hide HandleFrame, ReactionTo, Masked, Reacted, Decode, DoClose, Ascii, MessageTooLarge;
    var frame, h := ClientFrame(fin, op, key, payload), HeaderOf(fin, op, Some(key), |payload|);
    DecodedFrame(fin, op, key, payload);
    if MessageTooLarge(s, h) {
      TooBigReacted(s, "message too large");
      SizeReaction(s, fin, op, payload, |frame|, h);
      LeavesActive(s, WsReceive.Close(s, MESSAGE_TOO_BIG, Ascii("message too large")), TooBig("message too large"));
    } else if |frame| > s.opt.maxFrameBufferBytes {
      TooBigReacted(s, "frame too large");
      SizeReaction(s, fin, op, payload, |frame|, h);
      LeavesActive(s, WsReceive.Close(s, MESSAGE_TOO_BIG, Ascii("frame too large")), TooBig("frame too large"));
    } else {
      StepOnFrame(s, fin, op, key, payload);
      HandledFrame(s, fin, op, payload, h);
    }
  }

  lemma DecodedFrame(fin: bool, op: OpCode, key: nat, payload: seq<byte>)
    requires key < TWO_32 && |payload| < TWO_32
    ensures var frame, h := ClientFrame(fin, op, key, payload), HeaderOf(fin, op, Some(key), |payload|);
            Decode(frame) == Accepted(h) && h.TotalSize() == |frame|
    ensures |payload| <= 125 ==> |ClientFrame(fin, op, key, payload)| == |payload| + 6
  {
    hide Decode, Masked;
    DecodeEncoded(fin, op, Some(key), |payload|, Masked(payload, key));
  }

  lemma SizeReaction(s: Sess, fin: bool, op: OpCode, payload: seq<byte>, size: nat, h: Header)
    requires h.opcode == op && h.payloadLen == |payload|
    ensures MessageTooLarge(s, h) ==> ReactionTo(s, fin, op, payload, size) == TooBig("message too large")
    ensures !MessageTooLarge(s, h) && size > s.opt.maxFrameBufferBytes ==>
              ReactionTo(s, fin, op, payload, size) == TooBig("frame too large")
  {
  }

  lemma LeavesActive(s: Sess, s': Sess, reaction: Reaction)
    requires Reacted(s, s', reaction) && !reaction.Keeps?
    ensures s'.state != Active
  {
    hide Ascii;
  }

  /** A frame of admissible size that is complete. */
  lemma HandledFrame(s: Sess, fin: bool, op: OpCode, payload: seq<byte>, h: Header)
    requires s.state == Active && h.fin == fin && h.opcode == op && h.payloadLen == |payload|
    requires !MessageTooLarge(s, h) && h.TotalSize() <= s.opt.maxFrameBufferBytes
    requires |payload| <= 125 ==> h.TotalSize() == |payload| + 6
    ensures var step, reaction := HandleFrame(s, h, payload), ReactionTo(s, fin, op, payload, h.TotalSize());
            && step != Wait
            && Reacted(s, step.state, reaction)
            && step.state.refreshes == s.refreshes + 1 && !reaction.TooBig?
            && (step.Next? ==> step.used == h.TotalSize())
            && (reaction.Keeps? || reaction.Answers? ==> step.Next?)
            && (step.state.state == Active <==> reaction.Keeps?)
  {
    hide HandleDataFrame, HandleControlFrame, Ascii;
    var s1 := s.(refreshes := s.refreshes + 1);
    if !op.IsControl() {
      DataReacted(s1, op, fin, payload);
    } else if fin && |payload| <= 125 {
      ControlReacted(s1, op, payload);
    }
  }

  /** A read that outgrows the buffer starts the closing handshake, and nothing more is read. */
  lemma OverflowIsTooBig(r: Receiver, chunk: seq<byte>)
    requires r.sess.state == Active && |r.buf| + |chunk| > r.sess.opt.maxFrameBufferBytes
    ensures Reacted(r.sess, Receive(r, chunk).sess, TooBig("frame buffer too large")) && !Receive(r, chunk).reading
  {
    hide Reacted, Ascii;
    TooBigReacted(r.sess, "frame buffer too large");
  }

  // ---- what is no frame of a client ------------------------------------------------------------------------------------

  /** A frame without a mask drops the connection. */
  lemma UnmaskedIsDropped(s: Sess, fin: bool, op: OpCode, payload: seq<byte>, rest: seq<byte>)
    requires s.state == Active && |payload| < TWO_32
    ensures var step := FrameStep(s, ServerFrame(fin, op, payload) + rest); step.Halt? && Reacted(s, step.state, Drops)
  {
    hide Decode, HeaderBytes, HandleFrame;
    var header := HeaderBytes(fin, op, None, |payload|);
    DecodeEncoded(fin, op, None, |payload|, payload + rest);
    assert ServerFrame(fin, op, payload) + rest == header + (payload + rest);
  }

  /**
   * So does a header with a reserved bit or a reserved opcode, and one that announces 2^32 bytes or more, before anything
   * of the payload has arrived.
   */
  lemma MalformedIsDropped(s: Sess, data: seq<byte>)
    requires s.state == Active && |data| >= 2
    requires data[0] / 16 % 8 != 0 || data[0] % 16 !in {0, 1, 2, 8, 9, 10}
    ensures FrameStep(s, data).Halt? && Reacted(s, FrameStep(s, data).state, Drops)
  {
    hide HandleFrame;
  }

  lemma HugeIsDropped(s: Sess, fin: bool, op: OpCode, key: nat, len: nat, rest: seq<byte>)
    requires s.state == Active && key < TWO_32 && TWO_32 <= len < TWO_64
    ensures var step := FrameStep(s, HeaderBytes(fin, op, Some(key), len) + rest); step.Halt? && Reacted(s, step.state, Drops)
  {
    hide Decode, HeaderBytes, HandleFrame;
    DecodeEncoded(fin, op, Some(key), len, rest);
  }
}
