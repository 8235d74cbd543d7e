/** What the peer reads of a session: the frames on the wire, and what the application has sent among them. */
module WsOutgoing {
  import opened Bytes
  import opened Strings
  import opened WsFrame
  import opened Incremental
  import opened WsReceive
  import opened WsHandshake
  import opened WsEndToEnd
  import opened WsSystem
  import opened WsRuns

  // ---- a reader of frames, after section 5.2 of RFC 6455 -----------------------------------------------------------------

  /** A frame as its reader sees it: the FIN bit, the four bits of the opcode, and the payload. */
  datatype Seen = Seen(fin: bool, code: nat, payload: seq<byte>)

  /** Where the payload of an unmasked frame begins, and how long it is. */
  function Extent(data: seq<byte>): Option<(nat, nat)> {
    if |data| < 2 then None
    else if data[1] <= 125 then Some((2, data[1]))
    else if data[1] == 126 && |data| >= 4 then Some((4, data[2] as int * 256 + data[3]))
    else if data[1] == 127 && |data| >= 10 then Some((10, U64(data[2..10])))
    else None
  }

  /** The unmasked frame at the front of a stream, and its size. */
  function ReadFrame(data: seq<byte>): (r: Option<(Seen, nat)>)
    ensures r.Some? ==> 2 <= r.value.1 <= |data|
  {
    match Extent(data)
    case None => None
    case Some((start, length)) =>
      if data[0] / 16 % 8 != 0 || start + length > |data| then None
      else Some((Seen(data[0] >= 128, data[0] % 16, data[start..start + length]), start + length))
  }

  /** A whole stream of unmasked frames. */
  function ReadFrames(data: seq<byte>): Option<seq<Seen>>
    decreases |data|
  {
    if data == [] then Some([])
    else
      match ReadFrame(data)
      case None => None
      case Some((f, n)) =>
        match ReadFrames(data[n..])
        case None => None
        case Some(rest) => Some([f] + rest)
  }

  lemma ReadsEncoded(fin: bool, op: OpCode, payload: seq<byte>, rest: seq<byte>)
    requires |payload| < TWO_64
    ensures var frame := ServerFrame(fin, op, payload);
            ReadFrame(frame + rest) == Some((Seen(fin, op.Code(), payload), |frame|))
  {
    hide U64, U64Bytes;
    var n, header, frame := |payload|, HeaderBytes(fin, op, None, |payload|), ServerFrame(fin, op, payload);
    assert frame + rest == header + (payload + rest);
    assert (frame + rest)[|header|..|header| + n] == payload;
    LengthIsRead(fin, op, n, payload + rest);
  }

  lemma LengthIsRead(fin: bool, op: OpCode, n: nat, rest: seq<byte>)
    requires n < TWO_64
    ensures var header := HeaderBytes(fin, op, None, n);
            && Extent(header + rest) == Some((|header|, n)) && header[0] == FirstByte(fin, op)
  {
    hide U64, U64Bytes;
    var header := HeaderBytes(fin, op, None, n);
    var data := header + rest;
    if 125 < n <= 65535 {
      Shifts(n);
      assert header == [FirstByte(fin, op), 126, n / 256 % 256, n % 256];
    } else if 65535 < n {
      EightBytes(n);
      assert header == [FirstByte(fin, op), 127] + U64Bytes(n);
      assert data[2..10] == U64Bytes(n);
      U64Inverse(n);
    }
  }

  // ---- everything that is posted is a frame --------------------------------------------------------------------------

  /** The frame that a reader makes of the bytes of an item. */
  function SeenOf(item: Item): Seen {
    match ReadFrame(item.data)
    case None => Seen(false, 0, [])
    case Some((f, _)) => f
  }

  /** Exactly one frame, unfragmented, and marked as a Close if it is one. */
  predicate IsFrame(item: Item) {
    var r := ReadFrame(item.data);
    r.Some? && r.value.1 == |item.data| && r.value.0.fin && item.isClose == (r.value.0.code == 8)
  }

  lemma FrameItem(op: OpCode, payload: seq<byte>)
    requires |payload| < TWO_64
    ensures var item := Item(ServerFrame(true, op, payload), op == OpCode.Close);
            IsFrame(item) && SeenOf(item) == Seen(true, op.Code(), payload)
  {
    hide ServerFrame, ReadFrame;
    ReadsEncoded(true, op, payload, []);
    assert ServerFrame(true, op, payload) + [] == ServerFrame(true, op, payload);
  }

  lemma {:induction false} ReadsItems(items: seq<Item>)
    requires forall k :: 0 <= k < |items| ==> IsFrame(items[k])
    ensures ReadFrames(Concat(Datas(items))) == Some(SeenAll(items))
    decreases |items|
  {
    hide ReadFrame, IsFrame, SeenOf, ReadFrames;
    if items == [] {
      NothingToRead();
      assert Datas(items) == [] && SeenAll(items) == [];
    } else {
      var data, rest := items[0].data, Concat(Datas(items[1..]));
      ReadsItems(items[1..]);
      assert Datas(items)[1..] == Datas(items[1..]);
      ReadsFirst(items[0], rest);
      assert SeenAll(items) == [SeenOf(items[0])] + SeenAll(items[1..]);
    }
  }

  lemma NothingToRead()
    ensures ReadFrames([]) == Some([])
  {
  }

  lemma ReadsFirst(item: Item, rest: seq<byte>)
    requires IsFrame(item) && ReadFrames(rest).Some?
    ensures ReadFrames(item.data + rest) == Some([SeenOf(item)] + ReadFrames(rest).value)
  {
    hide ReadFrame;
    ReadMore(item.data, rest);
    assert (item.data + rest)[|item.data|..] == rest;
  }

  /** A frame that is complete is read in the same way whatever follows. */
  lemma ReadMore(data: seq<byte>, rest: seq<byte>)
    requires ReadFrame(data).Some? && ReadFrame(data).value.1 == |data|
    ensures ReadFrame(data + rest) == ReadFrame(data) && data != []
  {
    hide U64;
    if data[1] == 127 {
      assert (data + rest)[2..10] == data[2..10];
    }
    var start := Extent(data).value.0;
    assert (data + rest)[start..|data|] == data[start..|data|];
  }

  function Datas(items: seq<Item>): (s: seq<seq<byte>>)
    ensures |s| == |items|
  {
    seq(|items|, k requires 0 <= k < |items| => items[k].data)
  }

  function SeenAll(items: seq<Item>): (s: seq<Seen>)
    ensures |s| == |items|
  {
    seq(|items|, k requires 0 <= k < |items| => SeenOf(items[k]))
  }

  /** All that is posted between two states are frames. */
  ghost predicate Posts(s: Sess, s': Sess) {
    s.posted <= s'.posted && forall k :: |s.posted| <= k < |s'.posted| ==> IsFrame(s'.posted[k])
  }

  lemma PostsTwice(a: Sess, b: Sess, c: Sess)
    requires Posts(a, b) && Posts(b, c)
    ensures Posts(a, c)
  {
    hide IsFrame;
    assert forall k :: 0 <= k < |b.posted| ==> c.posted[k] == b.posted[k];
  }

  lemma ClosingPosts(s: Sess, code: CloseCode, reason: seq<byte>)
    requires |reason| < TWO_64 - 2
    ensures Posts(s, DoClose(s, code)) && Posts(s, WsReceive.Close(s, code, reason))
  {
    hide IsFrame, ServerFrame;
    FrameItem(OpCode.Close, U16Bytes(code) + reason);
  }

  lemma ControlPosts(s: Sess, op: OpCode, payload: seq<byte>)
    requires |payload| <= 125
    ensures Posts(s, HandleControlFrame(s, op, payload))
  {
    hide IsFrame, ServerFrame;
    FrameItem(Pong, payload);
    if op == OpCode.Close {
      var code: CloseCode := if |payload| >= 2 then U16(payload[..2]) else NO_STATUS_RECEIVED;
      FrameItem(OpCode.Close, U16Bytes(code) + []);
    }
  }

  lemma DataPosts(s: Sess, op: OpCode, fin: bool, payload: seq<byte>)
    ensures Posts(s, HandleDataFrame(s, op, fin, payload))
  {
    hide IsFrame, DoClose, WsReceive.Close, Ascii;
    ClosingPosts(s, PROTOCOL_ERROR, []);
    ClosingPosts(s, MESSAGE_TOO_BIG, Ascii("message too large"));
    ClosingPosts(s.(started := true, opcode := op, payload := []), MESSAGE_TOO_BIG, Ascii("message too large"));
  }

  lemma StepPosts(s: Sess, buf: seq<byte>)
    requires FrameStep(s, buf) != Wait
    ensures Posts(s, FrameStep(s, buf).state)
  {
    hide HandleDataFrame, HandleControlFrame, DoClose, WsReceive.Close, Decode, IsFrame, Ascii, Masked;
    var s1 := s.(refreshes := s.refreshes + 1);
    ClosingPosts(s, PROTOCOL_ERROR, []);
    ClosingPosts(s1, PROTOCOL_ERROR, []);
    ClosingPosts(s, MESSAGE_TOO_BIG, Ascii("message too large"));
    ClosingPosts(s, MESSAGE_TOO_BIG, Ascii("frame too large"));
    var v := Decode(buf);
    if v.Accepted? && |buf| >= v.hdr.TotalSize() {
      var payload := Masked(buf[v.hdr.headerLen..v.hdr.TotalSize()], v.hdr.maskKey);
      DataPosts(s1, v.hdr.opcode, v.hdr.fin, payload);
      if v.hdr.payloadLen <= 125 {
        ControlPosts(s1, v.hdr.opcode, payload);
      }
    }
  }

  lemma {:induction false} FramesPost(s: Sess, buf: seq<byte>)
    ensures Posts(s, ProcessFrameBuffer(s, buf).sess)
    decreases |buf|
  {
    hide FrameStep, IsFrame;
    FrameStepProductive();
    if FrameStep(s, buf) != Wait {
      StepPosts(s, buf);
      if FrameStep(s, buf).Next? {
        var s', rest := FrameStep(s, buf).state, buf[FrameStep(s, buf).used..];
        FramesPost(s', rest);
        PostsTwice(s, s', ProcessFrameBuffer(s', rest).sess);
        assert ProcessFrameBuffer(s, buf).sess == ProcessFrameBuffer(s', rest).sess;
      }
    }
  }

  lemma ReadPosts(upgrade: UpgradeCheck, c: Conn, chunk: seq<byte>, replyOk: bool, now: int)
    ensures Posts(c.rcv.sess, Arrive(upgrade, c, chunk, replyOk, now).rcv.sess)
  {
    hide ProcessFrameBuffer, DoClose, WsReceive.Close, IsFrame, FirstEnd, Ascii;
    var s := c.rcv.sess;
    ClosingPosts(s, PROTOCOL_ERROR, []);
    ClosingPosts(s, ABNORMAL_CLOSURE, []);
    ClosingPosts(s, MESSAGE_TOO_BIG, Ascii("frame buffer too large"));
    if s.state == Handshaking {
      var buf := c.handshake + chunk;
      if FirstEnd(buf, 0).Some? {
        EndInside(buf);
        FramesPost(Opened(s, now), c.rcv.buf + buf[FirstEnd(buf, 0).value + 4..]);
      }
    } else {
      FramesPost(s, c.rcv.buf + chunk);
    }
  }

  // ---- what each handler posts -----------------------------------------------------------------------------------------

  /** What a frame can carry; the source's lengths have 64 bits. */
  predicate Encodable(a: Action) {
    && (a.Sends? ==> |a.payload| < TWO_64)
    && (a.UserCloses? ==> |a.reason| < TWO_64 - 2)
  }

  /** The frames that an event adds to those posted, as a reader will see them. */
  function Added(s: Sys, s': Sys): seq<Seen>
    requires |Posted(s)| <= |Posted(s')|
  {
    SeenAll(Posted(s')[|Posted(s)|..])
  }

  lemma OneAdded(s: Sess, s': Sess, item: Item)
    requires s'.posted == s.posted + [item] && IsFrame(item)
    ensures Posts(s, s') && SeenAll(s'.posted[|s.posted|..]) == [SeenOf(item)]
  {
    hide IsFrame, SeenOf;
    assert s'.posted[|s.posted|..] == [item];
  }

  lemma NoneAdded(s: Sess, s': Sess)
    requires s'.posted == s.posted
    ensures Posts(s, s') && SeenAll(s'.posted[|s.posted|..]) == []
  {
  }

  lemma PingIsFrame()
    ensures IsFrame(PingItem()) && SeenOf(PingItem()) == Seen(true, 9, [])
  {
    hide ServerFrame, IsFrame, SeenOf;
    FrameItem(Ping, []);
  }

  lemma TimerPosts(s: Sess, b: Beat, now: int)
    ensures var s' := OnTimer(s, b, now).0;
            && Posts(s, s')
            && SeenAll(s'.posted[|s.posted|..])
               == if s.state == Active && !b.awaitingPong && now - b.lastActivity >= s.opt.heartbeatInterval
                  then [Seen(true, 9, [])] else []
  {
    hide IsFrame, SeenOf, PingItem, SeenAll, Posts;
    PingIsFrame();
    var s' := OnTimer(s, b, now).0;
    if s'.posted == s.posted {
      NoneAdded(s, s');
    } else {
      OneAdded(s, s', PingItem());
    }
  }

  lemma ClosePosts(s: Sess, code: CloseCode, reason: seq<byte>)
    requires |reason| < TWO_64 - 2
    ensures var s' := WsReceive.Close(s, code, reason);
            && Posts(s, s')
            && SeenAll(s'.posted[|s.posted|..])
               == if s.state == Active then [Seen(true, 8, [code / 256, code % 256] + reason)] else []
  {
    hide IsFrame, SeenOf, SeenAll, Posts, ServerFrame;
    Shifts(code);
    assert U16Bytes(code) == [code / 256, code % 256];
    FrameItem(OpCode.Close, U16Bytes(code) + reason);
    if s.state == Active {
      OneAdded(s, WsReceive.Close(s, code, reason), CloseItem(code, reason));
    } else {
      NoneAdded(s, s);
    }
  }

  /**
   * What is posted, step by step: the application's messages, pings and closes as they are, the automatic ping, and what
   * the peer's frames call for.  All of it is frames.
   */
  lemma WhatIsPosted(upgrade: UpgradeCheck, s: Sys, e: Event)
    requires Enabled(s, e.action) && Encodable(e.action)
    ensures var s' := Apply(upgrade, s, e);
            && Posts(Session(s), Session(s'))
            && match e.action
               case Sends(op, payload) =>
                 Added(s, s') == [Seen(true, match op case Text => 1 case Binary => 2 case _ => 9, payload)]
               case UserCloses(code, reason) =>
                 Added(s, s') == if Session(s).state == Active then [Seen(true, 8, [code / 256, code % 256] + reason)] else []
               case TimerFires =>
                 Added(s, s') == if Session(s).state == Active && !s.beat.awaitingPong
                                    && e.now - s.beat.lastActivity >= Session(s).opt.heartbeatInterval
                                 then [Seen(true, 9, [])] else []
               case Arrives(_, _) => true
               case _ => Added(s, s') == []
  {
    hide ServerFrame, IsFrame, SeenOf, Arrive, RunPosted, OnWriteDone, SeenAll, Posts, WsReceive.Close, OnTimer, PingItem;
    var sess := Session(s);
    match e.action
    case Arrives(chunk, replyOk) => ReadPosts(upgrade, s.conn, chunk, replyOk, e.now);
    case Sends(op, payload) =>
      FrameItem(op, payload);
      OneAdded(sess, Session(Apply(upgrade, s, e)), Item(ServerFrame(true, op, payload), false));
    case UserCloses(code, reason) => ClosePosts(sess, code, reason);
    case TimerFires => TimerPosts(sess, s.beat, e.now);
    case _ => NoneAdded(sess, Session(Apply(upgrade, s, e)));
  }

  // ---- over runs -------------------------------------------------------------------------------------------------------

  /** What the application asks to be sent, in order. */
  function Asked(events: seq<Event>): seq<Seen> {
    if events == [] then []
    else
      (match events[0].action
       case Sends(op, payload) => [Seen(true, match op case Text => 1 case Binary => 2 case _ => 9, payload)]
       case _ => [])
      + Asked(events[1..])
  }

  ghost predicate AllFrames(s: Sess) {
    forall k :: 0 <= k < |s.posted| ==> IsFrame(s.posted[k])
  }

  lemma StepIsSeen(upgrade: UpgradeCheck, asked: seq<Seen>, s: Sys, e: Event)
    requires Enabled(s, e.action) && Encodable(e.action) && AllFrames(Session(s)) && Subsequence(asked, SeenAll(Posted(s)))
    ensures var s' := Apply(upgrade, s, e);
            AllFrames(Session(s')) && Subsequence(asked + Asked([e]), SeenAll(Posted(s')))
  {
    hide Apply, IsFrame, SeenOf, Enabled, Subsequence;
    WhatIsPosted(upgrade, s, e);
    var s' := Apply(upgrade, s, e);
    SeenMore(Posted(s), Posted(s'));
    SubsequenceBehind(asked, SeenAll(Posted(s)), Added(s, s'), Asked([e]));
    AskedAdded(upgrade, s, e);
    forall k | 0 <= k < |Posted(s')| ensures IsFrame(Posted(s')[k]) {
      if k < |Posted(s)| {
        assert Posted(s')[k] == Posted(s)[k];
      }
    }
  }

  lemma SeenMore(a: seq<Item>, b: seq<Item>)
    requires a <= b
    ensures SeenAll(b) == SeenAll(a) + SeenAll(b[|a|..])
  {
    hide SeenOf;
  }

  /** What is asked for in a step is what it adds, or nothing. */
  lemma AskedAdded(upgrade: UpgradeCheck, s: Sys, e: Event)
    requires Enabled(s, e.action) && Encodable(e.action)
    ensures |Posted(s)| <= |Posted(Apply(upgrade, s, e))|
    ensures Asked([e]) == [] || (Asked([e]) == Added(s, Apply(upgrade, s, e)) && |Asked([e])| == 1)
  {
    hide Apply, SeenAll;
    WhatIsPosted(upgrade, s, e);
    assert [e][1..] == [];
  }

  lemma SubsequenceBehind(a: seq<Seen>, b: seq<Seen>, more: seq<Seen>, x: seq<Seen>)
    requires Subsequence(a, b)
    ensures x == [] || (x == more && |x| == 1) ==> Subsequence(a + x, b + more)
  {
    hide Subsequence;
    if x == [] {
      assert a + x == a;
      SubsequenceMore(a, b, b + more);
    } else if x == more && |x| == 1 {
      assert x == [x[0]];
      SubsequenceNext(a, b, x[0]);
    }
  }

  lemma {:induction false} RunIsSeen(upgrade: UpgradeCheck, asked: seq<Seen>, s: Sys, events: seq<Event>)
    requires Possible(upgrade, s, events) && forall e :: e in events ==> Encodable(e.action)
    requires AllFrames(Session(s)) && Subsequence(asked, SeenAll(Posted(s)))
    ensures var s' := Execute(upgrade, s, events);
            AllFrames(Session(s')) && Subsequence(asked + Asked(events), SeenAll(Posted(s')))
    decreases |events|
  {
    hide Apply, Enabled, AllFrames, Subsequence, SeenAll, Encodable, Asked;
    AskedFirst(events);
    if events == [] {
      assert asked + [] == asked;
    } else {
      var e := events[0];
      StepIsSeen(upgrade, asked, s, e);
      RunIsSeen(upgrade, asked + Asked([e]), Apply(upgrade, s, e), events[1..]);
      Regroup(asked, Asked([e]), Asked(events[1..]));
    }
  }

  lemma AskedFirst(events: seq<Event>)
    ensures if events == [] then Asked(events) == [] else Asked(events) == Asked([events[0]]) + Asked(events[1..])
  {
    if events != [] {
      assert [events[0]][1..] == [];
    }
  }

  /**
   * The peer's side of every run.  It reads the wire as whole frames, which are the first of those that were posted, in
   * order; and among the frames posted are, in the order in which the application sent them, all its messages and pings,
   * each as it was given.
   */
  lemma PeerReadsTheWire(upgrade: UpgradeCheck, opt: Options, events: seq<Event>)
    requires Possible(upgrade, Start(opt), events) && forall e :: e in events ==> Encodable(e.action)
    ensures var s := Execute(upgrade, Start(opt), events);
            && s.tx.wire <= Posted(s)
            && ReadFrames(Concat(Datas(s.tx.wire))) == Some(SeenAll(Posted(s))[..|s.tx.wire|])
            && Subsequence(Asked(events), SeenAll(Posted(s)))
  {
    hide Possible, Execute, IsFrame, SeenOf, ReadFrame, ReadFrames, QueueOk, CloseOk;
    var s := Execute(upgrade, Start(opt), events);
    assert [] + Asked(events) == Asked(events);
    RunIsSeen(upgrade, [], Start(opt), events);
    WriteQueueSafety(upgrade, opt, events);
    assert s.tx.wire == Posted(s)[..|s.tx.wire|];
    assert SeenAll(Posted(s))[..|s.tx.wire|] == SeenAll(s.tx.wire);
    ReadsItems(s.tx.wire);
  }
}
