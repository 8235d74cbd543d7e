/**
 * From the peer's messages to the message handler: any fragmentation, any interleaved pings and pongs, any mask keys
 * and any cut of the byte stream into reads.
 */
module WsEndToEnd {
  import opened Bytes
  import opened WsFrame
  import opened Incremental
  import opened WsReceive

  // ---- what a conforming peer sends --------------------------------------------------------------------------------

  datatype Control = SendPing(key: nat, payload: seq<byte>) | SendPong(key: nat, payload: seq<byte>)

  /** One fragment of a message and the control frames the peer sends right after it. */
  datatype Fragment = Fragment(key: nat, payload: seq<byte>, after: seq<Control>)

  datatype Sent = Sent(opcode: OpCode, fragments: seq<Fragment>)

  datatype Script = Script(lead: seq<Control>, messages: seq<Sent>)

  function ControlFrame(c: Control): seq<byte> {
    ClientFrame(true, if c.SendPing? then Ping else Pong, c.key, c.payload)
  }

  function ControlFrames(cs: seq<Control>): seq<seq<byte>> {
    if cs == [] then [] else [ControlFrame(cs[0])] + ControlFrames(cs[1..])
  }

  /** The first fragment carries the opcode of the message, the others are continuations, the last has FIN set. */
  function FragmentFrames(op: OpCode, fs: seq<Fragment>): seq<seq<byte>>
    decreases |fs|
  {
    if fs == [] then []
    else [ClientFrame(|fs| == 1, op, fs[0].key, fs[0].payload)] + ControlFrames(fs[0].after)
         + FragmentFrames(Continuation, fs[1..])
  }

  function MessageFrames(ms: seq<Sent>): seq<seq<byte>> {
    if ms == [] then [] else FragmentFrames(ms[0].opcode, ms[0].fragments) + MessageFrames(ms[1..])
  }

  function ScriptFrames(script: Script): seq<seq<byte>> {
    ControlFrames(script.lead) + MessageFrames(script.messages)
  }

  // ---- what the application and the peer are to see ----------------------------------------------------------------

  function Reply(c: Control): seq<Item> {
    if c.SendPing? then [PongItem(c.payload)] else []
  }

  function Pongs(cs: seq<Control>): seq<Item> {
    if cs == [] then [] else Reply(cs[0]) + Pongs(cs[1..])
  }

  function FragmentPongs(fs: seq<Fragment>): seq<Item> {
    if fs == [] then [] else Pongs(fs[0].after) + FragmentPongs(fs[1..])
  }

  function MessagePongs(ms: seq<Sent>): seq<Item> {
    if ms == [] then [] else FragmentPongs(ms[0].fragments) + MessagePongs(ms[1..])
  }

  /** The content of a message: its fragments, joined. */
  function Content(fs: seq<Fragment>): seq<byte> {
    if fs == [] then [] else fs[0].payload + Content(fs[1..])
  }

  function Messages(ms: seq<Sent>): seq<Message> {
    if ms == [] then [] else [Message(ms[0].opcode, Content(ms[0].fragments))] + Messages(ms[1..])
  }

  // ---- within the limits -------------------------------------------------------------------------------------------

  ghost predicate ControlsOk(opt: Options, cs: seq<Control>) {
    forall c :: c in cs ==> c.key < TWO_32 && |c.payload| <= 125 && 6 + |c.payload| <= opt.maxFrameBufferBytes
  }

  ghost predicate FragmentsOk(opt: Options, fs: seq<Fragment>) {
    forall f :: f in fs ==>
      && f.key < TWO_32
      && |f.payload| < TWO_32
      && |ClientFrame(true, Text, f.key, f.payload)| <= opt.maxFrameBufferBytes
      && ControlsOk(opt, f.after)
  }

  ghost predicate ScriptOk(opt: Options, script: Script) {
    && ControlsOk(opt, script.lead)
    && forall m :: m in script.messages ==>
      && m.opcode in {Text, Binary}
      && m.fragments != []
      && FragmentsOk(opt, m.fragments)
      && |Content(m.fragments)| <= opt.maxMessageBytes
  }

  // ---- one frame ---------------------------------------------------------------------------------------------------

  lemma StepOnFrame(s: Sess, fin: bool, op: OpCode, key: nat, payload: seq<byte>)
    requires key < TWO_32 && |payload| < TWO_32
    requires |ClientFrame(fin, op, key, payload)| <= s.opt.maxFrameBufferBytes
    requires !MessageTooLarge(s, HeaderOf(fin, op, Some(key), |payload|))
    ensures var frame, h := ClientFrame(fin, op, key, payload), HeaderOf(fin, op, Some(key), |payload|);
            h.TotalSize() == |frame| && FrameStep(s, frame) == HandleFrame(s, h, payload)
  {
    hide HandleFrame, HeaderBytes, Masked, Decode;
    var frame, h := ClientFrame(fin, op, key, payload), HeaderOf(fin, op, Some(key), |payload|);
    var header, body := HeaderBytes(fin, op, Some(key), |payload|), Masked(payload, key);
    DecodeEncoded(fin, op, Some(key), |payload|, body);
    assert frame == header + body && h.headerLen == |header|;
    assert (header + body)[|header|..|header| + |body|] == body;
    MaskedTwice(payload, key);
  }

  function AfterFrame(s: Sess, replies: seq<Item>): Sess {
    s.(refreshes := s.refreshes + 1, posted := s.posted + replies)
  }

  lemma ControlIsToken(s: Sess, c: Control)
    requires s.state == Active && ControlsOk(s.opt, [c])
    ensures Tokens(ActiveStep, s, [ControlFrame(c)])
    ensures After(ActiveStep, s, [ControlFrame(c)]) == AfterFrame(s, Reply(c))
  {
    assert c in [c];
    StepOnFrame(s, true, if c.SendPing? then Ping else Pong, c.key, c.payload);
    assert s.posted + [] == s.posted;
    OneToken(ActiveStep, s, ControlFrame(c), AfterFrame(s, Reply(c)));
  }

  function AfterControls(s: Sess, cs: seq<Control>): Sess {
    s.(refreshes := s.refreshes + |cs|, posted := s.posted + Pongs(cs))
  }

  lemma AfterControlsCons(s: Sess, cs: seq<Control>)
    requires cs != []
    ensures AfterControls(AfterFrame(s, Reply(cs[0])), cs[1..]) == AfterControls(s, cs)
  {
    assert (s.posted + Reply(cs[0])) + Pongs(cs[1..]) == s.posted + (Reply(cs[0]) + Pongs(cs[1..]));
  }

  lemma {:induction false} ControlsAreTokens(s: Sess, cs: seq<Control>)
    requires s.state == Active && ControlsOk(s.opt, cs)
    ensures Tokens(ActiveStep, s, ControlFrames(cs))
    ensures After(ActiveStep, s, ControlFrames(cs)) == AfterControls(s, cs)
    decreases |cs|
  {
    if cs == [] {
      assert s.posted + [] == s.posted;
    } else {
      var s' := AfterFrame(s, Reply(cs[0]));
      ControlIsToken(s, cs[0]);
      ControlsAreTokens(s', cs[1..]);
      TokensAppend(ActiveStep, s, [ControlFrame(cs[0])], ControlFrames(cs[1..]));
      AfterControlsCons(s, cs);
    }
  }

  /** A session in the middle of a message, or about to start one with a frame of the given opcode. */
  predicate Expects(s: Sess, op: OpCode) {
    && s.state == Active
    && s.started == (op == Continuation)
    && op in {Continuation, Text, Binary}
    && (!s.started ==> s.payload == [])
  }

  /** After a data frame that is the last of its message, or not. */
  function AfterFragment(s: Sess, op: OpCode, payload: seq<byte>, last: bool): Sess {
    var opcode := if op == Continuation then s.opcode else op;
    var s := s.(refreshes := s.refreshes + 1, opcode := opcode);
    if last then
      s.(started := false, payload := [], delivered := s.delivered + [Message(opcode, s.payload + payload)])
    else s.(started := true, payload := s.payload + payload)
  }

  lemma DataFrameEffect(s: Sess, op: OpCode, payload: seq<byte>, last: bool)
    requires Expects(s, op)
    requires |s.payload| + |payload| <= s.opt.maxMessageBytes
    ensures HandleDataFrame(s.(refreshes := s.refreshes + 1), op, last, payload) == AfterFragment(s, op, payload, last)
  {
    assert [] + payload == payload;
  }

  lemma DataFrameStep(s: Sess, op: OpCode, key: nat, payload: seq<byte>, last: bool)
    requires Expects(s, op)
    requires key < TWO_32 && |payload| < TWO_32
    requires |ClientFrame(true, Text, key, payload)| <= s.opt.maxFrameBufferBytes
    requires |s.payload| + |payload| <= s.opt.maxMessageBytes
    ensures var frame := ClientFrame(last, op, key, payload);
            FrameStep(s, frame) == Next(AfterFragment(s, op, payload, last), |frame|)
  {
    assert |ClientFrame(last, op, key, payload)| == |ClientFrame(true, Text, key, payload)|;
    StepOnFrame(s, last, op, key, payload);
    DataFrameEffect(s, op, payload, last);
  }

  lemma FragmentIsToken(s: Sess, op: OpCode, f: Fragment, last: bool)
    requires Expects(s, op) && FragmentsOk(s.opt, [f])
    requires |s.payload| + |f.payload| <= s.opt.maxMessageBytes
    ensures var frame := ClientFrame(last, op, f.key, f.payload);
            && Tokens(ActiveStep, s, [frame])
            && After(ActiveStep, s, [frame]) == AfterFragment(s, op, f.payload, last)
  {
    assert f in [f];
    var frame := ClientFrame(last, op, f.key, f.payload);
    DataFrameStep(s, op, f.key, f.payload, last);
    OneToken(ActiveStep, s, frame, AfterFragment(s, op, f.payload, last));
  }

  function FragmentCount(fs: seq<Fragment>): nat {
    if fs == [] then 0 else 1 + |fs[0].after| + FragmentCount(fs[1..])
  }

  /** What all frames of a list of fragments, and the controls between them, do. */
  function AfterFragments(s: Sess, op: OpCode, fs: seq<Fragment>): Sess {
    var opcode := if op == Continuation then s.opcode else op;
    s.(refreshes := s.refreshes + FragmentCount(fs), opcode := opcode, started := false, payload := [],
       delivered := s.delivered + [Message(opcode, s.payload + Content(fs))],
       posted := s.posted + FragmentPongs(fs))
  }

  lemma AfterFragmentsLast(s: Sess, op: OpCode, f: Fragment)
    requires Expects(s, op)
    ensures AfterControls(AfterFragment(s, op, f.payload, true), f.after) == AfterFragments(s, op, [f])
  {
    assert [f][1..] == [];
    assert FragmentCount([f]) == 1 + |f.after|;
    assert FragmentPongs([f]) == Pongs(f.after) + [] == Pongs(f.after);
    assert Content([f]) == f.payload + [] == f.payload;
  }

  lemma AfterFragmentsMore(s: Sess, op: OpCode, fs: seq<Fragment>)
    requires |fs| > 1 && Expects(s, op)
    ensures AfterFragments(AfterControls(AfterFragment(s, op, fs[0].payload, false), fs[0].after), Continuation, fs[1..])
            == AfterFragments(s, op, fs)
  {
    var p, q := Pongs(fs[0].after), FragmentPongs(fs[1..]);
    assert (s.posted + p) + q == s.posted + (p + q);
    var c, d := fs[0].payload, Content(fs[1..]);
    assert (s.payload + c) + d == s.payload + (c + d);
  }

  lemma {:induction false} FragmentsAreTokens(s: Sess, op: OpCode, fs: seq<Fragment>)
    requires fs != [] && Expects(s, op) && FragmentsOk(s.opt, fs)
    requires |s.payload| + |Content(fs)| <= s.opt.maxMessageBytes
    ensures Tokens(ActiveStep, s, FragmentFrames(op, fs))
    ensures After(ActiveStep, s, FragmentFrames(op, fs)) == AfterFragments(s, op, fs)
    decreases |fs|
  {
    var f, last := fs[0], |fs| == 1;
    var first, controls := [ClientFrame(last, op, f.key, f.payload)], ControlFrames(f.after);
    var s1 := AfterFragment(s, op, f.payload, last);
    FragmentIsToken(s, op, f, last);
    ControlsAreTokens(s1, f.after);
    TokensAppend(ActiveStep, s, first, controls);
    if last {
      assert fs == [f] && first + controls + [] == first + controls;
      AfterFragmentsLast(s, op, f);
    } else {
      FragmentsAreTokens(AfterControls(s1, f.after), Continuation, fs[1..]);
      TokensAppend(ActiveStep, s, first + controls, FragmentFrames(Continuation, fs[1..]));
      AfterFragmentsMore(s, op, fs);
    }
  }

  // ---- the whole script --------------------------------------------------------------------------------------------

  /** Nothing but the logs, the frame count and the last opcode differ. */
  ghost predicate Heard(s: Sess, r: Sess, delivered: seq<Message>, replies: seq<Item>) {
    r == s.(refreshes := r.refreshes, opcode := r.opcode, delivered := s.delivered + delivered, posted := s.posted + replies)
  }

  ghost predicate Idle(s: Sess) {
    s.state == Active && !s.started && s.payload == []
  }

  lemma {:induction false} MessagesAreTokens(s: Sess, ms: seq<Sent>)
    requires Idle(s) && ScriptOk(s.opt, Script([], ms))
    ensures Tokens(ActiveStep, s, MessageFrames(ms))
    ensures Heard(s, After(ActiveStep, s, MessageFrames(ms)), Messages(ms), MessagePongs(ms))
    decreases |ms|
  {
    if ms == [] {
      assert s.delivered + [] == s.delivered && s.posted + [] == s.posted;
    } else {
      var m := ms[0];
      var s' := AfterFragments(s, m.opcode, m.fragments);
      assert m in ms;
      FragmentsAreTokens(s, m.opcode, m.fragments);
      MessagesAreTokens(s', ms[1..]);
      TokensAppend(ActiveStep, s, FragmentFrames(m.opcode, m.fragments), MessageFrames(ms[1..]));
      assert [] + Content(m.fragments) == Content(m.fragments);
      HeardTwice(s, s', After(ActiveStep, s, MessageFrames(ms)),
                 [Message(m.opcode, Content(m.fragments))], FragmentPongs(m.fragments),
                 Messages(ms[1..]), MessagePongs(ms[1..]));
    }
  }

  lemma HeardTwice(s: Sess, s1: Sess, s2: Sess, d1: seq<Message>, p1: seq<Item>, d2: seq<Message>, p2: seq<Item>)
    requires Heard(s, s1, d1, p1) && Heard(s1, s2, d2, p2)
    ensures Heard(s, s2, d1 + d2, p1 + p2)
  {
    assert (s.delivered + d1) + d2 == s.delivered + (d1 + d2);
    assert (s.posted + p1) + p2 == s.posted + (p1 + p2);
  }

  lemma ScriptIsTokens(s: Sess, script: Script)
    requires Idle(s) && ScriptOk(s.opt, script)
    ensures Tokens(ActiveStep, s, ScriptFrames(script))
    ensures Heard(s, After(ActiveStep, s, ScriptFrames(script)),
                  Messages(script.messages), Pongs(script.lead) + MessagePongs(script.messages))
    ensures Idle(After(ActiveStep, s, ScriptFrames(script)))
  {
    var s' := AfterControls(s, script.lead);
    ControlsAreTokens(s, script.lead);
    MessagesAreTokens(s', script.messages);
    TokensAppend(ActiveStep, s, ControlFrames(script.lead), MessageFrames(script.messages));
    assert s.delivered + [] == s.delivered;
    HeardTwice(s, s', After(ActiveStep, s, ScriptFrames(script)), [], Pongs(script.lead),
               Messages(script.messages), MessagePongs(script.messages));
    assert [] + Messages(script.messages) == Messages(script.messages);
  }

  /** The session heard exactly the script: every message once and in order, one pong per ping with its payload. */
  ghost predicate HeardScript(s: Sess, script: Script, out: Receiver) {
    && out.reading && out.buf == []
    && Idle(out.sess)
    && Heard(s, out.sess, Messages(script.messages), Pongs(script.lead) + MessagePongs(script.messages))
  }

  /**
   * End to end.  For every script within the limits and every cut of its bytes into reads, the handler receives exactly
   * the messages of the script if and only if no read overflows the frame buffer.
   */
  lemma EndToEnd(s: Sess, script: Script, chunks: seq<seq<byte>>)
    requires Idle(s) && s.exit == None && ScriptOk(s.opt, script)
    requires Concat(chunks) == Concat(ScriptFrames(script))
    ensures HeardScript(s, script, ReceiveAll(Receiver(s, [], true), chunks)) <==> Fits(Receiver(s, [], true), chunks)
  {
    var r := Receiver(s, [], true);
    FrameStepProductive();
    FrameStepStable();
    ScriptIsTokens(s, script);
    var all := After(ActiveStep, s, ScriptFrames(script));
    RunTokens(ActiveStep, s, ScriptFrames(script), []);
    assert Concat(ScriptFrames(script)) + [] == [] + Concat(chunks);
    assert Run(ActiveStep, s, [] + Concat(chunks)) == Live(all, []);
    GuardIsDecisive(r, chunks);
    if !Fits(r, chunks) {
      OverflowCloses(r, chunks);
    }
  }
}
