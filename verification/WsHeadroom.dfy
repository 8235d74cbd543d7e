/**
 * The guard on the frame buffer: for which limits every conforming peer is heard, however its bytes are cut into reads.
 */
module WsHeadroom {
  import opened Bytes
  import opened WsFrame
  import opened Incremental
  import opened WsReceive
  import opened WsEndToEnd

  /** The size of read_buf_: the most bytes one read delivers. */
  const READ_SIZE := 65536

  lemma WaitsOnNothing(s: Sess)
    ensures ActiveStep(s, []) == Wait
  {
  }

  /** If a read and all but one byte of the largest frame fit together, no cut of the stream overflows the buffer. */
  lemma {:induction false} HeadroomFits(s: Sess, tokens: seq<seq<byte>>, bound: nat,
                                        done: seq<byte>, r: Receiver, chunks: seq<seq<byte>>)
    requires Tokens(ActiveStep, s, tokens) && forall t :: t in tokens ==> |t| <= bound
    requires 1 <= bound && bound - 1 + READ_SIZE <= r.sess.opt.maxFrameBufferBytes
    requires forall c :: c in chunks ==> |c| <= READ_SIZE
    requires done + Concat(chunks) == Concat(tokens)
    requires Productive(ActiveStep) && Run(ActiveStep, s, done) == Live(r.sess, r.buf) && Reading(r)
    ensures Fits(r, chunks)
    decreases |chunks|
  {
    hide Run, ActiveStep, Tokens;
    FrameStepProductive();
    FrameStepStable();
    if chunks != [] {
      var c, tail := chunks[0], Concat(chunks[1..]);
      assert (done + c) + tail == Concat(tokens);
      WaitsOnNothing(After(ActiveStep, s, tokens));
      RestOfPrefix(ActiveStep, s, tokens, done, bound);
      RestOfPrefix(ActiveStep, s, tokens, done + c, bound);
      RunAppend(ActiveStep, s, done, c);
      ActiveRun(r.sess, r.buf + c);
      HeadroomFits(s, tokens, bound, done + c, Receive(r, c), chunks[1..]);
    }
  }

  /** With that headroom, end to end holds for every cut into reads of at most READ_SIZE bytes. */
  lemma EndToEndWithHeadroom(s: Sess, script: Script, bound: nat, chunks: seq<seq<byte>>)
    requires Idle(s) && s.exit == None && ScriptOk(s.opt, script)
    requires Concat(chunks) == Concat(ScriptFrames(script))
    requires forall f :: f in ScriptFrames(script) ==> |f| <= bound
    requires 1 <= bound && bound - 1 + READ_SIZE <= s.opt.maxFrameBufferBytes
    requires forall c :: c in chunks ==> |c| <= READ_SIZE
    ensures HeardScript(s, script, ReceiveAll(Receiver(s, [], true), chunks))
  {
    FrameStepProductive();
    ScriptIsTokens(s, script);
    assert [] + Concat(chunks) == Concat(chunks);
    HeadroomFits(s, ScriptFrames(script), bound, [], Receiver(s, [], true), chunks);
    EndToEnd(s, script, chunks);
  }

  // ---- the largest frame -------------------------------------------------------------------------------------------

  /** The size of a client frame. */
  function FrameSize(n: nat): nat {
    if n <= 125 then 6 + n else if n <= 65535 then 8 + n else 14 + n
  }

  lemma ClientFrameSize(fin: bool, op: OpCode, key: nat, payload: seq<byte>)
    ensures |ClientFrame(fin, op, key, payload)| == FrameSize(|payload|)
  {
    hide Masked, U16Bytes, U32Bytes;
    assert forall n :: |U16Bytes(n)| == 2 && |U32Bytes(n)| == 4 by { FieldSizes(); }
  }

  lemma FieldSizes()
    ensures forall n :: |U16Bytes(n)| == 2 && |U32Bytes(n)| == 4
  {
  }

  /** The largest payload a frame within the limits can have; control frames may have 125 bytes. */
  function LargestPayload(opt: Options): nat {
    if opt.maxMessageBytes < 125 then 125
    else if opt.maxMessageBytes < TWO_32 then opt.maxMessageBytes
    else TWO_32 - 1
  }

  ghost predicate AllWithin(frames: seq<seq<byte>>, bound: nat) {
    forall f :: f in frames ==> |f| <= bound
  }

  lemma {:induction false} ControlsWithin(opt: Options, cs: seq<Control>)
    requires ControlsOk(opt, cs)
    ensures AllWithin(ControlFrames(cs), FrameSize(LargestPayload(opt)))
  {
    hide ClientFrame;
    if cs != [] {
      var c := cs[0];
      ClientFrameSize(true, if c.SendPing? then Ping else Pong, c.key, c.payload);
      ControlsWithin(opt, cs[1..]);
    }
  }

  lemma {:induction false} FragmentsWithin(opt: Options, op: OpCode, fs: seq<Fragment>)
    requires FragmentsOk(opt, fs) && |Content(fs)| <= opt.maxMessageBytes
    ensures AllWithin(FragmentFrames(op, fs), FrameSize(LargestPayload(opt)))
    decreases |fs|
  {
    hide ClientFrame, ControlFrames;
    if fs != [] {
      var f := fs[0];
      ClientFrameSize(|fs| == 1, op, f.key, f.payload);
      ControlsWithin(opt, f.after);
      FragmentsWithin(opt, Continuation, fs[1..]);
    }
  }

  lemma {:induction false} MessagesWithin(opt: Options, ms: seq<Sent>)
    requires ScriptOk(opt, Script([], ms))
    ensures AllWithin(MessageFrames(ms), FrameSize(LargestPayload(opt)))
  {
    hide FragmentFrames, FragmentsOk, Content;
    if ms != [] {
      FragmentsWithin(opt, ms[0].opcode, ms[0].fragments);
      MessagesWithin(opt, ms[1..]);
    }
  }

  // ---- too little room ---------------------------------------------------------------------------------------------

  /** What a conforming peer sends, in reads of at most READ_SIZE bytes. */
  ghost predicate Conforming(opt: Options, script: Script, chunks: seq<seq<byte>>) {
    && ScriptOk(opt, script)
    && Concat(chunks) == Concat(ScriptFrames(script))
    && forall c :: c in chunks ==> |c| <= READ_SIZE
  }

  /** Every byte a read of its own. */
  function Bytewise(s: seq<byte>): seq<seq<byte>> {
    if s == [] then [] else [[s[0]]] + Bytewise(s[1..])
  }

  lemma {:induction false} BytewiseIsSmall(s: seq<byte>)
    ensures forall c :: c in Bytewise(s) ==> |c| == 1
  {
    if s != [] {
      BytewiseIsSmall(s[1..]);
    }
  }

  lemma {:induction false} ConcatBytewise(s: seq<byte>)
    ensures Concat(Bytewise(s)) == s
  {
    if s != [] {
      ConcatBytewise(s[1..]);
      assert s == [s[0]] + s[1..];
    }
  }

  /** On part of a frame the session only waits. */
  lemma PartWaits(s: Sess, frame: seq<byte>, p: seq<byte>)
    requires FrameStep(s, frame).Next? && FrameStep(s, frame).used == |frame|
    requires p < frame
    ensures FrameStep(s, p) == Wait
  {
    hide FrameStep;
    FrameStepProductive();
    FrameStepStable();
    assert p + frame[|p|..] == frame;
  }

  lemma ByteIsTakenIn(s: Sess, frame: seq<byte>, p: seq<byte>, b: byte)
    requires FrameStep(s, frame).Next? && FrameStep(s, frame).used == |frame|
    requires s.state == Active && |frame| <= s.opt.maxFrameBufferBytes && p + [b] < frame
    ensures Receive(Receiver(s, p, true), [b]) == Receiver(s, p + [b], true)
  {
    hide FrameStep, Run;
    FrameStepProductive();
    PartWaits(s, frame, p + [b]);
    RunTurn(FrameStep, s, p + [b]);
  }

  /** Single bytes of a frame that fits are taken in without anything happening. */
  lemma {:induction false} BytesAreTakenIn(s: Sess, frame: seq<byte>, p: seq<byte>, q: seq<byte>, rest: seq<seq<byte>>)
    requires FrameStep(s, frame).Next? && FrameStep(s, frame).used == |frame|
    requires s.state == Active && |frame| <= s.opt.maxFrameBufferBytes && p + q < frame
    ensures Fits(Receiver(s, p, true), Bytewise(q) + rest) ==> Fits(Receiver(s, p + q, true), rest)
    decreases |q|
  {
    hide FrameStep, Receive;
    if q == [] {
      assert p + q == p && Bytewise(q) + rest == rest;
    } else {
      hide Bytewise;
      var p' := p + [q[0]];
      ByteInFront(q, rest);
      Regroup(p, [q[0]], q[1..]);
      assert q == [q[0]] + q[1..];
      assert p' < frame by { PrefixOfPrefix(p', q[1..], frame); }
      ByteIsTakenIn(s, frame, p, q[0]);
      BytesAreTakenIn(s, frame, p', q[1..], rest);
    }
  }

  lemma ByteInFront(q: seq<byte>, rest: seq<seq<byte>>)
    requires q != []
    ensures var chunks := Bytewise(q) + rest;
            chunks != [] && chunks[0] == [q[0]] && chunks[1..] == Bytewise(q[1..]) + rest
  {
    assert Bytewise(q) + rest == [[q[0]]] + (Bytewise(q[1..]) + rest);
  }

  lemma PrefixOfPrefix(a: seq<byte>, b: seq<byte>, s: seq<byte>)
    requires a + b < s
    ensures a < s
  {
    assert (a + b)[..|a|] == a;
  }

  function Repeated<T>(x: T, k: nat): (s: seq<T>)
    ensures |s| == k && forall y :: y in s ==> y == x
  {
    if k == 0 then [] else [x] + Repeated(x, k - 1)
  }

  lemma {:induction false} RepeatedLength(f: seq<byte>, k: nat)
    requires f != []
    ensures |Concat(Repeated(f, k))| >= k
  {
    if k > 0 {
      RepeatedLength(f, k - 1);
      assert Repeated(f, k)[1..] == Repeated(f, k - 1);
    }
  }

  /** k frames with a payload of n bytes each: pings while the payload is small enough, messages otherwise. */
  function Monotonous(n: nat, k: nat): Script {
    if n <= 125 then Script(Repeated(SendPing(0, ZeroBytes(n)), k), [])
    else Script([], Repeated(Sent(Binary, [Fragment(0, ZeroBytes(n), [])]), k))
  }

  function MonotonousFrame(n: nat): seq<byte> {
    if n <= 125 then ControlFrame(SendPing(0, ZeroBytes(n))) else ClientFrame(true, Binary, 0, ZeroBytes(n))
  }

  lemma {:induction false} PingFrames(c: Control, k: nat)
    ensures ControlFrames(Repeated(c, k)) == Repeated(ControlFrame(c), k)
  {
    hide ControlFrame;
    if k > 0 {
      PingFrames(c, k - 1);
      assert Repeated(c, k)[1..] == Repeated(c, k - 1);
    }
  }

  lemma {:induction false} WholeMessageFrames(payload: seq<byte>, k: nat)
    ensures MessageFrames(Repeated(Sent(Binary, [Fragment(0, payload, [])]), k))
            == Repeated(ClientFrame(true, Binary, 0, payload), k)
  {
    hide ClientFrame;
    if k > 0 {
      var m := Sent(Binary, [Fragment(0, payload, [])]);
      WholeMessageFrames(payload, k - 1);
      assert Repeated(m, k)[1..] == Repeated(m, k - 1);
      OneFragment(0, payload);
    }
  }

  lemma OneFragment(key: nat, payload: seq<byte>)
    ensures FragmentFrames(Binary, [Fragment(key, payload, [])]) == [ClientFrame(true, Binary, key, payload)]
    ensures Content([Fragment(key, payload, [])]) == payload
  {
    hide ClientFrame;
    var fs := [Fragment(key, payload, [])];
    assert fs[1..] == [];
    assert FragmentFrames(Continuation, fs[1..]) == [] && ControlFrames([]) == [];
    assert payload + [] == payload;
  }

  lemma MonotonousFrames(n: nat, k: nat)
    ensures ScriptFrames(Monotonous(n, k)) == Repeated(MonotonousFrame(n), k)
    ensures |MonotonousFrame(n)| == FrameSize(n)
  {
    hide ControlFrames, MessageFrames, ClientFrame, FrameSize;
    ClientFrameSize(true, Ping, 0, ZeroBytes(n));
    ClientFrameSize(true, Binary, 0, ZeroBytes(n));
    PingFrames(SendPing(0, ZeroBytes(n)), k);
    WholeMessageFrames(ZeroBytes(n), k);
    assert ControlFrames([]) == [] && MessageFrames([]) == [] by { NoFrames(); }
  }

  lemma NoFrames()
    ensures ControlFrames([]) == [] && MessageFrames([]) == []
  {
  }

  lemma MonotonousIsOk(opt: Options, n: nat, k: nat)
    requires n <= LargestPayload(opt) && FrameSize(n) <= opt.maxFrameBufferBytes
    ensures ScriptOk(opt, Monotonous(n, k))
  {
    hide ClientFrame;
    ClientFrameSize(true, Text, 0, ZeroBytes(n));
    OneFragment(0, ZeroBytes(n));
  }

  /** The frame is the first thing the session handles. */
  lemma FirstFrame(s: Sess, n: nat, k: nat)
    requires Idle(s) && n <= LargestPayload(s.opt) && FrameSize(n) <= s.opt.maxFrameBufferBytes && k > 0
    ensures var frame := MonotonousFrame(n); FrameStep(s, frame).Next? && FrameStep(s, frame).used == |frame|
  {
    hide FrameStep, FrameSize, MonotonousFrame, Monotonous, LargestPayload, Heard, ScriptOk;
    MonotonousIsOk(s.opt, n, k);
    MonotonousFrames(n, k);
    ScriptIsTokens(s, Monotonous(n, k));
  }

  /** Up to one byte before the end of the first frame in single bytes, then as much as overflows the buffer at once. */
  function Cut(t: seq<byte>, size: nat, limit: nat): seq<seq<byte>>
    requires 0 < size <= limit < |t|
  {
    Bytewise(t[..size - 1]) + ([t[size - 1..limit + 1]] + Bytewise(t[limit + 1..]))
  }

  lemma CutIsConforming(t: seq<byte>, size: nat, limit: nat)
    requires 0 < size <= limit < |t| && size - 1 + READ_SIZE > limit
    ensures Concat(Cut(t, size, limit)) == t
    ensures forall c :: c in Cut(t, size, limit) ==> |c| <= READ_SIZE
  {
    hide Concat, Bytewise;
    var a, b, c := t[..size - 1], t[size - 1..limit + 1], t[limit + 1..];
    ConcatBytewise(a);
    ConcatBytewise(c);
    BytewiseIsSmall(a);
    BytewiseIsSmall(c);
    ConcatOne(b);
    ConcatAppend([b], Bytewise(c));
    ConcatAppend(Bytewise(a), [b] + Bytewise(c));
    assert a + (b + c) == t;
  }

  lemma CutOverflows(s: Sess, frame: seq<byte>, t: seq<byte>)
    requires FrameStep(s, frame).Next? && FrameStep(s, frame).used == |frame| && s.state == Active
    requires 0 < |frame| <= s.opt.maxFrameBufferBytes < |t| && frame <= t
    ensures !Fits(Receiver(s, [], true), Cut(t, |frame|, s.opt.maxFrameBufferBytes))
  {
    hide FrameStep, Bytewise, Receive;
    var limit, q := s.opt.maxFrameBufferBytes, t[..|frame| - 1];
    var big := t[|frame| - 1..limit + 1];
    var rest := [big] + Bytewise(t[limit + 1..]);
    assert [] + q == q && q < frame;
    BytesAreTakenIn(s, frame, [], q, rest);
    assert rest[0] == big && |q| + |big| > limit;
  }

  /**
   * Too little room: for any admissible frame size such that the buffer does not hold all but one byte of such a frame
   * and a read, some conforming peer with only such frames is not heard.
   */
  lemma NoRoom(s: Sess, n: nat) returns (script: Script, chunks: seq<seq<byte>>)
    requires Idle(s) && s.exit == None
    requires n <= LargestPayload(s.opt) && FrameSize(n) <= s.opt.maxFrameBufferBytes < FrameSize(n) - 1 + READ_SIZE
    ensures Conforming(s.opt, script, chunks)
    ensures !HeardScript(s, script, ReceiveAll(Receiver(s, [], true), chunks))
  {
    hide FrameStep, FrameSize, MonotonousFrame, Monotonous, LargestPayload, ScriptOk, HeardScript, ReceiveAll, Fits, Cut;
    var limit, frame := s.opt.maxFrameBufferBytes, MonotonousFrame(n);
    script := Monotonous(n, limit + 1);
    MonotonousIsOk(s.opt, n, limit + 1);
    MonotonousFrames(n, limit + 1);
    SizeIsPositive(n);
    RepeatedLength(frame, limit + 1);
    var t := Concat(Repeated(frame, limit + 1));
    assert frame <= t;
    chunks := Cut(t, |frame|, limit);
    CutIsConforming(t, |frame|, limit);
    FirstFrame(s, n, limit + 1);
    CutOverflows(s, frame, t);
    EndToEnd(s, script, chunks);
  }

  lemma SizeIsPositive(n: nat)
    ensures FrameSize(n) >= 6
  {
  }

  /** A payload whose frame is close to the limit. */
  function CloseTo(limit: nat): (n: nat)
    requires limit >= 6
    ensures limit - 6 <= FrameSize(n) <= limit
  {
    if limit <= 131 then limit - 6
    else if limit <= 133 then 125
    else if limit <= 65543 then limit - 8
    else if limit <= 65549 then 65535
    else limit - 14
  }

  /**
   * Exactly when the limits are right.  If any frame fits the buffer at all: every conforming peer is heard, whatever it
   * sends and however its bytes are cut into reads, if and only if the buffer has room for all but one byte of the
   * largest frame and for one read.
   */
  lemma BufferSufficesIff(s: Sess)
    requires Idle(s) && s.exit == None && s.opt.maxFrameBufferBytes >= 6
    ensures (forall script, chunks :: Conforming(s.opt, script, chunks) ==>
                                        HeardScript(s, script, ReceiveAll(Receiver(s, [], true), chunks)))
            <==> FrameSize(LargestPayload(s.opt)) - 1 + READ_SIZE <= s.opt.maxFrameBufferBytes
  {
    hide Conforming, HeardScript, ReceiveAll;
    var limit, largest := s.opt.maxFrameBufferBytes, LargestPayload(s.opt);
    if FrameSize(largest) - 1 + READ_SIZE <= limit {
      forall script, chunks | Conforming(s.opt, script, chunks)
        ensures HeardScript(s, script, ReceiveAll(Receiver(s, [], true), chunks))
      {
        EnoughRoom(s, script, chunks);
      }
    } else {
      var n := if FrameSize(largest) <= limit then largest else CloseTo(limit);
      var script, chunks := NoRoom(s, n);
    }
  }

  lemma EnoughRoom(s: Sess, script: Script, chunks: seq<seq<byte>>)
    requires Idle(s) && s.exit == None && Conforming(s.opt, script, chunks)
    requires FrameSize(LargestPayload(s.opt)) - 1 + READ_SIZE <= s.opt.maxFrameBufferBytes
    ensures HeardScript(s, script, ReceiveAll(Receiver(s, [], true), chunks))
  {
    hide HeardScript, ReceiveAll, LargestPayload, FrameSize, ScriptOk;
    var bound := FrameSize(LargestPayload(s.opt));
    SizeIsPositive(LargestPayload(s.opt));
    ScriptWithin(s.opt, script);
    EndToEndWithHeadroom(s, script, bound, chunks);
  }

  lemma ScriptWithin(opt: Options, script: Script)
    requires ScriptOk(opt, script)
    ensures AllWithin(ScriptFrames(script), FrameSize(LargestPayload(opt)))
  {
    hide FrameSize, LargestPayload, FragmentsOk, ControlsOk, ControlFrames, MessageFrames;
    assert ControlsOk(opt, []) by { NoControls(opt); }
    ControlsWithin(opt, script.lead);
    MessagesWithin(opt, script.messages);
  }

  lemma NoControls(opt: Options)
    ensures ControlsOk(opt, [])
  {
  }

  /** The default limits, a buffer of 2 MiB and messages of up to 1 MiB, are right. */
  lemma DefaultsSuffice(s: Sess, script: Script, chunks: seq<seq<byte>>)
    requires Idle(s) && s.exit == None && Conforming(s.opt, script, chunks)
    requires s.opt.maxFrameBufferBytes == 2 * 1024 * 1024 && s.opt.maxMessageBytes == 1024 * 1024
    ensures HeardScript(s, script, ReceiveAll(Receiver(s, [], true), chunks))
  {
    hide HeardScript, ReceiveAll, Conforming;
    EnoughRoom(s, script, chunks);
  }
}
