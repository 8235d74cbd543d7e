/**
 * The receiving side of interleaved framing: bytes of the RTSP connection are buffered, whole frames are taken off
 * the front and handed to the RTCP or RTP handler.
 */
module Interleaved {
  import opened Bytes
  import opened Incremental
  import opened RtpFraming
  import opened Strings

  datatype Frame = Frame(channel: byte, data: seq<byte>)

  /** One turn of the loop: what lies at the front is incomplete, a frame, or no frame at all. */
  function FrameStep(frames: seq<Frame>, buf: seq<byte>): Outcome<seq<Frame>> {
    if |buf| < 4 then Wait
    else if buf[0] != DOLLAR then Halt(frames, 0)
    else
      var size := 4 + U16(buf[2..4]);
      if |buf| < size then Wait else Next(frames + [Frame(buf[1], buf[4..size])], size)
  }

  lemma FrameStepIsProductive()
    ensures Productive(FrameStep)
  {
  }

  lemma FrameStepIsStable()
    ensures Stable(FrameStep)
  {
    forall s: seq<Frame>, buf: seq<byte>, more: seq<byte> | FrameStep(s, buf) != Wait
      ensures FrameStep(s, buf + more) == FrameStep(s, buf)
    {
      assert (buf + more)[2..4] == buf[2..4];
      if buf[0] == DOLLAR {
        var size := 4 + U16(buf[2..4]);
        assert (buf + more)[4..size] == buf[4..size];
      }
    }
  }

  /** The bytes a sender writes for a list of frames. */
  function FrameTokens(frames: seq<Frame>): seq<seq<byte>> {
    if frames == [] then [] else [WireFrame(frames[0].channel, frames[0].data)] + FrameTokens(frames[1..])
  }

  /** The length field has two bytes. */
  predicate Framable(frames: seq<Frame>) {
    forall k :: 0 <= k < |frames| ==> |frames[k].data| < TWO_16
  }

  lemma OneFrame(frames: seq<Frame>, f: Frame)
    requires |f.data| < TWO_16
    ensures var token := WireFrame(f.channel, f.data); FrameStep(frames, token) == Next(frames + [f], |token|)
  {
    var token := WireFrame(f.channel, f.data);
    U16Inverse(|f.data|);
    assert token[2..4] == U16Bytes(|f.data|);
    assert token[4..4 + |f.data|] == f.data;
  }

  lemma {:induction false} FramesAreTokens(before: seq<Frame>, frames: seq<Frame>)
    requires Framable(frames)
    ensures Tokens(FrameStep, before, FrameTokens(frames)) && After(FrameStep, before, FrameTokens(frames)) == before + frames
    decreases |frames|
  {
    hide FrameStep, WireFrame;
    if frames == [] {
      assert before + [] == before;
    } else {
      OneFrame(before, frames[0]);
      FramesAreTokens(before + [frames[0]], frames[1..]);
      assert before + [frames[0]] + frames[1..] == before + frames;
      assert FrameTokens(frames)[1..] == FrameTokens(frames[1..]);
    }
  }

  lemma StepWaitsOnNothing(frames: seq<Frame>)
    ensures FrameStep(frames, []) == Wait
  {
  }

  /** Round trip under any chunking: however the bytes are cut into reads, exactly the frames that were sent arrive. */
  lemma FramingRoundTrip(frames: seq<Frame>, chunks: seq<seq<byte>>)
    requires Framable(frames) && Concat(chunks) == Concat(FrameTokens(frames))
    ensures Productive(FrameStep) && FeedAll(FrameStep, [], [], chunks) == Live(frames, [])
  {
    hide FrameStep, WireFrame, FrameTokens;
    FrameStepIsProductive();
    FrameStepIsStable();
    StepWaitsOnNothing([]);
    StepWaitsOnNothing(frames);
    FeedAllIsRun(FrameStep, [], [], chunks);
    FramesAreTokens([], frames);
    RunTokens(FrameStep, [], FrameTokens(frames), []);
    var all := Concat(FrameTokens(frames));
    assert [] + all == all && all + [] == all && [] + frames == frames;
    RunTurn(FrameStep, frames, []);
  }

  // ---- the session -------------------------------------------------------------------------------------------------

  /** What the session's request handlers may change. */
  datatype Context = Context(interleaved: bool, rtpChannel: int, rtcpChannel: int)

  /** What the handlers have been given, in order. */
  datatype Handled = RtcpData(data: seq<byte>) | RtpData(data: seq<byte>) | Request(bytes: seq<byte>)

  /** Where a frame goes; the RTCP channel is looked at first, and a frame on neither channel is dropped. */
  function Dispatch(c: Context, f: Frame): seq<Handled> {
    if f.channel == c.rtcpChannel then [RtcpData(f.data)] else if f.channel == c.rtpChannel then [RtpData(f.data)] else []
  }

  function DispatchAll(c: Context, frames: seq<Frame>): seq<Handled> {
    if frames == [] then [] else DispatchAll(c, frames[..|frames| - 1]) + Dispatch(c, frames[|frames| - 1])
  }

  lemma DispatchOneMore(c: Context, frames: seq<Frame>, f: Frame)
    ensures DispatchAll(c, frames + [f]) == DispatchAll(c, frames) + Dispatch(c, f)
  {
    assert (frames + [f])[..|frames|] == frames;
  }

  /** The first letters of OPTIONS, DESCRIBE, SETUP, PLAY, PAUSE and TEARDOWN. */
  predicate StartsRequest(s: seq<byte>) {
    s != [] && (s[0] == 0x4F || s[0] == 0x44 || s[0] == 0x53 || s[0] == 0x50 || s[0] == 0x54)
  }

  /** The methods that the answer to OPTIONS announces. */
  const ANNOUNCED := ["OPTIONS", "DESCRIBE", "SETUP", "PLAY", "TEARDOWN", "PAUSE", "GET_PARAMETER", "SET_PARAMETER"]

  /**
   * Of the requests that are announced, exactly GET_PARAMETER is not taken for one between interleaved frames; and nothing
   * is that does not begin like one of the others.
   */
  lemma AnnouncedRequests(m: string, rest: seq<byte>)
    requires m in ANNOUNCED
    ensures StartsRequest(Ascii(m) + rest) <==> m != "GET_PARAMETER"
  {
    FirstLetter(m);
    assert (Ascii(m) + rest)[0] == Ascii(m)[0];
  }

  lemma FirstLetter(m: string)
    requires m in ANNOUNCED
    ensures m != "" && Ascii(m)[0] in {79, 68, 83, 80, 84, 71} && (Ascii(m)[0] == 71 <==> m == "GET_PARAMETER")
  {
    assert "OPTIONS"[0] == 'O' && "DESCRIBE"[0] == 'D' && "SETUP"[0] == 'S' && "PLAY"[0] == 'P' && "TEARDOWN"[0] == 'T'
           && "PAUSE"[0] == 'P' && "GET_PARAMETER"[0] == 'G' && "SET_PARAMETER"[0] == 'S';
    assert 'O' as int == 79 && 'D' as int == 68 && 'S' as int == 83 && 'P' as int == 80 && 'T' as int == 84 && 'G' as int == 71;
  }

  lemma OnlyAnnouncedRequests(s: seq<byte>)
    requires StartsRequest(s)
    ensures exists k :: 0 <= k < |ANNOUNCED| && ANNOUNCED[k] != "GET_PARAMETER" && Ascii(ANNOUNCED[k])[0] == s[0]
  {
    var k := if s[0] == 79 then 0 else if s[0] == 68 then 1 else if s[0] == 83 then 2 else if s[0] == 80 then 3 else 4;
    assert ANNOUNCED[k] in ANNOUNCED;
    FirstLetter(ANNOUNCED[k]);
    assert ANNOUNCED[0] == "OPTIONS" && ANNOUNCED[1] == "DESCRIBE" && ANNOUNCED[2] == "SETUP" && ANNOUNCED[3] == "PLAY"
           && ANNOUNCED[4] == "TEARDOWN";
    assert "OPTIONS"[0] == 'O' && "DESCRIBE"[0] == 'D' && "SETUP"[0] == 'S' && "PLAY"[0] == 'P' && "TEARDOWN"[0] == 'T';
    assert 'O' as int == 79 && 'D' as int == 68 && 'S' as int == 83 && 'P' as int == 80 && 'T' as int == 84;
  }

  /** A frame of three bytes on channel 1, byte by byte. */
  lemma WireFrameBytes(a: byte, b: byte, c: byte)
    ensures WireFrame(1, [a, b, c]) == [0x24, 1, 0, 3, a, b, c]
  {
    Shifts(3);
  }

  class RtspReader {
    var readBuffer: seq<byte>
    var context: Context
    var handled: seq<Handled>

    constructor (context: Context)
      ensures readBuffer == [] && this.context == context && handled == []
    {
      readBuffer, this.context, handled := [], context, [];
    }

    /** The request handlers, whose text processing is not modelled: they may leave any context behind. */
    method HandleRtspRequest(bytes: seq<byte>)
      modifies `context, `handled
      ensures handled == old(handled) + [Request(bytes)]
    {
      handled := handled + [Request(bytes)];
      var next: Context := *;
      context := next;
    }

    /**
     * Takes whole frames off the buffer.  As long as only frames are met, the handlers get what they get from a parse
     * of the buffer and the rest stays; anything else ends the parse, is taken for a request if it starts like one,
     * and empties the buffer.
     */
    method ProcessInterleavedData()
      modifies this
      ensures Productive(FrameStep)
      ensures var r := Run(FrameStep, [], old(readBuffer));
              && (r.Live? ==> readBuffer == r.rest && context == old(context)
                              && handled == old(handled) + DispatchAll(context, r.state))
              && (r.Halted? ==> readBuffer == []
                                && var sofar := old(handled) + DispatchAll(old(context), r.state);
                                   handled == if StartsRequest(r.rest) then sofar + [Request(r.rest)] else sofar)
    {
      hide Run, FrameStep;
      FrameStepIsProductive();
      ghost var whole, frames := Run(FrameStep, [], readBuffer), [];
      assert DispatchAll(context, []) == [];
      while |readBuffer| >= 4
        invariant Run(FrameStep, frames, readBuffer) == whole
        invariant context == old(context) && handled == old(handled) + DispatchAll(context, frames)
        decreases |readBuffer|
      {
        RunTurn(FrameStep, frames, readBuffer);
        StepIs(frames, readBuffer);
        if readBuffer[0] == DOLLAR {
          var channel, length := readBuffer[1], readBuffer[2] as int * 256 + readBuffer[3];
          var size := 4 + length;
          if |readBuffer| < size {
            break;
          }
          var data := readBuffer[4..size];
          ghost var f := Frame(channel, data);
          DispatchOneMore(context, frames, f);
          if channel == context.rtcpChannel {
            handled := handled + [RtcpData(data)];
          } else if channel == context.rtpChannel {
            handled := handled + [RtpData(data)];
          }
          frames := frames + [f];
          readBuffer := readBuffer[size..];
        } else {
          if StartsRequest(readBuffer) {
            HandleRtspRequest(readBuffer);
          }
          readBuffer := [];
          return;
        }
      }
      RunTurn(FrameStep, frames, readBuffer);
      StepIs(frames, readBuffer);
    }

    /** A read: parsed for frames while the session plays or is ready, taken for a request otherwise. */
    method OnBytes(data: seq<byte>)
      modifies this
      ensures Productive(FrameStep)
      ensures old(context).interleaved ==>
                var r := Run(FrameStep, [], old(readBuffer) + data);
                && (r.Live? ==> readBuffer == r.rest && context == old(context)
                                && handled == old(handled) + DispatchAll(context, r.state))
                && (r.Halted? ==> readBuffer == []
                                  && var sofar := old(handled) + DispatchAll(old(context), r.state);
                                     handled == if StartsRequest(r.rest) then sofar + [Request(r.rest)] else sofar)
      ensures !old(context).interleaved ==>
                readBuffer == [] && handled == old(handled) + [Request(old(readBuffer) + data)]
    {
      readBuffer := readBuffer + data;
      FrameStepIsProductive();
      if context.interleaved {
        ProcessInterleavedData();
      } else {
        HandleRtspRequest(readBuffer);
        readBuffer := [];
      }
    }

    /** A whole stream of frames, read in any chunks: the handlers get all of them, in order, and nothing is left. */
    method ReceiveAll(chunks: seq<seq<byte>>, ghost frames: seq<Frame>)
      requires context.interleaved && readBuffer == []
      requires Framable(frames) && Concat(chunks) == Concat(FrameTokens(frames))
      modifies this
      ensures readBuffer == [] && context == old(context)
      ensures handled == old(handled) + DispatchAll(context, frames)
    {
      hide FeedAll, FrameStep, Run, DispatchAll;
      FramingRoundTrip(frames, chunks);
      ghost var seen: seq<Frame> := [];
      assert DispatchAll(context, []) == [] by { DispatchNone(context); }
      for k := 0 to |chunks|
        invariant context == old(context) && handled == old(handled) + DispatchAll(context, seen)
        invariant FeedAll(FrameStep, seen, readBuffer, chunks[k..]) == Live(frames, [])
      {
        FeedTurn(seen, readBuffer, chunks[k..]);
        assert chunks[k..][1..] == chunks[k + 1..];
        RunFrom(seen, readBuffer + chunks[k]);
        ghost var r := Run(FrameStep, [], readBuffer + chunks[k]);
        OnBytes(chunks[k]);
        DispatchSplit(context, seen, r.state);
        seen := seen + r.state;
      }
      FeedTurn(seen, readBuffer, chunks[|chunks|..]);
    }
  }

  lemma StepIs(frames: seq<Frame>, buf: seq<byte>)
    ensures |buf| < 4 ==> FrameStep(frames, buf) == Wait
    ensures |buf| >= 4 && buf[0] != DOLLAR ==> FrameStep(frames, buf) == Halt(frames, 0)
    ensures |buf| >= 4 && buf[0] == DOLLAR ==>
              var size := 4 + (buf[2] as int * 256 + buf[3]);
              FrameStep(frames, buf) == if |buf| < size then Wait else Next(frames + [Frame(buf[1], buf[4..size])], size)
  {
  }

  lemma DispatchNone(c: Context)
    ensures DispatchAll(c, []) == []
  {
  }

  lemma {:induction false} DispatchSplit(c: Context, a: seq<Frame>, b: seq<Frame>)
    ensures DispatchAll(c, a + b) == DispatchAll(c, a) + DispatchAll(c, b)
    decreases |b|
  {
    hide Dispatch;
    if b == [] {
      assert a + b == a;
    } else {
      DispatchSplit(c, a, b[..|b| - 1]);
      assert (a + b)[..|a + b| - 1] == a + b[..|b| - 1];
    }
  }

  /** One read of FeedAll. */
  lemma FeedTurn(s: seq<Frame>, buf: seq<byte>, chunks: seq<seq<byte>>)
    requires Productive(FrameStep) && FeedAll(FrameStep, s, buf, chunks).Live?
    ensures chunks == [] ==> FeedAll(FrameStep, s, buf, chunks) == Live(s, buf)
    ensures chunks != [] ==>
              var r := Run(FrameStep, s, buf + chunks[0]);
              r.Live? && FeedAll(FrameStep, s, buf, chunks) == FeedAll(FrameStep, r.state, r.rest, chunks[1..])
  {
    hide FrameStep, Run;
  }

  /** The frames seen before do not matter to the parse. */
  lemma {:induction false} RunFrom(s: seq<Frame>, buf: seq<byte>)
    requires Productive(FrameStep)
    ensures var r, r0 := Run(FrameStep, s, buf), Run(FrameStep, [], buf);
            r.Live? == r0.Live? && r.rest == r0.rest && r.state == s + r0.state
    decreases |buf|
  {
    RunShift(s, [], buf);
    assert s + [] == s;
  }

  lemma {:induction false} RunShift(s: seq<Frame>, t: seq<Frame>, buf: seq<byte>)
    requires Productive(FrameStep)
    ensures var r, r0 := Run(FrameStep, s + t, buf), Run(FrameStep, t, buf);
            r.Live? == r0.Live? && r.rest == r0.rest && r.state == s + r0.state
    decreases |buf|
  {
    hide FrameStep, Run;
    RunTurn(FrameStep, s + t, buf);
    RunTurn(FrameStep, t, buf);
    StepIs(s + t, buf);
    StepIs(t, buf);
    if FrameStep(t, buf).Next? {
      var size := FrameStep(t, buf).used;
      var f := Frame(buf[1], buf[4..size]);
      RunShift(s, t + [f], buf[size..]);
      assert s + (t + [f]) == s + t + [f];
    }
  }
}
