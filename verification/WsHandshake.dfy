/**
 * The opening handshake and its hand-over: bytes that arrive behind the HTTP request already belong to the first frames.
 * Whether a request text is a valid upgrade is a parameter of the model.
 */
module WsHandshake {
  import opened Bytes
  import opened Strings
  import opened Incremental
  import opened WsReceive
  import Base64
  import Hashing

  type UpgradeCheck = seq<byte> -> bool

  /** A connection: the handshake buffer and the receiving half behind it. */
  datatype Conn = Conn(handshake: seq<byte>, rcv: Receiver)

  /** CR LF CR LF at position i. */
  predicate EndsAt(data: seq<byte>, i: nat) {
    i + 3 < |data| && data[i] == 13 && data[i + 1] == 10 && data[i + 2] == 13 && data[i + 3] == 10
  }

  /** The first blank line at or after position i. */
  function FirstEnd(data: seq<byte>, i: nat): (end: Option<nat>)
    ensures end.None? ==> forall k :: i <= k < |data| ==> !EndsAt(data, k)
    ensures end.Some? ==> i <= end.value && EndsAt(data, end.value) && forall k :: i <= k < end.value ==> !EndsAt(data, k)
    decreases |data| - i
  {
    if i + 3 >= |data| then None
    else if EndsAt(data, i) then Some(i)
    else FirstEnd(data, i + 1)
  }

  lemma EndInside(data: seq<byte>)
    requires FirstEnd(data, 0).Some?
    ensures FirstEnd(data, 0).value + 4 <= |data|
  {
  }

  /** The loop of ParseHttpRequest: the number of bytes up to and including the blank line, or zero. */
  method FindHeaderEnd(data: seq<byte>) returns (consumed: nat)
    ensures match FirstEnd(data, 0)
            case None => consumed == 0
            case Some(i) => consumed == i + 4
  {
    var i := 0;
    while i + 3 < |data|
      invariant FirstEnd(data, 0) == FirstEnd(data, i)
      decreases |data| - i
    {
      if data[i] == 13 && data[i + 1] == 10 && data[i + 2] == 13 && data[i + 3] == 10 {
        return i + 4;
      }
      i := i + 1;
    }
    return 0;
  }

  predicate IsBlankLine(data: seq<byte>, k: nat) {
    k + 4 <= |data| && data[k..k + 4] == [13, 10, 13, 10]
  }

  lemma EndIsBlankLine(data: seq<byte>, k: nat)
    ensures EndsAt(data, k) <==> IsBlankLine(data, k)
  {
    if k + 4 <= |data| {
      assert data[k..k + 4] == [data[k], data[k + 1], data[k + 2], data[k + 3]];
    }
  }

  /** The request ends in front of the first CR LF CR LF. */
  lemma FirstBlankLine(data: seq<byte>, i: nat)
    ensures FirstEnd(data, 0) == Some(i) <==> IsBlankLine(data, i) && forall k :: 0 <= k < i ==> !IsBlankLine(data, k)
  {
    hide EndsAt, IsBlankLine;
    forall k | 0 <= k ensures EndsAt(data, k) <==> IsBlankLine(data, k) {
      EndIsBlankLine(data, k);
    }
    if FirstEnd(data, 0) == None && IsBlankLine(data, i) {
      InsideData(data, i);
    }
  }

  lemma InsideData(data: seq<byte>, i: nat)
    requires IsBlankLine(data, i)
    ensures i < |data|
  {
  }

  function Drop(c: Conn, code: CloseCode): Conn {
    c.(rcv := c.rcv.(sess := DoClose(c.rcv.sess, code), reading := false))
  }

  function Opened(s: Sess, now: int): Sess {
    s.(state := Active, refreshes := s.refreshes + 1, timer := Some(now))
  }

  /** A read completed during the handshake; `replyOk` says whether the response could be written. */
  ghost function Handshake(upgrade: UpgradeCheck, c: Conn, chunk: seq<byte>, replyOk: bool, now: int): Conn {
    var buf := c.handshake + chunk;
    var c' := c.(handshake := buf);
    if |buf| > c.rcv.sess.opt.maxHandshakeBytes then Drop(c', PROTOCOL_ERROR)
    else
      match FirstEnd(buf, 0)
      case None => c'
      case Some(i) =>
        if !upgrade(buf[..i]) then Drop(c', PROTOCOL_ERROR)
        else if !replyOk then Drop(c', ABNORMAL_CLOSURE)
        else Conn([], HandOver(Opened(c.rcv.sess, now), c.rcv.buf + buf[i + 4..]))
  }

  ghost function HandOver(s: Sess, frameBuf: seq<byte>): Receiver {
    if frameBuf != [] then ProcessFrameBuffer(s, frameBuf) else Receiver(s, frameBuf, true)
  }

  ghost function Arrive(upgrade: UpgradeCheck, c: Conn, chunk: seq<byte>, replyOk: bool, now: int): Conn {
    if c.rcv.sess.state == Handshaking then Handshake(upgrade, c, chunk, replyOk, now)
    else c.(rcv := Receive(c.rcv, chunk))
  }

  ghost function ArriveAll(upgrade: UpgradeCheck, c: Conn, chunks: seq<seq<byte>>, now: int): Conn
    decreases |chunks|
  {
    if chunks == [] || !c.rcv.reading then c
    else ArriveAll(upgrade, Arrive(upgrade, c, chunks[0], true, now), chunks[1..], now)
  }

  /** No read overflows the buffer it is appended to. */
  ghost predicate ArrivalsFit(upgrade: UpgradeCheck, c: Conn, chunks: seq<seq<byte>>, now: int)
    decreases |chunks|
  {
    chunks == [] || !c.rcv.reading || (
      (if c.rcv.sess.state == Handshaking then |c.handshake| + |chunks[0]| <= c.rcv.sess.opt.maxHandshakeBytes
       else |c.rcv.buf| + |chunks[0]| <= c.rcv.sess.opt.maxFrameBufferBytes)
      && ArrivalsFit(upgrade, Arrive(upgrade, c, chunks[0], true, now), chunks[1..], now))
  }

  ghost predicate AwaitsRequest(c: Conn) {
    && c.rcv.reading && c.rcv.buf == []
    && c.rcv.sess.state == Handshaking && c.rcv.sess.exit == None
    && FirstEnd(c.handshake, 0) == None
  }

  lemma FirstEndStable(data: seq<byte>, more: seq<byte>)
    requires FirstEnd(data, 0).Some?
    ensures FirstEnd(data + more, 0) == FirstEnd(data, 0)
  {
    var i := FirstEnd(data, 0).value;
    assert forall k :: 0 <= k <= i ==> (EndsAt(data + more, k) <==> EndsAt(data, k));
    assert EndsAt(data + more, i);
  }

  lemma SameEnd(buf: seq<byte>, tail: seq<byte>, request: seq<byte>, stream: seq<byte>)
    requires buf + tail == request + stream
    requires FirstEnd(buf, 0).Some?
    requires |request| >= 4 && FirstEnd(request, 0) == Some(|request| - 4)
    ensures FirstEnd(buf, 0) == Some(|request| - 4)
    ensures |buf| >= |request| && buf[..|request| - 4] == request[..|request| - 4]
    ensures stream == buf[|request|..] + tail
  {
    FirstEndStable(buf, tail);
    FirstEndStable(request, stream);
    TwoCuts(buf, tail, request, stream);
  }

  /** After the hand-over the remaining reads are frame data only. */
  lemma {:induction false} ArriveActive(upgrade: UpgradeCheck, c: Conn, chunks: seq<seq<byte>>, now: int)
    requires c.rcv.sess.state == Active && Reading(c.rcv)
    ensures ArriveAll(upgrade, c, chunks, now) == c.(rcv := ReceiveAll(c.rcv, chunks))
    ensures ArrivalsFit(upgrade, c, chunks, now) ==> Fits(c.rcv, chunks)
    decreases |chunks|
  {
    if chunks != [] {
      var r' := Receive(c.rcv, chunks[0]);
      FrameStepProductive();
      ActiveRun(c.rcv.sess, c.rcv.buf + chunks[0]);
      if r'.reading {
        ArriveActive(upgrade, c.(rcv := r'), chunks[1..], now);
      }
    }
  }

  /**
   * Hand-over: however request and frames are cut into reads, no byte behind the blank line is lost or parsed twice.
   * The session ends as if it had been opened first and then given the frame bytes alone.
   */
  lemma {:induction false} HandOverLosesNothing(upgrade: UpgradeCheck, c: Conn, request: seq<byte>, stream: seq<byte>,
                                                chunks: seq<seq<byte>>, now: int)
    requires AwaitsRequest(c) && ArrivalsFit(upgrade, c, chunks, now)
    requires |request| >= 4 && FirstEnd(request, 0) == Some(|request| - 4) && upgrade(request[..|request| - 4])
    requires c.handshake + Concat(chunks) == request + stream
    ensures Productive(ActiveStep)
    ensures var out := ArriveAll(upgrade, c, chunks, now);
            match Run(ActiveStep, Opened(c.rcv.sess, now), stream)
            case Live(s', rest) => out == Conn([], Receiver(s', rest, true))
            case Halted(s', _) => !out.rcv.reading && out.rcv.sess.exit == s'.exit && s'.exit.Some?
    decreases |chunks|
  {
    hide Run, ActiveStep, HandOver, FirstEnd;
    FrameStepProductive();
    FirstEndStable(request, stream);
    assert c.handshake + [] == c.handshake;
    if chunks != [] {
      var buf, tail := c.handshake + chunks[0], Concat(chunks[1..]);
      assert buf + tail == request + stream;
      if FirstEnd(buf, 0) == None {
        HandOverLosesNothing(upgrade, c.(handshake := buf), request, stream, chunks[1..], now);
      } else {
        SameEnd(buf, tail, request, stream);
        var rest := buf[|request|..];
        assert [] + rest == rest;
        HandOverThenRead(upgrade, Opened(c.rcv.sess, now), rest, chunks[1..], now);
      }
    }
  }

  lemma HandOverThenRead(upgrade: UpgradeCheck, s: Sess, rest: seq<byte>, chunks: seq<seq<byte>>, now: int)
    requires s.state == Active && s.exit == None
    requires ArrivalsFit(upgrade, Conn([], HandOver(s, rest)), chunks, now)
    ensures Productive(ActiveStep)
    ensures var out := ArriveAll(upgrade, Conn([], HandOver(s, rest)), chunks, now);
            match Run(ActiveStep, s, rest + Concat(chunks))
            case Live(s', left) => out == Conn([], Receiver(s', left, true))
            case Halted(s', _) => !out.rcv.reading && out.rcv.sess.exit == s'.exit && s'.exit.Some?
  {
    FrameStepProductive();
    FrameStepStable();
    ActiveRun(s, rest);
    RunAppend(ActiveStep, s, rest, Concat(chunks));
    var r := HandOver(s, rest);
    if Run(ActiveStep, s, rest).Live? {
      assert r == Receiver(Run(ActiveStep, s, rest).state, Run(ActiveStep, s, rest).rest, true);
      ArriveActive(upgrade, Conn([], r), chunks, now);
      ChunkIndependence(r, chunks);
    }
  }

  // ---- the accept key -----------------------------------------------------------------------------------------------

  const MAGIC_GUID := "258EAFA5-E914-47DA-95CA-C5AB0DC85B11"

  /** Section 4.2.2 of RFC 6455: 28 characters from which exactly the digest of key and GUID can be read back. */
  method ComputeAcceptKey(key: seq<byte>) returns (accept: string)
    ensures |accept| == 28
    ensures Base64.Decoded(accept) == Some(Hashing.Digest(key + Ascii("258EAFA5-E914-47DA-95CA-C5AB0DC85B11")))
  {
    hide Hashing.Digest, Base64.Encoded, Base64.Decoded;
    var digest := Hashing.Hash(key + Ascii(MAGIC_GUID));
    accept := Base64.Base64Encode(digest);
    Base64.LengthAndPadding(digest);
    Base64.DecodedEncoded(digest);
  }
}
