/**
 * The whole way of a video file: the sending timer takes packets from the session's endless stream, the transport
 * writes them to the connection, and a receiver that reads the connection in any chunks gets the units of the file.
 */
module Delivery {
  import opened Bytes
  import opened Incremental
  import opened AnnexB
  import opened NalSource
  import opened Packetizer
  import opened PacketStream
  import opened RtpFraming
  import opened Interleaved

  function BytesOf(f: Frame): seq<byte> {
    WireFrame(f.channel, f.data)
  }

  /** The frame carries the item on the channel, numbered seqNum. */
  predicate CarriesItem(f: Frame, id: byte, c: Channel, seqNum: nat, item: Item) {
    var r := ParseRtp(f.data);
    && f.channel == id && |f.data| < TWO_16
    && r.Some?
    && r.value.version == 2 && !r.value.padding && !r.value.extension && r.value.csrcCount == 0
    && r.value.payloadType == c.payloadType && r.value.ssrc == c.ssrc
    && r.value.seqNum == seqNum
    && r.value.marker == item.piece.last
    && r.value.payload == item.piece.payload
    && (item.timestamp != 0 ==> r.value.timestamp == item.timestamp % TWO_32)
  }

  lemma PacketCarriesItem(id: byte, c: Channel, o: Outgoing, item: Item)
    requires ChannelOk(c) && |o.payload| <= MAX_RTP_PAYLOAD_SIZE
    requires o.last == item.piece.last && o.payload == item.piece.payload
    requires item.timestamp != 0 ==> o.timestamp == item.timestamp
    ensures var f := Frame(id, HeaderBytes(c, o.last, o.timestamp) + o.payload);
            && CarriesItem(f, id, c, c.seqNum, item)
            && BytesOf(f) == PacketFrame(id, c, o)
            && |BytesOf(f)| == PAYLOAD_OFFSET + |o.payload|
  {
    hide HeaderBytes, ParseRtp;
    ParseFilled(c, o);
    FrameLength(id, HeaderBytes(c, o.last, o.timestamp) + o.payload);
  }

  lemma FrameLength(id: byte, data: seq<byte>)
    ensures |WireFrame(id, data)| == |data| + 4
  {
  }

  /** The channel after count packets, apart from its counters. */
  predicate SameChannel(now: Channel, c: Channel, count: nat) {
    now.payloadType == c.payloadType && now.ssrc == c.ssrc && now.seqNum == (c.seqNum + count) % TWO_16
  }

  lemma SameChannelNext(before: Channel, c: Channel, count: nat, sent: bool, size: nat)
    requires SameChannel(before, c, count)
    ensures SameChannel(AfterSend(before, sent, size), c, count + 1)
  {
    NextNumber(c.seqNum, count);
  }

  lemma CarriesTheSame(f: Frame, id: byte, now: Channel, c: Channel, count: nat, item: Item)
    requires SameChannel(now, c, count) && CarriesItem(f, id, now, now.seqNum, item)
    ensures CarriesItem(f, id, c, (c.seqNum + count) % TWO_16, item)
  {
    hide ParseRtp;
  }

  lemma NextInStream<T>(first: seq<T>, all: seq<T>, n: nat)
    requires all != []
    ensures Endless(Rest(first, all, n), all, 0) == Endless(first, all, n)
    ensures Rest(first, all, n + 1) == Drop(Rest(first, all, n), all)
  {
    EndlessIsNext(first, all, n);
  }

  /** What the connection takes of each frame. */
  function WireOf(frames: seq<Frame>, accepted: nat -> nat): seq<byte> {
    if frames == [] then []
    else
      var n := |frames| - 1;
      WireOf(frames[..n], accepted) + Taken(BytesOf(frames[n]), accepted(n))
  }

  lemma WireOneMore(frames: seq<Frame>, f: Frame, accepted: nat -> nat)
    ensures WireOf(frames + [f], accepted) == WireOf(frames, accepted) + Taken(BytesOf(f), accepted(|frames|))
  {
    hide BytesOf, Taken;
    assert (frames + [f])[..|frames|] == frames;
  }

  /** A connection that takes all of every frame gets the frames. */
  lemma {:induction false} WireOfAll(frames: seq<Frame>, accepted: nat -> nat)
    requires forall k :: 0 <= k < |frames| ==> |BytesOf(frames[k])| <= accepted(k)
    ensures WireOf(frames, accepted) == Concat(FrameTokens(frames))
  {
    hide WireFrame;
    if frames == [] {
      ConcatNone<byte>();
    } else {
      var front, f := frames[..|frames| - 1], frames[|frames| - 1];
      WireOfAll(front, accepted);
      assert frames == front + [f];
      OneMoreToken(front, f);
    }
  }

  lemma OneMoreToken(frames: seq<Frame>, f: Frame)
    ensures Concat(FrameTokens(frames + [f])) == Concat(FrameTokens(frames)) + BytesOf(f)
  {
    hide WireFrame;
    TokensAppendOne(frames, f);
    ConcatAppend(FrameTokens(frames), [BytesOf(f)]);
    ConcatOne(BytesOf(f));
  }

  lemma {:induction false} TokensAppendOne(frames: seq<Frame>, f: Frame)
    ensures FrameTokens(frames + [f]) == FrameTokens(frames) + [BytesOf(f)]
  {
    hide WireFrame;
    if frames == [] {
      assert [f][1..] == [];
    } else {
      assert (frames + [f])[1..] == frames[1..] + [f];
      TokensAppendOne(frames[1..], f);
    }
  }

  const NO_ITEM := Item(Piece([], true), 0, 0)

  /** What comes next, if there is anything. */
  function FirstOf(items: seq<Item>, all: seq<Item>): Item {
    if all == [] then NO_ITEM else Endless(items, all, 0)
  }

  // ---- parameter sets ------------------------------------------------------------------------------------------------

  /**
   * What goes out for a parameter set: its bytes are put where the header is to go, so that the header replaces the
   * first four of them.
   */
  function ParameterFrame(id: byte, c: Channel, timestamp: nat, nal: seq<byte>): Frame
    requires ChannelOk(c)
  {
    var header := HeaderBytes(c, true, timestamp);
    Frame(id, if |nal| < 4 then header[..8 + |nal|] else header + nal[4..])
  }

  /** The frames of the parameter sets that there are. */
  function ParameterFrames(id: byte, c: Channel, timestamp: nat, sps: seq<byte>, pps: seq<byte>): (frames: seq<Frame>)
    requires ChannelOk(c)
    ensures |frames| == (if sps == [] then 0 else 1) + (if pps == [] then 0 else 1)
  {
    var first := if sps == [] then [] else [ParameterFrame(id, c, timestamp, sps)];
    first + if pps == [] then [] else [ParameterFrame(id, Numbered(c, |first|), timestamp, pps)]
  }

  predicate FitsInPacket(nal: seq<byte>) {
    RTP_HEADER_SIZE + |nal| <= BUFFER_SIZE
  }

  lemma ParameterFramed(id: byte, c: Channel, timestamp: nat, nal: seq<byte>, p: RtpPacket, buffer: seq<byte>)
    requires ChannelOk(c) && nal != [] && |buffer| == BUFFER_SIZE && FitsInPacket(nal)
    requires buffer[RTP_HEADER_SIZE..RTP_HEADER_SIZE + |nal|] == nal
    requires p.size == RTP_HEADER_SIZE + |nal| && p.last && p.timestamp == timestamp
    ensures var f := ParameterFrame(id, c, timestamp, nal);
            Framed(id, c, p, buffer) == BytesOf(f) && |BytesOf(f)| == p.size
  {
    hide HeaderBytes, WireFrame;
    var header, f := HeaderBytes(c, true, timestamp), ParameterFrame(id, c, timestamp, nal);
    var filled := Patched(buffer, RTP_TCP_HEAD_SIZE, header);
    PatchedParts(buffer, RTP_TCP_HEAD_SIZE, header);
    FrameLength(id, f.data);
    if |nal| < 4 {
      assert filled[RTP_TCP_HEAD_SIZE..PAYLOAD_OFFSET] == header;
      assert filled[RTP_TCP_HEAD_SIZE..p.size] == header[..8 + |nal|];
    } else {
      HeaderAndPayload(filled, buffer, p.size, header);
      assert nal[4..] == buffer[PAYLOAD_OFFSET..p.size];
    }
  }

  /**
   * A parameter set that PLAY sends arrives without its first four bytes, its type among them, or, if it has fewer, as a
   * packet without a whole header; so a receiver gets the set if and only if there is nothing to get.
   */
  lemma ParameterSetIsCut(id: byte, c: Channel, timestamp: nat, nal: seq<byte>)
    requires ChannelOk(c)
    ensures var f := ParameterFrame(id, c, timestamp, nal);
            && (|nal| < 4 <==> ParseRtp(f.data) == None)
            && (|nal| >= 4 ==> PieceOf(f) == Piece(nal[4..], true) && ParseRtp(f.data).value.seqNum == c.seqNum)
            && (PieceOf(f).payload == nal <==> nal == [])
  {
    hide HeaderBytes;
    if |nal| >= 4 {
      ParseFilled(c, Outgoing(true, timestamp, nal[4..]));
    }
  }

  class Player {
    const session: VideoSession
    const transport: RtpTransport
    const id: nat
    var isPlaying: bool
    var isLoopRunning: bool
    /** The timer has been armed and has neither fired nor been cancelled. */
    var timerArmed: bool

    constructor (session: VideoSession, transport: RtpTransport, id: nat)
      requires id < 2
      ensures this.session == session && this.transport == transport && this.id == id
      ensures !isPlaying && !isLoopRunning && !timerArmed
    {
      this.session, this.transport, this.id := session, transport, id;
      isPlaying, isLoopRunning, timerArmed := false, false, false;
    }

    ghost predicate Valid()
      reads session, session.nalSource, session.h264Source, set p | p in session.packetQueue :: p.data
      reads transport
    {
      id < 2 && session.Valid() && transport.Valid()
    }

    /** Starting and stopping the timer loop; starting twice has no further effect. */
    method SetPlaying(playing: bool)
      modifies this
      ensures isPlaying == playing
      ensures playing == old(isPlaying) ==> isLoopRunning == old(isLoopRunning) && timerArmed == old(timerArmed)
      ensures playing && !old(isPlaying) ==> isLoopRunning && timerArmed == (old(timerArmed) || !old(isLoopRunning))
      ensures !playing && old(isPlaying) ==> !isLoopRunning && !timerArmed
    {
      if playing {
        if !isPlaying {
          isPlaying := true;
          if !isLoopRunning {
            isLoopRunning := true;
            timerArmed := true;
          }
        }
      } else {
        if isPlaying {
          isPlaying := false;
          isLoopRunning := false;
          timerArmed := false;
        }
      }
    }

    /** Sends a parameter set in a packet of its own. */
    method SendNal(nal: seq<byte>, accepted: nat)
      requires transport.Valid() && id < 2 && nal != [] && FitsInPacket(nal)
      modifies transport
      ensures transport.Valid() && transport.isClosed == old(transport.isClosed) && transport.hasSender == old(transport.hasSender)
      ensures transport.isClosed || !transport.hasSender ==>
                transport.wire == old(transport.wire) && transport.channels == old(transport.channels)
      ensures !transport.isClosed && transport.hasSender ==>
                var c := old(transport.channels)[id];
                var frame := BytesOf(ParameterFrame(id, c, session.rtpTimestamp, nal));
                && transport.wire == old(transport.wire) + Taken(frame, accepted)
                && transport.channels
                   == old(transport.channels)[id := AfterSend(c, |frame| <= accepted, |frame|)]
    {
      hide HeaderBytes, BytesOf, ParameterFrame, Framed, Taken, AfterSend;
      var data := new byte[BUFFER_SIZE];
      CopyBytes(data, RTP_HEADER_SIZE, nal);
      var p := RtpPacket(data, RTP_HEADER_SIZE + |nal|, session.rtpTimestamp, 0, true);
      assert data[..][RTP_HEADER_SIZE..RTP_HEADER_SIZE + |nal|] == nal;
      ParameterFramed(id, transport.channels[id], session.rtpTimestamp, nal, p, data[..]);
      var ok := transport.SendRtpPacket(id, p, accepted);
    }

    /** The parameter sets that are remembered, each if there is one, ahead of the stream. */
    method SendSpsPps(accepted: nat -> nat) returns (ghost sets: seq<Frame>)
      requires transport.Valid() && id < 2 && FitsInPacket(session.realSps) && FitsInPacket(session.realPps)
      modifies transport
      ensures transport.Valid() && transport.isClosed == old(transport.isClosed) && transport.hasSender == old(transport.hasSender)
      ensures sets == ParameterFrames(id, old(transport.channels)[id], session.rtpTimestamp, session.realSps, session.realPps)
      ensures transport.isClosed || !transport.hasSender ==>
                transport.wire == old(transport.wire) && transport.channels == old(transport.channels)
      ensures !transport.isClosed && transport.hasSender ==>
                && transport.wire == old(transport.wire) + WireOf(sets, accepted)
                && SameChannel(transport.channels[id], old(transport.channels)[id], |sets|)
    {
      hide BytesOf, ParameterFrame, Taken, AfterSend, WireOf, SameChannel, ChannelOk;
      ghost var c, open := transport.channels[id], !transport.isClosed && transport.hasSender;
      sets := [];
      NothingSent(c, accepted);
      var count := 0;
      if session.realSps != [] {
        sets := [ParameterFrame(id, c, session.rtpTimestamp, session.realSps)];
        assert [] + sets == sets && Numbered(c, 0) == c by { SameNumber(c); }
        SendSet(session.realSps, accepted, 0, c, []);
        count := 1;
      }
      if session.realPps != [] {
        SendSet(session.realPps, accepted, count, c, sets);
        sets := sets + [ParameterFrame(id, Numbered(c, count), session.rtpTimestamp, session.realPps)];
      }
    }

    /** Sends a parameter set as the count-th packet of channel c. */
    method SendSet(nal: seq<byte>, accepted: nat -> nat, count: nat, ghost c: Channel, ghost sets: seq<Frame>)
      requires transport.Valid() && ChannelOk(c) && id < 2 && nal != [] && FitsInPacket(nal) && |sets| == count
      requires !transport.isClosed && transport.hasSender ==> SameChannel(transport.channels[id], c, count)
      modifies transport
      ensures transport.Valid() && transport.isClosed == old(transport.isClosed) && transport.hasSender == old(transport.hasSender)
      ensures transport.isClosed || !transport.hasSender ==>
                transport.wire == old(transport.wire) && transport.channels == old(transport.channels)
      ensures !transport.isClosed && transport.hasSender ==>
                var f := ParameterFrame(id, Numbered(c, count), session.rtpTimestamp, nal);
                && SameChannel(transport.channels[id], c, count + 1)
                && (forall before: seq<byte> :: old(transport.wire) == before + WireOf(sets, accepted) ==>
                      transport.wire == before + WireOf(sets + [f], accepted))
    {
      hide BytesOf, ParameterFrame, Taken, AfterSend, WireOf, SameChannel;
      ghost var now := transport.channels[id];
      SendNal(nal, accepted(count));
      if !transport.isClosed && transport.hasSender {
        ghost var f := ParameterFrame(id, now, session.rtpTimestamp, nal);
        SameHeader(id, now, c, count, session.rtpTimestamp, nal);
        SameChannelNext(now, c, count, |BytesOf(f)| <= accepted(count), |BytesOf(f)|);
        WireOneMore(sets, f, accepted);
      }
    }

    /**
     * A PLAY request, refused unless the session is ready.  The file starts over, the parameter sets go out, and the
     * timer starts.
     */
    method Play(millis: nat, accepted: nat -> nat) returns (ok: bool, ghost sets: seq<Frame>)
      requires Valid() && FitsInPacket(session.realSps) && FitsInPacket(session.realPps)
      modifies this, session, session.nalSource, transport
      ensures Valid() && ok == (old(session.state) == READY) && session.state == if ok then PLAYING else old(session.state)
      ensures session.nalSource == old(session.nalSource)
      ensures session.packetQueue == old(session.packetQueue) && session.pending == old(session.pending)
      ensures session.rtpTimestamp == if ok && old(session.rtpTimestamp) == 0 then millis % 864000000 * 90 / 1000
                                      else old(session.rtpTimestamp)
      ensures session.nalSource != null ==>
                && session.nalSource.cachedNals == old(session.nalSource.cachedNals)
                && session.nalSource.frameRate == old(session.nalSource.frameRate)
                && session.All() != []
                && (ok ==> forall n: nat ::
                      Endless(session.Remaining(), session.All(), n) == Endless(session.pending, session.All(), n))
      ensures isPlaying == (ok || old(isPlaying)) && (!ok || old(isPlaying) ==> isLoopRunning == old(isLoopRunning))
      ensures ok && !old(isPlaying) ==> isLoopRunning
      ensures transport.isClosed == old(transport.isClosed) && transport.hasSender == old(transport.hasSender)
      ensures ok ==> sets == ParameterFrames(id, old(transport.channels)[id], session.rtpTimestamp,
                                             old(session.realSps), old(session.realPps))
      ensures !ok || transport.isClosed || !transport.hasSender ==>
                transport.wire == old(transport.wire) && transport.channels == old(transport.channels)
      ensures ok && !transport.isClosed && transport.hasSender ==>
                && transport.wire == old(transport.wire) + WireOf(sets, accepted)
                && SameChannel(transport.channels[id], old(transport.channels)[id], |sets|)
    {
      hide Items, NalSource.Frames, Endless, WireOf, SameChannel, ParameterFrames, UnitOk;
      sets := [];
      ok := session.Play(millis, true);
      if ok {
        sets := SendSpsPps(accepted);
        SetPlaying(true);
      }
    }

    /** Sends a packet of the stream; the frame it makes carries the item, whether or not it gets out. */
    method SendPacket(p: RtpPacket, accepted: nat, ghost item: Item) returns (ghost sent: Frame)
      requires transport.Valid() && id < 2 && Matches(p, item)
      modifies transport, p.data
      ensures transport.Valid() && transport.isClosed == old(transport.isClosed) && transport.hasSender == old(transport.hasSender)
      ensures CarriesItem(sent, id, old(transport.channels)[id], old(transport.channels)[id].seqNum, item)
      ensures transport.isClosed || !transport.hasSender ==>
                transport.wire == old(transport.wire) && transport.channels == old(transport.channels)
      ensures !transport.isClosed && transport.hasSender ==>
                var frame := BytesOf(sent);
                && transport.wire == old(transport.wire) + Taken(frame, accepted)
                && transport.channels
                   == old(transport.channels)[id := AfterSend(old(transport.channels)[id], |frame| <= accepted, |frame|)]
    {
      hide HeaderBytes, WireFrame, CarriesItem, PacketFrame, ParseRtp, Framed, Taken, AfterSend;
      ghost var c, o := transport.channels[id], OutgoingOf(p);
      PacketCarriesItem(id, c, o, item);
      FramedPacket(id, c, p, p.data[..]);
      assert p.data[..][PAYLOAD_OFFSET..p.size] == o.payload;
      var ok := transport.SendRtpPacket(id, p, accepted);
      sent := Frame(id, HeaderBytes(c, o.last, o.timestamp) + o.payload);
    }

    /** The next packet of the stream, if there is one, is taken and sent. */
    method TakeAndSend(now: nat, accepted: nat) returns (ghost sent: Option<Frame>)
      requires Valid()
      modifies session, session.nalSource, transport, set p | p in session.packetQueue :: p.data
      ensures Valid() && session.SameFile()
      ensures forall p :: p in session.packetQueue ==> p in old(session.packetQueue) || fresh(p.data)
      ensures transport.isClosed == old(transport.isClosed) && transport.hasSender == old(transport.hasSender)
      ensures sent.Some? <==> session.nalSource != null || old(session.packetQueue) != []
      ensures session.nalSource != null ==>
                && session.All() == old(session.All()) != []
                && session.Remaining() == Drop(old(session.Remaining()), session.All())
      ensures session.nalSource == null ==>
                session.pending == if sent.Some? then old(session.pending)[1..] else old(session.pending)
      ensures sent.Some? ==>
                var item := if session.nalSource != null then Endless(old(session.Remaining()), session.All(), 0)
                            else old(session.pending)[0];
                CarriesItem(sent.value, id, old(transport.channels)[id], old(transport.channels)[id].seqNum, item)
      ensures sent.None? || transport.isClosed || !transport.hasSender ==>
                transport.wire == old(transport.wire) && transport.channels == old(transport.channels)
      ensures sent.Some? && !transport.isClosed && transport.hasSender ==>
                var frame := BytesOf(sent.value);
                && transport.wire == old(transport.wire) + Taken(frame, accepted)
                && transport.channels
                   == old(transport.channels)[id := AfterSend(old(transport.channels)[id], |frame| <= accepted, |frame|)]
    {
      hide Items, NalSource.Frames, WireFrame, BytesOf, CarriesItem, UnitOk, Taken, AfterSend, TimeOf, ParseRtp;
      ghost var item := if session.nalSource != null then FirstOf(session.Remaining(), session.All())
                        else if session.pending != [] then session.pending[0] else NO_ITEM;
      sent := None;
      var p := session.ProduceNextPacket(now);
      if p.Some? {
        ghost var frame := SendPacket(p.value, accepted, item);
        sent := Some(frame);
      }
    }

    /**
     * The timer's turn: the next packet, if there is one, is taken and sent, and the timer is armed again while the
     * session plays.  A packet that does not get out is lost to the stream.
     */
    method OnTimer(cancelled: bool, now: nat, accepted: nat) returns (ghost sent: Option<Frame>)
      requires Valid()
      modifies `timerArmed, session, session.nalSource, transport, set p | p in session.packetQueue :: p.data
      ensures Valid() && session.SameFile()
      ensures forall p :: p in session.packetQueue ==> p in old(session.packetQueue) || fresh(p.data)
      ensures transport.isClosed == old(transport.isClosed) && transport.hasSender == old(transport.hasSender)
      ensures var turn := !cancelled && isPlaying && isLoopRunning;
              && timerArmed == (if cancelled then old(timerArmed) else turn)
              && (sent.Some? <==> turn && (session.nalSource != null || old(session.packetQueue) != []))
              && (!turn ==> session.pending == old(session.pending))
              && (session.nalSource != null ==>
                    && session.All() == old(session.All()) != []
                    && session.Remaining() == if turn then Drop(old(session.Remaining()), session.All())
                                              else old(session.Remaining()))
              && (turn && session.nalSource == null ==>
                    session.pending == if sent.Some? then old(session.pending)[1..] else old(session.pending))
      ensures sent.Some? ==>
                var item := if session.nalSource != null then Endless(old(session.Remaining()), session.All(), 0)
                            else old(session.pending)[0];
                CarriesItem(sent.value, id, old(transport.channels)[id], old(transport.channels)[id].seqNum, item)
      ensures sent.None? || transport.isClosed || !transport.hasSender ==>
                transport.wire == old(transport.wire) && transport.channels == old(transport.channels)
      ensures sent.Some? && !transport.isClosed && transport.hasSender ==>
                var frame := BytesOf(sent.value);
                && transport.wire == old(transport.wire) + Taken(frame, accepted)
                && transport.channels
                   == old(transport.channels)[id := AfterSend(old(transport.channels)[id], |frame| <= accepted, |frame|)]
    {
      hide Items, NalSource.Frames, BytesOf, CarriesItem, UnitOk, Taken, AfterSend, Endless, Drop, MatchAll;
      sent := None;
      if session.nalSource != null {
        AllNonEmpty(session.nalSource.cachedNals, session.Step());
      }
      if cancelled {
        return;
      }
      timerArmed := false;
      if !isPlaying || !isLoopRunning {
        return;
      }
      sent := TakeAndSend(now, accepted);
      timerArmed := true;
    }

    /** One turn of a player that plays a file on an open connection, as the count-th packet of channel c. */
    method Tick(now: nat, accepted: nat, ghost c: Channel, ghost count: nat) returns (ghost sent: Frame)
      requires Valid() && session.nalSource != null && Sending() && SameChannel(transport.channels[id], c, count)
      modifies `timerArmed, session, session.nalSource, transport, set p | p in session.packetQueue :: p.data
      ensures Valid() && session.SameFile() && Sending() && SameChannel(transport.channels[id], c, count + 1)
      ensures forall p :: p in session.packetQueue ==> p in old(session.packetQueue) || fresh(p.data)
      ensures session.All() == old(session.All()) != []
      ensures session.Remaining() == Drop(old(session.Remaining()), session.All())
      ensures transport.wire == old(transport.wire) + Taken(BytesOf(sent), accepted)
      ensures CarriesItem(sent, id, c, (c.seqNum + count) % TWO_16, Endless(old(session.Remaining()), session.All(), 0))
    {
      hide Items, NalSource.Frames, CarriesItem, BytesOf, Taken, AfterSend, Endless, Drop, UnitOk, SameChannel;
      ghost var now' := transport.channels[id];
      ghost var maybe := OnTimer(false, now, accepted);
      sent := maybe.value;
      SameChannelNext(now', c, count, |BytesOf(sent)| <= accepted, |BytesOf(sent)|);
      CarriesTheSame(sent, id, now', c, count, Endless(old(session.Remaining()), session.All(), 0));
    }

    ghost predicate Sending()
      reads this, transport
    {
      isPlaying && isLoopRunning && !transport.isClosed && transport.hasSender
    }

    /**
     * The timer firing count times, the connection taking as much of each frame as it will.  Frame k carries packet k of
     * the stream and is numbered k after the first; the wire gets what is taken of each frame.
     */
    method PlayTicks(count: nat, clock: nat -> nat, accepted: nat -> nat) returns (ghost frames: seq<Frame>)
      requires Valid() && session.nalSource != null && Sending()
      modifies `timerArmed, session, session.nalSource, transport, set p | p in session.packetQueue :: p.data
      ensures Valid() && session.SameFile() && Sending() && session.All() == old(session.All()) != []
      ensures |frames| == count && transport.wire == old(transport.wire) + WireOf(frames, accepted)
      ensures var c := old(transport.channels)[id];
              forall k :: 0 <= k < count ==>
                CarriesItem(frames[k], id, c, (c.seqNum + k) % TWO_16, Endless(old(session.Remaining()), old(session.All()), k))
    {
      hide Items, NalSource.Frames, CarriesItem, BytesOf, Taken, Endless, Rest, Drop, UnitOk, WireOf, SameChannel, MatchAll, ChannelOk;
      frames := [];
      ghost var first, all, c := session.Remaining(), session.All(), transport.channels[id];
      AllNonEmpty(session.nalSource.cachedNals, session.Step());
      RestStarts(first, all);
      NothingSent(c, accepted);
      for i := 0 to count
        invariant Valid() && session.SameFile() && Sending() && session.All() == all
        invariant forall p :: p in session.packetQueue ==> p in old(session.packetQueue) || fresh(p.data)
        invariant session.Remaining() == Rest(first, all, i)
        invariant SameChannel(transport.channels[id], c, i)
        invariant |frames| == i && transport.wire == old(transport.wire) + WireOf(frames, accepted)
        invariant forall k :: 0 <= k < i ==> CarriesItem(frames[k], id, c, (c.seqNum + k) % TWO_16, Endless(first, all, k))
      {
        ghost var sent := Tick(clock(i), accepted(i), c, i);
        NextInStream(first, all, i);
        WireOneMore(frames, sent, accepted);
        frames := frames + [sent];
      }
    }
  }

  lemma SameNumber(c: Channel)
    requires ChannelOk(c)
    ensures Numbered(c, 0) == c
  {
  }

  /** The header depends on the number of the channel only, not on its counters. */
  lemma SameHeader(id: byte, now: Channel, c: Channel, count: nat, timestamp: nat, nal: seq<byte>)
    requires ChannelOk(now) && ChannelOk(c) && SameChannel(now, c, count)
    ensures ParameterFrame(id, now, timestamp, nal) == ParameterFrame(id, Numbered(c, count), timestamp, nal)
  {
  }

  lemma NothingSent(c: Channel, accepted: nat -> nat)
    requires ChannelOk(c)
    ensures SameChannel(c, c, 0) && WireOf([], accepted) == []
  {
  }

  // ---- at the other end --------------------------------------------------------------------------------------------

  /** What a receiver takes from a frame: payload and marker. */
  function PieceOf(f: Frame): Piece {
    match ParseRtp(f.data)
    case None => Piece([], false)
    case Some(r) => Piece(r.payload, r.marker)
  }

  function PiecesOfFrames(frames: seq<Frame>): (pieces: seq<Piece>)
    ensures |pieces| == |frames|
  {
    seq(|frames|, k requires 0 <= k < |frames| => PieceOf(frames[k]))
  }

  /**
   * File to receiver.  Of a session that plays a file from its start, k times as many packets as the file has are on the
   * wire, behind some other frames.  However the bytes are cut into reads, the receiver finds exactly these frames, and
   * depacketising the packets gives the units of the file, without the dropped delimiters, k times over.
   */
  lemma FileIsDelivered(nals: seq<NalUnit>, time: Clock, k: nat, id: byte, c: Channel, sets: seq<Frame>,
                        frames: seq<Frame>, chunks: seq<seq<byte>>)
    requires nals != [] && SendableUnits(nals)
    requires var all := Items(NalSource.Frames(nals, 0), 0, time);
             && all != [] && |frames| == |Passes(all, k)|
             && forall n :: 0 <= n < |frames| ==> CarriesItem(frames[n], id, c, (c.seqNum + n) % TWO_16, Endless(all, all, n))
    requires Framable(sets) && Concat(chunks) == Concat(FrameTokens(sets + frames))
    ensures Productive(FrameStep) && FeedAll(FrameStep, [], [], chunks) == Live(sets + frames, [])
    ensures AcceptAll(Receiver([], None), PiecesOfFrames(frames))
            == Receiver(Passes(DatasOf(Kept(nals, 0, 0, |nals|)), k), None)
  {
    hide Items, NalSource.Frames, Passes, Endless, AcceptAll, SendableUnits, FeedAll, FrameStep, FrameTokens, ParseRtp, Kept;
    var all := Items(NalSource.Frames(nals, 0), 0, time);
    assert Framable(sets + frames) by {
      forall n | 0 <= n < |frames| ensures |frames[n].data| < TWO_16 {
        assert CarriesItem(frames[n], id, c, (c.seqNum + n) % TWO_16, Endless(all, all, n));
      }
    }
    FramingRoundTrip(sets + frames, chunks);
    StreamIsTheFile(nals, time, k);
    forall n | 0 <= n < |frames| ensures PieceOf(frames[n]) == PiecesOf(Passes(all, k))[n] {
      assert CarriesItem(frames[n], id, c, (c.seqNum + n) % TWO_16, Endless(all, all, n));
      assert Passes(all, k)[n] == Endless(all, all, n);
    }
    assert PiecesOfFrames(frames) == PiecesOf(Passes(all, k));
  }

  // ---- the stages put together ---------------------------------------------------------------------------------------

  lemma {:induction false} PassesLength<T>(all: seq<T>, k: nat)
    ensures |Passes(all, k)| == k * |all|
  {
    if k > 0 {
      PassesLength(all, k - 1);
      assert k * |all| == (k - 1) * |all| + |all|;
    }
  }

  /** The number of packets of a file. */
  function PacketCount(file: seq<byte>): nat {
    |AllPackets(Grouped(Units(file)))|
  }

  lemma StreamLength(nals: seq<NalUnit>, file: seq<byte>, time: Clock)
    requires Datas(nals) == Units(file) && forall u :: u in nals ==> UnitOk(u)
    ensures DatasOf(Kept(nals, 0, 0, |nals|)) == Grouped(Units(file))
    ensures |Items(NalSource.Frames(nals, 0), 0, time)| == PacketCount(file)
  {
    hide Items, NalSource.Frames, Kept, Grouped, AllPackets, Units, PiecesOf, DatasOf, UnitOk;
    KeptIsGrouped(nals, |nals|);
    assert Datas(nals)[..|nals|] == Datas(nals);
    FramesPartition(nals, 0);
    ItemsPieces(NalSource.Frames(nals, 0), 0, time);
    assert |PiecesOf(Items(NalSource.Frames(nals, 0), 0, time))| == |Items(NalSource.Frames(nals, 0), 0, time)|;
  }

  lemma UnitsAreSendable(nals: seq<NalUnit>, file: seq<byte>)
    requires Datas(nals) == Units(file) && (forall u :: u in nals ==> UnitOk(u)) && Sendable(Units(file))
    ensures SendableUnits(nals)
  {
    hide Units;
    forall u | u in nals ensures 1 <= u.nalType <= 23 {
      var k :| 0 <= k < |nals| && nals[k] == u;
      assert Units(file)[k] == u.data;
    }
  }

  /**
   * A receiver has got the file: the frames, and from those behind the parameter sets its grouped units the given number
   * of times.
   */
  ghost predicate Received(file: seq<byte>, passes: nat, sets: seq<Frame>, frames: seq<Frame>, chunks: seq<seq<byte>>) {
    && Productive(FrameStep) && FeedAll(FrameStep, [], [], chunks) == Live(sets + frames, [])
    && AcceptAll(Receiver([], None), PiecesOfFrames(frames)) == Receiver(Passes(Grouped(Units(file)), passes), None)
  }

  /** What was played is received, however the bytes of the wire are cut. */
  lemma PlayedIsReceived(nals: seq<NalUnit>, file: seq<byte>, time: Clock, passes: nat, id: byte, c: Channel,
                         sets: seq<Frame>, frames: seq<Frame>, chunks: seq<seq<byte>>)
    requires nals != [] && Datas(nals) == Units(file) && forall u :: u in nals ==> UnitOk(u)
    requires Sendable(Units(file)) && |frames| == passes * PacketCount(file)
    requires var all := Items(NalSource.Frames(nals, 0), 0, time);
             && all != []
             && forall n :: 0 <= n < |frames| ==> CarriesItem(frames[n], id, c, (c.seqNum + n) % TWO_16, Endless(all, all, n))
    requires Framable(sets) && Concat(chunks) == Concat(FrameTokens(sets + frames))
    ensures Received(file, passes, sets, frames, chunks)
  {
    hide Items, NalSource.Frames, Kept, Grouped, PacketCount, Units, CarriesItem, Endless, Passes, FeedAll, AcceptAll,
         Concat, FrameTokens, FrameStep, Framable, Sendable, SendableUnits, DatasOf;
    StreamLength(nals, file, time);
    UnitsAreSendable(nals, file);
    PassesLength(Items(NalSource.Frames(nals, 0), 0, time), passes);
    FileIsDelivered(nals, time, passes, id, c, sets, frames, chunks);
  }

  /** No frame is longer than this: a packet of the stream takes 1436 bytes, one of a parameter set at most a buffer. */
  const MAX_WIRE_FRAME := BUFFER_SIZE

  lemma FramesAreSmall(frames: seq<Frame>, accepted: nat -> nat, id: byte, c: Channel, all: seq<Item>)
    requires all != [] && forall item :: item in all ==> |item.piece.payload| <= MAX_RTP_PAYLOAD_SIZE
    requires forall n :: 0 <= n < |frames| ==> CarriesItem(frames[n], id, c, (c.seqNum + n) % TWO_16, Endless(all, all, n))
    requires forall n :: MAX_WIRE_FRAME <= accepted(n)
    ensures WireOf(frames, accepted) == Concat(FrameTokens(frames))
  {
    hide Endless, WireOf, FrameTokens, Concat, BytesOf;
    forall k | 0 <= k < |frames| ensures |BytesOf(frames[k])| <= accepted(k) {
      EndlessIn(all, k);
      var item := Endless(all, all, k);
      assert CarriesItem(frames[k], id, c, (c.seqNum + k) % TWO_16, item);
      SmallFrame(frames[k]);
    }
    WireOfAll(frames, accepted);
  }

  lemma SmallFrame(f: Frame)
    requires ParseRtp(f.data).Some? && |ParseRtp(f.data).value.payload| <= MAX_RTP_PAYLOAD_SIZE
    ensures |BytesOf(f)| <= MAX_WIRE_FRAME
  {
    FrameLength(f.channel, f.data);
  }

  lemma EndlessIn<T>(all: seq<T>, n: nat)
    requires all != []
    ensures Endless(all, all, n) in all
  {
    EndlessAt(all, all, n);
  }

  lemma {:induction false} PiecesAreSmall(nals: seq<seq<byte>>)
    ensures forall p :: p in AllPackets(nals) ==> |p.payload| <= MAX_RTP_PAYLOAD_SIZE
  {
    hide Packets;
    if nals != [] {
      PiecesAreSmall(nals[1..]);
      forall p | p in Packets(nals[0]) ensures |p.payload| <= MAX_RTP_PAYLOAD_SIZE {
        var k :| 0 <= k < |Packets(nals[0])| && Packets(nals[0])[k] == p;
        PacketShape(nals[0], k);
      }
    }
  }

  lemma ItemsAreSmall(frames: seq<seq<FrameUnit>>, index: nat, time: Clock)
    ensures forall item :: item in Items(frames, index, time) ==> |item.piece.payload| <= MAX_RTP_PAYLOAD_SIZE
  {
    hide Items, AllPackets, Concat, DatasOf;
    var items := Items(frames, index, time);
    ItemsPieces(frames, index, time);
    PiecesAreSmall(DatasOf(Concat(frames)));
    forall item | item in items ensures |item.piece.payload| <= MAX_RTP_PAYLOAD_SIZE {
      var k :| 0 <= k < |items| && items[k] == item;
      assert PiecesOf(items)[k] == item.piece;
    }
  }

  lemma {:induction false} TokensTogether(a: seq<Frame>, b: seq<Frame>)
    ensures Concat(FrameTokens(a + b)) == Concat(FrameTokens(a)) + Concat(FrameTokens(b))
    decreases |b|
  {
    hide FrameTokens, BytesOf;
    if b == [] {
      assert a + b == a;
      NoTokens();
    } else {
      var n := |b| - 1;
      TokensTogether(a, b[..n]);
      OneMoreToken(a + b[..n], b[n]);
      OneMoreToken(b[..n], b[n]);
      assert a + b == a + b[..n] + [b[n]] && b == b[..n] + [b[n]];
    }
  }

  lemma NoTokens()
    ensures Concat(FrameTokens([])) == []
  {
  }

  /** The frames of the parameter sets are short, go out whole, and are on the channel. */
  lemma SetsAreFramable(id: byte, c: Channel, timestamp: nat, sps: seq<byte>, pps: seq<byte>, accepted: nat -> nat)
    requires ChannelOk(c) && FitsInPacket(sps) && FitsInPacket(pps) && forall n :: MAX_WIRE_FRAME <= accepted(n)
    ensures var sets := ParameterFrames(id, c, timestamp, sps, pps);
            && Framable(sets) && WireOf(sets, accepted) == Concat(FrameTokens(sets))
            && forall k :: 0 <= k < |sets| ==> sets[k].channel == id
  {
    hide HeaderBytes, WireFrame, FrameTokens, WireOf;
    var sets := ParameterFrames(id, c, timestamp, sps, pps);
    forall k | 0 <= k < |sets| ensures |BytesOf(sets[k])| <= accepted(k) && |sets[k].data| < TWO_16 {
      FrameLength(id, sets[k].data);
      assert MAX_WIRE_FRAME <= accepted(k);
    }
    WireOfAll(sets, accepted);
  }

  /**
   * A connection is accepted, its session loads a file, SETUP makes it ready and gives it a transport, and PLAY sends the
   * parameter sets and starts the timer.
   */
  method StartPlaying(channels: seq<Channel>, file: seq<byte>, millis: nat, accepted: nat -> nat)
    returns (player: Player, ghost sets: seq<Frame>)
    requires |channels| == 2 && ChannelOk(channels[0]) && ChannelOk(channels[1])
    requires Units(file) != [] && forall k :: 0 <= k < |Units(file)| ==> |Units(file)[k]| < TWO_32 - 1
    requires FitsInPacket(ParameterSet(file, 7)) && FitsInPacket(ParameterSet(file, 8))
    ensures fresh(player) && fresh(player.session) && fresh(player.transport) && player.Valid() && player.id == 0
    ensures player.Sending() && player.session.packetQueue == []
    ensures sets == ParameterFrames(0, channels[0], millis % 864000000 * 90 / 1000, ParameterSet(file, 7), ParameterSet(file, 8))
    ensures player.transport.wire == WireOf(sets, accepted) && SameChannel(player.transport.channels[0], channels[0], |sets|)
    ensures var session := player.session;
            && session.nalSource != null && fresh(session.nalSource) && Datas(session.nalSource.cachedNals) == Units(file)
            && session.Step() == Clock(millis % 864000000 * 90 / 1000, 3600)
            && session.All() != []
            && forall n: nat :: Endless(session.Remaining(), session.All(), n) == Endless([], session.All(), n)
  {
    hide Units, Items, NalSource.Frames, Endless, WireOf, Datas, UnitOk, ParameterSet, ParameterFrames, SameChannel;
    var session := new VideoSession();
    session.LoadVideoFile(file);
    session.Setup();
    var transport := new RtpTransport(channels);
    player := new Player(session, transport, 0);
    var ok;
    ok, sets := player.Play(millis, accepted);
    assert [] + WireOf(sets, accepted) == WireOf(sets, accepted);
    assert session.pending == [];
  }

  /**
   * From file to receiver.  A session that has been accepted, set up and told to play a file of units that may be sent
   * has its timer fire as often as passes times the file has packets, on a connection that takes everything.  Then,
   * however the bytes of the wire are cut into reads, the receiver finds the frames of the parameter sets and behind them
   * frames with consecutive numbers that carry the stream; depacketising these gives the grouped units of the file,
   * passes times over; and every one of them has the timestamp of its picture, 3600 ticks for each picture of the file
   * before it.  All frames are on channel 0, so a client that dispatches on the channels it has negotiated gets
   * them as RTP if and only if it has channel 0 for RTP and another for RTCP.
   */
  method DeliverFile(channels: seq<Channel>, file: seq<byte>, millis: nat, passes: nat, clock: nat -> nat,
                     accepted: nat -> nat)
    returns (player: Player, ghost sets: seq<Frame>, ghost frames: seq<Frame>)
    requires |channels| == 2 && ChannelOk(channels[0]) && ChannelOk(channels[1])
    requires Units(file) != [] && Sendable(Units(file))
    requires forall k :: 0 <= k < |Units(file)| ==> |Units(file)[k]| < TWO_32 - 1
    requires FitsInPacket(ParameterSet(file, 7)) && FitsInPacket(ParameterSet(file, 8))
    requires forall n :: MAX_WIRE_FRAME <= accepted(n)
    ensures fresh(player) && player.Valid()
    ensures sets == ParameterFrames(0, channels[0], millis % 864000000 * 90 / 1000, ParameterSet(file, 7), ParameterSet(file, 8))
    ensures |frames| == passes * PacketCount(file)
    ensures forall n :: 0 <= n < |frames| ==> IsNumbered(frames[n], 0, (channels[0].seqNum + |sets| + n) % TWO_16)
    ensures forall n :: 0 <= n < |frames| ==>
              IsOnTime(frames[n], millis % 864000000 * 90 / 1000, PictureNumber(file, n % PacketCount(file)))
    ensures forall chunks: seq<seq<byte>> :: Concat(chunks) == player.transport.wire ==>
                               Received(file, passes, sets, frames, chunks)
    ensures forall client: Context :: passes > 0 ==>
              (DispatchAll(client, sets + frames) == RtpDatas(sets + frames) <==> client.rtpChannel == 0 != client.rtcpChannel)
  {
    hide Units, Sendable, Items, NalSource.Frames, Endless, CarriesItem, WireOf, Received, Datas, UnitOk, SameChannel,
         PacketCount, FrameTokens, IsNumbered, ParameterSet, ParameterFrames, DispatchAll, RtpDatas, FitsInPacket, IsOnTime,
         PictureNumber;
    player, sets := StartPlaying(channels, file, millis, accepted);
    ghost var c, stream, all := player.transport.channels[0], player.session.Remaining(), player.session.All();
    ghost var nals, time := player.session.nalSource.cachedNals, player.session.Step();
    frames := player.PlayTicks(passes * PacketCount(file), clock, accepted);
    StreamOfTheFile(frames, 0, c, stream, all);
    var timestamp := millis % 864000000 * 90 / 1000;
    SetsAreFramable(0, channels[0], timestamp, ParameterSet(file, 7), ParameterSet(file, 8), accepted);
    AllNumbered(channels[0], c, sets, frames);
    WholeIsReceived(nals, file, time, passes, c, sets, frames, accepted);
    FramesAreOnTime(nals, file, timestamp, c, frames);
    ClientOnChannels(passes, PacketCount(file), sets, frames);
  }

  /** The picture of the file that packet m of the file belongs to. */
  function PictureNumber(file: seq<byte>, m: nat): nat {
    FrameNumber(NalSource.Frames(NalsOf(file), 0), m)
  }

  /** Stamped with the time of picture i, 25 to the second; a time of zero is replaced by the clock's. */
  predicate IsOnTime(f: Frame, base: nat, i: nat) {
    var due := (base + 3600 * i) % TWO_32;
    ParseRtp(f.data).Some? && (due != 0 ==> ParseRtp(f.data).value.timestamp == due)
  }

  lemma FramesAreOnTime(nals: seq<NalUnit>, file: seq<byte>, base: nat, c: Channel, frames: seq<Frame>)
    requires Datas(nals) == Units(file) && forall u :: u in nals ==> UnitOk(u)
    requires PacketCount(file) > 0
    requires var all := Items(NalSource.Frames(nals, 0), 0, Clock(base, 3600));
             && all != []
             && forall n :: 0 <= n < |frames| ==> CarriesItem(frames[n], 0, c, (c.seqNum + n) % TWO_16, Endless(all, all, n))
    ensures forall n :: 0 <= n < |frames| ==> IsOnTime(frames[n], base, PictureNumber(file, n % PacketCount(file)))
  {
    hide Items, NalSource.Frames, Endless, CarriesItem, PacketCount, IsOnTime, Units, UnitOk;
    var all := Items(NalSource.Frames(nals, 0), 0, Clock(base, 3600));
    StreamLength(nals, file, Clock(base, 3600));
    CachedUnits(nals, file);
    forall n | 0 <= n < |frames| ensures IsOnTime(frames[n], base, PictureNumber(file, n % PacketCount(file))) {
      var item := Endless(all, all, n);
      FromNothing(all, n);
      EndlessAt([], all, n);
      TimestampAt(NalSource.Frames(nals, 0), 0, Clock(base, 3600), n % |all|);
      CarriesTime(frames[n], 0, c, (c.seqNum + n) % TWO_16, item, base, PictureNumber(file, n % |all|));
    }
  }

  lemma CarriesTime(f: Frame, id: byte, c: Channel, seqNum: nat, item: Item, base: nat, i: nat)
    requires CarriesItem(f, id, c, seqNum, item) && item.timestamp == (base + (0 + i) * 3600) % TWO_32
    ensures IsOnTime(f, base, i)
  {
    hide ParseRtp;
  }

  /** What is on the wire in the end is received, however it is cut. */
  lemma WholeIsReceived(nals: seq<NalUnit>, file: seq<byte>, time: Clock, passes: nat, c: Channel, sets: seq<Frame>,
                        frames: seq<Frame>, accepted: nat -> nat)
    requires nals != [] && Datas(nals) == Units(file) && forall u :: u in nals ==> UnitOk(u)
    requires Sendable(Units(file)) && |frames| == passes * PacketCount(file)
    requires var all := Items(NalSource.Frames(nals, 0), 0, time);
             && all != []
             && forall n :: 0 <= n < |frames| ==> CarriesItem(frames[n], 0, c, (c.seqNum + n) % TWO_16, Endless(all, all, n))
    requires Framable(sets) && WireOf(sets, accepted) == Concat(FrameTokens(sets))
    requires forall n :: MAX_WIRE_FRAME <= accepted(n)
    ensures PacketCount(file) > 0
    ensures forall chunks: seq<seq<byte>> :: Concat(chunks) == WireOf(sets, accepted) + WireOf(frames, accepted) ==>
                               Received(file, passes, sets, frames, chunks)
  {
    hide Units, Sendable, Items, NalSource.Frames, Endless, CarriesItem, WireOf, Received, Datas, UnitOk, PacketCount,
         FrameTokens, Framable, Concat;
    StreamLength(nals, file, time);
    WholeWire(nals, time, frames, accepted, 0, c);
    TokensTogether(sets, frames);
    forall chunks: seq<seq<byte>> | Concat(chunks) == WireOf(sets, accepted) + WireOf(frames, accepted)
      ensures Received(file, passes, sets, frames, chunks)
    {
      PlayedIsReceived(nals, file, time, passes, 0, c, sets, frames, chunks);
    }
  }

  lemma ClientOnChannels(passes: nat, count: nat, sets: seq<Frame>, frames: seq<Frame>)
    requires |frames| == passes * count && count > 0
    requires forall k :: 0 <= k < |sets + frames| ==> (sets + frames)[k].channel == 0
    ensures forall client: Context :: passes > 0 ==>
              (DispatchAll(client, sets + frames) == RtpDatas(sets + frames) <==> client.rtpChannel == 0 != client.rtcpChannel)
  {
    hide DispatchAll, RtpDatas;
    if passes > 0 {
      SomeFrames(passes, count);
      forall client: Context
        ensures DispatchAll(client, sets + frames) == RtpDatas(sets + frames) <==> client.rtpChannel == 0 != client.rtcpChannel
      {
        NegotiatedChannelIff(client, 0, sets + frames);
      }
    }
  }

  lemma SomeFrames(passes: nat, count: nat)
    requires passes > 0 && count > 0
    ensures passes * count > 0
  {
  }

  /** Numbers counted from the first parameter set. */
  lemma AllNumbered(first: Channel, c: Channel, sets: seq<Frame>, frames: seq<Frame>)
    requires SameChannel(c, first, |sets|) && forall k :: 0 <= k < |sets| ==> sets[k].channel == 0
    requires forall n :: 0 <= n < |frames| ==> IsNumbered(frames[n], 0, (c.seqNum + n) % TWO_16)
    ensures forall n :: 0 <= n < |frames| ==> IsNumbered(frames[n], 0, (first.seqNum + |sets| + n) % TWO_16)
    ensures forall k :: 0 <= k < |sets + frames| ==> (sets + frames)[k].channel == 0
  {
    hide ParseRtp;
    forall n | 0 <= n < |frames|
      ensures IsNumbered(frames[n], 0, (first.seqNum + |sets| + n) % TWO_16) && frames[n].channel == 0
    {
      assert IsNumbered(frames[n], 0, (c.seqNum + n) % TWO_16);
      SumOfNumbers(first.seqNum + |sets|, n);
    }
  }

  lemma SumOfNumbers(a: nat, n: nat)
    ensures (a % TWO_16 + n) % TWO_16 == (a + n) % TWO_16
  {
  }

  /** An RTP packet on the channel, with the number. */
  predicate IsNumbered(f: Frame, id: byte, seqNum: nat) {
    f.channel == id && ParseRtp(f.data).Some? && ParseRtp(f.data).value.seqNum == seqNum
  }

  lemma CarriesNumber(f: Frame, id: byte, c: Channel, seqNum: nat, item: Item)
    requires CarriesItem(f, id, c, seqNum, item)
    ensures IsNumbered(f, id, seqNum)
  {
    hide ParseRtp;
  }

  lemma StreamOfTheFile(frames: seq<Frame>, id: byte, c: Channel, stream: seq<Item>, all: seq<Item>)
    requires all != [] && forall n: nat :: Endless(stream, all, n) == Endless([], all, n)
    requires forall n :: 0 <= n < |frames| ==> CarriesItem(frames[n], id, c, (c.seqNum + n) % TWO_16, Endless(stream, all, n))
    ensures forall n :: 0 <= n < |frames| ==>
              && CarriesItem(frames[n], id, c, (c.seqNum + n) % TWO_16, Endless(all, all, n))
              && IsNumbered(frames[n], id, (c.seqNum + n) % TWO_16)
  {
    hide CarriesItem, IsNumbered, Endless;
    forall n | 0 <= n < |frames|
      ensures CarriesItem(frames[n], id, c, (c.seqNum + n) % TWO_16, Endless(all, all, n))
      ensures IsNumbered(frames[n], id, (c.seqNum + n) % TWO_16)
    {
      FromNothing(all, n);
      CarriesNumber(frames[n], id, c, (c.seqNum + n) % TWO_16, Endless(all, all, n));
    }
  }

  lemma FromNothing<T>(all: seq<T>, n: nat)
    requires all != []
    ensures Endless([], all, n) == Endless(all, all, n)
  {
    EndlessAfterAll([], all, n);
    assert [] + all == all;
  }

  lemma WholeWire(nals: seq<NalUnit>, time: Clock, frames: seq<Frame>, accepted: nat -> nat, id: byte, c: Channel)
    requires forall n :: MAX_WIRE_FRAME <= accepted(n)
    requires var all := Items(NalSource.Frames(nals, 0), 0, time);
             && all != []
             && forall n :: 0 <= n < |frames| ==> CarriesItem(frames[n], id, c, (c.seqNum + n) % TWO_16, Endless(all, all, n))
    ensures WireOf(frames, accepted) == Concat(FrameTokens(frames))
  {
    hide Items, NalSource.Frames, Endless, CarriesItem, WireOf, FrameTokens, Concat;
    ItemsAreSmall(NalSource.Frames(nals, 0), 0, time);
    FramesAreSmall(frames, accepted, id, c, Items(NalSource.Frames(nals, 0), 0, time));
  }

  // ---- the channel a client negotiates -------------------------------------------------------------------------------

  /** What a client's RTP handler is to get from the player. */
  function RtpDatas(frames: seq<Frame>): seq<Handled> {
    if frames == [] then [] else RtpDatas(frames[..|frames| - 1]) + [RtpData(frames[|frames| - 1].data)]
  }

  lemma {:induction false} DispatchedAlike(client: Context, id: byte, frames: seq<Frame>)
    requires client.rtcpChannel != id && forall k :: 0 <= k < |frames| ==> frames[k].channel == id
    ensures DispatchAll(client, frames) == if client.rtpChannel == id then RtpDatas(frames) else []
    decreases |frames|
  {
    if frames != [] {
      DispatchedAlike(client, id, frames[..|frames| - 1]);
    }
  }

  /** What a client's RTCP handler would get. */
  function RtcpDatas(frames: seq<Frame>): seq<Handled> {
    if frames == [] then [] else RtcpDatas(frames[..|frames| - 1]) + [RtcpData(frames[|frames| - 1].data)]
  }

  /** On a client's RTCP channel frames go to its RTCP handler, even if its RTP channel is the same. */
  lemma {:induction false} DispatchedAsRtcp(client: Context, frames: seq<Frame>)
    requires forall k :: 0 <= k < |frames| ==> frames[k].channel == client.rtcpChannel
    ensures DispatchAll(client, frames) == RtcpDatas(frames)
    decreases |frames|
  {
    if frames != [] {
      DispatchedAsRtcp(client, frames[..|frames| - 1]);
    }
  }

  /**
   * The player writes the index of the media channel, whatever was negotiated: a client that dispatches on the channels
   * it negotiated gets the frames if and only if its RTP channel is that index, and its RTCP channel another.
   */
  lemma {:induction false} NegotiatedChannelIff(client: Context, id: byte, frames: seq<Frame>)
    requires frames != [] && forall k :: 0 <= k < |frames| ==> frames[k].channel == id
    ensures DispatchAll(client, frames) == RtpDatas(frames) <==> client.rtpChannel == id && client.rtcpChannel != id
  {
    if client.rtcpChannel == id {
      var n := |frames| - 1;
      assert DispatchAll(client, frames) == DispatchAll(client, frames[..n]) + [RtcpData(frames[n].data)];
      assert RtpDatas(frames) == RtpDatas(frames[..n]) + [RtpData(frames[n].data)];
      LastsDiffer(DispatchAll(client, frames[..n]), RtcpData(frames[n].data), RtpDatas(frames[..n]), RtpData(frames[n].data));
    } else {
      DispatchedAlike(client, id, frames);
    }
  }

  /** A client on channels 2 and 3, which SETUP grants, gets nothing of what the player writes. */
  lemma {:induction false} ChannelsTwoAndThree(frames: seq<Frame>)
    requires frames != [] && forall k :: 0 <= k < |frames| ==> frames[k].channel == 0
    ensures DispatchAll(Context(true, 2, 3), frames) == [] != RtpDatas(frames)
  {
    DispatchedAlike(Context(true, 2, 3), 0, frames);
    NegotiatedChannelIff(Context(true, 2, 3), 0, frames);
  }

  lemma LastsDiffer<T>(a: seq<T>, x: T, b: seq<T>, y: T)
    requires x != y
    ensures a + [x] != b + [y]
  {
    if |a| == |b| {
      assert (a + [x])[|a|] == x && (b + [y])[|b|] == y;
    } else {
      assert |a + [x]| != |b + [y]|;
    }
  }
}
