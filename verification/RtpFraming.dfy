/** RTP headers and interleaved framing: filling in a packet's header and writing it to the RTSP connection. */
module RtpFraming {
  import opened Bytes
  import opened Packetizer

  /** The state of one media channel that sending uses. */
  datatype Channel = Channel(payloadType: nat, seqNum: nat, ssrc: nat, packetCount: nat, octetCount: nat)

  predicate ChannelOk(c: Channel) {
    c.payloadType < 128 && c.seqNum < TWO_16 && c.ssrc < TWO_32
  }

  /** What is sent of one packet: marker, timestamp and payload. */
  datatype Outgoing = Outgoing(last: bool, timestamp: nat, payload: seq<byte>)

  function HeaderBytes(c: Channel, last: bool, timestamp: nat): (s: seq<byte>)
    requires ChannelOk(c)
    ensures |s| == RTP_HEADER_SIZE
  {
    [0x80, c.payloadType + if last then 128 else 0]
      + U16Bytes(c.seqNum) + U32Bytes(timestamp % TWO_32) + U32Bytes(c.ssrc)
  }

  /** Section 5.1 of RFC 3550. */
  datatype Rtp = Rtp(version: nat, padding: bool, extension: bool, csrcCount: nat, marker: bool, payloadType: nat,
                     seqNum: nat, timestamp: nat, ssrc: nat, payload: seq<byte>)

  function ParseRtp(s: seq<byte>): Option<Rtp> {
    if |s| < RTP_HEADER_SIZE then None
    else Some(Rtp(s[0] / 64, s[0] / 32 % 2 == 1, s[0] / 16 % 2 == 1, s[0] % 16, s[1] >= 128, s[1] % 128,
                  U16(s[2..4]), U32(s[4..8]), U32(s[8..12]), s[12..]))
  }

  /** A filled packet parses to version 2, the marker exactly on last packets, and the channel's numbers. */
  lemma ParseFilled(c: Channel, o: Outgoing)
    requires ChannelOk(c)
    ensures ParseRtp(HeaderBytes(c, o.last, o.timestamp) + o.payload)
            == Some(Rtp(2, false, false, 0, o.last, c.payloadType, c.seqNum, o.timestamp % TWO_32, c.ssrc, o.payload))
  {
    hide U16, U32, U16Bytes, U32Bytes;
    var a, b, d := U16Bytes(c.seqNum), U32Bytes(o.timestamp % TWO_32), U32Bytes(c.ssrc);
    assert |a| == 2 && |b| == 4 && |d| == 4 by { Sizes(c.seqNum, o.timestamp % TWO_32, c.ssrc); }
    U16Inverse(c.seqNum);
    U32Inverse(o.timestamp % TWO_32);
    U32Inverse(c.ssrc);
    var s := HeaderBytes(c, o.last, o.timestamp) + o.payload;
    assert s[2..4] == a && s[4..8] == b && s[8..12] == d && s[12..] == o.payload;
  }

  lemma Sizes(a: nat, b: nat, c: nat)
    ensures |U16Bytes(a)| == 2 && |U32Bytes(b)| == 4 && |U32Bytes(c)| == 4
  {
  }

  // ---- interleaved frames ------------------------------------------------------------------------------------------

  const DOLLAR: byte := 0x24

  /** Section 10.12 of RFC 2326: a dollar sign, the channel and the length in front of the data. */
  function WireFrame(channel: byte, data: seq<byte>): seq<byte> {
    [DOLLAR, channel] + U16Bytes(|data| % TWO_16) + data
  }

  /** The channel after an attempt to send: the number has been used whether or not the attempt succeeded. */
  function AfterSend(c: Channel, sent: bool, size: nat): Channel {
    var next := c.(seqNum := (c.seqNum + 1) % TWO_16);
    if sent then next.(packetCount := c.packetCount + 1, octetCount := c.octetCount + size) else next
  }

  /** An attempt to send a packet of some size. */
  datatype Attempt = Attempt(sent: bool, size: nat)

  function AfterSends(c: Channel, attempts: seq<Attempt>): Channel {
    if attempts == [] then c
    else
      var last := attempts[|attempts| - 1];
      AfterSend(AfterSends(c, attempts[..|attempts| - 1]), last.sent, last.size)
  }

  /** The attempts that succeeded. */
  function Sent(attempts: seq<Attempt>): seq<Attempt> {
    if attempts == [] then []
    else Sent(attempts[..|attempts| - 1]) + if attempts[|attempts| - 1].sent then [attempts[|attempts| - 1]] else []
  }

  function Octets(attempts: seq<Attempt>): nat {
    if attempts == [] then 0 else Octets(attempts[..|attempts| - 1]) + attempts[|attempts| - 1].size
  }

  /** Numbers are consecutive modulo 2^16 over all attempts; the counters are about what went out. */
  lemma {:induction false} NumbersAreConsecutive(c: Channel, attempts: seq<Attempt>)
    requires ChannelOk(c)
    ensures AfterSends(c, attempts)
            == c.(seqNum := (c.seqNum + |attempts|) % TWO_16,
                  packetCount := c.packetCount + |Sent(attempts)|, octetCount := c.octetCount + Octets(Sent(attempts)))
    decreases |attempts|
  {
    if attempts != [] {
      var front, last := attempts[..|attempts| - 1], attempts[|attempts| - 1];
      NumbersAreConsecutive(c, front);
      NextNumber(c.seqNum, |front|);
      assert (Sent(front) + [last])[..|Sent(front)|] == Sent(front) && Sent(front) + [] == Sent(front);
    }
  }

  lemma NextNumber(first: nat, n: nat)
    ensures ((first + n) % TWO_16 + 1) % TWO_16 == (first + (n + 1)) % TWO_16
  {
  }

  function OutgoingOf(p: RtpPacket): Outgoing
    reads p.data
    requires PAYLOAD_OFFSET <= p.size <= p.data.Length
  {
    Outgoing(p.last, p.timestamp, p.data[PAYLOAD_OFFSET..p.size])
  }

  /** s with the bytes of t over it from offset on. */
  function Patched(s: seq<byte>, offset: nat, t: seq<byte>): (r: seq<byte>)
    requires offset + |t| <= |s|
    ensures |r| == |s|
  {
    s[..offset] + t + s[offset + |t|..]
  }

  lemma PatchTwice(s: seq<byte>, offset: nat, t: seq<byte>, u: seq<byte>)
    requires offset + |t| + |u| <= |s|
    ensures Patched(Patched(s, offset, t), offset + |t|, u) == Patched(s, offset, t + u)
  {
  }

  lemma PatchedParts(s: seq<byte>, offset: nat, t: seq<byte>)
    requires offset + |t| <= |s|
    ensures var r := Patched(s, offset, t);
            r[..offset] == s[..offset] && r[offset..offset + |t|] == t && r[offset + |t|..] == s[offset + |t|..]
  {
  }

  method Overwrite(data: array<byte>, offset: nat, t: seq<byte>)
    requires offset + |t| <= data.Length
    modifies data
    ensures data[..] == Patched(old(data[..]), offset, t)
  {
    CopyBytes(data, offset, t);
    assert data[..] == data[..offset] + data[offset..offset + |t|] + data[offset + |t|..];
    assert old(data[..])[..offset] == old(data[..offset]);
    assert old(data[..])[offset + |t|..] == old(data[offset + |t|..]);
  }

  /** The interleaved frame of a packet on a channel. */
  function PacketFrame(id: byte, c: Channel, o: Outgoing): seq<byte>
    requires ChannelOk(c)
  {
    WireFrame(id, HeaderBytes(c, o.last, o.timestamp) + o.payload)
  }

  /**
   * What is to be written for a packet whose buffer holds the given bytes; nothing if the packet has no more than its
   * room for the interleaving header.
   */
  function Framed(id: byte, c: Channel, p: RtpPacket, buffer: seq<byte>): (frame: seq<byte>)
    requires ChannelOk(c) && PAYLOAD_OFFSET <= |buffer| && p.size <= |buffer|
    ensures |frame| == if p.size <= RTP_TCP_HEAD_SIZE then 0 else p.size
  {
    if p.size <= RTP_TCP_HEAD_SIZE then []
    else WireFrame(id, Patched(buffer, RTP_TCP_HEAD_SIZE, HeaderBytes(c, p.last, p.timestamp))[RTP_TCP_HEAD_SIZE..p.size])
  }

  /** A packet with room for both headers goes out with its header and its payload. */
  lemma FramedPacket(id: byte, c: Channel, p: RtpPacket, buffer: seq<byte>)
    requires ChannelOk(c) && PAYLOAD_OFFSET <= p.size <= |buffer|
    ensures Framed(id, c, p, buffer) == PacketFrame(id, c, Outgoing(p.last, p.timestamp, buffer[PAYLOAD_OFFSET..p.size]))
  {
    hide HeaderBytes, WireFrame, Patched;
    var header := HeaderBytes(c, p.last, p.timestamp);
    HeaderAndPayload(Patched(buffer, RTP_TCP_HEAD_SIZE, header), buffer, p.size, header);
  }

  /** What the connection takes of a frame. */
  function Taken(frame: seq<byte>, accepted: nat): (r: seq<byte>)
    ensures r <= frame && |r| == if accepted < |frame| then accepted else |frame|
  {
    if accepted >= |frame| then frame else frame[..accepted]
  }

  class RtpTransport {
    var channels: seq<Channel>
    var isClosed: bool
    var hasSender: bool
    /** Everything written to the connection. */
    var wire: seq<byte>

    ghost predicate Valid()
      reads this
    {
      |channels| == 2 && ChannelOk(channels[0]) && ChannelOk(channels[1])
    }

    /** Channels as they are after negotiation; the sequence numbers may start anywhere. */
    constructor (channels: seq<Channel>)
      requires |channels| == 2 && ChannelOk(channels[0]) && ChannelOk(channels[1])
      ensures Valid() && this.channels == channels && !isClosed && hasSender && wire == []
    {
      this.channels := channels;
      isClosed, hasSender, wire := false, true, [];
    }

    /** Fills the header of a packet in its buffer and uses up a sequence number; the payload stays as it is. */
    method FillRtpHeader(id: nat, p: RtpPacket)
      requires Valid() && id < 2 && PAYLOAD_OFFSET <= p.data.Length
      modifies `channels, p.data
      ensures Valid() && channels == old(channels)[id := AfterSend(old(channels)[id], false, 0)]
      ensures p.data[..] == Patched(old(p.data[..]), RTP_TCP_HEAD_SIZE, HeaderBytes(old(channels)[id], p.last, p.timestamp))
    {
      hide U16Bytes, U32Bytes, Patched;
      var c := channels[id];
      var flags: seq<byte> := [2 * 64, (if p.last then 128 else 0) + c.payloadType];
      var number, time, source := U16Bytes(c.seqNum), U32Bytes(p.timestamp % TWO_32), U32Bytes(c.ssrc);
      Sizes(c.seqNum, p.timestamp % TWO_32, c.ssrc);
      Overwrite(p.data, 4, flags);
      Overwrite(p.data, 6, number);
      PatchTwice(old(p.data[..]), 4, flags, number);
      Overwrite(p.data, 8, time);
      PatchTwice(old(p.data[..]), 4, flags + number, time);
      Overwrite(p.data, 12, source);
      PatchTwice(old(p.data[..]), 4, flags + number + time, source);
      channels := channels[id := c.(seqNum := (c.seqNum + 1) % TWO_16)];
    }

    /**
     * Writes a packet to the connection, which takes the given number of bytes; the write fails if that is not all.
     * A packet with no more than its room for the interleaving header is not written at all.
     */
    method Send(id: nat, p: RtpPacket, accepted: nat) returns (ok: bool)
      requires id < 2 && p.size <= p.data.Length
      modifies `wire
      ensures ok == (RTP_TCP_HEAD_SIZE < p.size <= accepted)
      ensures wire == old(wire) + if p.size <= RTP_TCP_HEAD_SIZE then []
                                  else Taken(WireFrame(id, p.data[RTP_TCP_HEAD_SIZE..p.size]), accepted)
    {
      if p.size <= RTP_TCP_HEAD_SIZE {
        return false;
      }
      var size := p.size - RTP_TCP_HEAD_SIZE;
      var buffer := new byte[size + 4];
      buffer[0] := DOLLAR;
      buffer[1] := id;
      buffer[2] := size / 256 % 256;
      buffer[3] := size % 256;
      CopyBytes(buffer, 4, p.data[RTP_TCP_HEAD_SIZE..p.size]);
      FrameBytes(id, p.data[RTP_TCP_HEAD_SIZE..p.size], buffer[..]);
      ok := accepted >= size + 4;
      wire := wire + if ok then buffer[..] else buffer[..accepted];
    }

    /** Fills in the header and sends; the counters advance only if the packet went out. */
    method SendRtpPacket(id: nat, p: RtpPacket, accepted: nat) returns (ok: bool)
      requires Valid() && id < 2 && PAYLOAD_OFFSET <= p.data.Length && p.size <= p.data.Length
      modifies this, p.data
      ensures Valid() && isClosed == old(isClosed) && hasSender == old(hasSender)
      ensures p.data[PAYLOAD_OFFSET..] == old(p.data[PAYLOAD_OFFSET..])
      ensures isClosed || !hasSender ==> !ok && channels == old(channels) && wire == old(wire)
      ensures !(isClosed || !hasSender) ==>
                && ok == (RTP_TCP_HEAD_SIZE < p.size <= accepted)
                && wire == old(wire) + Taken(Framed(id, old(channels)[id], p, old(p.data[..])), accepted)
                && channels == old(channels)[id := AfterSend(old(channels)[id], ok, p.size)]
    {
      hide U16Bytes, U32Bytes, WireFrame, HeaderBytes, Patched;
      if isClosed || !hasSender {
        return false;
      }
      FillRtpHeader(id, p);
      PatchedParts(old(p.data[..]), RTP_TCP_HEAD_SIZE, HeaderBytes(old(channels)[id], p.last, p.timestamp));
      assert p.data[PAYLOAD_OFFSET..] == p.data[..][PAYLOAD_OFFSET..];
      assert p.size > RTP_TCP_HEAD_SIZE ==>
               p.data[RTP_TCP_HEAD_SIZE..p.size] == p.data[..][RTP_TCP_HEAD_SIZE..p.size];
      ok := Send(id, p, accepted);
      if !ok {
        return false;
      }
      var c := channels[id];
      channels := channels[id := c.(packetCount := c.packetCount + 1, octetCount := c.octetCount + p.size)];
    }

    /**
     * Attempts to send a list of packets, of each of which the connection takes some number of bytes.  The wire gets
     * what is taken of each frame; frame k is numbered k after the first, whatever became of those before it; and the
     * channel is what the attempts make of it.
     */
    method SendAll(id: nat, packets: seq<RtpPacket>, accepted: seq<nat>, ghost outs: seq<Outgoing>)
      requires Valid() && id < 2 && |accepted| == |packets| == |outs| && !isClosed && hasSender
      requires forall k :: 0 <= k < |packets| ==>
                 PAYLOAD_OFFSET <= packets[k].size <= packets[k].data.Length && OutgoingOf(packets[k]) == outs[k]
      modifies this, set p | p in packets :: p.data
      ensures Valid() && !isClosed && hasSender
      ensures wire == old(wire) + Concat(WireParts(id, old(channels)[id], outs, accepted))
      ensures channels == old(channels)[id := AfterSends(old(channels)[id], Attempts(outs, accepted))]
    {
      hide WireParts, AfterSends, Attempts, PacketFrame, Framed, Concat, Taken, AfterSend;
      ghost var c, before := channels[id], wire;
      NothingTried(id, c);
      for i := 0 to |packets|
        invariant Valid() && !isClosed && hasSender
        invariant forall k :: 0 <= k < |packets| ==> OutgoingOf(packets[k]) == outs[k]
        invariant wire == before + Concat(WireParts(id, c, outs[..i], accepted[..i]))
        invariant channels == old(channels)[id := AfterSends(c, Attempts(outs[..i], accepted[..i]))]
      {
        ghost var p, data := packets[i], packets[i].data[..];
        FramedPacket(id, channels[id], p, data);
        assert data[PAYLOAD_OFFSET..p.size] == p.data[PAYLOAD_OFFSET..p.size];
        OneMoreAttempt(id, c, outs, accepted, i);
        var ok := SendRtpPacket(id, packets[i], accepted[i]);
        Regroup(before, Concat(WireParts(id, c, outs[..i], accepted[..i])), Taken(PacketFrame(id, Numbered(c, i), outs[i]), accepted[i]));
      }
      assert outs[..|outs|] == outs && accepted[..|accepted|] == accepted;
    }
  }

  /** The channel k packets later, as far as headers go. */
  function Numbered(c: Channel, k: nat): (r: Channel)
    ensures ChannelOk(c) ==> ChannelOk(r)
  {
    c.(seqNum := (c.seqNum + k) % TWO_16)
  }

  function WireParts(id: byte, c: Channel, outs: seq<Outgoing>, accepted: seq<nat>): (parts: seq<seq<byte>>)
    requires ChannelOk(c) && |accepted| == |outs|
    ensures |parts| == |outs|
  {
    seq(|outs|, k requires 0 <= k < |outs| => Taken(PacketFrame(id, Numbered(c, k), outs[k]), accepted[k]))
  }

  function Attempts(outs: seq<Outgoing>, accepted: seq<nat>): (attempts: seq<Attempt>)
    requires |accepted| == |outs|
    ensures |attempts| == |outs|
  {
    seq(|outs|, k requires 0 <= k < |outs| =>
          Attempt(PAYLOAD_OFFSET + |outs[k].payload| <= accepted[k], PAYLOAD_OFFSET + |outs[k].payload|))
  }

  lemma NothingTried(id: byte, c: Channel)
    requires ChannelOk(c)
    ensures Concat(WireParts(id, c, [], [])) == [] && AfterSends(c, Attempts([], [])) == c
  {
  }

  lemma OneMoreAttempt(id: byte, c: Channel, outs: seq<Outgoing>, accepted: seq<nat>, i: nat)
    requires ChannelOk(c) && |accepted| == |outs| && i < |outs|
    ensures var now, size := AfterSends(c, Attempts(outs[..i], accepted[..i])), PAYLOAD_OFFSET + |outs[i].payload|;
            && ChannelOk(now)
            && PacketFrame(id, now, outs[i]) == PacketFrame(id, Numbered(c, i), outs[i])
            && Concat(WireParts(id, c, outs[..i + 1], accepted[..i + 1]))
               == Concat(WireParts(id, c, outs[..i], accepted[..i]))
                  + Taken(PacketFrame(id, Numbered(c, i), outs[i]), accepted[i])
            && AfterSends(c, Attempts(outs[..i + 1], accepted[..i + 1])) == AfterSend(now, size <= accepted[i], size)
  {
    hide Taken, Concat, AfterSend, WireFrame;
    var parts, tries := WireParts(id, c, outs[..i], accepted[..i]), Attempts(outs[..i], accepted[..i]);
    NumbersAreConsecutive(c, tries);
    var part := Taken(PacketFrame(id, Numbered(c, i), outs[i]), accepted[i]);
    assert WireParts(id, c, outs[..i + 1], accepted[..i + 1]) == parts + [part];
    ConcatAppend(parts, [part]);
    ConcatOne(part);
    var more := Attempts(outs[..i + 1], accepted[..i + 1]);
    assert more[..|more| - 1] == tries;
  }

  lemma FrameBytes(id: byte, data: seq<byte>, buffer: seq<byte>)
    requires |buffer| == |data| + 4
    requires buffer[0] == DOLLAR && buffer[1] == id && buffer[2] == |data| / 256 % 256 && buffer[3] == |data| % 256
    requires buffer[4..] == data
    ensures buffer == WireFrame(id, data)
  {
    hide U16Bytes;
    LengthBytes(|data|);
    assert buffer == [DOLLAR, id] + [buffer[2], buffer[3]] + buffer[4..];
  }

  lemma LengthBytes(n: nat)
    ensures U16Bytes(n % TWO_16) == [n / 256 % 256, n % 256]
  {
    Shifts(n % TWO_16);
    LowBytes(n);
  }

  lemma LowBytes(n: nat)
    ensures n % 0x1_0000 / 256 == n / 256 % 256 && n % 0x1_0000 % 256 == n % 256
  {
    var high := n / 0x1_0000;
    assert n == 0x1_0000 * high + n % 0x1_0000;
    assert n / 256 == 256 * high + n % 0x1_0000 / 256;
  }

  lemma HeaderAndPayload(now: seq<byte>, before: seq<byte>, size: nat, header: seq<byte>)
    requires |header| == RTP_HEADER_SIZE && PAYLOAD_OFFSET <= size <= |before|
    requires now == Patched(before, RTP_TCP_HEAD_SIZE, header)
    ensures now[RTP_TCP_HEAD_SIZE..size] == header + before[PAYLOAD_OFFSET..size]
  {
  }
}
