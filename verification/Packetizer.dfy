/**
 * Packetisation of H.264 units into RTP payloads: single units and FU-A fragments, and the depacketiser of sections 5.6
 * and 5.8 of RFC 6184 that takes them apart.
 */
module Packetizer {
  import opened Bytes

  const RTP_HEADER_SIZE := 12
  const RTP_TCP_HEAD_SIZE := 4
  const PAYLOAD_OFFSET := 16
  const MAX_RTP_PAYLOAD_SIZE := 1420
  const FRAGMENT_SIZE := 1418
  const BUFFER_SIZE := 1600

  /** What a packet carries behind its header. */
  datatype Piece = Piece(payload: seq<byte>, last: bool)

  // ---- the specification of the packetiser -------------------------------------------------------------------------

  /** First byte of a fragment: the upper three bits of the unit's header, with type 28. */
  function FuIndicator(header: byte): byte {
    header / 32 * 32 + 28
  }

  /** Second byte of a fragment: start and end flags with the type of the unit. */
  function FuHeader(header: byte, start: bool, end: bool): byte {
    (if start then 128 else 0) + (if end then 64 else 0) + header % 32
  }

  function Fragment(header: byte, start: bool, end: bool, body: seq<byte>): Piece {
    Piece([FuIndicator(header), FuHeader(header, start, end)] + body, end)
  }

  function Fragments(header: byte, body: seq<byte>, start: bool): (f: seq<Piece>)
    ensures |f| > 0
  {
    if |body| <= FRAGMENT_SIZE then [Fragment(header, start, true, body)]
    else [Fragment(header, start, false, body[..FRAGMENT_SIZE])] + Fragments(header, body[FRAGMENT_SIZE..], false)
  }

  function Packets(nal: seq<byte>): (f: seq<Piece>)
    ensures |f| > 0
  {
    if |nal| <= MAX_RTP_PAYLOAD_SIZE then [Piece(nal, true)] else Fragments(nal[0], nal[1..], true)
  }

  /** The number of fragments is ceil(|body| / 1418). */
  lemma {:induction false} FragmentCount(header: byte, body: seq<byte>, start: bool)
    requires body != []
    ensures |Fragments(header, body, start)| == (|body| + FRAGMENT_SIZE - 1) / FRAGMENT_SIZE
    decreases |body|
  {
    if |body| > FRAGMENT_SIZE {
      FragmentCount(header, body[FRAGMENT_SIZE..], false);
      assert (|body| + FRAGMENT_SIZE - 1) / FRAGMENT_SIZE == 1 + (|body| - FRAGMENT_SIZE + FRAGMENT_SIZE - 1) / FRAGMENT_SIZE;
    }
  }

  /** The k-th fragment: its slice of the unit, and which flags it carries. */
  lemma {:induction false} FragmentAt(header: byte, body: seq<byte>, start: bool, k: nat)
    requires body != [] && k < |Fragments(header, body, start)|
    ensures var end := k == |Fragments(header, body, start)| - 1;
            var lo, hi := k * FRAGMENT_SIZE, if end then |body| else (k + 1) * FRAGMENT_SIZE;
            && lo < hi <= |body| && hi - lo <= FRAGMENT_SIZE
            && Fragments(header, body, start)[k] == Fragment(header, start && k == 0, end, body[lo..hi])
    decreases |body|
  {
    hide Fragment;
    if |body| > FRAGMENT_SIZE && k > 0 {
      var rest := body[FRAGMENT_SIZE..];
      FragmentAt(header, rest, false, k - 1);
      var end := k == |Fragments(header, body, start)| - 1;
      var lo, hi := k * FRAGMENT_SIZE, if end then |body| else (k + 1) * FRAGMENT_SIZE;
      SliceOfRest(body, FRAGMENT_SIZE, lo, hi);
    } else {
      assert body[0..|body|] == body;
    }
  }

  lemma SliceOfRest(body: seq<byte>, cut: nat, lo: nat, hi: nat)
    requires cut <= lo <= hi <= |body|
    ensures body[cut..][lo - cut..hi - cut] == body[lo..hi]
  {
  }

  /**
   * Shape of the packets of a unit: a packet with at most 1420 bytes of payload, the marker exactly on the last one;
   * more than one packet only beyond 1420 bytes, then ceil((n - 1) / 1418) of them, the start flag exactly on the
   * first, the end flag exactly on the last, and each with at least one byte of the unit.
   */
  lemma PacketShape(nal: seq<byte>, k: nat)
    requires k < |Packets(nal)|
    ensures var n := |Packets(nal)|;
            var p := Packets(nal)[k];
            && |p.payload| <= 1420
            && (p.last <==> k == n - 1)
            && (|nal| <= 1420 ==> n == 1 && p.payload == nal)
            && (|nal| > 1420 ==>
                  && n == (|nal| - 1 + 1417) / 1418 && n >= 2
                  && |p.payload| >= 3 && p.payload[0] % 32 == 28
                  && (p.payload[1] >= 128 <==> k == 0)
                  && (p.payload[1] / 64 % 2 == 1 <==> k == n - 1)
                  && p.payload[1] % 32 == nal[0] % 32)
  {
    if |nal| > MAX_RTP_PAYLOAD_SIZE {
      hide Fragments;
      FragmentCount(nal[0], nal[1..], true);
      FragmentAt(nal[0], nal[1..], true, k);
    }
  }

  // ---- the depacketiser --------------------------------------------------------------------------------------------

  /** Units received so far and the unit being put together; Bad after a payload that may not be sent. */
  datatype Receiver = Receiver(units: seq<seq<byte>>, partial: Option<seq<byte>>) | Bad

  predicate SingleType(header: byte) {
    1 <= header % 32 <= 23
  }

  /** Section 5.6 (single units) and section 5.8 (fragments; neither nested nor with both flags, and in order). */
  function Accept(r: Receiver, payload: seq<byte>): Receiver {
    if r.Bad? || payload == [] then Bad
    else if SingleType(payload[0]) then
      if r.partial.None? then Receiver(r.units + [payload], None) else Bad
    else if payload[0] % 32 == 28 && |payload| >= 3 then AcceptFragment(r, payload)
    else Bad
  }

  function AcceptFragment(r: Receiver, payload: seq<byte>): Receiver
    requires r.Receiver? && |payload| >= 3
  {
    var start, end := payload[1] >= 128, payload[1] / 64 % 2 == 1;
    var header := payload[0] / 32 * 32 + payload[1] % 32;
    if !SingleType(header) || (start && end) || start != r.partial.None? then Bad
    else
      var unit := (if start then [header] else r.partial.value) + payload[2..];
      if end then Receiver(r.units + [unit], None) else Receiver(r.units, Some(unit))
  }

  function AcceptAll(r: Receiver, pieces: seq<Piece>): Receiver
    decreases |pieces|
  {
    if pieces == [] then r else AcceptAll(Accept(r, pieces[0].payload), pieces[1..])
  }

  lemma {:induction false} AcceptAppend(r: Receiver, a: seq<Piece>, b: seq<Piece>)
    ensures AcceptAll(r, a + b) == AcceptAll(AcceptAll(r, a), b)
    decreases |a|
  {
    hide Accept;
    if a == [] {
      assert a + b == b;
    } else {
      assert (a + b)[1..] == a[1..] + b;
      AcceptAppend(Accept(r, a[0].payload), a[1..], b);
    }
  }

  lemma {:induction false} BadStaysBad(pieces: seq<Piece>)
    ensures AcceptAll(Bad, pieces) == Bad
  {
    if pieces != [] {
      BadStaysBad(pieces[1..]);
    }
  }

  /** One fragment of a unit of a type that may be sent. */
  lemma AcceptOneFragment(units: seq<seq<byte>>, partial: Option<seq<byte>>, header: byte, start: bool, end: bool, body: seq<byte>)
    requires body != [] && !(start && end) && start == partial.None?
    ensures var unit := (if start then [header] else partial.value) + body;
            Accept(Receiver(units, partial), Fragment(header, start, end, body).payload)
            == if !SingleType(header) then Bad
               else if end then Receiver(units + [unit], None)
               else Receiver(units, Some(unit))
  {
    FlagBits(header, start, end);
    var payload := [FuIndicator(header), FuHeader(header, start, end)] + body;
    assert payload[2..] == body;
  }

  lemma FlagBits(header: byte, start: bool, end: bool)
    ensures var a, b := FuIndicator(header), FuHeader(header, start, end);
            && a % 32 == 28 && !SingleType(a)
            && a / 32 * 32 + b % 32 == header
            && (b >= 128 <==> start) && (b / 64 % 2 == 1 <==> end)
  {
  }

  /** The fragments that follow the first one complete the unit. */
  lemma {:induction false} AcceptFragments(units: seq<seq<byte>>, sofar: seq<byte>, header: byte, body: seq<byte>)
    requires body != [] && SingleType(header)
    ensures AcceptAll(Receiver(units, Some(sofar)), Fragments(header, body, false)) == Receiver(units + [sofar + body], None)
    decreases |body|
  {
    hide Accept, Fragment;
    if |body| <= FRAGMENT_SIZE {
      AcceptOneFragment(units, Some(sofar), header, false, true, body);
      AcceptNone(Receiver(units + [sofar + body], None), Fragment(header, false, true, body));
    } else {
      var first, rest := body[..FRAGMENT_SIZE], body[FRAGMENT_SIZE..];
      AcceptOneFragment(units, Some(sofar), header, false, false, first);
      AcceptFragments(units, sofar + first, header, rest);
      assert sofar + first + rest == sofar + body;
      assert ([Fragment(header, false, false, first)] + Fragments(header, rest, false))[1..] == Fragments(header, rest, false);
    }
  }

  lemma AcceptNone(r: Receiver, p: Piece)
    ensures [p][1..] == [] && AcceptAll(r, []) == r
  {
  }

  /** The first fragment of a unit whose type may not be sent is refused. */
  lemma FragmentsRefused(units: seq<seq<byte>>, header: byte, body: seq<byte>)
    requires |body| > FRAGMENT_SIZE && !SingleType(header)
    ensures AcceptAll(Receiver(units, None), Fragments(header, body, true)) == Bad
  {
    hide Accept, Fragment;
    var first, rest := body[..FRAGMENT_SIZE], body[FRAGMENT_SIZE..];
    AcceptOneFragment(units, None, header, true, false, first);
    assert ([Fragment(header, true, false, first)] + Fragments(header, rest, false))[1..] == Fragments(header, rest, false);
    BadStaysBad(Fragments(header, rest, false));
  }

  lemma FragmentsAccepted(units: seq<seq<byte>>, header: byte, body: seq<byte>)
    requires |body| > FRAGMENT_SIZE && SingleType(header)
    ensures AcceptAll(Receiver(units, None), Fragments(header, body, true)) == Receiver(units + [[header] + body], None)
  {
    hide Accept, Fragment;
    var first, rest := body[..FRAGMENT_SIZE], body[FRAGMENT_SIZE..];
    AcceptOneFragment(units, None, header, true, false, first);
    assert ([Fragment(header, true, false, first)] + Fragments(header, rest, false))[1..] == Fragments(header, rest, false);
    AcceptFragments(units, [header] + first, header, rest);
    assert [header] + first + rest == [header] + body;
  }

  lemma AcceptOne(r: Receiver, p: Piece)
    ensures AcceptAll(r, [p]) == Accept(r, p.payload)
  {
    hide Accept;
    AcceptNone(Accept(r, p.payload), p);
  }

  /**
   * Round trip, for every unit but the empty one: the receiver that was between units gets exactly this unit if and
   * only if its type is one that RFC 6184 lets a sender put into these packets.
   */
  lemma PacketsRoundTrip(units: seq<seq<byte>>, nal: seq<byte>)
    requires nal != []
    ensures AcceptAll(Receiver(units, None), Packets(nal)) == Receiver(units + [nal], None) <==> SingleType(nal[0])
  {
    if |nal| <= MAX_RTP_PAYLOAD_SIZE {
      AcceptOne(Receiver(units, None), Piece(nal, true));
    } else {
      hide Fragments, AcceptAll, SingleType;
      assert nal == [nal[0]] + nal[1..];
      if SingleType(nal[0]) {
        FragmentsAccepted(units, nal[0], nal[1..]);
      } else {
        FragmentsRefused(units, nal[0], nal[1..]);
      }
    }
  }

  function AllPackets(nals: seq<seq<byte>>): seq<Piece> {
    if nals == [] then [] else Packets(nals[0]) + AllPackets(nals[1..])
  }

  predicate Sendable(nals: seq<seq<byte>>) {
    forall k :: 0 <= k < |nals| ==> nals[k] != [] && SingleType(nals[k][0])
  }

  /** The packets of a list of units carry that list. */
  lemma {:induction false} AllPacketsRoundTrip(units: seq<seq<byte>>, nals: seq<seq<byte>>)
    requires Sendable(nals)
    ensures AcceptAll(Receiver(units, None), AllPackets(nals)) == Receiver(units + nals, None)
    decreases |nals|
  {
    hide Packets, SingleType, Accept;
    if nals == [] {
      assert units + [] == units;
    } else {
      PacketsRoundTrip(units, nals[0]);
      AllPacketsRoundTrip(units + [nals[0]], nals[1..]);
      AcceptAppend(Receiver(units, None), Packets(nals[0]), AllPackets(nals[1..]));
      assert units + [nals[0]] + nals[1..] == units + nals;
    }
  }

  // ---- the packetiser ----------------------------------------------------------------------------------------------

  /** A packet: its size counts the room for the interleaving header and the RTP header in front of the payload. */
  datatype RtpPacket = RtpPacket(data: array<byte>, size: nat, timestamp: nat, frameType: nat, last: bool)

  datatype NalFrame = NalFrame(buffer: seq<byte>, frameType: nat, timestamp: nat)

  /** The packet is inside its buffer, carries the piece and is stamped like the frame. */
  ghost predicate Carries(p: RtpPacket, piece: Piece, frameType: nat, timestamp: nat)
    reads p.data
  {
    && p.data.Length == BUFFER_SIZE
    && p.size == PAYLOAD_OFFSET + |piece.payload| && |piece.payload| <= MAX_RTP_PAYLOAD_SIZE
    && p.data[PAYLOAD_OFFSET..p.size] == piece.payload
    && p.last == piece.last && p.frameType == frameType && p.timestamp == timestamp
  }

  /** A new packet with the bytes of head and body as its payload. */
  method NewPacket(head: seq<byte>, body: seq<byte>, frame: NalFrame, timestamp: nat, last: bool) returns (p: RtpPacket)
    requires |head| + |body| <= MAX_RTP_PAYLOAD_SIZE
    ensures fresh(p.data) && Carries(p, Piece(head + body, last), frame.frameType, timestamp)
  {
    var data := new byte[BUFFER_SIZE];
    CopyBytes(data, PAYLOAD_OFFSET, head);
    CopyBytes(data, PAYLOAD_OFFSET + |head|, body);
    ghost var mid := PAYLOAD_OFFSET + |head|;
    assert data[PAYLOAD_OFFSET..mid] == head by {
      assert data[..mid][PAYLOAD_OFFSET..] == data[PAYLOAD_OFFSET..mid];
    }
    assert data[PAYLOAD_OFFSET..mid + |body|] == data[PAYLOAD_OFFSET..mid] + data[mid..mid + |body|];
    p := RtpPacket(data, PAYLOAD_OFFSET + |head| + |body|, timestamp, frame.frameType, last);
  }

  /** The callback that packets are handed to: its answer for the k-th packet of a call. */
  type Callback = nat -> bool

  /** The packets carry the pieces, each in a buffer of its own. */
  ghost predicate CarryAll(packets: seq<RtpPacket>, pieces: seq<Piece>, frameType: nat, timestamp: nat)
    reads set p | p in packets :: p.data
  {
    && |packets| == |pieces|
    && (forall k :: 0 <= k < |packets| ==> Carries(packets[k], pieces[k], frameType, timestamp))
    && (forall j, k :: 0 <= j < k < |packets| ==> packets[j].data != packets[k].data)
  }

  lemma CarryOneMore(packets: seq<RtpPacket>, pieces: seq<Piece>, p: RtpPacket, piece: Piece, frameType: nat, timestamp: nat)
    requires CarryAll(packets, pieces, frameType, timestamp) && Carries(p, piece, frameType, timestamp)
    requires forall k :: 0 <= k < |packets| ==> packets[k].data != p.data
    ensures CarryAll(packets + [p], pieces + [piece], frameType, timestamp)
  {
    hide Carries;
  }

  /** The packets of a unit after the first n are the fragments of body. */
  ghost predicate Left(all: seq<Piece>, n: nat, header: byte, body: seq<byte>, start: bool) {
    n <= |all| && all[n..] == Fragments(header, body, start)
  }

  /** Cutting one fragment off the front of what is left of a unit. */
  lemma NextFragment(all: seq<Piece>, n: nat, header: byte, body: seq<byte>, start: bool)
    requires Left(all, n, header, body, start) && |body| > FRAGMENT_SIZE
    ensures n < |all| && all[n] == Fragment(header, start, false, body[..FRAGMENT_SIZE])
    ensures Left(all, n + 1, header, body[FRAGMENT_SIZE..], false)
  {
    hide Fragment;
    assert all[n] == all[n..][0];
    assert all[n + 1..] == all[n..][1..];
  }

  lemma LastFragment(all: seq<Piece>, n: nat, header: byte, body: seq<byte>, start: bool)
    requires Left(all, n, header, body, start) && |body| <= FRAGMENT_SIZE
    ensures n + 1 == |all| && all[n] == Fragment(header, start, true, body)
  {
    hide Fragment;
    assert all[n] == all[n..][0];
  }

  lemma NothingCutYet(nal: seq<byte>)
    requires |nal| > MAX_RTP_PAYLOAD_SIZE
    ensures Left(Packets(nal), 0, nal[0], nal[1..], true)
  {
    hide Fragments;
    assert Packets(nal)[0..] == Packets(nal);
  }

  function SetBit(b: byte, bit: nat): byte
    requires bit == 64 || bit == 128
  {
    if b / bit % 2 == 1 then b else b + bit
  }

  function ClearBit(b: byte, bit: nat): byte
    requires bit == 64 || bit == 128
  {
    if b / bit % 2 == 1 then b - bit else b
  }

  lemma FlagOperations(header: byte, start: bool)
    ensures SetBit(header % 32, 128) == FuHeader(header, true, false)
    ensures ClearBit(FuHeader(header, start, false), 128) == FuHeader(header, false, false)
    ensures SetBit(FuHeader(header, start, false), 64) == FuHeader(header, start, true)
  {
  }

  /** The loop guard in 32-bit arithmetic is the intended one exactly for what is left of a unit of less than 2^32 - 1 bytes. */
  lemma GuardIsExactIff(size: nat)
    requires size < TWO_32
    ensures ((size + 2) % TWO_32 > MAX_RTP_PAYLOAD_SIZE <==> size + 2 > MAX_RTP_PAYLOAD_SIZE) <==> size < TWO_32 - 2
  {
  }

  /** How many bytes of a unit's body the fragmenting branch copies into each of its packets. */
  function CopySizes(size: nat): seq<nat>
    requires size < TWO_32
  {
    if (size + 2) % TWO_32 > MAX_RTP_PAYLOAD_SIZE then [FRAGMENT_SIZE] + CopySizes(size - FRAGMENT_SIZE) else [size]
  }

  /** The copies stay inside the buffers of their packets, behind the headers and the two bytes of the fragment. */
  predicate CopiesFit(sizes: seq<nat>) {
    forall k :: 0 <= k < |sizes| ==> PAYLOAD_OFFSET + 2 + sizes[k] <= BUFFER_SIZE
  }

  lemma {:induction false} ShortCopies(size: nat)
    requires size < TWO_32 - 2
    ensures CopiesFit(CopySizes(size))
  {
    GuardIsExactIff(size);
    if size + 2 > MAX_RTP_PAYLOAD_SIZE {
      ShortCopies(size - FRAGMENT_SIZE);
    }
  }

  /**
   * Every copy of the fragmenting branch stays inside its packet's buffer if and only if the unit is shorter than
   * 2^32 - 1 bytes.  For a unit of that length the guard wraps at once, and all of it is copied into one buffer.
   */
  lemma CopiesFitIff(nal: seq<byte>)
    requires MAX_RTP_PAYLOAD_SIZE < |nal| < TWO_32
    ensures CopiesFit(CopySizes(|nal| - 1)) <==> |nal| < TWO_32 - 1
    ensures |nal| == TWO_32 - 1 ==> CopySizes(|nal| - 1) == [|nal| - 1]
  {
    GuardIsExactIff(|nal| - 1);
    if |nal| < TWO_32 - 1 {
      ShortCopies(|nal| - 1);
    } else {
      assert CopySizes(|nal| - 1)[0] == |nal| - 1;
    }
  }

  class H264Source {
    var callback: Option<Callback>

    constructor ()
      ensures callback == None
    {
      callback := None;
    }

    method SetSendFrameCallback(f: Callback)
      modifies this
      ensures callback == Some(f)
    {
      callback := Some(f);
    }

    /** The callback's answer for the packet after n others; without a callback the packet is dropped and all is well. */
    predicate Takes(n: nat)
      reads this
    {
      callback.Some? ==> callback.value(n)
    }

    /** Fills a new packet and hands it to the callback, after the packets in sent. */
    method SendPacket(sent: seq<RtpPacket>, head: seq<byte>, body: seq<byte>, last: bool, frame: NalFrame, timestamp: nat,
                      ghost all: seq<Piece>)
      returns (ok: bool, now: seq<RtpPacket>)
      requires |head| + |body| <= MAX_RTP_PAYLOAD_SIZE
      requires |sent| < |all| && all[|sent|] == Piece(head + body, last)
      requires CarryAll(sent, all[..|sent|], frame.frameType, timestamp)
      ensures |now| == |sent| + 1 && now[..|sent|] == sent && fresh(now[|sent|].data)
      ensures CarryAll(now, all[..|now|], frame.frameType, timestamp)
      ensures ok == Takes(|sent|)
    {
      hide Carries;
      var p := NewPacket(head, body, frame, timestamp, last);
      CarryOneMore(sent, all[..|sent|], p, all[|sent|], frame.frameType, timestamp);
      assert all[..|sent| + 1] == all[..|sent|] + [all[|sent|]];
      now := sent + [p];
      ok := Takes(|sent|);
    }

    /**
     * Hands the packets of a unit to the callback, in order, until it refuses one.  The frame is one for which the
     * 32-bit loop guard does not wrap; a zero timestamp stands for the current time.
     */
    method HandleFrame(frame: NalFrame, now: nat) returns (ok: bool, sent: seq<RtpPacket>)
      requires |frame.buffer| < TWO_32 - 1
      ensures forall k :: 0 <= k < |sent| ==> fresh(sent[k].data)
      ensures |sent| <= |Packets(frame.buffer)|
      ensures CarryAll(sent, Packets(frame.buffer)[..|sent|], frame.frameType, if frame.timestamp == 0 then now else frame.timestamp)
      ensures ok ==> |sent| == |Packets(frame.buffer)|
      ensures !ok ==> |sent| > 0 && !Takes(|sent| - 1)
      ensures forall k :: 0 <= k < |sent| - (if ok then 0 else 1) ==> Takes(k)
    {
      hide CarryAll, Fragments;
      var timestamp := if frame.timestamp == 0 then now else frame.timestamp;
      ghost var all := Packets(frame.buffer);
      sent := [];
      NothingCarried(frame.frameType, timestamp);
      assert all[..0] == [];
      if |frame.buffer| <= MAX_RTP_PAYLOAD_SIZE {
        assert [] + frame.buffer == frame.buffer;
        ok, sent := SendPacket(sent, [], frame.buffer, true, frame, timestamp, all);
      } else {
        ok, sent := SendFragments(frame, timestamp);
      }
    }

    /** The fragmenting branch: the flags start as a first fragment's and lose the start bit after it. */
    method SendFragments(frame: NalFrame, timestamp: nat) returns (ok: bool, sent: seq<RtpPacket>)
      requires MAX_RTP_PAYLOAD_SIZE < |frame.buffer| < TWO_32 - 1
      ensures forall k :: 0 <= k < |sent| ==> fresh(sent[k].data)
      ensures |sent| <= |Packets(frame.buffer)|
      ensures CarryAll(sent, Packets(frame.buffer)[..|sent|], frame.frameType, timestamp)
      ensures ok ==> |sent| == |Packets(frame.buffer)|
      ensures !ok ==> |sent| > 0 && !Takes(|sent| - 1)
      ensures forall k :: 0 <= k < |sent| - (if ok then 0 else 1) ==> Takes(k)
    {
      hide Packets, Fragment, Carries, CarryAll, FuHeader, SetBit, ClearBit, Left;
      ghost var all := Packets(frame.buffer);
      sent := [];
      NothingCarried(frame.frameType, timestamp);
      assert all[..0] == [];
      var header := frame.buffer[0];
      var indicator: byte, flags: byte := header / 32 * 32 + 28, SetBit(header % 32, 128);
      FlagOperations(header, true);
      NothingCutYet(frame.buffer);
      var pos, size := 1, |frame.buffer| - 1;
      ghost var body := frame.buffer[1..];
      GuardIsExactIff(size);
      while (size + 2) % TWO_32 > MAX_RTP_PAYLOAD_SIZE
        invariant 0 < pos && 0 <= size < TWO_32 - 2 && pos + size == |frame.buffer| && body == frame.buffer[pos..]
        invariant flags == FuHeader(header, pos == 1, false)
        invariant |sent| <= |all| && Left(all, |sent|, header, body, pos == 1)
        invariant forall k :: 0 <= k < |sent| ==> fresh(sent[k].data) && Takes(k)
        invariant CarryAll(sent, all[..|sent|], frame.frameType, timestamp)
        decreases size
      {
        var chunk := frame.buffer[pos..pos + FRAGMENT_SIZE];
        assert chunk == body[..FRAGMENT_SIZE];
        NextFragment(all, |sent|, header, body, pos == 1);
        SameFragment(header, pos == 1, false, chunk, indicator, flags);
        ok, sent := SendPacket(sent, [indicator, flags], chunk, false, frame, timestamp, all);
        if !ok {
          return;
        }
        body := body[FRAGMENT_SIZE..];
        pos := pos + FRAGMENT_SIZE;
        size := size - FRAGMENT_SIZE;
        GuardIsExactIff(size);
        FlagOperations(header, pos == 1 + FRAGMENT_SIZE);
        flags := ClearBit(flags, 128);
      }
      LastFragment(all, |sent|, header, body, pos == 1);
      FlagOperations(header, pos == 1);
      flags := SetBit(flags, 64);
      SameFragment(header, pos == 1, true, body, indicator, flags);
      ok, sent := SendPacket(sent, [indicator, flags], frame.buffer[pos..], true, frame, timestamp, all);
    }
  }

  lemma NothingCarried(frameType: nat, timestamp: nat)
    ensures CarryAll([], [], frameType, timestamp)
  {
  }

  lemma SameFragment(header: byte, start: bool, end: bool, body: seq<byte>, indicator: byte, flags: byte)
    requires indicator == FuIndicator(header) && flags == FuHeader(header, start, end)
    ensures Fragment(header, start, end, body) == Piece([indicator, flags] + body, end)
  {
  }
}
