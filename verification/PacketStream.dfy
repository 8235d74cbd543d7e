/**
 * The endless packet stream of a playing session: frames are read from the file, packetised into a queue and handed
 * out one packet at a time; at the end of the file the source is rewound.
 */
module PacketStream {
  import opened Arithmetic
  import opened Bytes
  import opened AnnexB
  import opened NalSource
  import opened Packetizer

  // ---- what a file is turned into -----------------------------------------------------------------------------------

  const VIDEO_FRAME_I := 1
  const VIDEO_FRAME_P := 2

  /** A piece with the attributes of its packet; a zero timestamp stands for the time at which it is packetised. */
  datatype Item = Item(piece: Piece, frameType: nat, timestamp: nat)

  function Stamped(pieces: seq<Piece>, frameType: nat, timestamp: nat): (items: seq<Item>)
    ensures |items| == |pieces|
  {
    seq(|pieces|, k requires 0 <= k < |pieces| => Item(pieces[k], frameType, timestamp))
  }

  function UnitItems(u: FrameUnit, timestamp: nat): (items: seq<Item>)
    ensures |items| > 0
  {
    Stamped(Packets(u.data), if u.isKeyframe then VIDEO_FRAME_I else VIDEO_FRAME_P, timestamp)
  }

  /** All packets of a frame, unit by unit, with the frame's timestamp. */
  function FrameItems(frame: seq<FrameUnit>, timestamp: nat): seq<Item> {
    if frame == [] then []
    else FrameItems(frame[..|frame| - 1], timestamp) + UnitItems(frame[|frame| - 1], timestamp)
  }

  /** The clock of the stream: where it starts and how much it advances from frame to frame. */
  datatype Clock = Clock(base: nat, step: nat)

  function TimeOf(clock: Clock, index: nat): nat {
    (clock.base + index * clock.step) % TWO_32
  }

  /** All packets of the frames, the first of which is counted as frame number index. */
  function Items(frames: seq<seq<FrameUnit>>, index: nat, clock: Clock): seq<Item> {
    if frames == [] then []
    else FrameItems(frames[0], TimeOf(clock, index)) + Items(frames[1..], (index + 1) % TWO_32, clock)
  }

  lemma ItemsFirst(frame: seq<FrameUnit>, frames: seq<seq<FrameUnit>>, index: nat, clock: Clock)
    ensures Items([frame] + frames, index, clock)
            == FrameItems(frame, TimeOf(clock, index)) + Items(frames, (index + 1) % TWO_32, clock)
  {
    assert ([frame] + frames)[1..] == frames;
  }

  lemma FrameHasItems(nals: seq<NalUnit>, i: nat, timestamp: nat)
    requires i < |nals|
    ensures FrameItems(Kept(nals, i, i, FrameEnd(nals, i, i)), timestamp) != []
  {
    hide UnitItems, Kept;
    FramesFirst(nals, i);
    KeptHead(nals, i, FrameEnd(nals, i, i));
  }

  // ---- which frame a packet belongs to, and when it is due -------------------------------------------------------------

  /** The number of the frame that packet n of some frames belongs to, counted by the packets of each. */
  function FrameNumber(frames: seq<seq<FrameUnit>>, n: nat): nat {
    if frames == [] then 0
    else
      var count := |AllPackets(DatasOf(frames[0]))|;
      if n < count then 0 else 1 + FrameNumber(frames[1..], n - count)
  }

  lemma {:induction false} FrameItemsStamp(frame: seq<FrameUnit>, timestamp: nat)
    ensures forall k :: 0 <= k < |FrameItems(frame, timestamp)| ==> FrameItems(frame, timestamp)[k].timestamp == timestamp
    decreases |frame|
  {
    hide Packets;
    if frame != [] {
      FrameItemsStamp(frame[..|frame| - 1], timestamp);
    }
  }

  lemma SameTime(base: nat, k: nat, step: nat)
    ensures (base + k % TWO_32 * step) % TWO_32 == (base + k * step) % TWO_32
  {
    var q, r := k / TWO_32, k % TWO_32;
    assert k == q * TWO_32 + r;
    assert k * step == q * step * TWO_32 + r * step by { Distribute(q, TWO_32, r, step); }
    WholeTurns(base + r * step, q * step);
  }

  lemma Distribute(q: nat, m: nat, r: nat, s: nat)
    ensures (q * m + r) * s == q * s * m + r * s
  {
  }

  lemma {:induction false} WholeTurns(a: nat, k: nat)
    ensures (a + k * TWO_32) % TWO_32 == a % TWO_32
    decreases k
  {
    if k > 0 {
      WholeTurns(a, k - 1);
      ModuloTurn(a + k * TWO_32, TWO_32);
    }
  }

  /** Every packet is stamped with the time of its frame, one step of the clock for each frame before it. */
  lemma {:induction false} TimestampAt(frames: seq<seq<FrameUnit>>, index: nat, clock: Clock, n: nat)
    requires n < |Items(frames, index, clock)|
    ensures Items(frames, index, clock)[n].timestamp
            == (clock.base + (index + FrameNumber(frames, n)) * clock.step) % TWO_32
    decreases |frames|
  {
    hide FrameItems, AllPackets;
    var t, rest := TimeOf(clock, index), Items(frames[1..], (index + 1) % TWO_32, clock);
    var first := FrameItems(frames[0], t);
    FrameItemsStamp(frames[0], t);
    FramePieces(frames[0], t);
    assert |first| == |AllPackets(DatasOf(frames[0]))|;
    if n >= |first| {
      var i := FrameNumber(frames[1..], n - |first|);
      TimestampAt(frames[1..], (index + 1) % TWO_32, clock, n - |first|);
      assert Items(frames, index, clock)[n] == rest[n - |first|];
      TurnedIndex(clock.base, index + 1, i, clock.step);
    }
  }

  lemma TurnedIndex(base: nat, a: nat, i: nat, step: nat)
    ensures (base + (a % TWO_32 + i) * step) % TWO_32 == (base + (a + i) * step) % TWO_32
  {
    SameTime(base + i * step, a, step);
    assert (a % TWO_32 + i) * step == a % TWO_32 * step + i * step by { Distribute(1, a % TWO_32, i, step); }
    assert (a + i) * step == a * step + i * step by { Distribute(1, a, i, step); }
  }

  function TypesOf(items: seq<Item>): (types: seq<nat>)
    ensures |types| == |items|
  {
    seq(|items|, k requires 0 <= k < |items| => items[k].frameType)
  }

  function TypesOfUnit(u: seq<byte>): (types: seq<nat>)
    ensures |types| == |Packets(u)|
  {
    seq(|Packets(u)|, k => if u != [] && u[0] % 32 == 5 then 1 else 2)
  }

  /** For each packet of some units: 1, a key frame, if its unit is an IDR slice (type 5), and 2 otherwise. */
  function PictureTypes(units: seq<seq<byte>>): seq<nat> {
    if units == [] then [] else PictureTypes(units[..|units| - 1]) + TypesOfUnit(units[|units| - 1])
  }

  lemma PictureTypesOne(units: seq<seq<byte>>, u: seq<byte>)
    ensures PictureTypes(units + [u]) == PictureTypes(units) + TypesOfUnit(u)
  {
    hide TypesOfUnit;
    assert (units + [u])[..|units|] == units;
  }

  predicate Marked(frame: seq<FrameUnit>) {
    forall k :: 0 <= k < |frame| ==> frame[k].data != [] && (frame[k].isKeyframe <==> frame[k].data[0] % 32 == 5)
  }

  lemma {:induction false} KeptMarked(nals: seq<NalUnit>, first: nat, lo: nat, hi: nat)
    requires lo <= hi <= |nals| && forall u :: u in nals ==> UnitOk(u)
    ensures Marked(Kept(nals, first, lo, hi))
    decreases hi
  {
    if lo < hi {
      KeptMarked(nals, first, lo, hi - 1);
      assert nals[hi - 1] in nals && UnitOk(nals[hi - 1]);
    }
  }

  lemma {:induction false} FrameTypes(before: seq<seq<byte>>, frame: seq<FrameUnit>, timestamp: nat)
    requires Marked(frame)
    ensures PictureTypes(before + DatasOf(frame)) == PictureTypes(before) + TypesOf(FrameItems(frame, timestamp))
    decreases |frame|
  {
    hide Packets, PictureTypes, TypesOfUnit;
    if frame == [] {
      assert before + DatasOf(frame) == before;
      assert TypesOf([]) == [] && PictureTypes(before) + [] == PictureTypes(before);
    } else {
      var n := |frame| - 1;
      var front, u := FrameItems(frame[..n], timestamp), UnitItems(frame[n], timestamp);
      FrameTypes(before, frame[..n], timestamp);
      assert DatasOf(frame) == DatasOf(frame[..n]) + [frame[n].data];
      Regroup(before, DatasOf(frame[..n]), [frame[n].data]);
      PictureTypesOne(before + DatasOf(frame[..n]), frame[n].data);
      UnitTypes(frame[n], timestamp);
      assert TypesOf(front + u) == TypesOf(front) + TypesOf(u);
      Regroup(PictureTypes(before), TypesOf(front), TypesOf(u));
    }
  }

  lemma UnitTypes(u: FrameUnit, timestamp: nat)
    requires u.data != [] && (u.isKeyframe <==> u.data[0] % 32 == 5)
    ensures TypesOf(UnitItems(u, timestamp)) == TypesOfUnit(u.data)
  {
    hide Packets;
  }

  lemma {:induction false} ItemTypes(before: seq<seq<byte>>, frames: seq<seq<FrameUnit>>, index: nat, clock: Clock)
    requires forall k :: 0 <= k < |frames| ==> Marked(frames[k])
    ensures PictureTypes(before + DatasOf(Concat(frames))) == PictureTypes(before) + TypesOf(Items(frames, index, clock))
    decreases |frames|
  {
    hide PictureTypes, FrameItems, Marked, TimeOf;
    if frames == [] {
      assert before + DatasOf(Concat(frames)) == before;
      assert TypesOf([]) == [] && PictureTypes(before) + [] == PictureTypes(before);
    } else {
      var t, rest := TimeOf(clock, index), Items(frames[1..], (index + 1) % TWO_32, clock);
      FrameTypes(before, frames[0], t);
      ItemTypes(before + DatasOf(frames[0]), frames[1..], (index + 1) % TWO_32, clock);
      DatasAppend(frames[0], Concat(frames[1..]));
      Regroup(before, DatasOf(frames[0]), DatasOf(Concat(frames[1..])));
      assert TypesOf(FrameItems(frames[0], t) + rest) == TypesOf(FrameItems(frames[0], t)) + TypesOf(rest);
      Regroup(PictureTypes(before), TypesOf(FrameItems(frames[0], t)), TypesOf(rest));
    }
  }

  /** Of the packets of a file exactly those of IDR slices are marked as those of a key frame. */
  lemma KeyframesAreIdr(nals: seq<NalUnit>, clock: Clock)
    requires nals != [] && forall u :: u in nals ==> UnitOk(u)
    ensures TypesOf(Items(Frames(nals, 0), 0, clock)) == PictureTypes(DatasOf(Kept(nals, 0, 0, |nals|)))
  {
    hide Items, Frames, Kept, PictureTypes, TypesOf, DatasOf, Marked;
    FramesPartition(nals, 0);
    FramesMarked(nals, 0);
    ItemTypes([], Frames(nals, 0), 0, clock);
    var units, types := DatasOf(Kept(nals, 0, 0, |nals|)), TypesOf(Items(Frames(nals, 0), 0, clock));
    assert [] + units == units;
    assert PictureTypes([]) + types == types by { NoTypes(); }
  }

  lemma NoTypes()
    ensures PictureTypes([]) == []
  {
  }

  lemma {:induction false} FramesMarked(nals: seq<NalUnit>, i: nat)
    requires i <= |nals| && forall u :: u in nals ==> UnitOk(u)
    ensures forall k :: 0 <= k < |Frames(nals, i)| ==> Marked(Frames(nals, i)[k])
    decreases |nals| - i
  {
    hide Marked, Kept, FrameEnd, UnitOk;
    if i < |nals| {
      FramesFirst(nals, i);
      KeptMarked(nals, i, i, FrameEnd(nals, i, i));
      FramesMarked(nals, FrameEnd(nals, i, i));
    }
  }

  predicate Short(frame: seq<FrameUnit>, bound: nat) {
    forall k :: 0 <= k < |frame| ==> |frame[k].data| < bound
  }

  lemma {:induction false} KeptData(nals: seq<NalUnit>, first: nat, lo: nat, hi: nat, bound: nat)
    requires lo <= hi <= |nals|
    requires forall u :: u in nals ==> |u.data| < bound
    ensures Short(Kept(nals, first, lo, hi), bound)
    decreases hi
  {
    if lo < hi {
      KeptData(nals, first, lo, hi - 1, bound);
      assert nals[hi - 1] in nals;
    }
  }

  // ---- the stream that a reader of a list of items and then of the same file over and over sees ---------------------

  /** Element n of the stream that first goes through items and then through all again and again. */
  function Endless<T>(items: seq<T>, all: seq<T>, n: nat): T
    requires all != []
    decreases n
  {
    var now := if items == [] then all else items;
    if n == 0 then now[0] else Endless(now[1..], all, n - 1)
  }

  /** What is left of items after one element has been taken; taking from nothing starts all over. */
  function Drop<T>(items: seq<T>, all: seq<T>): seq<T>
    requires all != []
  {
    if items == [] then all[1..] else items[1..]
  }

  function Rest<T>(items: seq<T>, all: seq<T>, n: nat): seq<T>
    requires all != []
  {
    if n == 0 then items else Drop(Rest(items, all, n - 1), all)
  }

  lemma {:induction false} RestOfDrop<T>(items: seq<T>, all: seq<T>, n: nat)
    requires all != []
    ensures Rest(Drop(items, all), all, n) == Drop(Rest(items, all, n), all)
  {
    hide Drop;
    if n > 0 {
      RestOfDrop(items, all, n - 1);
    }
  }

  /** Element n is the one that comes next after n have been taken. */
  lemma {:induction false} EndlessIsNext<T>(items: seq<T>, all: seq<T>, n: nat)
    requires all != []
    ensures var rest := Rest(items, all, n); Endless(items, all, n) == if rest == [] then all[0] else rest[0]
    decreases n
  {
    if n > 0 {
      EndlessIsNext(Drop(items, all), all, n - 1);
      RestOfDrop(items, all, n - 1);
    }
  }

  /** In closed form: after items it is all with its index taken modulo the length. */
  lemma {:induction false} EndlessAt<T>(items: seq<T>, all: seq<T>, n: nat)
    requires all != []
    ensures Endless(items, all, n) == if n < |items| then items[n] else all[(n - |items|) % |all|]
    decreases n
  {
    if n > 0 {
      EndlessAt(if items == [] then all[1..] else items[1..], all, n - 1);
      if items == [] {
        if n >= |all| {
          ModuloTurn(n, |all|);
        } else {
          ModuloSmall(n, |all|);
        }
      }
    } else if items == [] {
      ModuloSmall(0, |all|);
    }
  }

  /** Rewinding early or late makes no difference. */
  lemma EndlessAfterAll<T>(items: seq<T>, all: seq<T>, n: nat)
    requires all != []
    ensures Endless(items + all, all, n) == Endless(items, all, n)
  {
    EndlessAt(items + all, all, n);
    EndlessAt(items, all, n);
    if n >= |items| + |all| {
      ModuloTurn(n - |items|, |all|);
    } else if n >= |items| {
      ModuloSmall(n - |items|, |all|);
    }
  }

  /** k times all. */
  function Passes<T>(all: seq<T>, k: nat): seq<T> {
    if k == 0 then [] else all + Passes(all, k - 1)
  }

  lemma {:induction false} PassesAreEndless<T>(all: seq<T>, k: nat, n: nat)
    requires all != [] && n < |Passes(all, k)|
    ensures Passes(all, k)[n] == Endless(all, all, n) == all[n % |all|]
  {
    EndlessAfterAll([], all, n);
    assert [] + all == all;
    EndlessAt([], all, n);
    if n < |all| {
      ModuloSmall(n, |all|);
    } else {
      PassesAreEndless(all, k - 1, n - |all|);
      ModuloTurn(n, |all|);
    }
  }

  // ---- what a receiver makes of it ----------------------------------------------------------------------------------

  function PiecesOf(items: seq<Item>): (pieces: seq<Piece>)
    ensures |pieces| == |items|
  {
    seq(|items|, k requires 0 <= k < |items| => items[k].piece)
  }

  lemma PiecesAppend(a: seq<Item>, b: seq<Item>)
    ensures PiecesOf(a + b) == PiecesOf(a) + PiecesOf(b)
  {
  }

  lemma {:induction false} AllPacketsAppend(a: seq<seq<byte>>, b: seq<seq<byte>>)
    ensures AllPackets(a + b) == AllPackets(a) + AllPackets(b)
  {
    hide Packets;
    if a == [] {
      assert a + b == b;
    } else {
      assert (a + b)[1..] == a[1..] + b;
      AllPacketsAppend(a[1..], b);
    }
  }

  lemma AllPacketsOne(nal: seq<byte>)
    ensures AllPackets([nal]) == Packets(nal)
  {
    hide Packets;
    assert [nal][1..] == [];
    assert Packets(nal) + [] == Packets(nal);
  }

  lemma {:induction false} FramePieces(frame: seq<FrameUnit>, timestamp: nat)
    ensures PiecesOf(FrameItems(frame, timestamp)) == AllPackets(DatasOf(frame))
  {
    hide Packets, AllPackets;
    if frame == [] {
      assert AllPackets([]) == [] by { NoPackets(); }
    } else {
      var front, u := frame[..|frame| - 1], frame[|frame| - 1];
      FramePieces(front, timestamp);
      PiecesAppend(FrameItems(front, timestamp), UnitItems(u, timestamp));
      AllPacketsAppend(DatasOf(front), [u.data]);
      AllPacketsOne(u.data);
      assert DatasOf(frame) == DatasOf(front) + [u.data];
      assert PiecesOf(UnitItems(u, timestamp)) == Packets(u.data);
    }
  }

  lemma NoPackets()
    ensures AllPackets([]) == []
  {
  }

  lemma {:induction false} ItemsPieces(frames: seq<seq<FrameUnit>>, index: nat, clock: Clock)
    ensures PiecesOf(Items(frames, index, clock)) == AllPackets(DatasOf(Concat(frames)))
    decreases |frames|
  {
    hide FrameItems, AllPackets, TimeOf;
    if frames == [] {
      NoPackets();
    } else {
      var t, rest := TimeOf(clock, index), Items(frames[1..], (index + 1) % TWO_32, clock);
      FramePieces(frames[0], t);
      ItemsPieces(frames[1..], (index + 1) % TWO_32, clock);
      PiecesAppend(FrameItems(frames[0], t), rest);
      DatasAppend(frames[0], Concat(frames[1..]));
      AllPacketsAppend(DatasOf(frames[0]), DatasOf(Concat(frames[1..])));
    }
  }

  /** The units of a file whose types may be sent. */
  predicate SendableUnits(nals: seq<NalUnit>) {
    forall u :: u in nals ==> UnitOk(u) && 1 <= u.nalType <= 23
  }

  lemma {:induction false} KeptSendable(nals: seq<NalUnit>, first: nat, lo: nat, hi: nat)
    requires lo <= hi <= |nals| && SendableUnits(nals)
    ensures Sendable(DatasOf(Kept(nals, first, lo, hi)))
    decreases hi
  {
    if lo < hi {
      KeptSendable(nals, first, lo, hi - 1);
      assert nals[hi - 1] in nals;
      var before, u := Kept(nals, first, lo, hi - 1), UnitAt(nals, hi - 1);
      DatasAppend(before, [u]);
      assert before + [] == before;
    }
  }

  lemma {:induction false} PassesReceived(units: seq<seq<byte>>, pieces: seq<Piece>, nals: seq<seq<byte>>, k: nat)
    requires Sendable(nals) && pieces == AllPackets(nals)
    ensures AcceptAll(Receiver(units, None), Passes(pieces, k)) == Receiver(units + Passes(nals, k), None)
    decreases k
  {
    hide AllPackets, Sendable, Accept;
    if k == 0 {
      assert units + [] == units;
    } else {
      AllPacketsRoundTrip(units, nals);
      PassesReceived(units + nals, pieces, nals, k - 1);
      AcceptAppend(Receiver(units, None), pieces, Passes(pieces, k - 1));
      assert units + nals + Passes(nals, k - 1) == units + (nals + Passes(nals, k - 1));
    }
  }

  lemma {:induction false} PiecesOfPasses(items: seq<Item>, k: nat)
    ensures PiecesOf(Passes(items, k)) == Passes(PiecesOf(items), k)
  {
    if k > 0 {
      PiecesOfPasses(items, k - 1);
      PiecesAppend(items, Passes(items, k - 1));
    }
  }

  /**
   * A receiver of the stream gets the units of the file, without the delimiters that grouping drops, over and over:
   * after k times as many packets as the file has, it has k times the list of units and is not inside a unit.
   */
  lemma StreamIsTheFile(nals: seq<NalUnit>, clock: Clock, k: nat)
    requires nals != [] && SendableUnits(nals)
    ensures var all := Items(Frames(nals, 0), 0, clock);
            && all != []
            && (forall n :: 0 <= n < |Passes(all, k)| ==> Passes(all, k)[n] == Endless(all, all, n) == all[n % |all|])
            && AcceptAll(Receiver([], None), PiecesOf(Passes(all, k)))
               == Receiver(Passes(DatasOf(Kept(nals, 0, 0, |nals|)), k), None)
  {
    hide Items, Frames, Kept, Passes, Endless, AcceptAll, SendableUnits, PiecesOf, DatasOf;
    var all, units := Items(Frames(nals, 0), 0, clock), DatasOf(Kept(nals, 0, 0, |nals|));
    AllNonEmpty(nals, clock);
    forall n | 0 <= n < |Passes(all, k)| ensures Passes(all, k)[n] == Endless(all, all, n) == all[n % |all|] {
      PassesAreEndless(all, k, n);
    }
    FramesPartition(nals, 0);
    ItemsPieces(Frames(nals, 0), 0, clock);
    KeptSendable(nals, 0, 0, |nals|);
    PassesReceived([], PiecesOf(all), units, k);
    PiecesOfPasses(all, k);
    assert [] + Passes(units, k) == Passes(units, k);
  }

  // ---- the session --------------------------------------------------------------------------------------------------

  /** The packet is the one of the item. */
  ghost predicate Matches(p: RtpPacket, item: Item)
    reads p.data
  {
    Carries(p, item.piece, item.frameType, p.timestamp) && (item.timestamp != 0 ==> p.timestamp == item.timestamp)
  }

  ghost predicate MatchAll(packets: seq<RtpPacket>, items: seq<Item>)
    reads set p | p in packets :: p.data
  {
    && |packets| == |items|
    && (forall k :: 0 <= k < |packets| ==> Matches(packets[k], items[k]))
    && (forall j, k :: 0 <= j < k < |packets| ==> packets[j].data != packets[k].data)
  }

  lemma MatchAppend(a: seq<RtpPacket>, x: seq<Item>, b: seq<RtpPacket>, y: seq<Item>)
    requires MatchAll(a, x) && MatchAll(b, y)
    requires forall j, k :: 0 <= j < |a| && 0 <= k < |b| ==> a[j].data != b[k].data
    ensures MatchAll(a + b, x + y)
  {
    hide Matches;
  }

  lemma MatchStamped(packets: seq<RtpPacket>, pieces: seq<Piece>, frameType: nat, timestamp: nat, now: nat)
    requires CarryAll(packets, pieces, frameType, if timestamp == 0 then now else timestamp)
    ensures MatchAll(packets, Stamped(pieces, frameType, timestamp))
  {
    var items := Stamped(pieces, frameType, timestamp);
    forall k | 0 <= k < |packets| ensures Matches(packets[k], items[k]) {
      assert Carries(packets[k], pieces[k], frameType, if timestamp == 0 then now else timestamp);
    }
  }

  lemma TimeIs(clock: Clock, index: nat)
    ensures TimeOf(clock, index) == (clock.base + index * clock.step) % TWO_32
  {
  }

  datatype RtspState = INIT | READY | PLAYING | PAUSED | TEARDOWN

  class VideoSession {
    var state: RtspState
    var nalSource: RawH264Source?
    var h264Source: H264Source?
    var packetQueue: seq<RtpPacket>
    var frameIndex: nat
    var rtpTimestamp: nat
    var realSps: seq<byte>
    var realPps: seq<byte>
    /** What the packets in the queue are. */
    ghost var pending: seq<Item>

    ghost predicate Valid()
      reads this, nalSource, h264Source, set p | p in packetQueue :: p.data
    {
      && frameIndex < TWO_32 && rtpTimestamp < TWO_32
      && MatchAll(packetQueue, pending)
      && (nalSource != null ==>
            && nalSource.Valid() && nalSource.isOpened && !nalSource.eofReached
            && nalSource.cachedNals != [] && nalSource.nalIndex <= |nalSource.cachedNals|
            && (forall u :: u in nalSource.cachedNals ==> |u.data| < TWO_32 - 1)
            && h264Source != null)
      && (h264Source != null ==> forall k: nat :: h264Source.Takes(k))
    }

    constructor ()
      ensures Valid() && state == INIT && nalSource == null && packetQueue == [] && rtpTimestamp == 0
    {
      state, nalSource, h264Source, packetQueue, pending := INIT, null, null, [], [];
      frameIndex, rtpTimestamp, realSps, realPps := 0, 0, [], [];
    }

    function Step(): Clock
      reads this, nalSource
      requires nalSource != null && nalSource.frameRate > 0
    {
      Clock(rtpTimestamp, 90000 / nalSource.frameRate)
    }

    /** The packets of the whole file. */
    ghost function All(): seq<Item>
      reads this, nalSource
      requires nalSource != null && nalSource.frameRate > 0
    {
      Items(Frames(nalSource.cachedNals, 0), 0, Step())
    }

    /** The packets still to come before the file is rewound. */
    ghost function Remaining(): seq<Item>
      reads this, nalSource
      requires nalSource != null && nalSource.frameRate > 0 && nalSource.nalIndex <= |nalSource.cachedNals|
    {
      pending + Items(Frames(nalSource.cachedNals, nalSource.nalIndex), frameIndex, Step())
    }

    /** Packetises one unit; the packets are pushed into the queue by the callback, which never refuses. */
    method QueueUnit(nal: FrameUnit, timestamp: nat, now: nat)
      requires h264Source != null && forall k: nat :: h264Source.Takes(k)
      requires |nal.data| < TWO_32 - 1
      requires MatchAll(packetQueue, pending)
      modifies `packetQueue, `pending
      ensures MatchAll(packetQueue, pending) && pending == old(pending) + UnitItems(nal, timestamp)
      ensures forall p :: p in packetQueue ==> p in old(packetQueue) || fresh(p.data)
    {
      hide CarryAll, Packets;
      var frameType := if nal.isKeyframe then VIDEO_FRAME_I else VIDEO_FRAME_P;
      var ok, sent := h264Source.HandleFrame(NalFrame(nal.data, frameType, timestamp), now);
      assert h264Source.Takes(|sent| - 1) || |sent| == 0;
      assert Packets(nal.data)[..|sent|] == Packets(nal.data);
      MatchStamped(sent, Packets(nal.data), frameType, timestamp, now);
      MatchAppend(packetQueue, pending, sent, UnitItems(nal, timestamp));
      packetQueue := packetQueue + sent;
      pending := pending + UnitItems(nal, timestamp);
    }

    /** Packetises one frame and appends its packets to the queue. */
    method QueueFrame(frame: seq<FrameUnit>, timestamp: nat, now: nat)
      requires h264Source != null && forall k: nat :: h264Source.Takes(k)
      requires Short(frame, TWO_32 - 1)
      requires MatchAll(packetQueue, pending)
      modifies `packetQueue, `pending
      ensures MatchAll(packetQueue, pending) && pending == old(pending) + FrameItems(frame, timestamp)
      ensures forall p :: p in packetQueue ==> p in old(packetQueue) || fresh(p.data)
    {
      hide MatchAll, UnitItems;
      for k := 0 to |frame|
        invariant MatchAll(packetQueue, pending) && pending == old(pending) + FrameItems(frame[..k], timestamp)
        invariant forall p :: p in packetQueue ==> p in old(packetQueue) || fresh(p.data)
      {
        QueueUnit(frame[k], timestamp, now);
        assert frame[..k + 1][..k] == frame[..k];
      }
      assert frame[..|frame|] == frame;
    }

    /** Everything but the queue and the position in the file is as it was. */
    twostate predicate SameFile()
      reads this, nalSource
    {
      && state == old(state) && nalSource == old(nalSource) && h264Source == old(h264Source)
      && rtpTimestamp == old(rtpTimestamp)
      && (nalSource != null ==> nalSource.cachedNals == old(nalSource.cachedNals) && nalSource.frameRate == old(nalSource.frameRate))
    }

    /** The next frame of the file, after rewinding if there is none. */
    method NextFrame() returns (frame: seq<FrameUnit>)
      requires Valid() && nalSource != null
      modifies `frameIndex, nalSource
      ensures Valid() && SameFile()
      ensures frameIndex == if old(nalSource.HasMoreData()) then old(frameIndex) else 0
      ensures var i := if old(nalSource.HasMoreData()) then old(nalSource.nalIndex) else 0;
              && i < |nalSource.cachedNals|
              && frame == Kept(nalSource.cachedNals, i, i, FrameEnd(nalSource.cachedNals, i, i))
              && Frames(nalSource.cachedNals, i) == [frame] + Frames(nalSource.cachedNals, nalSource.nalIndex)
    {
      hide Frames, Kept, FrameEnd;
      var next := nalSource.ReadNextFrame();
      if next.None? {
        frameIndex := 0;
        nalSource.Reset();
        next := nalSource.ReadNextFrame();
      }
      frame := next.value;
    }

    /** Reads the next frame, rewinding at the end of the file, and queues its packets. */
    method FeedNextNALFrame(now: nat)
      requires Valid()
      modifies this, nalSource
      ensures Valid() && SameFile()
      ensures nalSource == null ==> packetQueue == old(packetQueue) && pending == old(pending)
      ensures nalSource != null ==> |pending| > |old(pending)|
      ensures nalSource != null ==>
                Remaining() == if old(nalSource.HasMoreData()) then old(Remaining()) else old(pending) + All()
      ensures forall p :: p in packetQueue ==> p in old(packetQueue) || fresh(p.data)
    {
      hide Frames, Items, FrameItems, Kept, FrameEnd, TimeOf;
      if nalSource == null || h264Source == null {
        return;
      }
      var frame := NextFrame();
      ghost var i := if old(nalSource.HasMoreData()) then old(nalSource.nalIndex) else 0;
      var timestamp := (rtpTimestamp + frameIndex * (90000 / nalSource.frameRate)) % TWO_32;
      assert timestamp == TimeOf(Step(), frameIndex) by { TimeIs(Step(), frameIndex); }
      KeptData(nalSource.cachedNals, i, i, FrameEnd(nalSource.cachedNals, i, i), TWO_32 - 1);
      FrameHasItems(nalSource.cachedNals, i, timestamp);
      ItemsFirst(frame, Frames(nalSource.cachedNals, nalSource.nalIndex), frameIndex, Step());
      QueueFrame(frame, timestamp, now);
      frameIndex := (frameIndex + 1) % TWO_32;
      Regroup(old(pending), FrameItems(frame, timestamp), Items(Frames(nalSource.cachedNals, nalSource.nalIndex), frameIndex, Step()));
    }

    /** The first packet of the queue, if there is one. */
    method Pop() returns (p: Option<RtpPacket>)
      requires MatchAll(packetQueue, pending)
      modifies `packetQueue, `pending
      ensures MatchAll(packetQueue, pending)
      ensures old(packetQueue) == [] ==> p == None && packetQueue == [] && pending == old(pending)
      ensures old(packetQueue) != [] ==>
                && p == Some(old(packetQueue)[0]) && Matches(p.value, old(pending)[0])
                && packetQueue == old(packetQueue)[1..] && pending == old(pending)[1..]
                && forall q :: q in packetQueue ==> q.data != p.value.data
    {
      if packetQueue == [] {
        return None;
      }
      p := Some(packetQueue[0]);
      packetQueue := packetQueue[1..];
      pending := pending[1..];
    }

    /** The provider of the sending timer: hands out the packets of the file, in order and for ever. */
    method ProduceNextPacket(now: nat) returns (p: Option<RtpPacket>)
      requires Valid()
      modifies this, nalSource
      ensures Valid() && SameFile()
      ensures nalSource == null ==>
                && p.Some? == (old(packetQueue) != [])
                && (p.Some? ==> Matches(p.value, old(pending)[0]))
                && pending == if p.Some? then old(pending)[1..] else old(pending)
      ensures nalSource != null ==> All() != [] && p.Some?
      ensures nalSource != null ==>
                var next := if old(Remaining()) == [] then All() else old(Remaining());
                Matches(p.value, next[0]) && Remaining() == next[1..]
      ensures p.Some? ==> p.value in old(packetQueue) || fresh(p.value.data)
      ensures forall q :: q in packetQueue ==> q in old(packetQueue) || fresh(q.data)
      ensures p.Some? ==> forall q :: q in packetQueue ==> q.data != p.value.data
    {
      hide Items, Frames;
      if nalSource != null {
        AllNonEmpty(nalSource.cachedNals, Step());
      }
      if packetQueue == [] && nalSource != null {
        if !nalSource.HasMoreData() {
          NothingLeft(nalSource.cachedNals, frameIndex, Step());
        }
        FeedNextNALFrame(now);
        assert old(pending) == [] && [] + All() == All();
      }
      ghost var before := pending;
      p := Pop();
      if nalSource != null {
        TakeFirst(before, Items(Frames(nalSource.cachedNals, nalSource.nalIndex), frameIndex, Step()));
      }
    }

    /** What the repeated calls of the timer hand out: element k of the endless stream, for every k. */
    method ProducePackets(count: nat, clock: nat -> nat) returns (packets: seq<RtpPacket>)
      requires Valid() && nalSource != null
      modifies this, nalSource
      ensures Valid() && SameFile() && All() == old(All()) != []
      ensures |packets| == count
      ensures forall k :: 0 <= k < count ==> Matches(packets[k], Endless(old(Remaining()), old(All()), k))
    {
      hide Items, Frames, Endless, Rest;
      packets := [];
      ghost var first, all := Remaining(), All();
      AllNonEmpty(nalSource.cachedNals, Step());
      RestStarts(first, all);
      for i := 0 to count
        invariant Valid() && SameFile() && |packets| == i
        invariant Remaining() == Rest(first, all, i)
        invariant forall k :: 0 <= k < i ==> Matches(packets[k], Endless(first, all, k))
      {
        var p := ProduceNextPacket(clock(i));
        EndlessIsNext(first, all, i);
        RestAdvances(first, all, i);
        packets := packets + [p.value];
      }
    }

    /** Opens a video file for the session; the packets already queued stay in front. */
    method LoadVideoFile(file: seq<byte>)
      requires Valid()
      requires forall k :: 0 <= k < |Units(file)| ==> |Units(file)[k]| < TWO_32 - 1
      modifies this
      ensures Valid()
      ensures packetQueue == old(packetQueue) && pending == old(pending)
      ensures state == old(state) && frameIndex == old(frameIndex) && rtpTimestamp == old(rtpTimestamp)
      ensures nalSource != null <==> Units(file) != []
      ensures nalSource != null ==>
                && fresh(nalSource) && Datas(nalSource.cachedNals) == Units(file)
                && nalSource.nalIndex == 0 && nalSource.frameRate == 25
      ensures nalSource != null ==> realSps == ParameterSet(file, 7) && realPps == ParameterSet(file, 8)
    {
      hide Units, Kept, FrameEnd, LastOf, Datas, UnitOk, NalsOf;
      var source, sps, pps := OpenVideo(file);
      nalSource := source;
      if source == null {
        return;
      }
      h264Source := new H264Source();
      h264Source.SetSendFrameCallback(k => true);
      realSps, realPps := sps, pps;
      CachedUnits(source.cachedNals, file);
    }

    /** A source for the file, at its start, and the parameter sets of its first frame; null if there are no units. */
    static method OpenVideo(file: seq<byte>) returns (source: RawH264Source?, sps: seq<byte>, pps: seq<byte>)
      requires forall k :: 0 <= k < |Units(file)| ==> |Units(file)[k]| < TWO_32 - 1
      ensures source != null <==> Units(file) != []
      ensures source != null ==>
                && fresh(source) && source.Valid() && source.isOpened && !source.eofReached
                && source.nalIndex == 0 && source.cachedNals != [] && source.frameRate == 25
                && Datas(source.cachedNals) == Units(file)
                && (forall u :: u in source.cachedNals ==> |u.data| < TWO_32 - 1)
                && var frame := Kept(source.cachedNals, 0, 0, FrameEnd(source.cachedNals, 0, 0));
                   sps == LastOf(frame, 7) && pps == LastOf(frame, 8)
    {
      hide Units, Kept, FrameEnd, LastOf, Datas, UnitOk;
      source := new RawH264Source();
      var ok := source.Open(file);
      if !ok {
        return null, [], [];
      }
      UnitsAreShort(source.cachedNals, Units(file), TWO_32 - 1);
      sps, pps := FirstParameterSets(source);
    }

    /** The parameter sets of the first frame; the source is rewound. */
    static method FirstParameterSets(source: RawH264Source) returns (sps: seq<byte>, pps: seq<byte>)
      requires source.Valid() && source.isOpened && !source.eofReached && source.cachedNals != [] && source.nalIndex == 0
      modifies source`nalIndex, source`eofReached
      ensures source.Valid() && !source.eofReached && source.nalIndex == 0
      ensures var frame := Kept(source.cachedNals, 0, 0, FrameEnd(source.cachedNals, 0, 0));
              sps == LastOf(frame, 7) && pps == LastOf(frame, 8)
    {
      hide Kept, FrameEnd, LastOf, Frames;
      var frame := source.ReadNextFrame();
      sps := LastData(frame.value, 7);
      pps := LastData(frame.value, 8);
      source.Reset();
    }

    /** A SETUP request that is granted. */
    method Setup()
      requires Valid()
      modifies `state
      ensures Valid() && state == READY
    {
      state := READY;
    }

    /**
     * A PLAY request, refused unless the session is ready.  The clock is set if it was not.  With a transport the file
     * starts over: what was left in the queue still comes first, and then the whole file, again and again.
     */
    method Play(millis: nat, hasTransport: bool) returns (ok: bool)
      requires Valid()
      modifies this, nalSource
      ensures Valid() && nalSource == old(nalSource) && packetQueue == old(packetQueue) && pending == old(pending)
      ensures realSps == old(realSps) && realPps == old(realPps)
      ensures ok == (old(state) == READY) && state == if ok then PLAYING else old(state)
      ensures rtpTimestamp == if ok && old(rtpTimestamp) == 0 then millis % 864000000 * 90 / 1000 else old(rtpTimestamp)
      ensures ok && hasTransport ==> frameIndex == 0 && h264Source != null
      ensures !(ok && hasTransport) ==> frameIndex == old(frameIndex) && h264Source == old(h264Source)
      ensures nalSource != null ==>
                && nalSource.cachedNals == old(nalSource.cachedNals) && nalSource.frameRate == old(nalSource.frameRate)
                && All() != []
                && (!(ok && hasTransport) ==> nalSource.nalIndex == old(nalSource.nalIndex))
                && (ok && hasTransport ==> forall n: nat :: Endless(Remaining(), All(), n) == Endless(pending, All(), n))
    {
      hide Items, Frames, Endless;
      if state != READY {
        if nalSource != null {
          AllNonEmpty(nalSource.cachedNals, Step());
        }
        return false;
      }
      state := PLAYING;
      if rtpTimestamp == 0 {
        rtpTimestamp := millis % 864000000 * 90 / 1000;
      }
      if hasTransport {
        StartOver();
      }
      if nalSource != null {
        AllNonEmpty(nalSource.cachedNals, Step());
      }
      return true;
    }

    /** What a PLAY request does to the sources when there is a transport. */
    method StartOver()
      requires Valid()
      modifies `h264Source, `frameIndex, nalSource
      ensures Valid() && frameIndex == 0 && h264Source != null
      ensures nalSource != null ==>
                && nalSource.cachedNals == old(nalSource.cachedNals) && nalSource.frameRate == old(nalSource.frameRate)
                && All() != [] && forall n: nat :: Endless(Remaining(), All(), n) == Endless(pending, All(), n)
    {
      hide Items, Frames, Endless;
      if h264Source == null {
        h264Source := new H264Source();
        h264Source.SetSendFrameCallback(k => true);
      }
      if nalSource != null {
        if nalSource.HasMoreData() {
          nalSource.Reset();
        }
      }
      frameIndex := 0;
      if nalSource != null {
        FromTheStart(pending, nalSource.cachedNals, nalSource.nalIndex, Step());
      }
    }
  }

  /** What is queued, and then the file: whether it is rewound at once or when the queue has run out. */
  lemma FromTheStart(queued: seq<Item>, nals: seq<NalUnit>, i: nat, clock: Clock)
    requires nals != [] && (i == 0 || i == |nals|)
    ensures var all := Items(Frames(nals, 0), 0, clock);
            && all != []
            && forall n: nat :: Endless(queued + Items(Frames(nals, i), 0, clock), all, n) == Endless(queued, all, n)
  {
    hide Items, Frames, Endless;
    var all := Items(Frames(nals, 0), 0, clock);
    AllNonEmpty(nals, clock);
    NothingLeft(nals, 0, clock);
    assert queued + [] == queued;
    forall n: nat ensures Endless(queued + all, all, n) == Endless(queued, all, n) {
      EndlessAfterAll(queued, all, n);
    }
  }

  /** The data of the last unit of type t in a frame; nothing if there is none. */
  function LastOf(frame: seq<FrameUnit>, t: nat): seq<byte> {
    if frame == [] then []
    else if frame[|frame| - 1].nalType == t then frame[|frame| - 1].data
    else LastOf(frame[..|frame| - 1], t)
  }

  /** The units of a file as a source holds them. */
  function NalsOf(file: seq<byte>): (nals: seq<NalUnit>)
    ensures |nals| == |Units(file)|
  {
    var units := Units(file);
    seq(|units|, k requires 0 <= k < |units| => NalUnit(units[k], if units[k] == [] then 0 else TypeOf(units[k])))
  }

  lemma CachedUnits(nals: seq<NalUnit>, file: seq<byte>)
    requires Datas(nals) == Units(file) && forall u :: u in nals ==> UnitOk(u)
    ensures nals == NalsOf(file)
  {
    hide Units;
    forall k | 0 <= k < |nals| ensures nals[k] == NalsOf(file)[k] {
      assert Units(file)[k] == nals[k].data && nals[k] in nals;
    }
  }

  /** The last unit of type t in the first frame of a file, the one that is remembered; nothing if there is none. */
  function ParameterSet(file: seq<byte>, t: nat): seq<byte> {
    var nals := NalsOf(file);
    LastOf(Kept(nals, 0, 0, FrameEnd(nals, 0, 0)), t)
  }

  /** It is the last one. */
  lemma {:induction false} LastOfIs(frame: seq<FrameUnit>, t: nat, k: nat)
    requires forall j :: k < j < |frame| ==> frame[j].nalType != t
    requires k < |frame| && frame[k].nalType == t
    ensures LastOf(frame, t) == frame[k].data
    decreases |frame|
  {
    if k < |frame| - 1 {
      assert forall j :: k < j < |frame| - 1 ==> frame[..|frame| - 1][j] == frame[j];
      LastOfIs(frame[..|frame| - 1], t, k);
    }
  }

  lemma {:induction false} LastOfNone(frame: seq<FrameUnit>, t: nat)
    requires forall j :: 0 <= j < |frame| ==> frame[j].nalType != t
    ensures LastOf(frame, t) == []
  {
    if frame != [] {
      LastOfNone(frame[..|frame| - 1], t);
    }
  }

  method LastData(frame: seq<FrameUnit>, t: nat) returns (data: seq<byte>)
    ensures data == LastOf(frame, t)
  {
    data := [];
    for k := 0 to |frame|
      invariant data == LastOf(frame[..k], t)
    {
      assert frame[..k + 1][..k] == frame[..k];
      if frame[k].nalType == t {
        data := frame[k].data;
      }
    }
    assert frame[..|frame|] == frame;
  }

  lemma UnitsAreShort(nals: seq<NalUnit>, units: seq<seq<byte>>, bound: nat)
    requires Datas(nals) == units && forall k :: 0 <= k < |units| ==> |units[k]| < bound
    ensures forall u :: u in nals ==> |u.data| < bound
  {
    forall u | u in nals ensures |u.data| < bound {
      var k :| 0 <= k < |nals| && nals[k] == u;
      assert units[k] == u.data;
    }
  }

  lemma RestStarts<T>(items: seq<T>, all: seq<T>)
    requires all != []
    ensures Rest(items, all, 0) == items
  {
  }

  lemma RestAdvances<T>(items: seq<T>, all: seq<T>, n: nat)
    requires all != []
    ensures Rest(items, all, n + 1) == Drop(Rest(items, all, n), all)
  {
  }

  lemma NothingLeft(nals: seq<NalUnit>, index: nat, clock: Clock)
    ensures Items(Frames(nals, |nals|), index, clock) == []
  {
  }

  lemma TakeFirst<T>(a: seq<T>, b: seq<T>)
    requires a != []
    ensures (a + b)[0] == a[0] && (a + b)[1..] == a[1..] + b
  {
  }

  lemma AllNonEmpty(nals: seq<NalUnit>, clock: Clock)
    requires nals != []
    ensures Items(Frames(nals, 0), 0, clock) != []
  {
    hide Items, Kept, FrameEnd, Frames;
    FramesFirst(nals, 0);
    var end := FrameEnd(nals, 0, 0);
    FrameHasItems(nals, 0, TimeOf(clock, 0));
    ItemsFirst(Kept(nals, 0, 0, end), Frames(nals, end), 0, clock);
  }
}
