/** A raw H.264 file as a source of frames: opening, grouping units into frames, rewinding. */
module NalSource {
  import opened Bytes
  import opened AnnexB

  /** A unit of a frame; pts is its index in the file. */
  datatype FrameUnit = FrameUnit(data: seq<byte>, nalType: nat, isKeyframe: bool, pts: nat)

  predicate IsVcl(u: NalUnit) {
    1 <= u.nalType <= 5
  }

  function UnitAt(nals: seq<NalUnit>, k: nat): FrameUnit
    requires k < |nals|
  {
    FrameUnit(nals[k].data, nals[k].nalType, nals[k].nalType == 5, k)
  }

  /** The number of units with picture data among those with index lo to hi - 1. */
  function VclCount(nals: seq<NalUnit>, lo: nat, hi: nat): nat
    requires lo <= hi <= |nals|
    decreases hi
  {
    if lo == hi then 0 else VclCount(nals, lo, hi - 1) + if IsVcl(nals[hi - 1]) then 1 else 0
  }

  /** The units with index lo to hi - 1 in order, without access-unit delimiters (type 9) other than unit first. */
  function Kept(nals: seq<NalUnit>, first: nat, lo: nat, hi: nat): seq<FrameUnit>
    requires lo <= hi <= |nals|
    decreases hi
  {
    if lo == hi then []
    else Kept(nals, first, lo, hi - 1) + if nals[hi - 1].nalType == 9 && hi - 1 != first then [] else [UnitAt(nals, hi - 1)]
  }

  /** The least index from hi on with a second unit with picture data, counted from lo; the end if there is none. */
  function FrameEnd(nals: seq<NalUnit>, lo: nat, hi: nat): (end: nat)
    requires lo <= hi <= |nals|
    ensures hi <= end <= |nals|
    decreases |nals| - hi
  {
    if hi < |nals| && !(IsVcl(nals[hi]) && VclCount(nals, lo, hi) > 0) then FrameEnd(nals, lo, hi + 1) else hi
  }

  /** The frames from unit i to the end. */
  function Frames(nals: seq<NalUnit>, i: nat): seq<seq<FrameUnit>>
    requires i <= |nals|
    decreases |nals| - i
  {
    if i == |nals| then []
    else
      var end := FrameEnd(nals, i, i);
      assert end > i by { assert VclCount(nals, i, i) == 0; }
      [Kept(nals, i, i, end)] + Frames(nals, end)
  }

  lemma {:induction false} VclCountSplit(nals: seq<NalUnit>, lo: nat, mid: nat, hi: nat)
    requires lo <= mid <= hi <= |nals|
    ensures VclCount(nals, lo, hi) == VclCount(nals, lo, mid) + VclCount(nals, mid, hi)
    decreases hi
  {
    if mid < hi {
      VclCountSplit(nals, lo, mid, hi - 1);
    }
  }

  /** A frame takes in units up to the second one with picture data. */
  lemma {:induction false} FrameEndBounds(nals: seq<NalUnit>, lo: nat, hi: nat)
    requires lo <= hi <= |nals| && VclCount(nals, lo, hi) <= 1
    ensures var end := FrameEnd(nals, lo, hi);
            && VclCount(nals, lo, end) <= 1
            && (end < |nals| ==> IsVcl(nals[end]) && VclCount(nals, lo, end) == 1)
    decreases |nals| - hi
  {
    if hi < |nals| && !(IsVcl(nals[hi]) && VclCount(nals, lo, hi) > 0) {
      FrameEndBounds(nals, lo, hi + 1);
    }
  }

  lemma {:induction false} KeptSplit(nals: seq<NalUnit>, first: nat, lo: nat, mid: nat, hi: nat)
    requires lo <= mid <= hi <= |nals|
    ensures Kept(nals, first, lo, hi) == Kept(nals, first, lo, mid) + Kept(nals, first, mid, hi)
    decreases hi
  {
    if mid < hi {
      KeptSplit(nals, first, lo, mid, hi - 1);
    }
  }

  /** Which unit is spared does not matter where there is no delimiter to spare. */
  lemma {:induction false} KeptFirst(nals: seq<NalUnit>, first: nat, first': nat, lo: nat, hi: nat)
    requires lo <= hi <= |nals|
    requires first < lo || (first < |nals| && nals[first].nalType != 9)
    requires first' < lo || (first' < |nals| && nals[first'].nalType != 9)
    ensures Kept(nals, first, lo, hi) == Kept(nals, first', lo, hi)
    decreases hi
  {
    if lo < hi {
      KeptFirst(nals, first, first', lo, hi - 1);
    }
  }

  /** The first unit of a frame is always kept. */
  lemma {:induction false} KeptHead(nals: seq<NalUnit>, lo: nat, hi: nat)
    requires lo < hi <= |nals|
    ensures Kept(nals, lo, lo, hi) != [] && Kept(nals, lo, lo, hi)[0] == UnitAt(nals, lo)
    decreases hi
  {
    if lo < hi - 1 {
      KeptHead(nals, lo, hi - 1);
    } else {
      assert Kept(nals, lo, lo, lo) == [];
    }
  }

  /** The number of units with picture data in a frame. */
  function VclUnits(frame: seq<FrameUnit>): nat {
    if frame == [] then 0 else VclUnits(frame[..|frame| - 1]) + if 1 <= frame[|frame| - 1].nalType <= 5 then 1 else 0
  }

  lemma {:induction false} VclUnitsOfKept(nals: seq<NalUnit>, first: nat, lo: nat, hi: nat)
    requires lo <= hi <= |nals|
    ensures VclUnits(Kept(nals, first, lo, hi)) == VclCount(nals, lo, hi)
    decreases hi
  {
    if lo < hi {
      VclUnitsOfKept(nals, first, lo, hi - 1);
      var before, u := Kept(nals, first, lo, hi - 1), UnitAt(nals, hi - 1);
      assert (before + [u])[..|before|] == before && before + [] == before;
    }
  }

  /** Where a frame may start: at the beginning of the file, or at a unit with picture data. */
  predicate FrameStart(nals: seq<NalUnit>, i: nat)
    requires i <= |nals|
  {
    i == 0 || i == |nals| || IsVcl(nals[i])
  }

  /** Conservation: the frames together are the units in file order, with only delimiters after the first dropped. */
  lemma {:induction false} FramesPartition(nals: seq<NalUnit>, i: nat)
    requires i <= |nals| && FrameStart(nals, i)
    ensures Concat(Frames(nals, i)) == Kept(nals, 0, i, |nals|)
    decreases |nals| - i
  {
    hide IsVcl;
    if i < |nals| {
      assert VclCount(nals, i, i) == 0;
      FrameEndBounds(nals, i, i);
      var end := FrameEnd(nals, i, i);
      assert end > i;
      FramesPartition(nals, end);
      KeptSplit(nals, 0, i, end, |nals|);
      if i > 0 {
        assert IsVcl(nals[i]);
        SpareSame(nals, i, end);
      }
      ConcatStep(Kept(nals, i, i, end), Frames(nals, end));
    }
  }

  lemma SpareSame(nals: seq<NalUnit>, i: nat, end: nat)
    requires 0 < i <= end <= |nals| && i < |nals| && IsVcl(nals[i])
    ensures Kept(nals, i, i, end) == Kept(nals, 0, i, end)
  {
    KeptFirst(nals, i, 0, i, end);
  }

  lemma ConcatStep<T>(a: seq<T>, rest: seq<seq<T>>)
    ensures Concat([a] + rest) == a + Concat(rest)
  {
    assert ([a] + rest)[1..] == rest;
  }

  /** Every frame has a unit and at most one with picture data; frames after the first begin with it. */
  lemma {:induction false} FrameShape(nals: seq<NalUnit>, i: nat, k: nat)
    requires i <= |nals| && FrameStart(nals, i) && k < |Frames(nals, i)|
    ensures var f := Frames(nals, i)[k];
            && f != [] && VclUnits(f) <= 1
            && (i > 0 || k > 0 ==> 1 <= f[0].nalType <= 5 && VclUnits(f) == 1)
    decreases |nals| - i
  {
    assert VclCount(nals, i, i) == 0;
    FrameEndBounds(nals, i, i);
    var end := FrameEnd(nals, i, i);
    assert end > i;
    if k == 0 {
      KeptHead(nals, i, end);
      VclUnitsOfKept(nals, i, i, end);
      if i > 0 {
        VclCountSplit(nals, i, i + 1, end);
        assert VclCount(nals, i, i + 1) == 1;
      }
    } else {
      FrameShape(nals, end, k - 1);
    }
  }

  /** One frame per unit with picture data; one frame if there is none. */
  lemma {:induction false} FrameCount(nals: seq<NalUnit>, i: nat)
    requires i < |nals| && FrameStart(nals, i)
    ensures |Frames(nals, i)| == if VclCount(nals, i, |nals|) == 0 then 1 else VclCount(nals, i, |nals|)
    decreases |nals| - i
  {
    assert VclCount(nals, i, i) == 0;
    FrameEndBounds(nals, i, i);
    var end := FrameEnd(nals, i, i);
    assert end > i;
    VclCountSplit(nals, i, end, |nals|);
    if end < |nals| {
      FrameCount(nals, end);
      VclCountSplit(nals, end, end + 1, |nals|);
      assert VclCount(nals, end, end + 1) == 1;
    } else {
      assert Frames(nals, end) == [];
    }
  }

  /** What grouping keeps of a file: all units but the access-unit delimiters behind the first unit. */
  function Grouped(units: seq<seq<byte>>): seq<seq<byte>> {
    if units == [] then []
    else
      var last := units[|units| - 1];
      Grouped(units[..|units| - 1]) + if |units| > 1 && last != [] && TypeOf(last) == 9 then [] else [last]
  }

  /** A unit more: kept unless it is a delimiter (type 9) and not the first. */
  lemma GroupedMore(units: seq<seq<byte>>, u: seq<byte>)
    requires u != []
    ensures Grouped(units + [u]) == if units != [] && u[0] % 32 == 9 then Grouped(units) else Grouped(units) + [u]
    ensures Grouped([]) == []
  {
    assert (units + [u])[..|units|] == units;
  }

  function DatasOf(frame: seq<FrameUnit>): (datas: seq<seq<byte>>)
    ensures |datas| == |frame|
  {
    seq(|frame|, k requires 0 <= k < |frame| => frame[k].data)
  }

  lemma DatasAppend(a: seq<FrameUnit>, b: seq<FrameUnit>)
    ensures DatasOf(a + b) == DatasOf(a) + DatasOf(b)
  {
  }

  lemma {:induction false} KeptIsGrouped(nals: seq<NalUnit>, hi: nat)
    requires hi <= |nals| && forall u :: u in nals ==> UnitOk(u)
    ensures DatasOf(Kept(nals, 0, 0, hi)) == Grouped(Datas(nals)[..hi])
    decreases hi
  {
    if hi > 0 {
      KeptIsGrouped(nals, hi - 1);
      var units, before, u := Datas(nals)[..hi], Kept(nals, 0, 0, hi - 1), nals[hi - 1];
      assert units[..hi - 1] == Datas(nals)[..hi - 1] && units[hi - 1] == u.data;
      assert u in nals && UnitOk(u);
      DatasAppend(before, [UnitAt(nals, hi - 1)]);
      assert before + [] == before;
    }
  }

  // ---- the source --------------------------------------------------------------------------------------------------

  /** The data of the last unit of the given type, or what there was before. */
  function LastOfType(nals: seq<NalUnit>, t: nat, before: seq<byte>): seq<byte> {
    if nals == [] then before
    else if nals[|nals| - 1].nalType == t then nals[|nals| - 1].data
    else LastOfType(nals[..|nals| - 1], t, before)
  }

  /** It is the last one of that type. */
  lemma {:induction false} LastOfTypeIs(nals: seq<NalUnit>, t: nat, before: seq<byte>, k: nat)
    requires k < |nals| && nals[k].nalType == t && forall j :: k < j < |nals| ==> nals[j].nalType != t
    ensures LastOfType(nals, t, before) == nals[k].data
    decreases |nals|
  {
    if k < |nals| - 1 {
      LastOfTypeIs(nals[..|nals| - 1], t, before, k);
    }
  }

  lemma {:induction false} LastOfTypeNone(nals: seq<NalUnit>, t: nat, before: seq<byte>)
    requires forall j :: 0 <= j < |nals| ==> nals[j].nalType != t
    ensures LastOfType(nals, t, before) == before
  {
    if nals != [] {
      LastOfTypeNone(nals[..|nals| - 1], t, before);
    }
  }

  class RawH264Source {
    var fileData: seq<byte>
    var cachedNals: seq<NalUnit>
    var nalIndex: nat
    var isOpened: bool
    var eofReached: bool
    var sps: seq<byte>
    var pps: seq<byte>
    var frameRate: nat
    var width: nat
    var height: nat

    ghost predicate Valid()
      reads this
    {
      (forall u :: u in cachedNals ==> UnitOk(u)) && 0 < frameRate
    }

    constructor ()
      ensures Valid() && !isOpened && !eofReached && frameRate == 25
    {
      fileData, cachedNals, nalIndex, isOpened, eofReached := [], [], 0, false, false;
      sps, pps, frameRate, width, height := [], [], 25, 0, 0;
    }

    /**
     * Opens the source on the bytes of a file; a file that cannot be read is empty.  A failed attempt leaves an open
     * source open: on its old units if the file is empty, on no units otherwise.
     */
    method Open(file: seq<byte>) returns (ok: bool)
      requires Valid()
      modifies this
      ensures Valid() && frameRate == old(frameRate) && fileData == file
      ensures ok == (Units(file) != []) && isOpened == (ok || old(isOpened))
      ensures ok ==> Datas(cachedNals) == Units(file) && cachedNals != [] && nalIndex == 0 && !eofReached
      ensures ok ==> sps == LastOfType(cachedNals, 7, old(sps)) && pps == LastOfType(cachedNals, 8, old(pps))
      ensures !ok ==> cachedNals == (if file == [] then old(cachedNals) else [])
      ensures !ok ==> nalIndex == old(nalIndex) && eofReached == old(eofReached) && sps == old(sps) && pps == old(pps)
    {
      hide Units;
      fileData := file;
      if fileData == [] {
        NoUnits();
        return false;
      }
      cachedNals := ExtractNALUnits(fileData);
      assert |Datas(cachedNals)| == |cachedNals|;
      if cachedNals == [] {
        return false;
      }
      nalIndex := 0;
      isOpened := true;
      eofReached := false;
      TakeParameterSets();
      width := 1920;
      height := 1080;
      return true;
    }

    /** The loop of Open that remembers the parameter sets. */
    method TakeParameterSets()
      modifies `sps, `pps
      ensures sps == LastOfType(cachedNals, 7, old(sps)) && pps == LastOfType(cachedNals, 8, old(pps))
    {
      for k := 0 to |cachedNals|
        invariant sps == LastOfType(cachedNals[..k], 7, old(sps)) && pps == LastOfType(cachedNals[..k], 8, old(pps))
      {
        assert cachedNals[..k + 1][..k] == cachedNals[..k];
        if cachedNals[k].nalType == 7 {
          sps := cachedNals[k].data;
        }
        if cachedNals[k].nalType == 8 {
          pps := cachedNals[k].data;
        }
      }
      assert cachedNals[..|cachedNals|] == cachedNals;
    }

    method Close()
      requires Valid()
      modifies this
      ensures Valid() && !isOpened && !eofReached && nalIndex == 0
      ensures cachedNals == [] && fileData == [] && sps == [] && pps == []
    {
      fileData := [];
      cachedNals := [];
      sps := [];
      pps := [];
      isOpened := false;
      eofReached := false;
      nalIndex := 0;
    }

    predicate HasMoreData()
      reads this
    {
      isOpened && !eofReached && nalIndex < |cachedNals|
    }

    method Reset()
      requires Valid()
      modifies `nalIndex, `eofReached
      ensures Valid() && nalIndex == 0 && !eofReached
    {
      nalIndex := 0;
      eofReached := false;
    }

    /** The next frame: there is one exactly if there is more data, and then the source moves on to where it ends. */
    method ReadNextFrame() returns (frame: Option<seq<FrameUnit>>)
      requires Valid()
      modifies `nalIndex, `eofReached
      ensures Valid()
      ensures frame.Some? == old(HasMoreData())
      ensures frame.None? ==> eofReached && nalIndex == old(nalIndex)
      ensures frame.Some? ==>
                && old(nalIndex) < nalIndex == FrameEnd(cachedNals, old(nalIndex), old(nalIndex)) && !eofReached
                && frame.value == Kept(cachedNals, old(nalIndex), old(nalIndex), nalIndex)
      ensures frame.Some? ==> Frames(cachedNals, old(nalIndex)) == [frame.value] + Frames(cachedNals, nalIndex)
    {
      hide Frames, Units, Datas, UnitOk;
      if !isOpened || eofReached || nalIndex >= |cachedNals| {
        eofReached := true;
        return None;
      }
      ghost var start := nalIndex;
      var units: seq<FrameUnit> := [];
      var firstVclType := 0;
      assert VclCount(cachedNals, start, start) == 0;
      while nalIndex < |cachedNals|
        invariant start <= nalIndex <= |cachedNals| && !eofReached
        invariant units == Kept(cachedNals, start, start, nalIndex)
        invariant units == [] <==> nalIndex == start
        invariant firstVclType != 0 <==> VclCount(cachedNals, start, nalIndex) > 0
        invariant FrameEnd(cachedNals, start, start) == FrameEnd(cachedNals, start, nalIndex)
      {
        var nal := cachedNals[nalIndex];
        var unit := FrameUnit(nal.data, nal.nalType, nal.nalType == 5, nalIndex);
        var isVcl := 1 <= nal.nalType <= 5;
        if units == [] {
          units := units + [unit];
          if isVcl {
            firstVclType := nal.nalType;
          }
          nalIndex := nalIndex + 1;
          continue;
        }
        if isVcl && firstVclType != 0 {
          break;
        }
        if nal.nalType == 9 {
          nalIndex := nalIndex + 1;
          continue;
        }
        if isVcl {
          firstVclType := nal.nalType;
        }
        units := units + [unit];
        nalIndex := nalIndex + 1;
      }
      assert units != [];  // so the source's second end-of-file exit is never taken
      FramesFirst(cachedNals, start);
      return Some(units);
    }

    /** All frames to the end of the file, as a reader that calls until there is none sees them. */
    method ReadAllFrames() returns (frames: seq<seq<FrameUnit>>)
      requires Valid() && isOpened && !eofReached && nalIndex <= |cachedNals|
      modifies `nalIndex, `eofReached
      ensures Valid() && eofReached
      ensures frames == Frames(cachedNals, old(nalIndex))
    {
      hide FrameEnd, Kept, Units, Datas, UnitOk;
      frames := [];
      ghost var all := Frames(cachedNals, nalIndex);
      while true
        invariant Valid() && isOpened && !eofReached && nalIndex <= |cachedNals|
        invariant all == frames + Frames(cachedNals, nalIndex)
        decreases |cachedNals| - nalIndex
      {
        ghost var rest := Frames(cachedNals, nalIndex);
        ghost var before := nalIndex;
        var frame := ReadNextFrame();
        if frame.None? {
          assert rest == [];
          return;
        }
        FramesFirst(cachedNals, before);
        frames := frames + [frame.value];
      }
    }
  }

  lemma FramesFirst(nals: seq<NalUnit>, i: nat)
    requires i < |nals|
    ensures var end := FrameEnd(nals, i, i);
            i < end && Frames(nals, i) == [Kept(nals, i, i, end)] + Frames(nals, end)
  {
    assert VclCount(nals, i, i) == 0;
  }
}
