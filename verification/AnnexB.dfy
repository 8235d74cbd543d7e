/**
 * The byte stream of Annex B of ITU-T H.264: emulation prevention and start codes as the generator writes them, and
 * the scanner that takes the stream apart again.
 */
module AnnexB {
  import opened Bytes
  import opened Bits
  import opened Bitstream

  // ---- emulation prevention ----------------------------------------------------------------------------------------

  /** What is written for byte a after z zero bytes in a row. */
  function Emit(a: byte, z: nat): seq<byte> {
    if z == 2 && a < 4 then [3, a] else [a]
  }

  /** Zero bytes in a row after that; a prevention byte breaks the row. */
  function ZerosAfter(a: byte, z: nat): nat {
    if a != 0 then 0 else if z == 2 then 1 else z + 1
  }

  /** The bytes of s with prevention bytes put in, after z zero bytes in a row. */
  function Escape(s: seq<byte>, z: nat): seq<byte> {
    if s == [] then [] else Emit(s[0], z) + Escape(s[1..], ZerosAfter(s[0], z))
  }

  /** Section 7.3.1: of each 00 00 03 the third byte is dropped. */
  function Unescape(s: seq<byte>): seq<byte>
    decreases |s|
  {
    if s == [] then []
    else if |s| >= 3 && s[0] == 0 && s[1] == 0 && s[2] == 3 then [0, 0] + Unescape(s[3..])
    else [s[0]] + Unescape(s[1..])
  }

  lemma UnescapeOne(a: byte, s: seq<byte>)
    requires a != 0 || |s| < 2 || s[0] != 0 || s[1] != 3
    ensures Unescape([a] + s) == [a] + Unescape(s)
  {
    assert ([a] + s)[1..] == s;
  }

  lemma UnescapeThree(s: seq<byte>)
    ensures Unescape([0, 0, 3] + s) == [0, 0] + Unescape(s)
  {
    assert ([0, 0, 3] + s)[3..] == s;
  }

  lemma UnescapeZerosOnly(z: nat)
    requires z <= 2
    ensures Unescape(ZeroBytes(z)) == ZeroBytes(z)
  {
    assert [0, 0][1..] == [0] && [0][1..] == [];
    assert ZeroBytes(0) == [] && ZeroBytes(1) == [0] && ZeroBytes(2) == [0, 0];
  }

  lemma Zeros012()
    ensures ZeroBytes(0) == [] && ZeroBytes(1) == [0] && ZeroBytes(2) == [0, 0]
  {
  }

  /** One turn of the writer, a zero byte without a prevention byte: it joins the zeros already out. */
  lemma EmitZero(z: nat, tail: seq<byte>)
    requires z < 2
    ensures ZeroBytes(z) + (Emit(0, z) + tail) == ZeroBytes(z + 1) + tail
    ensures ZeroBytes(z) + ([0] + tail) == ZeroBytes(z + 1) + tail
  {
    assert ZeroBytes(z + 1) == ZeroBytes(z) + [0];
  }

  /** Three bytes in front of a tail, one by one. */
  lemma ThreeBytes(a: byte, b: byte, c: byte, tail: seq<byte>)
    ensures [a, b] + ([c] + tail) == [a] + ([b] + ([c] + tail))
    ensures [a, b, c] + tail == [a] + ([b] + ([c] + tail))
  {
  }

  lemma FourBytes(a: byte, tail: seq<byte>)
    ensures [0, 0] + ([3, a] + tail) == [0, 0, 3] + ([a] + tail)
  {
  }

  lemma UnescapeOther(z: nat, a: byte, tail: seq<byte>)
    requires z <= 2 && a != 0 && (z == 2 ==> a >= 4)
    ensures Unescape(ZeroBytes(z) + ([a] + tail)) == ZeroBytes(z) + ([a] + Unescape(tail))
  {
    hide Unescape;
    Zeros012();
    UnescapeOne(a, tail);
    if z == 0 {
      assert [] + ([a] + tail) == [a] + tail && [] + ([a] + Unescape(tail)) == [a] + Unescape(tail);
    } else {
      UnescapeOne(0, [a] + tail);
      if z == 2 {
        UnescapeOne(0, [0] + ([a] + tail));
        ThreeBytes(0, 0, a, tail);
        ThreeBytes(0, 0, a, Unescape(tail));
      }
    }
  }

  /** One turn of the writer against the reader, which also sees the z zeros already out. */
  lemma UnescapeEmit(z: nat, a: byte, tail: seq<byte>, t: seq<byte>)
    requires z <= 2
    requires Unescape(ZeroBytes(ZerosAfter(a, z)) + tail) == ZeroBytes(ZerosAfter(a, z)) + t
    ensures Unescape(ZeroBytes(z) + (Emit(a, z) + tail)) == ZeroBytes(z) + ([a] + t)
  {
    hide Unescape;
    Zeros012();
    assert [] + tail == tail && [] + t == t;
    if z == 2 && a < 4 {
      UnescapeThree([a] + tail);
      FourBytes(a, tail);
      if a != 0 {
        UnescapeOne(a, tail);
      }
    } else if a != 0 {
      UnescapeOther(z, a, tail);
    } else {
      EmitZero(z, tail);
      EmitZero(z, t);
    }
  }

  /** Round trip, with the zeros that are already out in front. */
  lemma {:induction false} UnescapeEscape(s: seq<byte>, z: nat)
    requires z <= 2
    ensures Unescape(ZeroBytes(z) + Escape(s, z)) == ZeroBytes(z) + s
    decreases |s|
  {
    hide Unescape, Emit;
    if s == [] {
      UnescapeZerosOnly(z);
      assert ZeroBytes(z) + [] == ZeroBytes(z);
    } else {
      var z' := ZerosAfter(s[0], z);
      UnescapeEscape(s[1..], z');
      UnescapeEmit(z, s[0], Escape(s[1..], z'), s[1..]);
      assert s == [s[0]] + s[1..];
    }
  }

  /** Section 7.4.1: 00 00 is followed by 03 or more, and a prevention byte only by 00, 01, 02 or 03. */
  predicate Clean(s: seq<byte>) {
    forall i :: 0 <= i < |s| - 2 ==> CleanAt(s, i)
  }

  predicate CleanAt(s: seq<byte>, i: nat)
    requires i < |s| - 2
  {
    s[i] == 0 && s[i + 1] == 0 ==> s[i + 2] >= 3 && (s[i + 2] == 3 ==> i + 3 < |s| && s[i + 3] <= 3)
  }

  lemma CleanPush(a: byte, s: seq<byte>)
    requires Clean(s)
    requires |s| >= 2 ==> CleanAt([a] + s, 0)
    ensures Clean([a] + s)
  {
    var t := [a] + s;
    forall i | 0 < i < |t| - 2
      ensures CleanAt(t, i)
    {
      assert CleanAt(s, i - 1);
    }
  }

  lemma CleanOther(z: nat, a: byte, tail: seq<byte>)
    requires z <= 2 && a != 0 && (z == 2 ==> a >= 4) && Clean(tail)
    ensures Clean(ZeroBytes(z) + ([a] + tail))
  {
    hide Clean;
    Zeros012();
    CleanPush(a, tail);
    if z == 0 {
      assert [] + ([a] + tail) == [a] + tail;
    } else {
      CleanPush(0, [a] + tail);
      if z == 2 {
        CleanPush(0, [0] + ([a] + tail));
        ThreeBytes(0, 0, a, tail);
      }
    }
  }

  lemma CleanPrevention(a: byte, tail: seq<byte>)
    requires a < 4 && Clean([a] + tail)
    ensures Clean([0, 0, 3] + ([a] + tail))
  {
    hide Clean;
    CleanPush(3, [a] + tail);
    CleanPush(0, [3] + ([a] + tail));
    CleanPush(0, [0] + ([3] + ([a] + tail)));
    ThreeBytes(0, 0, 3, [a] + tail);
  }

  lemma CleanEmit(z: nat, a: byte, tail: seq<byte>)
    requires z <= 2 && Clean(ZeroBytes(ZerosAfter(a, z)) + tail)
    ensures Clean(ZeroBytes(z) + (Emit(a, z) + tail))
  {
    hide Clean;
    Zeros012();
    assert [] + tail == tail;
    if z == 2 && a < 4 {
      if a != 0 {
        CleanPush(a, tail);
      }
      CleanPrevention(a, tail);
      FourBytes(a, tail);
    } else if a != 0 {
      CleanOther(z, a, tail);
    } else {
      EmitZero(z, tail);
    }
  }

  /** Whatever the payload, what is written is clean, also together with the zeros already out. */
  lemma {:induction false} EscapeIsClean(s: seq<byte>, z: nat)
    requires z <= 2
    ensures Clean(ZeroBytes(z) + Escape(s, z))
    decreases |s|
  {
    hide Emit;
    if s == [] {
      assert ZeroBytes(z) + [] == ZeroBytes(z);
    } else {
      hide Clean;
      var z' := ZerosAfter(s[0], z);
      EscapeIsClean(s[1..], z');
      CleanEmit(z, s[0], Escape(s[1..], z'));
    }
  }

  lemma {:induction false} EscapeKeepsLast(s: seq<byte>, z: nat)
    requires s != []
    ensures Escape(s, z) != [] && Escape(s, z)[|Escape(s, z)| - 1] == s[|s| - 1]
    decreases |s|
  {
    if |s| > 1 {
      EscapeKeepsLast(s[1..], ZerosAfter(s[0], z));
    } else {
      assert s[1..] == [];
    }
  }

  // ---- start codes -------------------------------------------------------------------------------------------------

  const CODE3: seq<byte> := [0, 0, 1]
  const CODE4: seq<byte> := [0, 0, 0, 1]

  /** The length of the start code s begins with; 0 if there is none. */
  function CodeSize(s: seq<byte>): (c: nat)
    ensures c <= |s| && (c == 0 || c == 3 || c == 4)
  {
    if |s| >= 4 && s[0] == 0 && s[1] == 0 && s[2] == 0 && s[3] == 1 then 4
    else if |s| >= 3 && s[0] == 0 && s[1] == 0 && s[2] == 1 then 3
    else 0
  }

  /** No start code lies inside s. */
  predicate CodeFree(s: seq<byte>) {
    forall i :: 0 <= i < |s| - 2 ==> !CodeAt(s, i)
  }

  predicate CodeAt(s: seq<byte>, i: nat)
    requires i < |s| - 2
  {
    s[i] == 0 && s[i + 1] == 0 && s[i + 2] == 1
  }

  datatype Tile = Tile(code: seq<byte>, unit: seq<byte>)

  function TileBytes(tiles: seq<Tile>): seq<byte> {
    if tiles == [] then [] else tiles[0].code + (tiles[0].unit + TileBytes(tiles[1..]))
  }

  predicate EndsInZero(s: seq<byte>) {
    s != [] && s[|s| - 1] == 0
  }

  /** Each tile is a start code and a unit free of start codes; a zero in front of 00 00 01 belongs to the code. */
  predicate TilesOk(before: seq<byte>, tiles: seq<Tile>)
    decreases |tiles|
  {
    tiles == [] ||
    (&& (tiles[0].code == CODE4 || (tiles[0].code == CODE3 && !EndsInZero(before)))
     && CodeFree(tiles[0].unit)
     && TilesOk(tiles[0].unit, tiles[1..]))
  }

  /** The bytes before the first start code. */
  function Gap(s: seq<byte>): (g: nat)
    ensures g <= |s| && (g < |s| ==> CodeSize(s[g..]) > 0)
    decreases |s|
  {
    if s == [] || CodeSize(s) > 0 then 0 else 1 + Gap(s[1..])
  }

  function Tiles(s: seq<byte>): seq<Tile>
    requires s == [] || CodeSize(s) > 0
    decreases |s|
  {
    if s == [] then []
    else
      var rest := s[CodeSize(s)..];
      [Tile(s[..CodeSize(s)], rest[..Gap(rest)])] + Tiles(rest[Gap(rest)..])
  }

  function UnitsOf(tiles: seq<Tile>): seq<seq<byte>> {
    if tiles == [] then []
    else (if tiles[0].unit == [] then [] else [tiles[0].unit]) + UnitsOf(tiles[1..])
  }

  /** The units of a stream: its non-empty tiles, in order. */
  function Units(s: seq<byte>): seq<seq<byte>> {
    UnitsOf(Tiles(s[Gap(s)..]))
  }

  lemma {:induction false} GapBefore(s: seq<byte>, i: nat)
    requires i < Gap(s)
    ensures CodeSize(s[i..]) == 0
    decreases i
  {
    if i > 0 {
      GapBefore(s[1..], i - 1);
      assert s[1..][i - 1..] == s[i..];
    }
  }

  /** What lies before the first start code holds none, and does not end in a zero that would belong to it. */
  lemma GapIsCodeFree(s: seq<byte>)
    ensures CodeFree(s[..Gap(s)])
    ensures Gap(s) < |s| && CodeSize(s[Gap(s)..]) == 3 ==> !EndsInZero(s[..Gap(s)])
  {
    var g := Gap(s);
    var p := s[..g];
    hide Gap;
    forall i | 0 <= i < |p| - 2
      ensures !CodeAt(p, i)
    {
      GapBefore(s, i);
      assert s[i] == s[i..][0] && s[i + 1] == s[i..][1] && s[i + 2] == s[i..][2];
    }
    if 0 < g < |s| && CodeSize(s[g..]) == 3 {
      GapBefore(s, g - 1);
      var t := s[g - 1..];
      assert t[0] == s[g - 1] && t[1] == s[g..][0] && t[2] == s[g..][1] && t[3] == s[g..][2];
    }
  }

  lemma {:induction false} TilesAreOk(s: seq<byte>, before: seq<byte>)
    requires s == [] || CodeSize(s) > 0
    requires CodeSize(s) == 3 ==> !EndsInZero(before)
    ensures TilesOk(before, Tiles(s)) && TileBytes(Tiles(s)) == s
    decreases |s|
  {
    hide Gap, CodeFree, CodeSize;
    if s != [] {
      var c := CodeSize(s);
      var rest := s[c..];
      var unit, more := rest[..Gap(rest)], rest[Gap(rest)..];
      GapIsCodeFree(rest);
      TilesAreOk(more, unit);
      CodeBytes(s);
      CutTwice(s, c, Gap(rest));
      assert Tiles(s) == [Tile(s[..c], unit)] + Tiles(more);
      assert Tiles(s)[1..] == Tiles(more);
    }
  }

  lemma CodeBytes(s: seq<byte>)
    requires CodeSize(s) > 0
    ensures s[..CodeSize(s)] == CODE4 || (CodeSize(s) == 3 && s[..CodeSize(s)] == CODE3)
  {
  }

  lemma CutTwice(s: seq<byte>, c: nat, g: nat)
    requires c <= |s| && g <= |s[c..]|
    ensures s == s[..c] + (s[c..][..g] + s[c..][g..])
  {
  }

  /** Existence: every stream is its prefix and its tiles. */
  lemma StreamIsTiled(s: seq<byte>)
    ensures var prefix, tiles := s[..Gap(s)], Tiles(s[Gap(s)..]);
            CodeFree(prefix) && TilesOk(prefix, tiles) && s == prefix + TileBytes(tiles)
  {
    hide Gap, Tiles, TilesOk, CodeFree;
    GapIsCodeFree(s);
    TilesAreOk(s[Gap(s)..], s[..Gap(s)]);
    assert s == s[..Gap(s)] + s[Gap(s)..];
  }

  /** Inside a code-free segment, also across its end, there is no start code. */
  lemma NoCodeBefore(p: seq<byte>, rest: seq<byte>)
    requires p != [] && CodeFree(p)
    requires rest == [] || CodeSize(rest) == 4 || (CodeSize(rest) == 3 && !EndsInZero(p))
    ensures CodeSize(p + rest) == 0
  {
    var s := p + rest;
    assert |p| >= 3 ==> !CodeAt(p, 0);
    if |p| >= 4 {
      assert !CodeAt(p, 1);
    } else if rest != [] {
      assert s[|p|] == rest[0] && s[|p| + 1] == rest[1] && s[|p| + 2] == rest[2];
      assert s[|p| - 1] == p[|p| - 1];
    }
  }

  lemma {:induction false} GapIsPrefix(p: seq<byte>, rest: seq<byte>)
    requires CodeFree(p)
    requires rest == [] || CodeSize(rest) == 4 || (CodeSize(rest) == 3 && !EndsInZero(p))
    ensures Gap(p + rest) == |p|
    decreases |p|
  {
    hide CodeSize;
    if p == [] {
      assert p + rest == rest;
    } else {
      NoCodeBefore(p, rest);
      assert (p + rest)[1..] == p[1..] + rest;
      assert CodeFree(p[1..]) by { CodeFreeTail(p); }
      GapIsPrefix(p[1..], rest);
    }
  }

  lemma CodeFreeTail(p: seq<byte>)
    requires p != [] && CodeFree(p)
    ensures CodeFree(p[1..])
  {
    var t := p[1..];
    forall i | 0 <= i < |t| - 2 ensures !CodeAt(t, i) {
      assert !CodeAt(p, i + 1);
    }
  }

  lemma TilesBegin(tiles: seq<Tile>, before: seq<byte>)
    requires TilesOk(before, tiles)
    ensures var s := TileBytes(tiles); s == [] || CodeSize(s) == 4 || (CodeSize(s) == 3 && !EndsInZero(before))
    ensures tiles != [] ==> CodeSize(TileBytes(tiles)) == |tiles[0].code|
  {
    if tiles != [] {
      var s := TileBytes(tiles);
      var c := tiles[0].code;
      assert s[0] == c[0] && s[1] == c[1] && s[2] == c[2] && (|c| == 4 ==> s[3] == c[3]);
    }
  }

  /** Uniqueness: a prefix and tiles that meet the conditions are the ones that are found. */
  lemma {:induction false} TilingIsUnique(prefix: seq<byte>, tiles: seq<Tile>)
    requires CodeFree(prefix) && TilesOk(prefix, tiles)
    ensures var s := prefix + TileBytes(tiles); Gap(s) == |prefix| && Tiles(s[|prefix|..]) == tiles
    decreases |tiles|
  {
    hide Gap, CodeFree, CodeSize;
    var s := TileBytes(tiles);
    TilesBegin(tiles, prefix);
    GapIsPrefix(prefix, s);
    assert (prefix + s)[|prefix|..] == s;
    if tiles != [] {
      var c, u, more := tiles[0].code, tiles[0].unit, TileBytes(tiles[1..]);
      TilingIsUnique(u, tiles[1..]);
      assert s[|c|..] == u + more && s[..|c|] == c;
      assert (u + more)[..|u|] == u;
      assert tiles == [Tile(c, u)] + tiles[1..];
    }
  }

  // ---- the scanner -------------------------------------------------------------------------------------------------

  datatype NalUnit = NalUnit(data: seq<byte>, nalType: nat)

  function TypeOf(data: seq<byte>): nat
    requires data != []
  {
    data[0] % 32
  }

  predicate UnitOk(u: NalUnit) {
    u.data != [] && u.nalType == TypeOf(u.data)
  }

  function Datas(units: seq<NalUnit>): (d: seq<seq<byte>>)
    ensures |d| == |units|
  {
    seq(|units|, i requires 0 <= i < |units| => units[i].data)
  }

  /** The test of both loops at index i. */
  method StartCodeAt(data: seq<byte>, i: nat) returns (size: nat)
    requires i <= |data|
    ensures size == CodeSize(data[i..])
  {
    if i + 4 <= |data| && data[i] == 0 && data[i + 1] == 0 && data[i + 2] == 0 && data[i + 3] == 1 {
      size := 4;
    } else if i + 3 <= |data| && data[i] == 0 && data[i + 1] == 0 && data[i + 2] == 1 {
      size := 3;
    } else {
      size := 0;
    }
  }

  lemma SkipByte(s: seq<byte>)
    requires s != [] && CodeSize(s) == 0
    ensures Units(s) == Units(s[1..])
  {
    assert s[Gap(s)..] == s[1..][Gap(s[1..])..];
  }

  lemma TakeUnit(s: seq<byte>)
    requires CodeSize(s) > 0
    ensures var rest := s[CodeSize(s)..];
            var n := Gap(rest);
            Units(s) == (if n == 0 then [] else [rest[..n]]) + Units(rest[n..])
  {
    var rest := s[CodeSize(s)..];
    var n := Gap(rest);
    assert Gap(s) == 0 && s[0..] == s;
    assert Gap(rest[n..]) == 0 && rest[n..][0..] == rest[n..];
    assert Tiles(s)[1..] == Tiles(rest[n..]);
  }

  lemma DatasPush(units: seq<NalUnit>, u: NalUnit)
    ensures Datas(units + [u]) == Datas(units) + [u.data]
  {
  }

  /** Takes a stream apart into units; each carries the type its header byte states. */
  method ExtractNALUnits(data: seq<byte>) returns (nals: seq<NalUnit>)
    ensures Datas(nals) == Units(data)
    ensures forall u :: u in nals ==> UnitOk(u)
  {
    hide Gap, Units, CodeSize, Datas;
    nals := [];
    var i := 0;
    assert data[0..] == data;
    assert Datas(nals) == [];
    while i < |data|
      invariant i <= |data|
      invariant Datas(nals) + Units(data[i..]) == Units(data)
      invariant forall u :: u in nals ==> UnitOk(u)
    {
      var size := StartCodeAt(data, i);
      if size == 0 {
        SkipByte(data[i..]);
        assert data[i..][1..] == data[i + 1..];
        i := i + 1;
        continue;
      }
      var start := i + size;
      assert data[i..][size..] == data[start..];
      var j := EndOfUnit(data, start);
      TakeUnit(data[i..]);
      assert data[start..][..j - start] == data[start..j] && data[start..][j - start..] == data[j..];
      if start < j {
        var unit := NalUnit(data[start..j], TypeOf(data[start..j]));
        DatasPush(nals, unit);
        nals := nals + [unit];
      }
      i := j;
    }
    assert data[i..] == [];
    NoUnits();
  }

  lemma NoUnits()
    ensures Units([]) == []
  {
  }

  /** The inner loop: from the end of a start code to the next one. */
  method EndOfUnit(data: seq<byte>, start: nat) returns (j: nat)
    requires start <= |data|
    ensures start <= j <= |data|
    ensures j - start == Gap(data[start..])
  {
    hide CodeSize;
    j := start;
    while j < |data|
      invariant start <= j <= |data|
      invariant j - start + Gap(data[j..]) == Gap(data[start..])
    {
      var size := StartCodeAt(data, j);
      if size != 0 {
        break;
      }
      assert data[j..][1..] == data[j + 1..];
      j := j + 1;
    }
  }

  // ---- the generator's files ---------------------------------------------------------------------------------------

  /** What is written for one unit. */
  function UnitTile(raw: seq<byte>): Tile {
    Tile(CODE4, Escape(raw, 0))
  }

  function UnitTiles(raws: seq<seq<byte>>): seq<Tile> {
    if raws == [] then [] else [UnitTile(raws[0])] + UnitTiles(raws[1..])
  }

  /** Header byte and payload behind a start code, escaped as they are written. */
  method WriteNal(file: seq<byte>, header: byte, payload: seq<byte>) returns (out: seq<byte>)
    ensures out == file + TileBytes([UnitTile([header] + payload)])
    ensures out == file + [0, 0, 0, 1] + Escape([header] + payload, 0)
  {
    hide Escape, Emit, ZerosAfter;
    out := file + [0, 0, 0, 1];
    var count := 0;
    ghost var raw := [header] + payload;
    ghost var all := out + Escape(raw, 0);
    EscapeTurn(raw, 0, out);
    out, count := WriteByte(out, count, header);
    assert raw[1..] == payload && payload[0..] == payload;
    for i := 0 to |payload|
      invariant count <= 2 && out + Escape(payload[i..], count) == all
    {
      EscapeTurn(payload[i..], count, out);
      out, count := WriteByte(out, count, payload[i]);
      assert payload[i..][1..] == payload[i + 1..];
    }
    assert payload[|payload|..] == [];
    EscapeNone(count);
    OneTile(UnitTile(raw));
    assert out == all == (file + CODE4) + Escape(raw, 0);
    Regroup(file, CODE4, Escape(raw, 0));
  }

  lemma EscapeNone(z: nat)
    ensures Escape([], z) == []
  {
  }

  /** One byte of a unit, after zeros zero bytes in a row. */
  method WriteByte(file: seq<byte>, zeros: nat, b: byte) returns (out: seq<byte>, count: nat)
    requires zeros <= 2
    ensures out == file + Emit(b, zeros) && count == ZerosAfter(b, zeros) <= 2
  {
    out, count := file, zeros;
    if count == 2 && b < 4 {
      out := out + [3];
      count := 0;
    }
    out := out + [b];
    count := if b == 0 then count + 1 else 0;
  }

  lemma EscapeTurn(s: seq<byte>, z: nat, written: seq<byte>)
    requires s != []
    ensures written + Escape(s, z) == (written + Emit(s[0], z)) + Escape(s[1..], ZerosAfter(s[0], z))
  {
    hide Emit;
  }

  lemma OneTile(t: Tile)
    ensures TileBytes([t]) == t.code + t.unit
  {
    assert [t][1..] == [];
    assert t.unit + [] == t.unit;
  }

  lemma {:induction false} TileBytesAppend(a: seq<Tile>, b: seq<Tile>)
    ensures TileBytes(a + b) == TileBytes(a) + TileBytes(b)
  {
    if a == [] {
      assert a + b == b;
    } else {
      assert (a + b)[1..] == a[1..] + b;
      TileBytesAppend(a[1..], b);
    }
  }

  lemma {:induction false} UnitTilesAppend(raws: seq<seq<byte>>, raw: seq<byte>)
    ensures UnitTiles(raws + [raw]) == UnitTiles(raws) + [UnitTile(raw)]
  {
    if raws == [] {
      assert [raw][1..] == [];
    } else {
      assert (raws + [raw])[1..] == raws[1..] + [raw];
      UnitTilesAppend(raws[1..], raw);
    }
  }

  lemma CleanIsCodeFree(s: seq<byte>)
    requires Clean(s)
    ensures CodeFree(s)
  {
    forall i | 0 <= i < |s| - 2 ensures !CodeAt(s, i) {
      assert CleanAt(s, i);
    }
  }

  lemma {:induction false} UnitTilesAreOk(raws: seq<seq<byte>>, before: seq<byte>)
    ensures TilesOk(before, UnitTiles(raws))
    decreases |raws|
  {
    hide CodeFree;
    if raws != [] {
      EscapeIsClean(raws[0], 0);
      assert ZeroBytes(0) + Escape(raws[0], 0) == Escape(raws[0], 0);
      CleanIsCodeFree(Escape(raws[0], 0));
      UnitTilesAreOk(raws[1..], Escape(raws[0], 0));
      assert UnitTiles(raws)[1..] == UnitTiles(raws[1..]);
    }
  }

  /** The scanner finds as many units as were written, in order, each the escaped form of what was written. */
  lemma FileUnits(raws: seq<seq<byte>>)
    requires forall k :: 0 <= k < |raws| ==> raws[k] != []
    ensures var units := Units(TileBytes(UnitTiles(raws)));
            && |units| == |raws|
            && forall k :: 0 <= k < |raws| ==>
                 units[k] == Escape(raws[k], 0) && Clean(units[k]) && Unescape(units[k]) == raws[k]
  {
    var s := TileBytes(UnitTiles(raws));
    UnitTilesAreOk(raws, []);
    TilingIsUnique([], UnitTiles(raws));
    assert [] + s == s && s[0..] == s;
    UnitsOfUnitTiles(raws);
    forall k | 0 <= k < |raws|
      ensures Clean(Escape(raws[k], 0)) && Unescape(Escape(raws[k], 0)) == raws[k]
    {
      EscapeIsClean(raws[k], 0);
      UnescapeEscape(raws[k], 0);
      assert ZeroBytes(0) + Escape(raws[k], 0) == Escape(raws[k], 0) && ZeroBytes(0) + raws[k] == raws[k];
    }
  }

  lemma {:induction false} UnitsOfUnitTiles(raws: seq<seq<byte>>)
    requires forall k :: 0 <= k < |raws| ==> raws[k] != []
    ensures var units := UnitsOf(UnitTiles(raws));
            |units| == |raws| && forall k :: 0 <= k < |raws| ==> units[k] == Escape(raws[k], 0)
  {
    if raws != [] {
      EscapeKeepsLast(raws[0], 0);
      UnitsOfUnitTiles(raws[1..]);
      assert UnitTiles(raws)[1..] == UnitTiles(raws[1..]);
    }
  }

  // ---- from syntax elements to a file and back ---------------------------------------------------------------------

  datatype Nal = Nal(header: byte, elements: seq<Element>)

  predicate NalOk(n: Nal) {
    forall e :: e in n.elements ==> InRange(e)
  }

  /** raw is the header and the payload bytes of n. */
  ghost predicate Encodes(raw: seq<byte>, n: Nal) {
    raw != [] && raw[0] == n.header && ByteBits(raw[1..]) == RbspBits(n.elements)
  }

  /** Dropping the prevention bytes of a clean unit and reading elements of the same kinds gives back n. */
  ghost predicate Recovers(unit: seq<byte>, n: Nal) {
    var raw := Unescape(unit);
    && Clean(unit) && !EndsInZero(unit)
    && raw != [] && raw[0] == n.header
    && ReadElements(Kinds(n.elements), ByteBits(raw[1..])) == Got(n.elements, TrailingBits(|ElementsBits(n.elements)|))
  }

  lemma UnitRecovers(unit: seq<byte>, raw: seq<byte>, n: Nal)
    requires Encodes(raw, n) && NalOk(n)
    requires unit == Escape(raw, 0) && Clean(unit) && Unescape(unit) == raw
    ensures Recovers(unit, n)
  {
    hide Clean, Unescape, RbspBits, ByteBits, TrailingBits, Escape;
    RbspRoundTrip(raw[1..], n.elements);
    LastByteNonZero(raw[1..], n.elements);
    EscapeKeepsLast(raw, 0);
  }

  ghost predicate EncodeAll(raws: seq<seq<byte>>, nals: seq<Nal>) {
    |raws| == |nals| && forall k :: 0 <= k < |nals| ==> Encodes(raws[k], nals[k])
  }

  /** The whole way round: the scanner applied to the generator's file finds the units that were written, in order. */
  lemma FileRoundTrip(nals: seq<Nal>, raws: seq<seq<byte>>)
    requires forall k :: 0 <= k < |nals| ==> NalOk(nals[k])
    requires EncodeAll(raws, nals)
    ensures var units := Units(TileBytes(UnitTiles(raws)));
            |units| == |nals| && forall k :: 0 <= k < |nals| ==> Recovers(units[k], nals[k])
  {
    hide Clean, Units, Unescape, Escape, NalOk, Recovers, TileBytes, UnitTiles;
    forall k | 0 <= k < |raws| ensures raws[k] != [] {
      assert Encodes(raws[k], nals[k]);
    }
    hide Encodes;
    FileUnits(raws);
    var units := Units(TileBytes(UnitTiles(raws)));
    forall k | 0 <= k < |nals| ensures Recovers(units[k], nals[k]) {
      UnitRecovers(units[k], raws[k], nals[k]);
    }
  }

  /**
   * The generator: every unit is built in the same writer, flushed and written.  The scanner finds one unit for each in
   * the file, from which its header and elements can be read back.
   */
  method WriteFile(nals: seq<Nal>) returns (file: seq<byte>)
    requires forall k :: 0 <= k < |nals| ==> NalOk(nals[k])
    ensures exists raws :: EncodeAll(raws, nals) && file == TileBytes(UnitTiles(raws))
    ensures |Units(file)| == |nals| && forall k :: 0 <= k < |nals| ==> Recovers(Units(file)[k], nals[k])
  {
    hide RbspBits, ByteBits, UnitTile, Escape, Units, Recovers;
    var w := new BitWriter();
    ghost var raws: seq<seq<byte>> := [];
    file := [];
    for i := 0 to |nals|
      invariant |raws| == i && forall k :: 0 <= k < i ==> Encodes(raws[k], nals[k])
      invariant file == TileBytes(UnitTiles(raws))
    {
      assert NalOk(nals[i]);
      WriteRbsp(w, nals[i].elements);
      ghost var raw := [nals[i].header] + w.bytes;
      assert raw[1..] == w.bytes;
      UnitTilesAppend(raws, raw);
      TileBytesAppend(UnitTiles(raws), [UnitTile(raw)]);
      file := WriteNal(file, nals[i].header, w.bytes);
      raws := raws + [raw];
    }
    assert EncodeAll(raws, nals);
    FileRoundTrip(nals, raws);
  }
}
