/** Reading Crystal Caves levels: vines, signs, and tiles that take over their neighbours. */
module CrystalCavesOpen {
  import opened Bytes
  import opened Grid
  import opened CrystalCaves

  // Tiles of the tables whose look depends on the level; the reader picks one look for all levels.
  const IBEAM_L := -9
  const IBEAM_R := -7
  const BLOCK_TL := -20
  const BLOCK_MR := -10
  const USCORE := -30
  const IBEAM_TILE := 0x1306
  const BLOCK_TILE := 0x1520
  const USCORE_TILE := 0x1300

  function Shown(tile: int): int {
    if IBEAM_L <= tile <= IBEAM_R then IBEAM_TILE + (tile - IBEAM_L)
    else if BLOCK_TL <= tile <= BLOCK_MR then BLOCK_TILE + (tile - BLOCK_TL)
    else if tile == USCORE then USCORE_TILE
    else tile
  }

  function TileAt(x: nat, y: nat, tile: int, flags: int): Tile {
    Tile(Item(x, y, Shown(tile)), MovementFor(flags))
  }

  /** The reader's changing state: the bytes, and the two layers found so far. */
  datatype Reading = Reading(f: seq<Byte>, bg: seq<Tile>, fg: seq<Item>)

  /** The byte at a position relative to the current cell; none outside the file. */
  function ByteAt(f: seq<Byte>, pos: int): int {
    if 0 <= pos < |f| then f[pos] as int else -1
  }

  // The table entry for a byte

  predicate SignCodesAre(m: Sign, here: int, right: int) {
    here == m.code1 as int && right == m.code2 as int
  }

  function FirstVineCode(vs: seq<Vine>, i: nat, code: int): (r: nat)
    requires i <= |vs|
    ensures i <= r <= |vs|
    ensures forall k :: i <= k < r ==> vs[k].code as int != code
    ensures r < |vs| ==> vs[r].code as int == code
    decreases |vs| - i
  {
    if i == |vs| || code == vs[i].code as int then i else FirstVineCode(vs, i + 1, code)
  }

  function FirstSignCode(ms: seq<Sign>, i: nat, here: int, right: int): (r: nat)
    requires i <= |ms|
    ensures i <= r <= |ms|
    ensures forall k :: i <= k < r ==> !SignCodesAre(ms[k], here, right)
    ensures r < |ms| ==> SignCodesAre(ms[r], here, right)
    decreases |ms| - i
  {
    if i == |ms| || SignCodesAre(ms[i], here, right) then i else FirstSignCode(ms, i + 1, here, right)
  }

  function FirstStampCode(ms: seq<Stamp>, i: nat, code: int): (r: nat)
    requires i <= |ms|
    ensures i <= r <= |ms|
    ensures forall k :: i <= k < r ==> ms[k].code as int != code
    ensures r < |ms| ==> ms[r].code as int == code
    decreases |ms| - i
  {
    if i == |ms| || code == ms[i].code as int then i else FirstStampCode(ms, i + 1, code)
  }

  /** The table entry that the byte at `p` starts. */
  function AnchorIn(t: Tables, f: seq<Byte>, p: nat): (a: Anchor)
    ensures InTables(t, a) && !a.AsBlock?
  {
    var code := ByteAt(f, p);
    var v := FirstVineCode(t.vines, 0, code);
    if v < |t.vines| then AsVine(v)
    else
      var s := FirstSignCode(t.signs, 0, code, ByteAt(f, p + 1));
      if s < |t.signs| then AsSign(s)
      else
        var m := FirstStampCode(t.smalls, 0, code);
        if m < |t.smalls| then AsSmall(m)
        else
          var l := FirstStampCode(t.wides, 0, code);
          if l < |t.wides| then AsWide(l) else Nothing
  }

  // What a table entry adds

  /** The tiles of a vine that runs on through the cells above, from `up` rows above on. */
  function VineAbove(f: seq<Byte>, w: nat, x: nat, y: nat, p: nat, up: nat, mid: int): seq<Tile>
    decreases y + 1 - up
  {
    if up > y || ByteAt(f, p - up * (w + 1)) != NEXT as int then []
    else [TileAt(x, y - up, mid, MV_NONE)] + VineAbove(f, w, x, y, p, up + 1, mid)
  }

  /** A part is taken, and its byte blanked, if the cell is marked as belonging to an earlier one. */
  function TakePart(r: Reading, w: nat, h: nat, x: nat, y: nat, p: nat, part: Part): (r': Reading)
    ensures |r'.f| == |r.f|
  {
    var pos := PlaceOf(part, w + 1, p);
    if part.tile != NO_TILE && part.dx < w && part.dy < h && pos < |r.f| && r.f[pos] == NEXT
    then Reading(r.f[pos := EMPTY], r.bg + [TileAt(x + part.dx, y + part.dy, part.tile, MV_NONE)], r.fg)
    else r
  }

  /** Taking the parts from `lo` up to `n`. */
  function TakeParts(r: Reading, w: nat, h: nat, x: nat, y: nat, p: nat, parts: seq<Part>, lo: nat, n: nat): (r': Reading)
    requires n <= |parts|
    ensures |r'.f| == |r.f|
  {
    if n <= lo then r else TakePart(TakeParts(r, w, h, x, y, p, parts, lo, n - 1), w, h, x, y, p, parts[n - 1])
  }

  function Insert(r: Reading, it: Tile): Reading {
    r.(bg := r.bg + [it])
  }

  /** Reading the cell in column `x` of row `y`, whose byte is at `p`. */
  function ReadCell(t: Tables, w: nat, h: nat, r: Reading, x: nat, y: nat, p: nat): (r': Reading)
    requires Valid(t)
    ensures |r'.f| == |r.f|
  {
    if ByteAt(r.f, p) == EMPTY as int then r else Anchored(t, w, h, r, x, y, p, AnchorIn(t, r.f, p))
  }

  function Anchored(t: Tables, w: nat, h: nat, r: Reading, x: nat, y: nat, p: nat, a: Anchor): (r': Reading)
    requires Valid(t) && InTables(t, a)
    ensures |r'.f| == |r.f|
  {
    match a
    case AsVine(i) =>
      var m := t.vines[i];
      var tile := if ByteAt(r.f, p + (w + 1)) == m.code as int then m.mid else m.end;
      r.(bg := r.bg + [TileAt(x, y, tile, m.flags)] + VineAbove(r.f, w, x, y, p, 1, m.mid))
    case AsSign(i) =>
      var m := t.signs[i];
      assert ValidSign(m);
      var r1 := Insert(r, TileAt(x, y, m.tiles[0], m.flags));
      var r2 := Insert(r1, TileAt(x + 1, y, m.tiles[1], MV_NONE));
      TakeParts(r2, w, h, x, y, p, PartsOf(t, a), 1, SIGN_TILES - 1)
    case AsSmall(i) =>
      var m := t.smalls[i];
      assert ValidStamp(m);
      var r1 := TakeParts(Insert(r, TileAt(x, y, m.tiles[0], m.flags)), w, h, x, y, p, PartsOf(t, a), 0, STAMP_TILES - 1);
      if m.fg != NO_TILE then r1.(fg := r1.fg + [Item(x, y, m.fg)]) else r1
    case AsWide(i) =>
      var m := t.wides[i];
      assert ValidStamp(m);
      TakeParts(Insert(r, TileAt(x, y, m.tiles[0], m.flags)), w, h, x, y, p, PartsOf(t, a), 0, STAMP_TILES - 1)
    case _ => r
  }

  /** A sign takes up the cell to its right as well. */
  function Width(t: Tables, f: seq<Byte>, p: nat): (n: nat)
    ensures 1 <= n <= 2
  {
    if ByteAt(f, p) != EMPTY as int && AnchorIn(t, f, p).AsSign? then 2 else 1
  }

  /** Reading from column `x` of row `y` on; each row starts with a byte that is passed over. */
  function ReadFrom(t: Tables, w: nat, h: nat, r: Reading, x: nat, y: nat, p: nat): Reading
    requires Valid(t)
    decreases if y < h then h - y else 0, if x < w then w - x else 0
  {
    if y >= h then r
    else if x >= w then ReadFrom(t, w, h, r, 0, y + 1, p + 1)
    else
      var n := Width(t, r.f, p);
      ReadFrom(t, w, h, ReadCell(t, w, h, r, x, y, p), x + n, y, p + n)
  }

  /** The level in a file: its layers, and its height. */
  function Meaning(t: Tables, w: nat, f: seq<Byte>): Reading
    requires Valid(t)
  {
    ReadFrom(t, w, |f| / (w + 1), Reading(f, [], []), 0, 0, 1)
  }

  // The reader

  method FindVine(vs: seq<Vine>, code: int) returns (i: nat)
    ensures i == FirstVineCode(vs, 0, code)
  {
    i := 0;
    while i < |vs| && code != vs[i].code as int
      invariant 0 <= i <= |vs| && FirstVineCode(vs, 0, code) == FirstVineCode(vs, i, code)
    {
      i := i + 1;
    }
  }

  method FindSign(ms: seq<Sign>, here: int, right: int) returns (i: nat)
    ensures i == FirstSignCode(ms, 0, here, right)
  {
    i := 0;
    while i < |ms| && !(here == ms[i].code1 as int && right == ms[i].code2 as int)
      invariant 0 <= i <= |ms| && FirstSignCode(ms, 0, here, right) == FirstSignCode(ms, i, here, right)
    {
      i := i + 1;
    }
  }

  method FindStamp(ms: seq<Stamp>, code: int) returns (i: nat)
    ensures i == FirstStampCode(ms, 0, code)
  {
    i := 0;
    while i < |ms| && code != ms[i].code as int
      invariant 0 <= i <= |ms| && FirstStampCode(ms, 0, code) == FirstStampCode(ms, i, code)
    {
      i := i + 1;
    }
  }

  method Lookup(t: Tables, f: array<Byte>, p: nat) returns (a: Anchor)
    ensures a == AnchorIn(t, f[..], p)
  {
    hide FirstVineCode, FirstSignCode, FirstStampCode;
    var code := if p < f.Length then f[p] as int else -1;
    var right := if p + 1 < f.Length then f[p + 1] as int else -1;
    var i := FindVine(t.vines, code);
    if i < |t.vines| {
      return AsVine(i);
    }
    i := FindSign(t.signs, code, right);
    if i < |t.signs| {
      return AsSign(i);
    }
    i := FindStamp(t.smalls, code);
    if i < |t.smalls| {
      return AsSmall(i);
    }
    i := FindStamp(t.wides, code);
    if i < |t.wides| {
      return AsWide(i);
    }
    return Nothing;
  }

  method FollowVine(f: array<Byte>, w: nat, x: nat, y: nat, p: nat, mid: int) returns (tiles: seq<Tile>)
    ensures tiles == VineAbove(f[..], w, x, y, p, 1, mid)
  {
    hide VineAbove, TileAt;
    tiles := [];
    var y2 := 1;
    ghost var all := VineAbove(f[..], w, x, y, p, 1, mid);
    assert [] + all == all;
    while y2 <= y
      invariant 1 <= y2 <= y + 1 && tiles + VineAbove(f[..], w, x, y, p, y2, mid) == all
    {
      VineStep(f[..], w, x, y, p, y2, mid, tiles);
      var pos := p - y2 * (w + 1);
      if pos < 0 || pos >= f.Length || f[pos] != NEXT {
        break;
      }
      tiles := tiles + [TileAt(x, y - y2, mid, MV_NONE)];
      y2 := y2 + 1;
    }
    VineStep(f[..], w, x, y, p, y2, mid, tiles);
  }

  lemma VineStep(f: seq<Byte>, w: nat, x: nat, y: nat, p: nat, up: nat, mid: int, tiles: seq<Tile>)
    ensures tiles + VineAbove(f, w, x, y, p, up, mid) ==
            if up > y || ByteAt(f, p - up * (w + 1)) != NEXT as int then tiles
            else tiles + [TileAt(x, y - up, mid, MV_NONE)] + VineAbove(f, w, x, y, p, up + 1, mid)
  {
    AddNothing(tiles);
  }

  method TakeAll(f: array<Byte>, tiles: seq<Tile>, ghost fg: seq<Item>, w: nat, h: nat, x: nat, y: nat, p: nat, parts: seq<Part>, lo: nat)
    returns (all: seq<Tile>)
    requires lo <= |parts|
    modifies f
    ensures Reading(f[..], all, fg) == TakeParts(Reading(old(f[..]), tiles, fg), w, h, x, y, p, parts, lo, |parts|)
  {
    all := tiles;
    ghost var start := Reading(f[..], tiles, fg);
    for k := lo to |parts|
      invariant Reading(f[..], all, fg) == TakeParts(start, w, h, x, y, p, parts, lo, k)
    {
      var part := parts[k];
      var pos := PlaceOf(part, w + 1, p);
      if part.tile != NO_TILE && part.dx < w && part.dy < h && pos < f.Length && f[pos] == NEXT {
        all := all + [TileAt(x + part.dx, y + part.dy, part.tile, MV_NONE)];
        f[pos] := EMPTY;
      }
    }
  }

  method ReadAnchor(t: Tables, f: array<Byte>, tiles: seq<Tile>, over: seq<Item>, w: nat, h: nat, x: nat, y: nat, p: nat, a: Anchor)
    returns (bg: seq<Tile>, fg: seq<Item>)
    requires Valid(t) && InTables(t, a)
    modifies f
    ensures Reading(f[..], bg, fg) == Anchored(t, w, h, Reading(old(f[..]), tiles, over), x, y, p, a)
  {
    hide PartsOf, TakeParts, VineAbove, TileAt, Valid;
    bg, fg := tiles, over;
    ghost var start := Reading(f[..], tiles, over);
    match a {
      case AsVine(i) =>
        var m := t.vines[i];
        var below := p + (w + 1);
        var tile := if below < f.Length && f[below] == m.code then m.mid else m.end;
        var above := FollowVine(f, w, x, y, p, m.mid);
        bg := bg + [TileAt(x, y, tile, m.flags)] + above;
      case AsSign(i) =>
        var m := t.signs[i];
        ValidEntry(t, a);
        bg := bg + [TileAt(x, y, m.tiles[0], m.flags)];
        bg := bg + [TileAt(x + 1, y, m.tiles[1], MV_NONE)];
        bg := TakeAll(f, bg, fg, w, h, x, y, p, PartsOf(t, a), 1);
      case AsSmall(i) =>
        var m := t.smalls[i];
        ValidEntry(t, a);
        bg := bg + [TileAt(x, y, m.tiles[0], m.flags)];
        bg := TakeAll(f, bg, fg, w, h, x, y, p, PartsOf(t, a), 0);
        if m.fg != NO_TILE {
          fg := fg + [Item(x, y, m.fg)];
        }
      case AsWide(i) =>
        var m := t.wides[i];
        ValidEntry(t, a);
        bg := bg + [TileAt(x, y, m.tiles[0], m.flags)];
        bg := TakeAll(f, bg, fg, w, h, x, y, p, PartsOf(t, a), 0);
      case _ =>
    }
  }

  lemma ValidEntry(t: Tables, a: Anchor)
    requires Valid(t) && InTables(t, a)
    ensures a.AsSign? ==> ValidSign(t.signs[a.i]) && |PartsOf(t, a)| == SIGN_TILES - 1
    ensures a.AsSmall? ==> ValidStamp(t.smalls[a.i]) && |PartsOf(t, a)| == STAMP_TILES - 1
    ensures a.AsWide? ==> ValidStamp(t.wides[a.i]) && |PartsOf(t, a)| == STAMP_TILES - 1
  {
  }

  datatype Level = Level(height: nat, bg: seq<Tile>, fg: seq<Item>)

  method Open(t: Tables, f: seq<Byte>) returns (l: Level)
    requires Valid(t)
    ensures l.height == |f| / (MAP_WIDTH + 1)
    ensures l.bg == Meaning(t, MAP_WIDTH, f).bg && l.fg == Meaning(t, MAP_WIDTH, f).fg
  {
    hide Valid, ReadCell, Width, Anchored, AnchorIn;
    var buf := new Byte[|f|](i requires 0 <= i < |f| => f[i]);
    assert buf[..] == f;
    var height := |f| / (MAP_WIDTH + 1);
    var bg, fg := [], [];
    var p := 1;
    for y := 0 to height
      invariant p >= 1
      invariant Meaning(t, MAP_WIDTH, f) == ReadFrom(t, MAP_WIDTH, height, Reading(buf[..], bg, fg), 0, y, p)
    {
      var x := 0;
      while x < MAP_WIDTH
        invariant p >= 1 && x >= 0
        invariant Meaning(t, MAP_WIDTH, f) == ReadFrom(t, MAP_WIDTH, height, Reading(buf[..], bg, fg), x, y, p)
      {
        CellStep(t, MAP_WIDTH, height, Reading(buf[..], bg, fg), x, y, p);
        if !(p < buf.Length && buf[p] == EMPTY) {
          var a := Lookup(t, buf, p);
          bg, fg := ReadAnchor(t, buf, bg, fg, MAP_WIDTH, height, x, y, p, a);
          if a.AsSign? {
            p := p + 1;
            x := x + 1;
          }
        }
        x := x + 1;
        p := p + 1;
      }
      p := p + 1;
    }
    return Level(height, bg, fg);
  }

  lemma CellStep(t: Tables, w: nat, h: nat, r: Reading, x: nat, y: nat, p: nat)
    requires Valid(t) && x < w && y < h
    ensures ReadFrom(t, w, h, r, x, y, p) ==
            if ByteAt(r.f, p) == EMPTY as int then ReadFrom(t, w, h, r, x + 1, y, p + 1)
            else
              var a := AnchorIn(t, r.f, p);
              var n := if a.AsSign? then 2 else 1;
              ReadFrom(t, w, h, Anchored(t, w, h, r, x, y, p, a), x + n, y, p + n)
  {
    hide Anchored, AnchorIn, ByteAt, Valid;
  }
}
