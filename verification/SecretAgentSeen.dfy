/** What each cell of a Secret Agent level shows after saving and opening, whatever its tiles. */
module SecretAgentSeen {
  import opened Bytes
  import opened Grid
  import opened SecretAgent
  import opened SecretAgentWrite
  import opened SecretAgentOpen
  import opened SecretAgentTheorems

  /** The tile that the last of the spots on a cell gives it. */
  function LastSpot(spots: seq<Spot>, x: int, y: int): int {
    if spots == [] then NO_TILE
    else
      var last := spots[|spots| - 1];
      if last.x == x && last.y == y then last.code else LastSpot(spots[..|spots| - 1], x, y)
  }

  lemma LastSpotMore(spots: seq<Spot>, s: Spot, x: int, y: int)
    ensures LastSpot(spots + [s], x, y) == if s.x == x && s.y == y then s.code else LastSpot(spots, x, y)
  {
    assert (spots + [s])[..|spots|] == spots;
  }

  /** Which of the twelve tiles of a code in column `cx` of row `cy` is on a cell; none if it does not reach there. */
  function PartOn(cx: int, cy: int, x: int, y: int): (i: int)
    ensures NO_TILE <= i < TILES
  {
    if 0 <= cx - x <= 3 && 0 <= cy - y <= 2 then 4 * (2 - (cy - y)) + (3 - (cx - x)) else NO_TILE
  }

  /** The tile with number `i` of a code in column `x`; negative if it has none. */
  function CodeTile(t: Tables, backdrop: int, code: Byte, x: nat, i: nat): int
    requires Valid(t) && i < TILES
  {
    if code == SPACE then NO_TILE
    else if LIGHT < code <= LIGHT + 3 then (if i == TILES - 1 then backdrop + (code - LIGHT) as int else NO_TILE)
    else if code == STAR && x == 0 then NO_TILE
    else
      var e := FirstCode(t.entries, 0, code);
      if e < |t.entries| then t.entries[e].tiles[i] else NO_TILE
  }

  lemma {:induction false} LastOfSpots(before: seq<Spot>, tiles: seq<int>, i: nat, cx: int, cy: int, x: int, y: int)
    requires |tiles| == TILES && i <= TILES
    ensures LastSpot(before + Spots(tiles, i, cx, cy), x, y) ==
            var j := PartOn(cx, cy, x, y);
            if j >= i && tiles[j] >= 0 then tiles[j] else LastSpot(before, x, y)
    decreases TILES - i
  {
    if i == TILES {
      AddNothing(before);
    } else {
      SpotStep(before, tiles, i, cx, cy);
      var spot := Spot(cx - (3 - i % 4), cy - (2 - i / 4), tiles[i]);
      LastSpotMore(before, spot, x, y);
      PartIs(cx, cy, x, y, i);
      LastOfSpots(if tiles[i] >= 0 then before + [spot] else before, tiles, i + 1, cx, cy, x, y);
    }
  }

  lemma PartIs(cx: int, cy: int, x: int, y: int, i: nat)
    requires i < TILES
    ensures PartOn(cx, cy, x, y) == i <==> cx - (3 - i % 4) == x && cy - (2 - i / 4) == y
  {
  }

  /** The tiles of one code, after those of others. */
  lemma LastOfCode(t: Tables, backdrop: int, before: seq<Spot>, code: Byte, cx: nat, cy: int, x: int, y: int)
    requires Valid(t) && backdrop >= 0
    ensures LastSpot(before + CodeSpots(t, backdrop, code, cx, cy), x, y) ==
            var i := PartOn(cx, cy, x, y);
            if i >= 0 && CodeTile(t, backdrop, code, cx, i) >= 0 then CodeTile(t, backdrop, code, cx, i) else LastSpot(before, x, y)
  {
    hide Spots, LastSpot, FirstCode;
    AddNothing(before);
    if LIGHT < code <= LIGHT + 3 && code != SPACE {
      LastSpotMore(before, Spot(cx, cy, backdrop + (code - LIGHT) as int), x, y);
      PartIs(cx, cy, x, y, TILES - 1);
    } else {
      var e := FirstCode(t.entries, 0, code);
      if e < |t.entries| {
        LastOfSpots(before, t.entries[e].tiles, 0, cx, cy, x, y);
      }
    }
  }

  // Layers

  /** The codes that the reader finds in the two layers; the mark takes up the first column of the foreground. */
  function ReadCodes(k: Coded, front: bool): (codes: seq<Byte>)
    requires Sized(k)
    ensures |codes| == MAP_WIDTH * k.h
  {
    seq(MAP_WIDTH * k.h, c requires 0 <= c < MAP_WIDTH * k.h =>
      if !front then k.bg[c] else if c % MAP_WIDTH == 0 then STAR else k.fg[c])
  }

  /** What the first `n` codes of a layer, read in order, leave on a cell. */
  function LastCover(t: Tables, backdrop: int, codes: seq<Byte>, n: nat, x: int, y: int): int
    requires Valid(t) && n <= |codes|
  {
    if n == 0 then NO_TILE
    else
      var c := n - 1;
      var i := PartOn(c % MAP_WIDTH, c / MAP_WIDTH, x, y);
      if i >= 0 && CodeTile(t, backdrop, codes[c], c % MAP_WIDTH, i) >= 0
      then CodeTile(t, backdrop, codes[c], c % MAP_WIDTH, i)
      else LastCover(t, backdrop, codes, n - 1, x, y)
  }

  /** A line adds what its codes, column by column, put on a cell. */
  lemma {:induction false} LastOfLine(t: Tables, backdrop: int, before: seq<Spot>, line: Line, codes: seq<Byte>, r: nat, n: nat, x: int, y: int)
    requires Valid(t) && backdrop >= 0 && line.y == r && |line.codes| == MAP_WIDTH && n <= MAP_WIDTH
    requires (r + 1) * MAP_WIDTH <= |codes| && line.codes == codes[r * MAP_WIDTH..(r + 1) * MAP_WIDTH]
    requires LastSpot(before, x, y) == LastCover(t, backdrop, codes, r * MAP_WIDTH, x, y)
    ensures LastSpot(before + LineSpots(t, backdrop, line, n), x, y) == LastCover(t, backdrop, codes, r * MAP_WIDTH + n, x, y)
  {
    hide CodeSpots, CodeTile, LastSpot, PartOn;
    if n == 0 {
      AddNothing(before);
    } else {
      var c := r * MAP_WIDTH + n - 1;
      LastOfLine(t, backdrop, before, line, codes, r, n - 1, x, y);
      Reassociate(before, LineSpots(t, backdrop, line, n - 1), CodeSpots(t, backdrop, line.codes[n - 1], n - 1, r));
      LastOfCode(t, backdrop, before + LineSpots(t, backdrop, line, n - 1), line.codes[n - 1], n - 1, r, x, y);
      assert c % MAP_WIDTH == n - 1 && c / MAP_WIDTH == r && codes[c] == line.codes[n - 1];
    }
  }

  /** A row without a foreground line puts nothing anywhere. */
  lemma {:induction false} NothingInRow(t: Tables, backdrop: int, codes: seq<Byte>, r: nat, n: nat, x: int, y: int)
    requires Valid(t) && (r + 1) * MAP_WIDTH <= |codes| && n <= MAP_WIDTH
    requires forall c :: r * MAP_WIDTH <= c < (r + 1) * MAP_WIDTH ==> codes[c] == if c % MAP_WIDTH == 0 then STAR else SPACE
    ensures LastCover(t, backdrop, codes, r * MAP_WIDTH + n, x, y) == LastCover(t, backdrop, codes, r * MAP_WIDTH, x, y)
  {
    hide PartOn, CodeTile;
    if n > 0 {
      NothingInRow(t, backdrop, codes, r, n - 1, x, y);
      var c := r * MAP_WIDTH + n - 1;
      assert c % MAP_WIDTH == n - 1 && codes[c] == if n == 1 then STAR else SPACE;
      var i := PartOn(n - 1, r, x, y);
      if i >= 0 {
        NoTiles(t, backdrop, n - 1, i);
      }
    }
  }

  lemma NoTiles(t: Tables, backdrop: int, x: nat, i: nat)
    requires Valid(t) && i < TILES
    ensures CodeTile(t, backdrop, if x == 0 then STAR else SPACE, x, i) == NO_TILE
  {
  }

  lemma RowIsSlice(k: Coded, r: nat, front: bool)
    requires Sized(k) && r < k.h
    ensures (r + 1) * MAP_WIDTH <= MAP_WIDTH * k.h
    ensures ReadCodes(k, front)[r * MAP_WIDTH..(r + 1) * MAP_WIDTH] == if front then FgRow(k, r) else Row(k.bg, r)
  {
    var codes, row := ReadCodes(k, front), if front then FgRow(k, r) else Row(k.bg, r);
    forall x | 0 <= x < MAP_WIDTH ensures codes[r * MAP_WIDTH + x] == row[x] {
      assert (r * MAP_WIDTH + x) % MAP_WIDTH == x;
    }
  }

  lemma EmptyForeground(t: Tables, bg: seq<int>, fg: seq<int>, k: Coded, r: nat)
    requires Valid(t) && IsCoded(t, bg, fg, k) && r < k.h && !k.valid[r]
    ensures forall c :: r * MAP_WIDTH <= c < (r + 1) * MAP_WIDTH ==>
              ReadCodes(k, true)[c] == if c % MAP_WIDTH == 0 then STAR else SPACE
  {
    hide FirstEntry;
    forall c | r * MAP_WIDTH <= c < (r + 1) * MAP_WIDTH
      ensures ReadCodes(k, true)[c] == if c % MAP_WIDTH == 0 then STAR else SPACE
    {
      assert !HasCode(t, fg[c]);
      assert k.fg[c] == CodeFor(t, fg[c]);
    }
  }

  /** The lines of the first `n` rows put on a cell what their codes do. */
  lemma {:induction false} LastOfLayer(t: Tables, backdrop: int, bg: seq<int>, fg: seq<int>, k: Coded, front: bool, n: nat, x: int, y: int)
    requires Valid(t) && backdrop >= 0 && IsCoded(t, bg, fg, k) && n <= k.h
    ensures Sized(k)
    ensures LastSpot(LayerSpots(t, backdrop, LinesUpTo(k, n), front), x, y) ==
            LastCover(t, backdrop, ReadCodes(k, front), n * MAP_WIDTH, x, y)
  {
    hide LayerSpots, LineSpots, Valid, IsCoded, ReadCodes, LastSpot, FgRow, Row;
    CodedSizes(t, bg, fg, k);
    NoLines(t, backdrop);
    NoSpots(x, y);
    if n > 0 {
      LastOfLayer(t, backdrop, bg, fg, k, front, n - 1, x, y);
      LastOfRow(t, backdrop, bg, fg, k, front, n - 1, x, y);
    }
  }

  /** One more row. */
  lemma LastOfRow(t: Tables, backdrop: int, bg: seq<int>, fg: seq<int>, k: Coded, front: bool, r: nat, x: int, y: int)
    requires Valid(t) && backdrop >= 0 && IsCoded(t, bg, fg, k) && r < k.h
    requires LastSpot(LayerSpots(t, backdrop, LinesUpTo(k, r), front), x, y) ==
             LastCover(t, backdrop, ReadCodes(k, front), r * MAP_WIDTH, x, y)
    ensures LastSpot(LayerSpots(t, backdrop, LinesUpTo(k, r + 1), front), x, y) ==
            LastCover(t, backdrop, ReadCodes(k, front), (r + 1) * MAP_WIDTH, x, y)
  {
    hide LayerSpots, LineSpots, Valid, IsCoded, ReadCodes, LastSpot, LastCover, FgRow, Row, LinesUpTo;
    CodedSizes(t, bg, fg, k);
    var before, codes := LayerSpots(t, backdrop, LinesUpTo(k, r), front), ReadCodes(k, front);
    RowAdded(t, backdrop, k, r);
    RowIsSlice(k, r, front);
    if !front || k.valid[r] {
      var line := Line(r, front, if front then FgRow(k, r) else Row(k.bg, r));
      LastOfLine(t, backdrop, before, line, codes, r, MAP_WIDTH, x, y);
    } else {
      EmptyForeground(t, bg, fg, k, r);
      NothingInRow(t, backdrop, codes, r, MAP_WIDTH, x, y);
    }
  }

  lemma NoSpots(x: int, y: int)
    ensures LastSpot([], x, y) == NO_TILE
  {
  }

  // What is around a cell

  /** The column and row of the code whose tile with number `i` is on a cell. */
  function ColumnFor(x: nat, i: nat): nat
    requires i < TILES
  {
    x + (3 - i % 4)
  }

  function RowFor(y: nat, i: nat): nat
    requires i < TILES
  {
    y + (2 - i / 4)
  }

  /**
   * What a cell shows: of the up to twelve codes around it, to the right and below, that have
   * a tile on it, the one read last counts. Only codes before `n` are looked at.
   */
  function Around(t: Tables, backdrop: int, codes: seq<Byte>, n: nat, x: nat, y: nat, i: nat): int
    requires Valid(t) && n <= |codes| && i <= TILES
    decreases TILES - i
  {
    if i == TILES then NO_TILE
    else
      var cx := ColumnFor(x, i);
      var c := RowFor(y, i) * MAP_WIDTH + cx;
      if cx < MAP_WIDTH && c < n && CodeTile(t, backdrop, codes[c], cx, i) >= 0
      then CodeTile(t, backdrop, codes[c], cx, i)
      else Around(t, backdrop, codes, n, x, y, i + 1)
  }

  function Seen(t: Tables, backdrop: int, codes: seq<Byte>, x: nat, y: nat): int
    requires Valid(t)
  {
    Around(t, backdrop, codes, |codes|, x, y, 0)
  }

  lemma {:induction false} NothingAround(t: Tables, backdrop: int, codes: seq<Byte>, x: nat, y: nat, i: nat)
    requires Valid(t) && i <= TILES
    ensures Around(t, backdrop, codes, 0, x, y, i) == NO_TILE
    decreases TILES - i
  {
    if i < TILES {
      NothingAround(t, backdrop, codes, x, y, i + 1);
    }
  }

  /** Cell `n` is the one that tile `i` would come from exactly if `i` is the part that `n` has on the cell. */
  lemma CellOfPart(x: nat, y: nat, n: nat, i: nat)
    requires i < TILES && x < MAP_WIDTH
    ensures PartOn(n % MAP_WIDTH, n / MAP_WIDTH, x, y) == i <==>
            ColumnFor(x, i) < MAP_WIDTH && RowFor(y, i) * MAP_WIDTH + ColumnFor(x, i) == n
  {
    PartIs(n % MAP_WIDTH, n / MAP_WIDTH, x, y, i);
  }

  /** Tiles with smaller numbers come from codes that are read later. */
  lemma EarlierPartsLater(x: nat, y: nat, i: nat, j: nat)
    requires i < j < TILES
    ensures RowFor(y, i) * MAP_WIDTH + ColumnFor(x, i) > RowFor(y, j) * MAP_WIDTH + ColumnFor(x, j)
  {
  }

  /** Looking at one more code changes only what it has on the cell. */
  lemma {:induction false} AroundStep(t: Tables, backdrop: int, codes: seq<Byte>, n: nat, x: nat, y: nat, i: nat)
    requires Valid(t) && n < |codes| && i <= TILES && x < MAP_WIDTH
    ensures Around(t, backdrop, codes, n + 1, x, y, i) ==
            var j := PartOn(n % MAP_WIDTH, n / MAP_WIDTH, x, y);
            if j >= i && CodeTile(t, backdrop, codes[n], n % MAP_WIDTH, j) >= 0
            then CodeTile(t, backdrop, codes[n], n % MAP_WIDTH, j)
            else Around(t, backdrop, codes, n, x, y, i)
    decreases TILES - i
  {
    hide CodeTile, PartOn, ColumnFor, RowFor;
    if i < TILES {
      AroundStep(t, backdrop, codes, n, x, y, i + 1);
      CellOfPart(x, y, n, i);
      var j := PartOn(n % MAP_WIDTH, n / MAP_WIDTH, x, y);
      if j > i {
        CellOfPart(x, y, n, j);
        EarlierPartsLater(x, y, i, j);
      }
      if j == i {
        SameColumn(n, i, x, y);
      }
    }
  }

  lemma SameColumn(n: nat, i: nat, x: nat, y: nat)
    requires i < TILES && PartOn(n % MAP_WIDTH, n / MAP_WIDTH, x, y) == i
    ensures ColumnFor(x, i) == n % MAP_WIDTH
  {
    PartIs(n % MAP_WIDTH, n / MAP_WIDTH, x, y, i);
  }

  /** Reading all codes in order leaves on a cell what is seen around it. */
  lemma {:induction false} CoverIsAround(t: Tables, backdrop: int, codes: seq<Byte>, n: nat, x: nat, y: nat)
    requires Valid(t) && n <= |codes| && x < MAP_WIDTH
    ensures LastCover(t, backdrop, codes, n, x, y) == Around(t, backdrop, codes, n, x, y, 0)
  {
    hide CodeTile, PartOn, Around;
    if n == 0 {
      NothingAround(t, backdrop, codes, x, y, 0);
    } else {
      CoverIsAround(t, backdrop, codes, n - 1, x, y);
      AroundStep(t, backdrop, codes, n - 1, x, y, 0);
    }
  }

  // What the map itself says

  /** The codes that the reader finds in a layer are those of the map's tiles, with the mark in the first column of the foreground. */
  function MapCodes(t: Tables, grid: seq<int>, front: bool): (codes: seq<Byte>)
    requires Valid(t)
    ensures |codes| == |grid|
  {
    seq(|grid|, c requires 0 <= c < |grid| =>
      if !front then BgByte(t, grid[c]) else if c % MAP_WIDTH == 0 then STAR else CodeFor(t, grid[c]))
  }

  lemma CodesFromMap(t: Tables, bg: seq<int>, fg: seq<int>, k: Coded)
    requires Valid(t) && IsCoded(t, bg, fg, k)
    ensures Sized(k) && ReadCodes(k, false) == MapCodes(t, bg, false) && ReadCodes(k, true) == MapCodes(t, fg, true)
  {
    hide Valid, BgByte, CodeFor, HasCode;
  }

  /** The tile that the code up to three columns to the right and two rows below has with number `i` for a cell. */
  function TileFrom(t: Tables, backdrop: int, codes: seq<Byte>, x: nat, y: nat, i: nat): int
    requires Valid(t) && i < TILES
  {
    var cx := ColumnFor(x, i);
    var c := RowFor(y, i) * MAP_WIDTH + cx;
    if cx < MAP_WIDTH && c < |codes| then CodeTile(t, backdrop, codes[c], cx, i) else NO_TILE
  }

  /**
   * Every part of a tile that reaches the cell is the cell's own tile, unless a tile further
   * right or below has a part there too; and only an empty cell has no part on it.
   */
  predicate InPlace(t: Tables, backdrop: int, codes: seq<Byte>, x: nat, y: nat, tile: int)
    requires Valid(t)
  {
    && (tile != NO_TILE ==> exists i :: 0 <= i < TILES && TileFrom(t, backdrop, codes, x, y, i) >= 0)
    && forall i :: 0 <= i < TILES && TileFrom(t, backdrop, codes, x, y, i) >= 0 ==>
         TileFrom(t, backdrop, codes, x, y, i) == tile || exists j :: 0 <= j < i && TileFrom(t, backdrop, codes, x, y, j) >= 0
  }

  predicate CellInPlace(t: Tables, backdrop: int, codes: seq<Byte>, grid: seq<int>, x: nat, y: nat)
    requires Valid(t) && y * MAP_WIDTH + x < |grid|
  {
    InPlace(t, backdrop, codes, x, y, grid[y * MAP_WIDTH + x])
  }

  /** What is seen is the first tile, if there is one. */
  lemma {:induction false} FirstAround(t: Tables, backdrop: int, codes: seq<Byte>, x: nat, y: nat, i: nat)
    requires Valid(t) && i <= TILES
    ensures var seen := Around(t, backdrop, codes, |codes|, x, y, i);
            || (seen == NO_TILE && forall j :: i <= j < TILES ==> TileFrom(t, backdrop, codes, x, y, j) < 0)
            || exists j :: i <= j < TILES && seen == TileFrom(t, backdrop, codes, x, y, j) >= 0 &&
                           forall l :: i <= l < j ==> TileFrom(t, backdrop, codes, x, y, l) < 0
    decreases TILES - i
  {
    hide Valid, CodeTile, ColumnFor, RowFor;
    if i < TILES {
      FirstAround(t, backdrop, codes, x, y, i + 1);
      assert TileFrom(t, backdrop, codes, x, y, i) >= 0 ==>
               Around(t, backdrop, codes, |codes|, x, y, i) == TileFrom(t, backdrop, codes, x, y, i);
    }
  }

  lemma SeenInPlace(t: Tables, backdrop: int, codes: seq<Byte>, x: nat, y: nat, tile: int)
    requires Valid(t)
    ensures Seen(t, backdrop, codes, x, y) == tile <==> InPlace(t, backdrop, codes, x, y, tile)
  {
    hide Valid, Around, TileFrom;
    FirstAround(t, backdrop, codes, x, y, 0);
  }

  // Tiles past the edges

  predicate OnMap(spots: seq<Spot>) {
    forall k :: 0 <= k < |spots| ==> spots[k].x >= 0 && spots[k].y >= 0
  }

  /** The tiles of the code in column `cx` of row `cy` reach neither past the first column nor past the first row. */
  predicate CodeOnMap(t: Tables, backdrop: int, code: Byte, cx: nat, cy: int)
    requires Valid(t)
  {
    forall i :: 0 <= i < TILES && CodeTile(t, backdrop, code, cx, i) >= 0 ==> 3 - i % 4 <= cx && 2 - i / 4 <= cy
  }

  /** The same, for the first `n` codes of a layer. */
  predicate AllOnMap(t: Tables, backdrop: int, codes: seq<Byte>, n: nat)
    requires Valid(t) && n <= |codes|
  {
    forall c :: 0 <= c < n ==> CodeOnMap(t, backdrop, codes[c], c % MAP_WIDTH, c / MAP_WIDTH)
  }

  lemma OnMapBoth(a: seq<Spot>, b: seq<Spot>)
    ensures OnMap(a + b) <==> OnMap(a) && OnMap(b)
  {
    if OnMap(a + b) {
      forall k | 0 <= k < |a| ensures a[k].x >= 0 && a[k].y >= 0 {
        assert (a + b)[k] == a[k];
      }
      forall k | 0 <= k < |b| ensures b[k].x >= 0 && b[k].y >= 0 {
        assert (a + b)[|a| + k] == b[k];
      }
    }
  }

  lemma OneOnMap(s: Spot)
    ensures OnMap([s]) <==> s.x >= 0 && s.y >= 0
  {
    assert [s][0] == s;
  }

  lemma {:induction false} SpotsOnMap(tiles: seq<int>, i: nat, cx: int, cy: int)
    requires |tiles| == TILES && i <= TILES
    ensures OnMap(Spots(tiles, i, cx, cy)) <==>
            forall j :: i <= j < TILES && tiles[j] >= 0 ==> 3 - j % 4 <= cx && 2 - j / 4 <= cy
    decreases TILES - i
  {
    if i < TILES {
      SpotsOnMap(tiles, i + 1, cx, cy);
      OneOnMap(Spot(cx - (3 - i % 4), cy - (2 - i / 4), tiles[i]));
      OnMapBoth([Spot(cx - (3 - i % 4), cy - (2 - i / 4), tiles[i])], Spots(tiles, i + 1, cx, cy));
    }
  }

  lemma CodeSpotsOnMap(t: Tables, backdrop: int, code: Byte, cx: nat, cy: nat)
    requires Valid(t)
    ensures OnMap(CodeSpots(t, backdrop, code, cx, cy)) <==> CodeOnMap(t, backdrop, code, cx, cy)
  {
    hide Spots, FirstCode, OnMap;
    NothingOnMap();
    OneOnMap(Spot(cx, cy, backdrop + (code as int - LIGHT as int)));
    if !(code == SPACE || LIGHT < code <= LIGHT + 3 || (code == STAR && cx == 0)) {
      var e := FirstCode(t.entries, 0, code);
      if e < |t.entries| {
        SpotsOnMap(t.entries[e].tiles, 0, cx, cy);
        assert forall i :: 0 <= i < TILES ==> t.entries[e].tiles[i] == CodeTile(t, backdrop, code, cx, i);
      }
    }
  }

  lemma AllOnMapMore(t: Tables, backdrop: int, codes: seq<Byte>, c: nat, cx: nat, cy: nat)
    requires Valid(t) && c < |codes| && cx < MAP_WIDTH && c == cy * MAP_WIDTH + cx
    ensures AllOnMap(t, backdrop, codes, c + 1) <==> AllOnMap(t, backdrop, codes, c) && CodeOnMap(t, backdrop, codes[c], cx, cy)
  {
    hide CodeOnMap;
    assert c % MAP_WIDTH == cx && c / MAP_WIDTH == cy;
  }

  lemma {:induction false} LineOnMap(t: Tables, backdrop: int, line: Line, codes: seq<Byte>, r: nat, n: nat)
    requires Valid(t) && line.y == r && |line.codes| == MAP_WIDTH && n <= MAP_WIDTH
    requires (r + 1) * MAP_WIDTH <= |codes| && line.codes == codes[r * MAP_WIDTH..(r + 1) * MAP_WIDTH]
    ensures AllOnMap(t, backdrop, codes, r * MAP_WIDTH + n) <==>
            AllOnMap(t, backdrop, codes, r * MAP_WIDTH) && OnMap(LineSpots(t, backdrop, line, n))
  {
    hide CodeSpots, CodeOnMap, OnMap, AllOnMap;
    if n == 0 {
      NothingOnMap();
    } else {
      LineOnMap(t, backdrop, line, codes, r, n - 1);
      AllOnMapMore(t, backdrop, codes, r * MAP_WIDTH + n - 1, n - 1, r);
      CodeSpotsOnMap(t, backdrop, line.codes[n - 1], n - 1, r);
      OnMapBoth(LineSpots(t, backdrop, line, n - 1), CodeSpots(t, backdrop, line.codes[n - 1], n - 1, r));
      assert codes[r * MAP_WIDTH + n - 1] == line.codes[n - 1];
    }
  }

  lemma NothingOnMap()
    ensures OnMap([])
  {
  }

  lemma {:induction false} NoLineOnMap(t: Tables, backdrop: int, codes: seq<Byte>, r: nat, n: nat)
    requires Valid(t) && (r + 1) * MAP_WIDTH <= |codes| && n <= MAP_WIDTH
    requires forall c :: r * MAP_WIDTH <= c < (r + 1) * MAP_WIDTH ==> codes[c] == if c % MAP_WIDTH == 0 then STAR else SPACE
    ensures AllOnMap(t, backdrop, codes, r * MAP_WIDTH + n) <==> AllOnMap(t, backdrop, codes, r * MAP_WIDTH)
  {
    hide AllOnMap, CodeTile;
    if n > 0 {
      NoLineOnMap(t, backdrop, codes, r, n - 1);
      AllOnMapMore(t, backdrop, codes, r * MAP_WIDTH + n - 1, n - 1, r);
      assert codes[r * MAP_WIDTH + n - 1] == if n == 1 then STAR else SPACE;
      var code := codes[r * MAP_WIDTH + n - 1];
      var x := n - 1;
      forall i | 0 <= i < TILES ensures CodeTile(t, backdrop, code, x, i) < 0 {
        NoTiles(t, backdrop, x, i);
      }
    }
  }

  /** No tile of the first `n` rows is past the edges if and only if none of their codes reaches there. */
  lemma {:induction false} LayerOnMap(t: Tables, backdrop: int, bg: seq<int>, fg: seq<int>, k: Coded, front: bool, n: nat)
    requires Valid(t) && IsCoded(t, bg, fg, k) && n <= k.h
    ensures Sized(k)
    ensures OnMap(LayerSpots(t, backdrop, LinesUpTo(k, n), front)) <==> AllOnMap(t, backdrop, ReadCodes(k, front), n * MAP_WIDTH)
  {
    hide LayerSpots, LineSpots, Valid, IsCoded, ReadCodes, OnMap, CodeOnMap, FgRow, Row;
    CodedSizes(t, bg, fg, k);
    NoLines(t, backdrop);
    NothingOnMap();
    if n > 0 {
      var r := n - 1;
      LayerOnMap(t, backdrop, bg, fg, k, front, r);
      RowAdded(t, backdrop, k, r);
      RowIsSlice(k, r, front);
      if !front || k.valid[r] {
        var line := Line(r, front, if front then FgRow(k, r) else Row(k.bg, r));
        LineOnMap(t, backdrop, line, ReadCodes(k, front), r, MAP_WIDTH);
        OnMapBoth(LayerSpots(t, backdrop, LinesUpTo(k, r), front), LineSpots(t, backdrop, line, MAP_WIDTH));
      } else {
        EmptyForeground(t, bg, fg, k, r);
        NoLineOnMap(t, backdrop, ReadCodes(k, true), r, MAP_WIDTH);
      }
    }
  }

  // The whole level

  /** The layer shows, cell by cell, what the grid holds. */
  predicate Shows(spots: seq<Spot>, grid: seq<int>, h: nat)
    requires |grid| == MAP_WIDTH * h
  {
    forall x, y :: 0 <= x < MAP_WIDTH && 0 <= y < h ==> LastSpot(spots, x, y) == grid[y * MAP_WIDTH + x]
  }

  /** Every cell of the layer has only its own tile on it, or that on top. */
  predicate AllInPlace(t: Tables, backdrop: int, grid: seq<int>, front: bool, h: nat)
    requires Valid(t) && |grid| == MAP_WIDTH * h
  {
    var codes := MapCodes(t, grid, front);
    forall x, y :: 0 <= x < MAP_WIDTH && 0 <= y < h ==> CellInPlace(t, backdrop, codes, grid, x, y)
  }

  /** No tile of the layer has parts left of the first column or above the first row. */
  predicate NonePast(t: Tables, backdrop: int, grid: seq<int>, front: bool)
    requires Valid(t)
  {
    AllOnMap(t, backdrop, MapCodes(t, grid, front), |grid|)
  }

  /** What is on an opened layer, in terms of the layer saved. */
  predicate LayerFrom(t: Tables, backdrop: int, spots: seq<Spot>, grid: seq<int>, front: bool, h: nat)
    requires Valid(t) && |grid| == MAP_WIDTH * h
  {
    && (Shows(spots, grid, h) <==> AllInPlace(t, backdrop, grid, front, h))
    && (OnMap(spots) <==> NonePast(t, backdrop, grid, front))
  }

  /** Every cell of an opened level shows what is seen around it in the written codes. */
  lemma CellSeen(t: Tables, bg: seq<int>, fg: seq<int>, k: Coded, backdrop: int, front: bool, x: nat, y: nat)
    requires Valid(t) && IsCoded(t, bg, fg, k) && backdrop >= 0 && x < MAP_WIDTH
    ensures Sized(k)
    ensures LastSpot(LayerSpots(t, backdrop, LinesUpTo(k, k.h), front), x, y) == Seen(t, backdrop, ReadCodes(k, front), x, y)
  {
    hide LayerSpots, LastSpot, LastCover, Around, IsCoded, Valid;
    CodedSizes(t, bg, fg, k);
    LastOfLayer(t, backdrop, bg, fg, k, front, k.h, x, y);
    CoverIsAround(t, backdrop, ReadCodes(k, front), |ReadCodes(k, front)|, x, y);
  }

  lemma LayerExact(t: Tables, bg: seq<int>, fg: seq<int>, k: Coded, backdrop: int, front: bool)
    requires Valid(t) && IsCoded(t, bg, fg, k) && backdrop >= 0
    ensures Sized(k) && |bg| == |fg| == MAP_WIDTH * k.h
    ensures LayerFrom(t, backdrop, LayerSpots(t, backdrop, LinesUpTo(k, k.h), front), if front then fg else bg, front, k.h)
  {
    hide LayerSpots, Valid, IsCoded, LinesUpTo, LastSpot, Seen, ReadCodes, MapCodes, InPlace, OnMap, AllOnMap;
    CodedSizes(t, bg, fg, k);
    CodesFromMap(t, bg, fg, k);
    LayerOnMap(t, backdrop, bg, fg, k, front, k.h);
    var spots, grid := LayerSpots(t, backdrop, LinesUpTo(k, k.h), front), if front then fg else bg;
    var codes := MapCodes(t, grid, front);
    forall x, y | 0 <= x < MAP_WIDTH && 0 <= y < k.h
      ensures LastSpot(spots, x, y) == grid[y * MAP_WIDTH + x] <==> CellInPlace(t, backdrop, codes, grid, x, y)
    {
      CellSeen(t, bg, fg, k, backdrop, front, x, y);
      SeenInPlace(t, backdrop, codes, x, y, grid[y * MAP_WIDTH + x]);
    }
  }

  /**
   * A level that can be framed comes back with its height and backdrop. Each layer shows its
   * tiles again, cell by cell, if and only if every part of every tile is in its place on the
   * map or covered; and tiles are put past the edges exactly for tiles that reach there.
   */
  lemma LevelExact(t: Tables, bg: seq<int>, fg: seq<int>, k: Coded, choice: nat)
    requires Valid(t) && IsCoded(t, bg, fg, k) && choice < |BACKDROPS|
    requires Sized(k) && LinesOf(k, k.h) <= MAX_ROWS && |FileOf(k, choice)| == FILESIZE && Framable(k, 0)
    ensures |bg| == |fg| == MAP_WIDTH * k.h
    ensures Meaning(t, FileOf(k, choice)).Ok?
    ensures var l, backdrop := Meaning(t, FileOf(k, choice)).value, BACKDROPS[choice].tile;
            && l.height == k.h && l.choice == choice
            && LayerFrom(t, backdrop, l.bg, bg, false, k.h) && LayerFrom(t, backdrop, l.fg, fg, true, k.h)
  {
    hide ReadLines, LayerSpots, Valid, FileOf, Framable, IsCoded, ChoiceFor, LeadingNumber, LinesUpTo, BACKDROPS, LayerFrom;
    CodedSizes(t, bg, fg, k);
    FileLines(k, choice);
    NumberReadBack(k, choice);
    BackdropTile(choice);
    LayerExact(t, bg, fg, k, BACKDROPS[choice].tile, false);
    LayerExact(t, bg, fg, k, BACKDROPS[choice].tile, true);
  }

  lemma BackdropTile(choice: nat)
    requires choice < |BACKDROPS|
    ensures BACKDROPS[choice].tile >= 0
  {
  }

  /** Why a map is not written, or not opened again, if no row starts with the mark. */
  ghost function Fault(t: Tables, m: Map): (e: Result<bool>)
    requires Valid(t) && Writable(m)
  {
    if m.width != MAP_WIDTH || m.height > MAX_ROWS then Err(BadLayout)
    else
      var lines := LinesOf(CodesOf(t, m), m.height);
      if lines > MAX_ROWS then Err(TooMany)
      else if m.height == 0 || m.height > LOOP_ROWS || (m.height == LOOP_ROWS && lines < MAX_ROWS) then Err(BadLayout)
      else if lines == MAX_ROWS then Err(Truncated)
      else Ok(true)
  }

  /**
   * Saving a map and opening the file. A map without the mark fails as `Fault` says, and
   * otherwise comes back with its height and backdrop, and its layers as `LayerFrom` says;
   * layers of single-cell tiles come back as lists in reading order.
   */
  method SaveAndReopen(t: Tables, m: Map) returns (r: Result<Level>)
    requires Valid(t) && Writable(m)
    ensures m.width != MAP_WIDTH || m.height > MAX_ROWS || LinesOf(CodesOf(t, m), m.height) > MAX_ROWS ==>
              r.Err? && Fault(t, m) == Err(r.error)
    ensures m.width == MAP_WIDTH && m.height <= MAX_ROWS && NoMarks(CodesOf(t, m), 0) ==>
              if Fault(t, m).Err? then r.Err? && r.error == Fault(t, m).error
              else
                var choice := ChoiceOf(m.backdrop);
                var backdrop := BACKDROPS[choice].tile;
                && r.Ok? && r.value.height == m.height && r.value.choice == choice
                && LayerFrom(t, backdrop, r.value.bg, BgCells(m), false, m.height)
                && LayerFrom(t, backdrop, r.value.fg, FgCells(m), true, m.height)
                && (MapKept(t, m) ==> r.value == LevelOf(m))
  {
    hide Valid, Paint, Scan, SpotsOf, IsCoded, CodedOf, FileOf, Meaning, Kept, BACKDROPS, Writable, Fits, NoMarks, LayerFrom;
    var f := Write(t, m);
    if m.width != MAP_WIDTH || m.height > MAX_ROWS {
      return Err(f.error);
    }
    ghost var k := CodesOf(t, m);
    if LinesOf(k, m.height) <= MAX_ROWS {
      SizeExact(k, m.backdrop);
    }
    if f.Err? {
      return Err(f.error);
    }
    r := Open(t, f.value);
    if NoMarks(k, 0) {
      if m.height == 0 {
        EmptyNotOpened(t, k, m.backdrop);
      } else if LinesOf(k, m.height) == MAX_ROWS {
        FullNotOpened(t, k, m.backdrop);
      } else {
        SameFile(k, m.backdrop);
        LevelExact(t, BgCells(m), FgCells(m), k, ChoiceOf(m.backdrop));
        if MapKept(t, m) {
          RoundTrip(t, BgCells(m), FgCells(m), k, ChoiceOf(m.backdrop));
        }
      }
    }
  }
}
