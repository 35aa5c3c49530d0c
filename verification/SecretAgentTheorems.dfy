/** Secret Agent levels: opening what was written. */
module SecretAgentTheorems {
  import opened Bytes
  import opened Grid
  import opened SecretAgent
  import opened SecretAgentWrite
  import opened SecretAgentOpen

  // Lines

  /** The lines of row `y`. */
  function LinesAt(k: Coded, y: nat): seq<Line>
    requires Sized(k) && y < k.h
  {
    if k.valid[y] then [Line(y, false, Row(k.bg, y)), Line(y, true, FgRow(k, y))] else [Line(y, false, Row(k.bg, y))]
  }

  /** The lines of the rows from `y` on. */
  function LinesFrom(k: Coded, y: nat): seq<Line>
    requires Sized(k) && y <= k.h
    decreases k.h - y
  {
    if y == k.h then [] else LinesAt(k, y) + LinesFrom(k, y + 1)
  }

  /** The lines of the first `n` rows. */
  function LinesUpTo(k: Coded, n: nat): seq<Line>
    requires Sized(k) && n <= k.h
  {
    if n == 0 then [] else LinesUpTo(k, n - 1) + LinesAt(k, n - 1)
  }

  lemma {:induction false} LinesSplit(k: Coded, y: nat)
    requires Sized(k) && y <= k.h
    ensures LinesUpTo(k, y) + LinesFrom(k, y) == LinesUpTo(k, k.h)
    decreases k.h - y
  {
    if y < k.h {
      LinesSplit(k, y + 1);
    } else {
      AddNothing(LinesUpTo(k, y));
    }
  }

  // Where a row is in the file

  function At(k: Coded, y: nat): nat
    requires Sized(k) && y <= k.h
  {
    STRIDE * (2 + LinesOf(k, y))
  }

  /** The lines of row `y` are where they should be. */
  predicate RowIn(f: seq<Byte>, k: Coded, y: nat)
    requires Sized(k) && y < k.h
  {
    At(k, y) + |RowLines(k, y)| <= |f| && f[At(k, y)..At(k, y) + |RowLines(k, y)|] == RowLines(k, y)
  }

  /** A file of the right size is the header, all the rows, and zeros. */
  predicate Framed(f: seq<Byte>, k: Coded) {
    && Sized(k) && LinesOf(k, k.h) <= MAX_ROWS && |f| == FILESIZE
    && (forall y :: 0 <= y < k.h ==> RowIn(f, k, y))
    && (forall i :: At(k, k.h) <= i < FILESIZE ==> f[i] == 0)
  }

  lemma {:induction false} RowInBody(k: Coded, y: nat, n: nat)
    requires Sized(k) && y < n <= k.h
    ensures LinesOf(k, y) * STRIDE + |RowLines(k, y)| <= |Body(k, n)|
    ensures Body(k, n)[LinesOf(k, y) * STRIDE..LinesOf(k, y) * STRIDE + |RowLines(k, y)|] == RowLines(k, y)
    decreases n
  {
    hide RowLines, Sized, LinesOf;
    SizedFacts(k);
    if y < n - 1 {
      RowInBody(k, y, n - 1);
      SliceKept(Body(k, n - 1), RowLines(k, n - 1), LinesOf(k, y) * STRIDE, LinesOf(k, y) * STRIDE + |RowLines(k, y)|);
    } else {
      SliceAdded(Body(k, n - 1), RowLines(k, n - 1));
    }
  }

  lemma SizedFacts(k: Coded)
    requires Sized(k)
    ensures k.h <= MAX_ROWS && |k.valid| == MAX_ROWS && |k.bg| == |k.fg| == MAP_WIDTH * MAX_ROWS
  {
  }

  lemma FileIsFramed(k: Coded, backdrop: int)
    requires Sized(k) && LinesOf(k, k.h) <= MAX_ROWS && |FileOf(k, backdrop)| == FILESIZE
    ensures Framed(FileOf(k, backdrop), k)
  {
    hide Header, RowLines, Body;
    SizeExact(k, backdrop);
    var f := FileOf(k, backdrop);
    var pad := Repeat(0 as Byte, FILESIZE - At(k, k.h));
    AddNothing(Header(backdrop) + Body(k, k.h));
    assert f == Header(backdrop) + Body(k, k.h) + pad;
    forall y | 0 <= y < k.h ensures RowIn(f, k, y) {
      RowInBody(k, y, k.h);
      SliceInside(Header(backdrop), Body(k, k.h), pad, LinesOf(k, y) * STRIDE, LinesOf(k, y) * STRIDE + |RowLines(k, y)|);
    }
  }

  lemma RowParts(k: Coded, y: nat)
    requires Sized(k) && y < k.h
    ensures var s := RowLines(k, y);
            && s[0..MAP_WIDTH] == Row(k.bg, y) && s[0] == k.bg[y * MAP_WIDTH] && s[MAP_WIDTH] == CR && s[MAP_WIDTH + 1] == LF
            && (k.valid[y] ==> s[STRIDE..STRIDE + MAP_WIDTH] == FgRow(k, y) && s[STRIDE] == STAR)
  {
    RowStart(k, y);
    var back := Row(k.bg, y) + [CR, LF];
    if k.valid[y] {
      var front := FgRow(k, y) + [CR, LF];
      assert RowLines(k, y) == back + front;
      assert (back + front)[STRIDE..STRIDE + MAP_WIDTH] == front[..MAP_WIDTH] == FgRow(k, y);
      assert (back + front)[0..MAP_WIDTH] == back[..MAP_WIDTH] == Row(k.bg, y);
    } else {
      assert back[0..MAP_WIDTH] == Row(k.bg, y);
    }
  }

  /** What the reader sees of row `y`. */
  lemma RowSeen(f: seq<Byte>, k: Coded, y: nat)
    requires Framed(f, k) && y < k.h
    ensures var p := At(k, y);
            && At(k, y + 1) == (if k.valid[y] then p + 2 * STRIDE else p + STRIDE) && At(k, y + 1) <= |f|
            && f[p..p + MAP_WIDTH] == Row(k.bg, y) && f[p] == k.bg[y * MAP_WIDTH]
            && f[p + MAP_WIDTH] == CR && f[p + MAP_WIDTH + 1] == LF
            && (k.valid[y] ==> f[p + STRIDE..p + STRIDE + MAP_WIDTH] == FgRow(k, y) && f[p + STRIDE] == STAR)
  {
    hide Row, FgRow, RowLines;
    var p, n := At(k, y), |RowLines(k, y)|;
    assert RowIn(f, k, y);
    RowParts(k, y);
    SliceOfSlice(f, p, p + n, 0, MAP_WIDTH);
    assert f[p..p + n][0] == f[p] && f[p..p + n][MAP_WIDTH] == f[p + MAP_WIDTH] && f[p..p + n][MAP_WIDTH + 1] == f[p + MAP_WIDTH + 1];
    if k.valid[y] {
      SliceOfSlice(f, p, p + n, STRIDE, STRIDE + MAP_WIDTH);
      assert f[p..p + n][STRIDE] == f[p + STRIDE];
    }
  }

  lemma RowStart(k: Coded, y: nat)
    requires Sized(k) && y < k.h
    ensures Row(k.bg, y)[0] == k.bg[y * MAP_WIDTH] && FgRow(k, y)[0] == STAR
  {
  }

  /** No background line from row `y` on looks like a foreground line. */
  predicate NoMarks(k: Coded, y: nat)
    requires Sized(k)
  {
    forall r :: y <= r < k.h ==> k.bg[r * MAP_WIDTH] != STAR
  }

  lemma PrependSame(line: Line, a: Result<Lines>, lines: seq<Line>, h: nat)
    ensures Prepend(line, a) == Ok(Lines([line] + lines, h)) <==> a == Ok(Lines(lines, h))
  {
    if a.Ok? {
      assert ([line] + a.value.lines)[1..] == a.value.lines && ([line] + lines)[1..] == lines;
    }
  }

  lemma FirstLineDiffers(line: Line, a: Result<Lines>, lines: seq<Line>, h: nat)
    requires lines != [] && lines[0] != line
    ensures Prepend(line, a) != Ok(Lines(lines, h))
  {
    if a.Ok? {
      assert ([line] + a.value.lines)[0] == line;
    }
  }

  /** The map is found as written, line by line, if and only if it has these properties. */
  predicate Framable(k: Coded, y: nat)
    requires Sized(k) && y <= k.h
  {
    k.h > 0 && LinesOf(k, k.h) < MAX_ROWS && NoMarks(k, y)
  }

  lemma {:induction false} LinesReadBack(f: seq<Byte>, k: Coded, y: nat)
    requires Framed(f, k) && y <= k.h
    ensures ReadLines(f, At(k, y), y, FILESIZE / STRIDE - Count(k.valid, y)) == Ok(Lines(LinesFrom(k, y), k.h)) <==> Framable(k, y)
    decreases k.h - y
  {
    hide ReadLines, Framed, LinesFrom, At, Framable;
    FramedSized(f, k);
    if y < k.h {
      LinesReadBack(f, k, y + 1);
      RowReadBack(f, k, y);
    } else {
      EndReadBack(f, k);
    }
  }

  lemma FramedSized(f: seq<Byte>, k: Coded)
    requires Framed(f, k)
    ensures Sized(k)
  {
  }

  /** After the last row there are zeros, if there is room for them. */
  lemma EndReadBack(f: seq<Byte>, k: Coded)
    requires Framed(f, k)
    ensures ReadLines(f, At(k, k.h), k.h, FILESIZE / STRIDE - Count(k.valid, k.h)) == Ok(Lines(LinesFrom(k, k.h), k.h)) <==> Framable(k, k.h)
  {
    hide ReadLines;
    LineStep(f, At(k, k.h), k.h, FILESIZE / STRIDE - Count(k.valid, k.h));
  }

  lemma RowReadBack(f: seq<Byte>, k: Coded, y: nat)
    requires Framed(f, k) && y < k.h
    requires ReadLines(f, At(k, y + 1), y + 1, FILESIZE / STRIDE - Count(k.valid, y + 1)) == Ok(Lines(LinesFrom(k, y + 1), k.h))
             <==> Framable(k, y + 1)
    ensures ReadLines(f, At(k, y), y, FILESIZE / STRIDE - Count(k.valid, y)) == Ok(Lines(LinesFrom(k, y), k.h)) <==> Framable(k, y)
  {
    hide ReadLines, FgRow, Row, Prepend, Framed, At;
    FramedSized(f, k);
    var p, h := At(k, y), FILESIZE / STRIDE - Count(k.valid, y);
    var back, rest := Line(y, false, Row(k.bg, y)), LinesFrom(k, y + 1);
    FramedRows(f, k, y);
    RowSeen(f, k, y);
    LineStep(f, p, y, h);
    if f[p] == STAR {
      FirstLineDiffers(Line(y - 1, true, f[p..p + MAP_WIDTH]), ReadLines(f, p + STRIDE, y, h - 1), LinesFrom(k, y), k.h);
    } else if k.valid[y] {
      var front := Line(y, true, FgRow(k, y));
      LineStep(f, p + STRIDE, y + 1, h);
      PrependSame(front, ReadLines(f, p + 2 * STRIDE, y + 1, h - 1), rest, k.h);
      PrependSame(back, ReadLines(f, p + STRIDE, y + 1, h), [front] + rest, k.h);
      assert LinesFrom(k, y) == [back] + ([front] + rest);
    } else {
      PrependSame(back, ReadLines(f, p + STRIDE, y + 1, h), rest, k.h);
    }
  }

  lemma FramedRows(f: seq<Byte>, k: Coded, y: nat)
    requires Framed(f, k) && y < k.h
    ensures Sized(k) && LinesOf(k, k.h) <= MAX_ROWS && y + 1 + Count(k.valid, y + 1) <= LinesOf(k, k.h) && |f| == FILESIZE
  {
    CountGrows(k.valid, y + 1, k.h);
  }

  // Tiles

  function SpotOf(it: Item): Spot {
    Spot(it.x, it.y, it.code)
  }

  function SpotsOf(items: seq<Item>): (r: seq<Spot>)
    ensures |r| == |items|
  {
    seq(|items|, i requires 0 <= i < |items| => SpotOf(items[i]))
  }

  /** A tile alone in a cell. */
  function Alone(tile: int, x: int, y: int): seq<Spot> {
    if tile == NO_TILE then [] else [Spot(x, y, tile)]
  }

  predicate SingleTile(e: Entry) {
    |e.tiles| == TILES && e.tiles[TILES - 1] >= 0 && forall i :: 0 <= i < TILES - 1 ==> e.tiles[i] < 0
  }

  /** The tile has a code of its own that stands for nothing else. */
  predicate OwnCode(t: Tables, tile: int, x: nat)
    requires Valid(t)
  {
    var i := FirstEntry(t.entries, 0, tile);
    && i < |t.entries| && SingleTile(t.entries[i]) && FirstCode(t.entries, 0, t.entries[i].code) == i
    && t.entries[i].code != SPACE && !(LIGHT < t.entries[i].code <= LIGHT + 3)
    && !(t.entries[i].code == STAR && x == 0)
  }

  /** A background tile that comes back: a light shadow of the level's own backdrop, or one with its own code. */
  predicate BgKept(t: Tables, backdrop: int, tile: int, x: nat)
    requires Valid(t)
  {
    var light := LightOf(t.lights, 0, tile);
    tile == NO_TILE
    || (1 <= light <= 3 && tile == backdrop + light)
    || (!(0 <= light <= 3) && OwnCode(t, tile, x))
  }

  /** A foreground tile that comes back: one with its own code, not in the first column. */
  predicate FgKept(t: Tables, tile: int, x: nat)
    requires Valid(t)
  {
    tile == NO_TILE || (x > 0 && OwnCode(t, tile, x))
  }

  lemma {:induction false} SingleSpot(tiles: seq<int>, i: nat, x: int, y: int)
    requires |tiles| == TILES && i < TILES && tiles[TILES - 1] >= 0 && forall k :: 0 <= k < TILES - 1 ==> tiles[k] < 0
    ensures Spots(tiles, i, x, y) == [Spot(x, y, tiles[TILES - 1])]
    decreases TILES - i
  {
    if i < TILES - 1 {
      SingleSpot(tiles, i + 1, x, y);
    } else {
      assert Spots(tiles, TILES, x, y) == [];
    }
  }

  lemma OwnCodeKept(t: Tables, backdrop: int, tile: int, x: nat, y: int)
    requires Valid(t) && OwnCode(t, tile, x)
    ensures CodeSpots(t, backdrop, CodeFor(t, tile), x, y) == [Spot(x, y, tile)]
  {
    SingleSpot(t.entries[FirstEntry(t.entries, 0, tile)].tiles, 0, x, y);
  }

  lemma BgCellKept(t: Tables, backdrop: int, tile: int, x: nat, y: int)
    requires Valid(t) && BgKept(t, backdrop, tile, x)
    ensures CodeSpots(t, backdrop, BgByte(t, tile), x, y) == Alone(tile, x, y)
  {
    hide OwnCode, CodeFor;
    NoTileHasNoCode(t);
    if tile != NO_TILE && OwnCode(t, tile, x) {
      OwnCodeKept(t, backdrop, tile, x, y);
    }
    LightAtLeast(t.lights, 0, tile);
  }

  lemma {:induction false} LightAtLeast(lights: seq<int>, i: nat, tile: int)
    requires i <= |lights|
    ensures NO_TILE <= LightOf(lights, i, tile) <= 3
    decreases |lights| - i
  {
    if i < |lights| {
      LightAtLeast(lights, i + 1, tile);
    }
  }

  lemma FgCellKept(t: Tables, backdrop: int, tile: int, x: nat, y: int)
    requires Valid(t) && FgKept(t, tile, x)
    ensures CodeSpots(t, backdrop, if x == 0 then STAR else CodeFor(t, tile), x, y) == Alone(tile, x, y)
    ensures HasCode(t, tile) <==> tile != NO_TILE
  {
    hide CodeFor;
    NoTileHasNoCode(t);
    if tile != NO_TILE {
      OwnCodeKept(t, backdrop, tile, x, y);
    }
  }

  /** Every cell of both layers holds a tile that comes back. */
  predicate Kept(t: Tables, backdrop: int, bg: seq<int>, fg: seq<int>)
    requires Valid(t)
  {
    && (forall c :: 0 <= c < |bg| ==> BgKept(t, backdrop, bg[c], c % MAP_WIDTH))
    && (forall c :: 0 <= c < |fg| ==> FgKept(t, fg[c], c % MAP_WIDTH))
  }

  /** Gathering one more cell. */
  lemma ScanOne(grid: seq<int>, c: nat, x: nat, y: nat)
    requires c < |grid| && c == y * MAP_WIDTH + x && x < MAP_WIDTH
    ensures SpotsOf(Scan(grid, MAP_WIDTH, NO_TILE, c + 1)) == SpotsOf(Scan(grid, MAP_WIDTH, NO_TILE, c)) + Alone(grid[c], x, y)
    ensures c % MAP_WIDTH == x
  {
    var before, after := Scan(grid, MAP_WIDTH, NO_TILE, c), Scan(grid, MAP_WIDTH, NO_TILE, c + 1);
    assert c / MAP_WIDTH == y && c % MAP_WIDTH == x;
    if grid[c] != NO_TILE {
      assert after == before + [Item(x, y, grid[c])];
      assert SpotsOf(after) == SpotsOf(before) + [Spot(x, y, grid[c])];
    } else {
      AddNothing(SpotsOf(before));
    }
  }

  /** The codes of a line, column by column, stand for the tiles of a row of the grid. */
  predicate LineShows(t: Tables, backdrop: int, line: Line, grid: seq<int>, y: nat) {
    && |line.codes| == MAP_WIDTH && (y + 1) * MAP_WIDTH <= |grid| && line.y == y
    && forall x :: 0 <= x < MAP_WIDTH ==>
         CodeSpots(t, backdrop, line.codes[x], x, y) == Alone(grid[y * MAP_WIDTH + x], x, y)
  }

  lemma {:induction false} LineGathered(t: Tables, backdrop: int, line: Line, grid: seq<int>, y: nat, x: nat)
    requires LineShows(t, backdrop, line, grid, y) && x <= MAP_WIDTH
    ensures SpotsOf(Scan(grid, MAP_WIDTH, NO_TILE, y * MAP_WIDTH)) + LineSpots(t, backdrop, line, x)
            == SpotsOf(Scan(grid, MAP_WIDTH, NO_TILE, y * MAP_WIDTH + x))
  {
    hide CodeSpots, SpotsOf, Scan, Alone;
    var before := SpotsOf(Scan(grid, MAP_WIDTH, NO_TILE, y * MAP_WIDTH));
    if x == 0 {
      AddNothing(before);
    } else {
      LineGathered(t, backdrop, line, grid, y, x - 1);
      ScanOne(grid, y * MAP_WIDTH + x - 1, x - 1, y);
      Reassociate(before, LineSpots(t, backdrop, line, x - 1), CodeSpots(t, backdrop, line.codes[x - 1], x - 1, y));
    }
  }

  lemma BgLineShows(t: Tables, backdrop: int, bg: seq<int>, fg: seq<int>, k: Coded, y: nat)
    requires Valid(t) && IsCoded(t, bg, fg, k) && Kept(t, backdrop, bg, fg) && y < k.h
    ensures LineShows(t, backdrop, Line(y, false, Row(k.bg, y)), bg, y)
  {
    hide CodeSpots, BgKept, FgKept, BgByte, CodeFor, HasCode, Valid;
    forall x | 0 <= x < MAP_WIDTH
      ensures CodeSpots(t, backdrop, Row(k.bg, y)[x], x, y) == Alone(bg[y * MAP_WIDTH + x], x, y)
    {
      var c := y * MAP_WIDTH + x;
      assert c % MAP_WIDTH == x && Row(k.bg, y)[x] == k.bg[c];
      BgCellKept(t, backdrop, bg[c], x, y);
    }
  }

  lemma FgLineShows(t: Tables, backdrop: int, bg: seq<int>, fg: seq<int>, k: Coded, y: nat)
    requires Valid(t) && IsCoded(t, bg, fg, k) && Kept(t, backdrop, bg, fg) && y < k.h
    ensures LineShows(t, backdrop, Line(y, true, FgRow(k, y)), fg, y)
  {
    hide CodeSpots, BgKept, FgKept, BgByte, CodeFor, HasCode, Valid, FgRow, Row;
    forall x | 0 <= x < MAP_WIDTH
      ensures CodeSpots(t, backdrop, FgRow(k, y)[x], x, y) == Alone(fg[y * MAP_WIDTH + x], x, y)
    {
      var c := y * MAP_WIDTH + x;
      FgCodeAt(k, y, x, c);
      FgCellKept(t, backdrop, fg[c], x, y);
    }
  }

  lemma FgCodeAt(k: Coded, y: nat, x: nat, c: nat)
    requires Sized(k) && y < MAX_ROWS && x < MAP_WIDTH && c == y * MAP_WIDTH + x
    ensures c % MAP_WIDTH == x && FgRow(k, y)[x] == if x == 0 then STAR else k.fg[c]
  {
  }

  /** A row without a foreground line has no foreground tiles. */
  lemma FgRowEmpty(t: Tables, backdrop: int, bg: seq<int>, fg: seq<int>, k: Coded, y: nat)
    requires Valid(t) && IsCoded(t, bg, fg, k) && Kept(t, backdrop, bg, fg) && y < k.h && !k.valid[y]
    ensures forall c :: y * MAP_WIDTH <= c < (y + 1) * MAP_WIDTH ==> fg[c] == NO_TILE
  {
    hide BgKept, FgKept, HasCode, Valid;
    forall c | y * MAP_WIDTH <= c < (y + 1) * MAP_WIDTH ensures fg[c] == NO_TILE {
      FgCellKept(t, backdrop, fg[c], c % MAP_WIDTH, y);
    }
  }

  /** A row without tiles adds nothing. */
  lemma {:induction false} EmptyRow(grid: seq<int>, y: nat, x: nat)
    requires (y + 1) * MAP_WIDTH <= |grid| && x <= MAP_WIDTH
    requires forall c :: y * MAP_WIDTH <= c < (y + 1) * MAP_WIDTH ==> grid[c] == NO_TILE
    ensures Scan(grid, MAP_WIDTH, NO_TILE, y * MAP_WIDTH + x) == Scan(grid, MAP_WIDTH, NO_TILE, y * MAP_WIDTH)
  {
    if x > 0 {
      EmptyRow(grid, y, x - 1);
    }
  }

  /** What the lines of one row add to a layer. */
  lemma RowAdded(t: Tables, backdrop: int, k: Coded, y: nat)
    requires Sized(k) && y < k.h
    ensures LayerSpots(t, backdrop, LinesUpTo(k, y + 1), false) ==
            LayerSpots(t, backdrop, LinesUpTo(k, y), false) + LineSpots(t, backdrop, Line(y, false, Row(k.bg, y)), MAP_WIDTH)
    ensures LayerSpots(t, backdrop, LinesUpTo(k, y + 1), true) ==
            if k.valid[y]
            then LayerSpots(t, backdrop, LinesUpTo(k, y), true) + LineSpots(t, backdrop, Line(y, true, FgRow(k, y)), MAP_WIDTH)
            else LayerSpots(t, backdrop, LinesUpTo(k, y), true)
  {
    hide LayerSpots, LineSpots, Row, FgRow;
    var done := LinesUpTo(k, y);
    var back, front := Line(y, false, Row(k.bg, y)), Line(y, true, FgRow(k, y));
    LineAdded(t, backdrop, done, back, false);
    LineAdded(t, backdrop, done, back, true);
    AddNothing(LayerSpots(t, backdrop, done, true));
    if k.valid[y] {
      LineAdded(t, backdrop, done + [back], front, false);
      LineAdded(t, backdrop, done + [back], front, true);
      AddNothing(LayerSpots(t, backdrop, done + [back], false));
      assert done + [back, front] == done + [back] + [front];
    }
  }

  lemma {:induction false} BgReadBack(t: Tables, backdrop: int, bg: seq<int>, fg: seq<int>, k: Coded, n: nat)
    requires Valid(t) && IsCoded(t, bg, fg, k) && Kept(t, backdrop, bg, fg) && n <= k.h
    ensures LayerSpots(t, backdrop, LinesUpTo(k, n), false) == SpotsOf(Scan(bg, MAP_WIDTH, NO_TILE, n * MAP_WIDTH))
  {
    hide LayerSpots, LineSpots, Kept, LineShows, Row, Valid, IsCoded;
    CodedSizes(t, bg, fg, k);
    NoLines(t, backdrop);
    if n > 0 {
      BgReadBack(t, backdrop, bg, fg, k, n - 1);
      BgLineShows(t, backdrop, bg, fg, k, n - 1);
      LineGathered(t, backdrop, Line(n - 1, false, Row(k.bg, n - 1)), bg, n - 1, MAP_WIDTH);
      RowAdded(t, backdrop, k, n - 1);
    }
  }

  lemma {:induction false} FgReadBack(t: Tables, backdrop: int, bg: seq<int>, fg: seq<int>, k: Coded, n: nat)
    requires Valid(t) && IsCoded(t, bg, fg, k) && Kept(t, backdrop, bg, fg) && n <= k.h
    ensures LayerSpots(t, backdrop, LinesUpTo(k, n), true) == SpotsOf(Scan(fg, MAP_WIDTH, NO_TILE, n * MAP_WIDTH))
  {
    hide LayerSpots, LineSpots, Kept, LineShows, FgRow, Valid, IsCoded;
    CodedSizes(t, bg, fg, k);
    NoLines(t, backdrop);
    if n > 0 {
      FgReadBack(t, backdrop, bg, fg, k, n - 1);
      RowAdded(t, backdrop, k, n - 1);
      if k.valid[n - 1] {
        FgLineShows(t, backdrop, bg, fg, k, n - 1);
        LineGathered(t, backdrop, Line(n - 1, true, FgRow(k, n - 1)), fg, n - 1, MAP_WIDTH);
      } else {
        FgRowEmpty(t, backdrop, bg, fg, k, n - 1);
        EmptyRow(fg, n - 1, MAP_WIDTH);
      }
    }
  }

  lemma CodedSizes(t: Tables, bg: seq<int>, fg: seq<int>, k: Coded)
    requires Valid(t) && IsCoded(t, bg, fg, k)
    ensures Sized(k) && |bg| == |fg| == MAP_WIDTH * k.h
  {
  }

  /**
   * A level whose tiles have codes of their own comes back: the same height, the same
   * backdrop, and the tiles of both layers in reading order.
   */
  lemma RoundTrip(t: Tables, bg: seq<int>, fg: seq<int>, k: Coded, choice: nat)
    requires Valid(t) && IsCoded(t, bg, fg, k) && choice < |BACKDROPS| && Kept(t, BACKDROPS[choice].tile, bg, fg)
    requires LinesOf(k, k.h) <= MAX_ROWS && |FileOf(k, choice)| == FILESIZE && Framable(k, 0)
    ensures Meaning(t, FileOf(k, choice)) ==
            Ok(Level(k.h, SpotsOf(Scan(bg, MAP_WIDTH, NO_TILE, |bg|)), SpotsOf(Scan(fg, MAP_WIDTH, NO_TILE, |fg|)), choice))
  {
    hide ReadLines, LayerSpots, Scan, SpotsOf, Kept, Valid, FileOf, Framable, IsCoded, ChoiceFor, LeadingNumber, LinesUpTo, BACKDROPS;
    CodedSizes(t, bg, fg, k);
    FileLines(k, choice);
    NumberReadBack(k, choice);
    BgReadBack(t, BACKDROPS[choice].tile, bg, fg, k, k.h);
    FgReadBack(t, BACKDROPS[choice].tile, bg, fg, k, k.h);
  }

  /** All lines come back, with the height, if and only if the map can be framed. */
  lemma FileLines(k: Coded, choice: int)
    requires Sized(k) && LinesOf(k, k.h) <= MAX_ROWS && |FileOf(k, choice)| == FILESIZE
    ensures ReadLines(FileOf(k, choice), 2 * STRIDE, 0, FILESIZE / STRIDE) == Ok(Lines(LinesUpTo(k, k.h), k.h)) <==> Framable(k, 0)
  {
    hide ReadLines, LinesFrom, LinesUpTo, FileOf, Framable, Framed;
    FileIsFramed(k, choice);
    LinesReadBack(FileOf(k, choice), k, 0);
    LinesSplit(k, 0);
    NoLinesYet(k);
  }

  lemma NoLinesYet(k: Coded)
    requires Sized(k)
    ensures LinesUpTo(k, 0) + LinesFrom(k, 0) == LinesFrom(k, 0)
  {
    assert LinesUpTo(k, 0) == [];
  }

  /** The file starts with the number of the backdrop. */
  lemma NumberReadBack(k: Coded, choice: nat)
    requires Sized(k) && LinesOf(k, k.h) <= MAX_ROWS && choice < |BACKDROPS|
    ensures ChoiceFor(LeadingNumber(FileOf(k, choice), 0, 0), 0) == choice
  {
    hide Body, LeadingNumber, ChoiceFor, Digits;
    var f, n := FileOf(k, choice), BackdropOf(choice).number;
    BackdropNumbers(choice);
    assert f[0..3] == Digits(n);
    assert f == Digits(n) + f[3..];
    BackdropReadBack(choice, f[3..]);
  }

  /** The backdrop that a choice comes back as. */
  function ChoiceOf(backdrop: int): (choice: nat)
    ensures choice < |BACKDROPS|
  {
    if 0 <= backdrop < |BACKDROPS| then backdrop else 0
  }

  lemma SameFile(k: Coded, backdrop: int)
    requires Sized(k) && LinesOf(k, k.h) <= MAX_ROWS
    ensures FileOf(k, backdrop) == FileOf(k, ChoiceOf(backdrop))
  {
    hide Body, Digits;
  }

  /** Every tile of the map comes back. */
  predicate MapKept(t: Tables, m: Map)
    requires Valid(t) && Writable(m) && m.width == MAP_WIDTH
  {
    Kept(t, BACKDROPS[ChoiceOf(m.backdrop)].tile, BgCells(m), FgCells(m))
  }

  /** The level that a map comes back as: its height, its backdrop, and its tiles in reading order. */
  function LevelOf(m: Map): Level
    requires Writable(m) && m.width == MAP_WIDTH
  {
    Level(m.height, SpotsOf(Scan(BgCells(m), MAP_WIDTH, NO_TILE, |BgCells(m)|)),
          SpotsOf(Scan(FgCells(m), MAP_WIDTH, NO_TILE, |FgCells(m)|)), ChoiceOf(m.backdrop))
  }

  // Levels that do not come back

  /** With all 46 lines in use there is no line to end the map, and the reader runs past its buffer. */
  lemma {:induction false} FullMapOverruns(f: seq<Byte>, k: Coded, y: nat)
    requires Framed(f, k) && y <= k.h && NoMarks(k, y) && LinesOf(k, k.h) == MAX_ROWS
    ensures ReadLines(f, At(k, y), y, FILESIZE / STRIDE - Count(k.valid, y)) == Err(Truncated)
    decreases k.h - y
  {
    hide ReadLines, FgRow, Row;
    var p, h := At(k, y), FILESIZE / STRIDE - Count(k.valid, y);
    LineStep(f, p, y, h);
    if y < k.h {
      RowSeen(f, k, y);
      FullMapOverruns(f, k, y + 1);
      FramedRows(f, k, y);
      assert k.bg[y * MAP_WIDTH] != STAR;
      if k.valid[y] {
        LineStep(f, p + STRIDE, y + 1, h);
      }
    }
  }

  /** A table of one code for one tile. */
  function OneCode(code: Byte, tile: int): (t: Tables)
    ensures tile >= 0 ==> Valid(t)
  {
    Tables([Entry(code, Repeat(NO_TILE, TILES - 1) + [tile])], [])
  }

  lemma OneCodeFor(code: Byte, tile: int, other: int)
    requires tile >= 0 && code != SPACE
    ensures var t := OneCode(code, tile);
            && CodeFor(t, other) == (if other == tile then code else SPACE)
            && BgByte(t, other) == CodeFor(t, other)
            && (HasCode(t, other) <==> other == tile)
  {
  }

  /** The tile that the game has the mark as its code for, in the first cell of a map. */
  function MarkedMap(): (m: Map)
    ensures Writable(m)
  {
    Map(MAP_WIDTH, 1, [Item(0, 0, 0x410)], [], 0)
  }

  /** A map with that tile in its first cell is written, but its row is taken for foreground, and nothing can be opened. */
  lemma MarkedRowMisread()
    ensures var t, m := OneCode(STAR, 0x410), MarkedMap();
            var f := FileOf(CodesOf(t, m), m.backdrop);
            |f| == FILESIZE && Meaning(t, f) == Err(BadLayout)
  {
    hide FileOf, ReadLines, Row, FgRow, Paint, LayerSpots, OneCode;
    var t, m := OneCode(STAR, 0x410), MarkedMap();
    var k := CodesOf(t, m);
    var f := FileOf(k, m.backdrop);
    MarkedCodes();
    SizeExact(k, m.backdrop);
    FileIsFramed(k, m.backdrop);
    RowSeen(f, k, 0);
    LineStep(f, 2 * STRIDE, 0, FILESIZE / STRIDE);
    LineStep(f, 3 * STRIDE, 0, FILESIZE / STRIDE - 1);
  }

  lemma MarkedCodes()
    ensures var k := CodesOf(OneCode(STAR, 0x410), MarkedMap());
            k.bg[0] == STAR && !k.valid[0] && Count(k.valid, 1) == 0
  {
    hide Paint, OneCode, CodedOf;
    var t, m := OneCode(STAR, 0x410), MarkedMap();
    PaintedCell(Repeat(NO_TILE, MAP_WIDTH), m.bg, MAP_WIDTH, 0);
    OneCodeFor(STAR, 0x410, 0x410);
    assert BgCells(m)[0] == 0x410;
    NoForeground(m, t, 0x410, STAR, 0);
    assert Count(CodesOf(t, m).valid, 0) == 0;
  }

  /** A row without foreground tiles has no foreground line. */
  lemma NoForeground(m: Map, t: Tables, tile: int, code: Byte, y: nat)
    requires Writable(m) && m.width == MAP_WIDTH && y < m.height <= MAX_ROWS && tile >= 0 && code != SPACE && t == OneCode(code, tile)
    requires forall k :: 0 <= k < |m.fg| ==> m.fg[k].y != y
    ensures !CodesOf(t, m).valid[y]
  {
    hide Paint, OneCode, LastOn;
    forall c | y * MAP_WIDTH <= c < (y + 1) * MAP_WIDTH ensures !HasCode(t, FgCells(m)[c]) {
      PaintedCell(Repeat(NO_TILE, MAP_WIDTH * m.height), m.fg, MAP_WIDTH, c);
      forall k | 0 <= k < |m.fg| ensures CellOf(m.fg[k], MAP_WIDTH) != c {
        CellUnique(m.fg[k].x, m.fg[k].y, MAP_WIDTH);
      }
      NotOn(m.fg, MAP_WIDTH, c, NO_TILE);
      OneCodeFor(code, tile, NO_TILE);
    }
  }

  /** 44 rows, of which two have a foreground tile. */
  function FullMap(): (m: Map)
    ensures Writable(m)
  {
    Map(MAP_WIDTH, LOOP_ROWS, [], [Item(1, 0, 0xA04), Item(1, 1, 0xA04)], 0)
  }

  /** Such a map is written, but opening it overruns the file. */
  lemma FullMapNotOpened()
    ensures var t, m := OneCode(4, 0xA04), FullMap();
            var k := CodesOf(t, m);
            && LinesOf(k, k.h) == MAX_ROWS && |FileOf(k, m.backdrop)| == FILESIZE
            && Meaning(t, FileOf(k, m.backdrop)) == Err(Truncated)
  {
    hide CodesOf, OneCode;
    FullCodes();
    FullNotOpened(OneCode(4, 0xA04), CodesOf(OneCode(4, 0xA04), FullMap()), 0);
  }

  lemma FullNotOpened(t: Tables, k: Coded, backdrop: int)
    requires Sized(k) && k.h <= LOOP_ROWS && LinesOf(k, k.h) == MAX_ROWS && NoMarks(k, 0)
    ensures |FileOf(k, backdrop)| == FILESIZE && Meaning(t, FileOf(k, backdrop)) == Err(Truncated)
  {
    hide FileOf, ReadLines, LayerSpots, Framed, BACKDROPS, ChoiceFor, LeadingNumber;
    SizeExact(k, backdrop);
    FileIsFramed(k, backdrop);
    FullMapOverruns(FileOf(k, backdrop), k, 0);
  }

  /** A map without rows has no line to open. */
  lemma EmptyNotOpened(t: Tables, k: Coded, backdrop: int)
    requires Sized(k) && k.h == 0
    ensures Meaning(t, FileOf(k, backdrop)) == Err(BadLayout)
  {
    hide LayerSpots, BACKDROPS, ChoiceFor, LeadingNumber, Header;
    LineStep(FileOf(k, backdrop), 2 * STRIDE, 0, |FileOf(k, backdrop)| / STRIDE);
  }

  lemma FullCodes()
    ensures var k := CodesOf(OneCode(4, 0xA04), FullMap());
            LinesOf(k, k.h) == MAX_ROWS && NoMarks(k, 0)
  {
    hide Paint, OneCode, CodedOf;
    var t, m := OneCode(4, 0xA04), FullMap();
    var k := CodesOf(t, m);
    forall y | 2 <= y < LOOP_ROWS ensures !k.valid[y] {
      NoForeground(m, t, 0xA04, 4, y);
    }
    TwoForegroundRows();
    CountTwo(k.valid, LOOP_ROWS);
    forall r | 0 <= r < k.h ensures k.bg[r * MAP_WIDTH] != STAR {
      PaintedCell(Repeat(NO_TILE, MAP_WIDTH * m.height), m.bg, MAP_WIDTH, r * MAP_WIDTH);
      OneCodeFor(4, 0xA04, NO_TILE);
      BlankCode(t, m, r * MAP_WIDTH);
    }
  }

  lemma BlankCode(t: Tables, m: Map, c: nat)
    requires Valid(t) && Writable(m) && m.width == MAP_WIDTH && m.height <= MAX_ROWS && c < MAP_WIDTH * m.height
    ensures CodesOf(t, m).bg[c] == BgByte(t, BgCells(m)[c])
  {
  }

  lemma TwoForegroundRows()
    ensures var k := CodesOf(OneCode(4, 0xA04), FullMap()); k.valid[0] && k.valid[1]
  {
    hide Paint, OneCode;
    var t, m := OneCode(4, 0xA04), FullMap();
    PaintedCell(Repeat(NO_TILE, MAP_WIDTH * m.height), m.fg, MAP_WIDTH, 1);
    PaintedCell(Repeat(NO_TILE, MAP_WIDTH * m.height), m.fg, MAP_WIDTH, MAP_WIDTH + 1);
    LastIs(m.fg, MAP_WIDTH, 1, 0, NO_TILE);
    LastIs(m.fg, MAP_WIDTH, MAP_WIDTH + 1, 1, NO_TILE);
    OneCodeFor(4, 0xA04, 0xA04);
    assert HasCode(t, FgCells(m)[1]) && HasCode(t, FgCells(m)[MAP_WIDTH + 1]);
  }

  lemma {:induction false} CountTwo(valid: seq<bool>, n: nat)
    requires 2 <= n <= |valid| && valid[0] && valid[1] && forall y :: 2 <= y < n ==> !valid[y]
    ensures Count(valid, n) == 2
  {
    if n > 2 {
      CountTwo(valid, n - 1);
    } else {
      assert Count(valid, 1) == Count(valid, 0) + 1;
    }
  }

  // Other files

  /** The second line of the file has three blanks and then the codes of its four tile images, 3, 5, 6 and 7. */
  lemma SecondLine(backdrop: int, i: nat)
    requires i < STRIDE
    ensures var c := Header(backdrop)[STRIDE + i];
            c == if i == 3 then 0x33 else if i == 4 then 0x35 else if i == 5 then 0x36 else if i == 6 then 0x37
                 else if i == 40 then 0x0D else if i == 41 then 0x0A else 0x20
  {
    BackdropNumbers(backdrop);
    assert Header(backdrop)[STRIDE..] == [SPACE, SPACE, SPACE, 0x33, 0x35, 0x36, 0x37] + Repeat(SPACE, MAP_WIDTH - 7) + [CR, LF];
    assert Header(backdrop)[STRIDE..][i] == Header(backdrop)[STRIDE + i];
  }

  /** Line `k` of a file, from `p` on. */
  function LineAt(p: nat, k: nat): nat {
    p + STRIDE * k
  }

  /** Line `k` is a line of background: it does not start with the mark, and a line break stands behind it. */
  predicate PlainLine(f: seq<Byte>, p: nat, k: nat) {
    var at := LineAt(p, k);
    at + STRIDE <= |f| && f[at] != STAR && f[at + MAP_WIDTH] == CR && f[at + MAP_WIDTH + 1] == LF
  }

  /** Line `k` is there, but is no line of the map: it has no mark, and no line break behind it. */
  predicate NoLine(f: seq<Byte>, p: nat, k: nat) {
    var at := LineAt(p, k);
    at + STRIDE <= |f| && f[at] != STAR && !(f[at + MAP_WIDTH] == CR && f[at + MAP_WIDTH + 1] == LF)
  }

  /** The rows of `n` background lines. */
  function PlainRows(f: seq<Byte>, p: nat, y: nat, n: nat): (lines: seq<Line>)
    requires forall k :: y <= k < n ==> PlainLine(f, p, k)
    decreases n - y
  {
    if y >= n then []
    else
      assert PlainLine(f, p, y);
      [Line(y, false, f[LineAt(p, y)..LineAt(p, y) + MAP_WIDTH])] + PlainRows(f, p, y + 1, n)
  }

  /** Of any file with only background lines, these are the map up to the first line without a line break, or up to the height; no line at all is an error. */
  lemma {:induction false} PlainLinesRead(f: seq<Byte>, p: nat, y: nat, n: nat, h: nat)
    requires y <= n <= h && (forall k :: y <= k < n ==> PlainLine(f, p, k)) && (n < h ==> NoLine(f, p, n))
    ensures ReadLines(f, LineAt(p, y), y, h) == if n == 0 < h then Err(BadLayout) else Ok(Lines(PlainRows(f, p, y, n), n))
    decreases n - y
  {
    hide ReadLines;
    LineStep(f, LineAt(p, y), y, h);
    if y < n {
      assert PlainLine(f, p, y);
      PlainLinesRead(f, p, y + 1, n, h);
    }
  }

  /** A line that the file cuts off is an error, whether marked or not. */
  lemma CutLine(f: seq<Byte>, p: nat, y: nat, h: nat)
    requires y < h && (p >= |f| || (if f[p] == STAR then p + MAP_WIDTH > |f| else p + MAP_WIDTH >= |f|))
    ensures ReadLines(f, p, y, h) == Err(Truncated)
  {
  }
}
