/** What survives when a Duke Nukem II level is written and opened again. */
module Nukem2Theorems {
  import opened Bytes
  import opened Grid
  import opened Nukem2Rle
  import opened Nukem2Decode
  import opened Nukem2
  import opened Nukem2File

  lemma WordOfFile(m: Map, section: seq<Byte>, k: nat)
    requires Writable(m) && IsWord(|section|) && k < |FileWords(m, |section|)|
    ensures 43 + 2 * k + 2 <= |FileOf(m, section)|
    ensures WordAt(FileOf(m, section), 43 + 2 * k) == FileWords(m, |section|)[k]
  {
    hide FileWords, Head, PrintWords;
    WordInFile(Head(m), FileWords(m, |section|), section + m.zoneNames, k);
  }

  /** The words that give the file its shape. */
  lemma ShapeOfFile(m: Map, section: seq<Byte>)
    requires Writable(m) && IsWord(|section|)
    ensures var f := FileOf(m, section);
            && |f| == BgOffset(m) + 2 + LAYER_LEN + 2 + |section| + NAMES_LEN
            && WordAt(f, 0) == BgOffset(m)
            && WordAt(f, 45) == 3 * |m.actors|
            && WordAt(f, BgOffset(m)) == m.width
            && SectionAt(f) == BgOffset(m) + 2 + LAYER_LEN + 2
            && WordAt(f, SectionAt(f) - 2) == |section|
  {
    hide PrintWords, CellWords, ActorsWords, BgGrid, FgGrid;
    var f, n := FileOf(m, section), |m.actors|;
    WordOfFile(m, section, 1);
    WordOfFile(m, section, 2 + 3 * n);
    WordOfFile(m, section, 3 + 3 * n + NUM_TILES);
    assert f[0] == PrintWord(BgOffset(m))[0] && f[1] == PrintWord(BgOffset(m))[1];
  }

  lemma CellOfFile(m: Map, section: seq<Byte>, c: nat)
    requires Writable(m) && IsWord(|section|) && c < NUM_TILES
    ensures BgOffset(m) + 2 + LAYER_LEN <= |FileOf(m, section)|
    ensures CellsIn(FileOf(m, section), BgOffset(m) + 2)[c] == CellWords(BgGrid(m), FgGrid(m))[c]
  {
    hide PrintWords, CellWords, ActorsWords, BgGrid, FgGrid, FileOf;
    ShapeOfFile(m, section);
    WordOfFile(m, section, 3 + 3 * |m.actors| + c);
  }

  lemma {:induction false} ActorWordsAt(actors: seq<Item>, n: nat, j: nat)
    requires j < n <= |actors|
    ensures ActorsWords(actors, n)[3 * j..3 * j + 3] == ActorWords(actors[j])
  {
    if j < n - 1 {
      ActorWordsAt(actors, n - 1, j);
      var words := ActorsWords(actors, n);
      assert words[..3 * (n - 1)] == ActorsWords(actors, n - 1);
      assert words[3 * j..3 * j + 3] == ActorsWords(actors, n - 1)[3 * j..3 * j + 3];
    }
  }

  lemma ActorOfFile(m: Map, section: seq<Byte>, j: nat)
    requires Writable(m) && IsWord(|section|) && j < |m.actors|
    ensures var f, at := FileOf(m, section), HEADER_LEN + 6 * j;
            && at + 6 <= |f|
            && WordAt(f, at) == m.actors[j].code && WordAt(f, at + 2) == m.actors[j].x && WordAt(f, at + 4) == m.actors[j].y
  {
    hide PrintWords, CellWords, ActorsWords, BgGrid, FgGrid, FileOf;
    WordOfFile(m, section, 2 + 3 * j);
    WordOfFile(m, section, 3 + 3 * j);
    WordOfFile(m, section, 4 + 3 * j);
    ActorWordsAt(m.actors, |m.actors|, j);
    var words := ActorsWords(m.actors, |m.actors|);
    assert words[3 * j..3 * j + 3][0] == words[3 * j] && words[3 * j..3 * j + 3][1] == words[3 * j + 1]
        && words[3 * j..3 * j + 3][2] == words[3 * j + 2];
    assert ActorWords(m.actors[j])[0] == m.actors[j].code && ActorWords(m.actors[j])[1] == m.actors[j].x
        && ActorWords(m.actors[j])[2] == m.actors[j].y;
  }

  lemma {:induction false} ActorsReadBack(m: Map, section: seq<Byte>, n: nat)
    requires Writable(m) && IsWord(|section|) && n <= |m.actors|
    ensures HEADER_LEN + 6 * n <= |FileOf(m, section)|
    ensures ActorsIn(FileOf(m, section), n) == m.actors[..n]
  {
    hide FileOf;
    ShapeOfFile(m, section);
    if n > 0 {
      ActorsReadBack(m, section, n - 1);
      ActorOfFile(m, section, n - 1);
      TakeNext(m.actors, n - 1);
    }
  }

  // The round trip

  /** The foreground grid after saving and reopening: the last two cells have no extra bits. */
  function SeenGrid(bg: seq<int>, fg: seq<int>): (grid: seq<int>)
    requires IsBg(bg) && IsFg(fg)
    ensures |grid| == NUM_TILES
  {
    seq(NUM_TILES, c requires 0 <= c < NUM_TILES =>
      SeenFg(bg[c], fg[c], if c < 4 * NUM_GROUPS then CellExtra(bg[c], fg[c]) else 0))
  }

  /** The level that comes back. */
  function Reopened(m: Map): Map
    requires Writable(m)
  {
    Map(m.width, NUM_TILES / m.width,
        Scan(BgGrid(m), m.width, DEFAULT_BGTILE, NUM_TILES),
        Scan(SeenGrid(BgGrid(m), FgGrid(m)), m.width, NO_TILE, NUM_TILES),
        m.actors, m.names, m.flags, m.altBack, m.zoneNames)
  }

  lemma LayersReadBack(bg: seq<int>, fg: seq<int>, codes: seq<Code>)
    requires IsBg(bg) && IsFg(fg) && Lossless(codes, Packed(CellExtras(bg, fg)))
    ensures BgSeen(CellWords(bg, fg)) == bg
    ensures FgSeen(CellWords(bg, fg), Decoded(codes + [TERMINATOR])) == SeenGrid(bg, fg)
  {
    hide WordBg, WordFg, CellWord, CellExtra, SeenFg, Upper, Decoded, Lossless, Packed;
    var words, upper := CellWords(bg, fg), Decoded(codes + [TERMINATOR]);
    forall c | 0 <= c < NUM_TILES
      ensures WordBg(words[c]) == bg[c] && WordFg(words[c], Upper(upper, c)) == SeenGrid(bg, fg)[c]
    {
      CellReadBack(bg[c], fg[c], Upper(upper, c));
      ExtraReadBack(CellExtras(bg, fg), codes, c);
    }
  }

  /** The parts of the written file that hold bytes rather than words. */
  lemma BytesOfFile(m: Map, section: seq<Byte>)
    requires Writable(m) && IsWord(|section|)
    ensures var f := FileOf(m, section);
            && HasParts(f)
            && f[SectionAt(f)..SectionEnd(f)] == section
            && f[2..41] == m.names && f[41] == m.flags && f[42] == m.altBack
            && f[SectionEnd(f)..SectionEnd(f) + NAMES_LEN] == m.zoneNames
  {
    ShapeOfFile(m, section);
    hide FileWords, PrintWords, WordAt;
    var f, head, words := FileOf(m, section), Head(m), PrintWords(FileWords(m, |section|));
    assert SectionAt(f) == |head + words|;
    assert head[2..41] == m.names;
    assert f[2..41] == head[2..41];
    TailParts(head + words, section, m.zoneNames);
  }

  lemma TailParts(a: seq<Byte>, b: seq<Byte>, c: seq<Byte>)
    ensures (a + (b + c))[|a|..|a| + |b|] == b
    ensures (a + (b + c))[|a| + |b|..|a| + |b| + |c|] == c
  {
  }

  /** Opening what was written gives back the level, for every coding of its extra bits. */
  lemma RoundTrip(m: Map, codes: seq<Code>)
    requires Writable(m) && CodesFor(m, codes)
    ensures var f := FileOf(m, Coded(codes + [TERMINATOR]));
            && HasParts(f) && f[SectionAt(f)..SectionEnd(f)] == Coded(codes + [TERMINATOR])
            && FileMeaning(f, Decoded(codes + [TERMINATOR])) == Reopened(m)
  {
    hide Coded, Decoded, FileOf, WordAt, Scan, BgSeen, FgSeen, CellWords, SeenGrid, BgGrid, FgGrid, ActorsIn, Packed, Lossless;
    var section := Coded(codes + [TERMINATOR]);
    var f := FileOf(m, section);
    ShapeOfFile(m, section);
    BytesOfFile(m, section);
    ActorsReadBack(m, section, |m.actors|);
    assert m.actors[..|m.actors|] == m.actors;
    forall c | 0 <= c < NUM_TILES ensures CellsIn(f, BgOffset(m) + 2)[c] == CellWords(BgGrid(m), FgGrid(m))[c] {
      CellOfFile(m, section, c);
    }
    assert CellsIn(f, BgOffset(m) + 2) == CellWords(BgGrid(m), FgGrid(m));
    LayersReadBack(BgGrid(m), FgGrid(m), codes);
  }

  /** Saving a level and opening the file, with the real encoder and decoder in between. */
  method SaveAndReopen(m: Map) returns (r: Result<Map>)
    requires Writable(m)
    ensures r == Ok(Reopened(m))
  {
    var f;
    ghost var codes;
    f, codes := Write(m);
    RoundTrip(m, codes);
    r := Open(f, codes + [TERMINATOR]);
  }

  /**
   * The cells whose foreground tile survives. A code of 0x80 or more over a background tile
   * does not, although the format offers codes up to 159; nor does a code of 0x20 or more
   * over a background tile in the last two cells, for which no extra bits are kept.
   */
  predicate KeepsForeground(bg: seq<int>, fg: seq<int>)
    requires IsBg(bg) && IsFg(fg)
  {
    forall c :: 0 <= c < NUM_TILES && bg[c] != DEFAULT_BGTILE && fg[c] != NO_TILE ==>
      fg[c] < 0x80 && (c < 4 * NUM_GROUPS || fg[c] < 0x20)
  }

  lemma SeenCell(b: int, f: int, last: bool)
    requires 0 <= b < NUM_SOLID_TILES && (0 <= f < NUM_MASKED_TILES || f == NO_TILE)
    ensures SeenFg(b, f, if last then 0 else CellExtra(b, f)) == f <==>
      (b != DEFAULT_BGTILE && f != NO_TILE ==> f < 0x80 && (!last || f < 0x20))
  {
  }

  lemma ForegroundKept(bg: seq<int>, fg: seq<int>)
    requires IsBg(bg) && IsFg(fg)
    ensures SeenGrid(bg, fg) == fg <==> KeepsForeground(bg, fg)
  {
    hide SeenFg, CellExtra;
    var seen := SeenGrid(bg, fg);
    forall c | 0 <= c < NUM_TILES
      ensures seen[c] == fg[c] <==>
        (bg[c] != DEFAULT_BGTILE && fg[c] != NO_TILE ==> fg[c] < 0x80 && (c < 4 * NUM_GROUPS || fg[c] < 0x20))
    {
      SeenCell(bg[c], fg[c], c >= 4 * NUM_GROUPS);
    }
  }

  /** Two grids with the same items are the same grid. */
  lemma ScanInjective(g: seq<int>, h: seq<int>, w: nat, blank: int)
    requires w > 0 && |g| == |h| == NUM_TILES
    ensures Scan(g, w, blank, NUM_TILES) == Scan(h, w, blank, NUM_TILES) <==> g == h
  {
    GridRebuilt(g, w, blank);
    GridRebuilt(h, w, blank);
  }

  /**
   * A level whose layers are in reading order comes back with exactly the same layers if and
   * only if every foreground tile survives.
   */
  lemma LayersExact(m: Map)
    requires Writable(m) && Canonical(m.bg, m.width, DEFAULT_BGTILE) && Canonical(m.fg, m.width, NO_TILE)
    ensures Reopened(m).bg == m.bg
    ensures Reopened(m).fg == m.fg <==> KeepsForeground(BgGrid(m), FgGrid(m))
  {
    hide Scan, SeenGrid, Canonical, KeepsForeground;
    LayersFit(m);
    ScanPaint(m.bg, m.width, DEFAULT_BGTILE, NUM_TILES);
    ScanPaint(m.fg, m.width, NO_TILE, NUM_TILES);
    ScanInjective(SeenGrid(BgGrid(m), FgGrid(m)), FgGrid(m), m.width, NO_TILE);
    ForegroundKept(BgGrid(m), FgGrid(m));
  }

  /** A one-cell level with both tiles. */
  function OneCell(b: int, f: int, names: seq<Byte>): Map {
    Map(1, 1, [Item(0, 0, b)], [Item(0, 0, f)], [], names, 0, 0, names)
  }

  /** Every foreground code from 0x80 up, put over a background tile, comes back 0x80 lower. */
  lemma HighForegroundLost(b: int, f: int, names: seq<Byte>)
    requires 0 < b < NUM_SOLID_TILES && 0x80 <= f < NUM_MASKED_TILES && |names| == NAMES_LEN
    ensures var m := OneCell(b, f, names);
            && Writable(m) && !KeepsForeground(BgGrid(m), FgGrid(m))
            && SeenGrid(BgGrid(m), FgGrid(m))[0] == f - 0x80
  {
    var m := OneCell(b, f, names);
    assert Inside(m.bg, 1, 1) && Inside(m.fg, 1, 1) && Inside(m.actors, 1, 1);
    OneCellGrid(m.bg, DEFAULT_BGTILE);
    OneCellGrid(m.fg, NO_TILE);
    assert BgGrid(m)[0] == b && FgGrid(m)[0] == f;
  }

  lemma OneCellGrid(items: seq<Item>, blank: int)
    requires |items| == 1 && items[0].x == 0 && items[0].y == 0
    ensures Fits(items, 1, NUM_TILES)
    ensures Paint(Repeat(blank, NUM_TILES), items, 1)[0] == items[0].code
  {
    PaintedCell(Repeat(blank, NUM_TILES), items, 1, 0);
  }

  // A level that freezes the game

  /** A level of at most 32740 cells leaves nothing pending, so that no literal is too long. */
  lemma SmallLevelNothingPending(m: Map)
    requires Writable(m) && m.width * m.height <= 4 * (NUM_GROUPS - 2)
    ensures PendingLength(Packed(CellExtras(BgGrid(m), FgGrid(m))), NUM_GROUPS) == 0
  {
    hide PackGroup;
    var extra := CellExtras(BgGrid(m), FgGrid(m));
    forall c | 4 * (NUM_GROUPS - 2) <= c < 4 * NUM_GROUPS ensures extra[c] == 0 {
      NoExtraBelow(m, c);
    }
    assert Packed(extra)[NUM_GROUPS - 1] == PackGroup(0, 0, 0, 0) == Packed(extra)[NUM_GROUPS - 2];
  }

  lemma NoExtraBelow(m: Map, c: nat)
    requires Writable(m) && m.width * m.height <= c < NUM_TILES
    ensures CellExtra(BgGrid(m)[c], FgGrid(m)[c]) == 0
  {
    LayersFit(m);
    PaintedCell(Repeat(NO_TILE, NUM_TILES), m.fg, m.width, c);
    InsideFits(m.fg, m.width, m.height, m.width * m.height);
    NotOn(m.fg, m.width, c, NO_TILE);
  }

  /** The foreground code for a cell of a level whose groups of four cells alternate. */
  function AlternatingCode(c: nat): int {
    if c / 4 % 2 == 0 then 0x20 else 0
  }

  function PlainCode(c: nat): int {
    1
  }

  function Column(codes: nat -> int): (items: seq<Item>)
    ensures |items| == NUM_TILES - 1
  {
    seq(NUM_TILES - 1, k requires 0 <= k < NUM_TILES - 1 => Item(0, k, codes(k)))
  }

  /** A level one cell wide, with a background tile in every cell. */
  function AlternatingLevel(names: seq<Byte>): Map {
    Map(1, NUM_TILES - 1, Column(PlainCode), Column(AlternatingCode), [], names, 0, 0, names)
  }

  lemma ColumnPainted(codes: nat -> int, blank: int, c: nat)
    requires c < NUM_TILES - 1
    ensures Fits(Column(codes), 1, NUM_TILES)
    ensures Paint(Repeat(blank, NUM_TILES), Column(codes), 1)[c] == codes(c)
  {
    hide Paint;
    PaintedCell(Repeat(blank, NUM_TILES), Column(codes), 1, c);
    LastIs(Column(codes), 1, c, c, blank);
  }

  /** Every group of the alternating level waits to be written as one literal. */
  lemma AlternatingLevelPending(names: seq<Byte>)
    requires |names| == NAMES_LEN
    ensures var m := AlternatingLevel(names);
            Writable(m) && PendingLength(Packed(CellExtras(BgGrid(m), FgGrid(m))), NUM_GROUPS) == NUM_GROUPS - 1
  {
    hide Packed, CellExtras, AlternatingLevel, BgGrid, FgGrid, Writable, AlternatingCode;
    var m := AlternatingLevel(names);
    AlternatingWritable(names);
    var extra := CellExtras(BgGrid(m), FgGrid(m));
    AlternatingExtras(names);
    forall k | 1 <= k < NUM_GROUPS ensures Packed(extra)[k] != Packed(extra)[k - 1] {
      AlternatingGroups(extra, k);
      AlternatingGroups(extra, k - 1);
    }
    AllDifferent(Packed(extra), NUM_GROUPS);
  }

  lemma AlternatingExtras(names: seq<Byte>)
    requires Writable(AlternatingLevel(names))
    ensures var m := AlternatingLevel(names);
            forall c :: 0 <= c < 4 * NUM_GROUPS ==> CellExtras(BgGrid(m), FgGrid(m))[c] == AlternatingCode(c)
  {
    hide Paint, Column, CellExtra, AlternatingCode, Writable;
    var m := AlternatingLevel(names);
    forall c | 0 <= c < 4 * NUM_GROUPS ensures CellExtras(BgGrid(m), FgGrid(m))[c] == AlternatingCode(c) {
      ColumnPainted(PlainCode, DEFAULT_BGTILE, c);
      ColumnPainted(AlternatingCode, NO_TILE, c);
      AlternatingExtra(c);
    }
  }

  lemma AlternatingWritable(names: seq<Byte>)
    requires |names| == NAMES_LEN
    ensures Writable(AlternatingLevel(names))
  {
    var bg, fg := Column(PlainCode), Column(AlternatingCode);
    forall k | 0 <= k < NUM_TILES - 1
      ensures bg[k] == Item(0, k, 1) && fg[k].x == 0 && fg[k].y == k && 0 <= fg[k].code < NUM_MASKED_TILES
    {
      assert bg[k].code == PlainCode(k) && fg[k].code == AlternatingCode(k);
    }
  }

  lemma AlternatingExtra(c: nat)
    ensures CellExtra(1, AlternatingCode(c)) == AlternatingCode(c)
  {
  }

  lemma AlternatingGroups(extra: seq<int>, k: nat)
    requires AreExtras(extra) && k < NUM_GROUPS && forall c :: 0 <= c < 4 * NUM_GROUPS ==> extra[c] == AlternatingCode(c)
    ensures Packed(extra)[k] == if k % 2 == 0 then 0x55 else 0
  {
    assert 4 * k / 4 == k && (4 * k + 1) / 4 == k && (4 * k + 2) / 4 == k && (4 * k + 3) / 4 == k;
  }

  /** The file's coded section has a literal that the game cannot read. */
  ghost predicate Freezing(f: seq<Byte>, m: Map) {
    exists codes: seq<Code> :: Writable(m) && CodesFor(m, codes) && f == FileOf(m, Coded(codes + [TERMINATOR])) && FreezesGame(codes)
  }

  /** Saving the alternating level writes such a file. */
  method SaveAlternatingLevel(names: seq<Byte>) returns (f: seq<Byte>)
    requires |names| == NAMES_LEN
    ensures Freezing(f, AlternatingLevel(names))
  {
    hide Writable, CodesFor, FileOf, Coded, FreezesGame, Packed, CellExtras, PendingLength, AlternatingLevel;
    AlternatingLevelPending(names);
    ghost var codes;
    f, codes := Write(AlternatingLevel(names));
  }

  // Saving again

  /** What came back has the same grids, so saving it again changes nothing. */
  lemma SecondSaveIsStable(m: Map)
    requires Writable(m) && Writable(Reopened(m))
    ensures Reopened(Reopened(m)) == Reopened(m)
  {
    hide Scan;
    var bg, fg, again := BgGrid(m), FgGrid(m), Reopened(m);
    GridRebuilt(bg, m.width, DEFAULT_BGTILE);
    GridRebuilt(SeenGrid(bg, fg), m.width, NO_TILE);
    assert BgGrid(again) == bg && FgGrid(again) == SeenGrid(bg, fg);
    SeenIsKept(bg, fg);
  }

  lemma SeenIsKept(bg: seq<int>, fg: seq<int>)
    requires IsBg(bg) && IsFg(fg) && IsFg(SeenGrid(bg, fg))
    ensures SeenGrid(bg, SeenGrid(bg, fg)) == SeenGrid(bg, fg)
  {
    ForegroundKept(bg, SeenGrid(bg, fg));
  }

  /**
   * A level that came back can be saved again unless its width divides the number of cells:
   * then it covers the whole layer, which the writer's size assertion does not allow.
   */
  lemma CanSaveAgain(m: Map)
    requires Writable(m)
    ensures Writable(Reopened(m)) <==> NUM_TILES % m.width != 0
  {
    hide Scan, SeenGrid, BgGrid, FgGrid;
    var bg, fg := BgGrid(m), FgGrid(m);
    var seen := SeenGrid(bg, fg);
    ReopenedHeight(m.width, m.height);
    assert forall c :: m.width * m.height <= c < NUM_TILES ==> bg[c] == DEFAULT_BGTILE && seen[c] == NO_TILE by {
      forall c | m.width * m.height <= c < NUM_TILES ensures bg[c] == DEFAULT_BGTILE && seen[c] == NO_TILE {
        EmptyBelow(m, c);
      }
    }
    ScanInside(bg, m.width, DEFAULT_BGTILE, NUM_TILES, m.height);
    ScanInside(seen, m.width, NO_TILE, NUM_TILES, m.height);
    assert Inside(m.actors, m.width, NUM_TILES / m.width);
    SeenRange(bg, fg);
    ScanCodes(bg, m.width, DEFAULT_BGTILE, NUM_TILES, 0, NUM_SOLID_TILES);
    ScanCodes(seen, m.width, NO_TILE, NUM_TILES, 0, NUM_MASKED_TILES);
  }

  lemma ReopenedHeight(w: nat, h: nat)
    requires w > 0 && w * h < NUM_TILES
    ensures h <= NUM_TILES / w
    ensures w * (NUM_TILES / w) < NUM_TILES <==> NUM_TILES % w != 0
  {
    var q, r := NUM_TILES / w, NUM_TILES % w;
    assert q * w + r == NUM_TILES;
    if h > q {
      RowsApart(q, h, w);
    }
  }

  lemma EmptyBelow(m: Map, c: nat)
    requires Writable(m) && m.width * m.height <= c < NUM_TILES
    ensures BgGrid(m)[c] == DEFAULT_BGTILE && SeenGrid(BgGrid(m), FgGrid(m))[c] == NO_TILE
  {
    LayersFit(m);
    PaintedCell(Repeat(DEFAULT_BGTILE, NUM_TILES), m.bg, m.width, c);
    PaintedCell(Repeat(NO_TILE, NUM_TILES), m.fg, m.width, c);
    InsideFits(m.bg, m.width, m.height, m.width * m.height);
    InsideFits(m.fg, m.width, m.height, m.width * m.height);
    NotOn(m.bg, m.width, c, DEFAULT_BGTILE);
    NotOn(m.fg, m.width, c, NO_TILE);
  }

  lemma {:induction false} ScanInside(grid: seq<int>, w: nat, blank: int, n: nat, h: nat)
    requires w > 0 && n <= |grid| && forall c :: w * h <= c < |grid| ==> grid[c] == blank
    ensures Inside(Scan(grid, w, blank, n), w, h)
  {
    if n > 0 {
      ScanInside(grid, w, blank, n - 1, h);
      CellInverse(n - 1, w);
      RowsApart(h - 1, (n - 1) / w, w);
    }
  }

  lemma {:induction false} ScanCodes(grid: seq<int>, w: nat, blank: int, n: nat, lo: int, hi: int)
    requires w > 0 && n <= |grid| && forall c :: 0 <= c < |grid| ==> lo <= grid[c] < hi || grid[c] == blank
    ensures forall k :: 0 <= k < |Scan(grid, w, blank, n)| ==> lo <= Scan(grid, w, blank, n)[k].code < hi
  {
    if n > 0 {
      ScanCodes(grid, w, blank, n - 1, lo, hi);
    }
  }

  lemma SeenRange(bg: seq<int>, fg: seq<int>)
    requires IsBg(bg) && IsFg(fg)
    ensures IsFg(SeenGrid(bg, fg))
  {
  }

  // The detector

  /** `isInstance`: size checks only; the last read itself can run past the end of the file. */
  function IsInstance(f: seq<Byte>): Result<Certainty> {
    if |f| < HEADER_LEN + 2 + LAYER_LEN then Ok(DefinitelyNo)
    else if WordAt(f, 0) > |f| - (2 + LAYER_LEN) then Ok(DefinitelyNo)
    else if HEADER_LEN + WordAt(f, 45) * 2 + 2 + LAYER_LEN > |f| then Ok(DefinitelyNo)
    else if SectionAt(f) > |f| then Err(Truncated)
    else
      var end := SectionAt(f) + WordAt(f, SectionAt(f) - 2);
      if end > |f| then Ok(DefinitelyNo)
      else if end + NAMES_LEN == |f| then Ok(DefinitelyYes)
      else Ok(PossiblyYes)
  }

  /** Every file written is recognised. */
  lemma WrittenIsRecognised(m: Map, section: seq<Byte>)
    requires Writable(m) && IsWord(|section|)
    ensures IsInstance(FileOf(m, section)) == Ok(DefinitelyYes)
  {
    ShapeOfFile(m, section);
  }

  /** What is recognised for certain is never found to be truncated: `open` has all its parts. */
  lemma RecognisedHasParts(f: seq<Byte>)
    requires IsInstance(f) == Ok(DefinitelyYes) && WordAt(f, WordAt(f, 0)) > 0
    ensures HasParts(f)
  {
  }

  /** The unknown word before the actors is written as zero. */
  lemma UnknownWord(m: Map, section: seq<Byte>)
    requires Writable(m) && IsWord(|section|)
    ensures WordAt(FileOf(m, section), 43) == 0
  {
    hide PrintWords, CellWords, ActorsWords, BgGrid, FgGrid;
    WordOfFile(m, section, 0);
  }

  /** The answer for every beginning of a written file, and for one with bytes after it: certain only for the whole file. */
  lemma CutAnswer(m: Map, section: seq<Byte>, n: nat, more: seq<Byte>)
    requires Writable(m) && IsWord(|section|) && n <= |FileOf(m, section)| && (n < |FileOf(m, section)| ==> more == [])
    ensures var cells := BgOffset(m) + 2 + LAYER_LEN;
            IsInstance(FileOf(m, section)[..n] + more) ==
            if n < cells then Ok(DefinitelyNo)
            else if n < cells + 2 then Err(Truncated)
            else if n < cells + 2 + |section| then Ok(DefinitelyNo)
            else if n == cells + 2 + |section| + NAMES_LEN && more == [] then Ok(DefinitelyYes)
            else Ok(PossiblyYes)
  {
    hide FileOf, BgGrid, FgGrid;
    var whole, f := FileOf(m, section), FileOf(m, section)[..n] + more;
    ShapeOfFile(m, section);
    if n < |whole| {
      AddNothing(whole[..n]);
    }
    if n >= HEADER_LEN {
      SameWord(whole, n, more, 0);
      SameWord(whole, n, more, 45);
    }
    if n >= BgOffset(m) + 2 + LAYER_LEN + 2 {
      SameWord(whole, n, more, BgOffset(m) + 2 + LAYER_LEN);
    }
  }

  lemma SameWord(f: seq<Byte>, n: nat, more: seq<Byte>, at: nat)
    requires at + 2 <= n <= |f|
    ensures WordAt(f[..n] + more, at) == WordAt(f, at)
  {
  }

  /**
   * For every file: no, if the header, the cells where the header says they are, the cells behind
   * as many actors as it says, or the coded section do not fit; no answer, if the file ends within
   * the section's length; certain, if after the section exactly the names are left.
   */
  lemma AnswerExactly(f: seq<Byte>)
    ensures IsInstance(f) == Ok(DefinitelyNo) <==>
            || |f| < 65549 || WordAt(f, 0) + 65502 > |f| || 2 * WordAt(f, 45) + 65549 > |f|
            || (WordAt(f, 0) + 65504 <= |f| && WordAt(f, 0) + 65504 + WordAt(f, WordAt(f, 0) + 65502) > |f|)
    ensures IsInstance(f) == Ok(DefinitelyYes) <==>
            && |f| >= 65549 && 2 * WordAt(f, 45) + 65549 <= |f| && WordAt(f, 0) + 65504 <= |f|
            && WordAt(f, 0) + 65504 + WordAt(f, WordAt(f, 0) + 65502) + 39 == |f|
    ensures IsInstance(f).Err? <==>
            && |f| >= 65549 && 2 * WordAt(f, 45) + 65549 <= |f| && WordAt(f, 0) + 65502 <= |f| < WordAt(f, 0) + 65504
  {
    hide WordAt;
  }
}
