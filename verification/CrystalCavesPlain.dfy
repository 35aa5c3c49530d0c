/** Crystal Caves levels of single-cell tiles and blocks: no vines, signs or larger tiles. */
module CrystalCavesPlain {
  import opened Bytes
  import opened Grid
  import opened CrystalCaves
  import opened CrystalCavesOpen
  import opened CrystalCavesWrite
  import opened CrystalCavesTidy
  import opened CrystalCavesTheorems

  predicate SingleCell(m: Stamp)
    requires ValidStamp(m)
  {
    m.tiles[1] == NO_TILE && m.tiles[2] == NO_TILE && m.tiles[3] == NO_TILE
  }

  /** The tile occurs as no vine, and as the first tile only of entries of a single cell, if not as a block. */
  predicate PlainTile(t: Tables, tile: int)
    requires Valid(t)
  {
    && (forall i :: 0 <= i < |t.vines| ==> t.vines[i].mid != tile && t.vines[i].end != tile)
    && (forall i :: 0 <= i < |t.signs| ==> ValidSign(t.signs[i]) && t.signs[i].tiles[0] != tile)
    && (forall i :: 0 <= i < |t.smalls| ==> ValidStamp(t.smalls[i]) && (t.smalls[i].tiles[0] == tile ==> SingleCell(t.smalls[i])))
    && (forall i :: 0 <= i < |t.wides| ==> ValidStamp(t.wides[i]) && t.wides[i].tiles[0] != tile)
  }

  predicate Plain(t: Tables, b: Board)
    requires Valid(t)
  {
    forall c :: 0 <= c < |b.bg| ==> b.bg[c] == NO_TILE || PlainTile(t, b.bg[c])
  }

  /** The entry for a plain tile with its overlay tile and its movement. */
  function EntryOf(t: Tables, tile: int, fg: int, attr: int): (a: Anchor)
    requires Valid(t)
    ensures InTables(t, a) && (a.Nothing? || a.AsSmall? || a.AsBlock?)
    ensures a.AsSmall? ==> StampFits(t.smalls[a.i], tile, fg, attr)
  {
    var m := FirstStamp(t.smalls, 0, tile, fg, attr);
    var k := FirstBlock(t.blocks, 0, tile, fg);
    if tile == NO_TILE then Nothing
    else if m < |t.smalls| then assert ValidStamp(t.smalls[m]); AsSmall(m)
    else if k < |t.blocks| then AsBlock(k)
    else Nothing
  }

  /** The same, for a cell of a board. */
  function CellEntry(t: Tables, b: Board, c: nat): (a: Anchor)
    requires Valid(t) && Square(b, |b.bg|) && c < |b.bg|
    ensures InTables(t, a)
  {
    EntryOf(t, b.bg[c], b.fg[c], b.attr[c])
  }

  /** A plain tile anchors its entry alone, or nothing if there is none. */
  lemma PlainEntry(t: Tables, b: Board, s: Cells, c: nat)
    requires Valid(t) && Square(b, |s.src|) && |s.src| == |s.dst| && c < |s.src|
    requires s.src[c] == NO_TILE || PlainTile(t, s.src[c])
    ensures AnchorAt(t, b, s, c) == EntryOf(t, s.src[c], b.fg[c], b.attr[c])
  {
    if s.src[c] != NO_TILE {
      BestSignIsFirstBest(t.signs, s.src, b.w, c, b.attr[c], |t.signs|);
    }
  }

  /** Its entry has no parts that could be claimed. */
  lemma PlainParts(t: Tables, tile: int, fg: int, attr: int)
    requires Valid(t) && (tile == NO_TILE || PlainTile(t, tile))
    ensures forall k :: 0 <= k < |PartsOf(t, EntryOf(t, tile, fg, attr))| ==> PartsOf(t, EntryOf(t, tile, fg, attr))[k].tile == NO_TILE
  {
    var a := EntryOf(t, tile, fg, attr);
    if a.AsSmall? {
      assert ValidStamp(t.smalls[a.i]) && SingleCell(t.smalls[a.i]);
    }
  }

  lemma {:induction false} NothingClaimed(s: Cells, w: nat, j: nat, parts: seq<Part>, n: nat)
    requires |s.src| == |s.dst| && n <= |parts| && forall k :: 0 <= k < |parts| ==> parts[k].tile == NO_TILE
    ensures ClaimParts(s, w, j, parts, n) == s
  {
    if n > 0 {
      NothingClaimed(s, w, j, parts, n - 1);
    }
  }

  /** The bytes of a plain board, cell by cell. */
  function PlainBytes(t: Tables, b: Board, n: nat): (s: seq<Byte>)
    requires Valid(t) && Square(b, |b.bg|) && n <= |b.bg|
    ensures |s| == |b.bg|
  {
    seq(|b.bg|, c requires 0 <= c < |b.bg| => if c < n then CodeOf(t, CellEntry(t, b, c)) else EMPTY)
  }

  lemma {:induction false} PlainScan(t: Tables, b: Board, n: nat)
    requires Valid(t) && Square(b, |b.bg|) && n <= |b.bg| && Plain(t, b)
    ensures Scanned(t, b, n) == Cells(b.bg, PlainBytes(t, b, n))
  {
    hide Step, CellEntry, Valid, Plain;
    if n == 0 {
      assert PlainBytes(t, b, 0) == Repeat(EMPTY, |b.bg|);
    } else {
      PlainScan(t, b, n - 1);
      PlainStep(t, b, n - 1);
    }
  }

  lemma PlainStep(t: Tables, b: Board, c: nat)
    requires Valid(t) && Square(b, |b.bg|) && c < |b.bg| && Plain(t, b)
    ensures Step(t, b, Cells(b.bg, PlainBytes(t, b, c)), c) == Cells(b.bg, PlainBytes(t, b, c + 1))
  {
    hide Valid, Choose, PartsOf, ClaimParts, EntryOf;
    var s, a := Cells(b.bg, PlainBytes(t, b, c)), CellEntry(t, b, c);
    PlainEntry(t, b, s, c);
    PlainParts(t, b.bg[c], b.fg[c], b.attr[c]);
    NothingClaimed(Cells(s.src, s.dst[c := CodeOf(t, a)]), b.w, c, PartsOf(t, a), |PartsOf(t, a)|);
    assert PlainBytes(t, b, c + 1) == s.dst[c := CodeOf(t, a)];
    assert a.Nothing? ==> s.dst[c := CodeOf(t, a)] == s.dst;
  }

  lemma PlainOutput(t: Tables, b: Board)
    requires Valid(t) && Square(b, |b.bg|) && Plain(t, b)
    ensures Output(t, b) == PlainBytes(t, b, |b.bg|)
    ensures forall c :: 0 <= c < |b.bg| ==> EntryAt(t, b, c) == CellEntry(t, b, c)
  {
    hide Valid, Choose, EntryOf, PlainTile;
    PlainScan(t, b, |b.bg|);
    forall c | 0 <= c < |b.bg| ensures EntryAt(t, b, c) == CellEntry(t, b, c) {
      PlainScan(t, b, c);
      PlainEntry(t, b, Scanned(t, b, c), c);
    }
  }

  // Blocks

  /** For every block but the ends of beams the reader has an entry, of one cell or of two side by side. */
  predicate BlocksHaveEntries(t: Tables) {
    forall i :: 0 <= i < |t.blocks| && t.blocks[i].code != NEXT ==> HasEntry(t, t.blocks[i].code)
  }

  predicate HasEntry(t: Tables, code: Byte) {
    var i := FirstStampCode(t.smalls, 0, code as int);
    i < |t.smalls| && ValidStamp(t.smalls[i]) && t.smalls[i].tiles[2] == NO_TILE && t.smalls[i].tiles[3] == NO_TILE
  }

  /** The cell is written as a block with a code of its own. */
  predicate PlainBlock(t: Tables, b: Board, c: nat)
    requires Valid(t) && Square(b, |b.bg|) && c < |b.bg|
  {
    CellEntry(t, b, c).AsBlock? && CodeOf(t, CellEntry(t, b, c)) != NEXT && HasEntry(t, CodeOf(t, CellEntry(t, b, c)))
  }

  /** The entry that the reader finds for it. */
  function ReaderEntry(t: Tables, b: Board, c: nat): (m: Stamp)
    requires Valid(t) && Square(b, |b.bg|) && c < |b.bg| && PlainBlock(t, b, c)
    ensures ValidStamp(m)
  {
    t.smalls[FirstStampCode(t.smalls, 0, CodeOf(t, CellEntry(t, b, c)) as int)]
  }

  /**
   * What comes back of a cell of a plain board: nothing if the tables do not know its tile with
   * its overlay tile and movement, the reader's colour, movement and overlay tile of a block, and
   * the end of a beam only to the right of a block whose entry has one.
   */
  function PlainLook(t: Tables, b: Board, c: nat): Look
    requires Valid(t) && Square(b, |b.bg|) && c < |b.bg| && b.w > 0
  {
    var a := CellEntry(t, b, c);
    if a.AsSmall? then Look(Shown(b.bg[c]), b.attr[c], b.fg[c])
    else if PlainBlock(t, b, c) then
      var m := ReaderEntry(t, b, c);
      Look(Shown(m.tiles[0]), m.flags, m.fg)
    else if a.AsBlock? && c % b.w > 0 && PlainBlock(t, b, c - 1) then Look(Shown(ReaderEntry(t, b, c - 1).tiles[1]), MV_NONE, NO_TILE)
    else Look(NO_TILE, MV_NONE, NO_TILE)
  }

  /** On a plain board nothing is taken that was not put for it. */
  lemma PlainIsTidy(t: Tables, b: Board)
    requires Decodable(t) && Square(b, |b.bg|) && 0 < b.w != NEXT as nat && Plain(t, b) && BlocksHaveEntries(t)
    ensures Valid(t) && Tidy(t, b)
  {
    hide Valid, Decodable, TidyAt, Plain, BlocksHaveEntries;
    DecodableIsValid(t);
    forall c | 0 <= c < |b.bg| ensures TidyAt(t, b, c) {
      PlainCellIsTidy(t, b, c);
    }
  }

  lemma DecodableIsValid(t: Tables)
    requires Decodable(t)
    ensures Valid(t)
  {
  }

  lemma PlainCellIsTidy(t: Tables, b: Board, c: nat)
    requires Decodable(t) && Valid(t) && Square(b, |b.bg|) && 0 < b.w != NEXT as nat && Plain(t, b) && BlocksHaveEntries(t) && c < |b.bg|
    ensures TidyAt(t, b, c)
  {
    hide Valid, Decodable, Scanned, PartsOf, ClaimParts, Output, TidyPart, TidyBlock, EntryOf, PlainTile, BeamTile;
    PlainOutput(t, b);
    PlainScan(t, b, c);
    PlainParts(t, b.bg[c], b.fg[c], b.attr[c]);
    if IsBlock(t, b, c) {
      PlainBlockIsTidy(t, b, c);
    }
    var a := CellEntry(t, b, c);
    forall j | 0 <= j < |PartsOf(t, a)| ensures TidyPart(b, Output(t, b), Claiming(t, b, c, j), c, PartsOf(t, a)[j]) {
      AbsentPartTidy(b, Output(t, b), Claiming(t, b, c, j), c, PartsOf(t, a)[j]);
    }
  }

  lemma AbsentPartTidy(b: Board, out: seq<Byte>, s: Cells, c: nat, part: Part)
    requires b.w > 0 && |s.src| == |out| && part.tile == NO_TILE
    ensures TidyPart(b, out, s, c, part)
  {
  }

  lemma PlainBlockIsTidy(t: Tables, b: Board, c: nat)
    requires Decodable(t) && Valid(t) && Square(b, |b.bg|) && 0 < b.w != NEXT as nat && Plain(t, b) && BlocksHaveEntries(t) && c < |b.bg|
    requires EntryAt(t, b, c) == CellEntry(t, b, c) && IsBlock(t, b, c)
    ensures TidyBlock(t, b, c)
  {
    hide EntryAt, EntryOf, Valid, Output, Scanned, Plain, Decodable, FirstStampCode;
    BlockHasEntry(t, b, c);
    if c % b.w + 1 < b.w && c + 1 < |b.bg| && Output(t, b)[c + 1] == NEXT {
      NextIsEnd(t, b, c + 1);
      NextColumn(c, b.w);
    }
  }

  lemma NextColumn(c: nat, w: nat)
    requires w > 0 && c % w + 1 < w
    ensures (c + 1) % w == c % w + 1
  {
    CellInverse(c, w);
    CellUnique(c % w + 1, c / w, w);
  }

  lemma BlockHasEntry(t: Tables, b: Board, c: nat)
    requires Valid(t) && Square(b, |b.bg|) && c < |b.bg| && BlocksHaveEntries(t)
    requires CellEntry(t, b, c).AsBlock? && CodeOf(t, CellEntry(t, b, c)) != NEXT
    ensures PlainBlock(t, b, c)
  {
    hide EntryOf, Valid, HasEntry;
  }

  /** Only the end of a beam is written as "next". */
  lemma NextIsEnd(t: Tables, b: Board, c: nat)
    requires Decodable(t) && Valid(t) && Square(b, |b.bg|) && c < |b.bg| && Plain(t, b) && Output(t, b)[c] == NEXT
    ensures IsEnd(t, b, c)
  {
    hide EntryAt, EntryOf, Valid, Output, Scanned, Plain;
    PlainOutput(t, b);
    var a := CellEntry(t, b, c);
    assert Output(t, b)[c] == CodeOf(t, a) && !(a.AsVine? || a.AsSign? || a.AsWide?) by { assert PlainBytes(t, b, |b.bg|)[c] == CodeOf(t, a); }
  }

  /** What is seen of a cell follows from the board and the tables. */
  lemma PlainSeen(t: Tables, b: Board, c: nat)
    requires Decodable(t) && Valid(t) && Square(b, |b.bg|) && b.w > 0 && c < |b.bg| && Plain(t, b) && BlocksHaveEntries(t)
    ensures LookAt(t, b, c) == PlainLook(t, b, c)
  {
    hide Valid, Decodable, EntryOf, Scanned, Output, Plain, BlocksHaveEntries, EntryAt, FirstStampCode, VineTile;
    PlainOutput(t, b);
    PlainScan(t, b, c);
    var a := CellEntry(t, b, c);
    if a.AsBlock? && CodeOf(t, a) != NEXT {
      BlockHasEntry(t, b, c);
    }
    if c > 0 && CellEntry(t, b, c - 1).AsBlock? && CodeOf(t, CellEntry(t, b, c - 1)) != NEXT {
      BlockHasEntry(t, b, c - 1);
    }
  }

  /**
   * A plain board comes back cell by cell as the tables have it; so it comes back as it was if
   * and only if the tables have every cell as it is.
   */
  lemma PlainRoundTrip(t: Tables, b: Board, h: nat)
    requires Decodable(t) && Square(b, |b.bg|) && 0 < b.w < 0x100 && b.w != NEXT as nat && |b.bg| == b.w * h
    requires Plain(t, b) && BlocksHaveEntries(t)
    ensures var r := Meaning(t, b.w, Rows(Output(t, b), b.w as Byte, h));
            && Writable(Map(b.w, h, r.bg, r.fg))
            && ComesBack(t, b, BoardOf(Map(b.w, h, r.bg, r.fg)))
  {
    hide Valid, Decodable, Output, Rows, Tidy, Plain, Meaning, BoardOf, Writable, Kept, BlocksHaveEntries, LookAt, PlainLook;
    PlainIsTidy(t, b);
    RoundTrip(t, b, h);
    var r := Seen(t, b);
    forall c | 0 <= c < |b.bg| ensures Look(r.bg[c], r.attr[c], r.fg[c]) == PlainLook(t, b, c) {
      PlainSeen(t, b, c);
    }
    SameCells(t, b, r);
  }

  /** The board `r` shows every cell as `PlainLook` has it, and is the board written if and only if that is the cell's own look. */
  predicate ComesBack(t: Tables, b: Board, r: Board)
    requires Valid(t) && Square(b, |b.bg|) && b.w > 0
  {
    && r.w == b.w && Square(r, |b.bg|)
    && (forall c :: 0 <= c < |b.bg| ==> Look(r.bg[c], r.attr[c], r.fg[c]) == PlainLook(t, b, c))
    && (r == b <==> forall c :: 0 <= c < |b.bg| ==> PlainLook(t, b, c) == Look(b.bg[c], b.attr[c], b.fg[c]))
  }

  lemma SameCells(t: Tables, b: Board, r: Board)
    requires Valid(t) && Square(b, |b.bg|) && b.w > 0 && r.w == b.w && Square(r, |b.bg|)
    requires forall c :: 0 <= c < |b.bg| ==> Look(r.bg[c], r.attr[c], r.fg[c]) == PlainLook(t, b, c)
    ensures ComesBack(t, b, r)
  {
    hide Valid, PlainLook;
    if forall c :: 0 <= c < |b.bg| ==> PlainLook(t, b, c) == Look(b.bg[c], b.attr[c], b.fg[c]) {
      forall c | 0 <= c < |b.bg| ensures r.bg[c] == b.bg[c] && r.attr[c] == b.attr[c] && r.fg[c] == b.fg[c] {
        assert Look(r.bg[c], r.attr[c], r.fg[c]) == PlainLook(t, b, c);
      }
      assert r.bg == b.bg && r.attr == b.attr && r.fg == b.fg;
    }
  }

  // Tiles that do not come back

  /** A row of the game's width that is empty but for a tile in its first cell. */
  function OneTile(tile: int, flags: int): (b: Board)
    ensures Square(b, MAP_WIDTH) && b.w == MAP_WIDTH
  {
    Board(MAP_WIDTH, [tile] + Repeat(NO_TILE, MAP_WIDTH - 1), [flags] + Repeat(MV_NONE, MAP_WIDTH - 1), Repeat(NO_TILE, MAP_WIDTH))
  }

  /** The tile in the first cell once the file written for such a row has been opened. */
  lemma OneTileSeen(t: Tables, tile: int, flags: int)
    requires Decodable(t) && Valid(t) && PlainTile(t, tile) && BlocksHaveEntries(t)
    ensures var r := Meaning(t, MAP_WIDTH, Rows(Output(t, OneTile(tile, flags)), MAP_WIDTH as Byte, 1));
            && Writable(Map(MAP_WIDTH, 1, r.bg, r.fg))
            && BoardOf(Map(MAP_WIDTH, 1, r.bg, r.fg)).bg[0] == PlainLook(t, OneTile(tile, flags), 0).tile
  {
    hide Rows, Meaning, Output, BoardOf, Decodable, Valid, Writable, PlainLook, PlainTile;
    var b := OneTile(tile, flags);
    forall c | 0 <= c < |b.bg| ensures b.bg[c] == NO_TILE || PlainTile(t, b.bg[c]) {
      assert c > 0 ==> b.bg[c] == NO_TILE;
    }
    PlainRoundTrip(t, b, 1);
    assert ComesBack(t, b, BoardOf(Map(MAP_WIDTH, 1, Meaning(t, MAP_WIDTH, Rows(Output(t, b), MAP_WIDTH as Byte, 1)).bg,
                                       Meaning(t, MAP_WIDTH, Rows(Output(t, b), MAP_WIDTH as Byte, 1)).fg)));
  }

  /** The moving platform, and a wall, as the tables have them for the reader; the wall for the writer, in two colours. */
  const PLATFORM := Stamp(0x48, [0xB28, NO_TILE, NO_TILE, NO_TILE], NO_TILE, MV_HORZ)
  const WALL := Stamp(0x72, [BLOCK_TL, NO_TILE, NO_TILE, NO_TILE], NO_TILE, MV_NONE)
  const WALLS := [Block(0x72, 0x1520, NO_TILE), Block(0x72, 0xF18, NO_TILE)]

  /**
   * The moving platform comes back from its file with its movement; one that does not move,
   * which the tables do not know, is not in the file.
   */
  lemma UnknownTileLost(flags: int)
    ensures var t, b := Tables([], [], [PLATFORM], [], []), OneTile(0xB28, flags);
            && Decodable(t)
            && var r := Meaning(t, MAP_WIDTH, Rows(Output(t, b), MAP_WIDTH as Byte, 1));
            && Writable(Map(MAP_WIDTH, 1, r.bg, r.fg))
            && BoardOf(Map(MAP_WIDTH, 1, r.bg, r.fg)).bg[0] == if flags == MV_HORZ then 0xB28 else NO_TILE
  {
    hide Rows, Meaning, Output, BoardOf, Writable;
    var t := Tables([], [], [PLATFORM], [], []);
    assert ValidStamp(PLATFORM);
    OneTileSeen(t, 0xB28, flags);
  }

  /** A wall of either colour comes back in the colour that the reader has for walls. */
  lemma WallRecoloured(tile: int)
    requires tile == 0x1520 || tile == 0xF18
    ensures var t, b := Tables([], [], [WALL], [], WALLS), OneTile(tile, MV_NONE);
            && Decodable(t)
            && var r := Meaning(t, MAP_WIDTH, Rows(Output(t, b), MAP_WIDTH as Byte, 1));
            && Writable(Map(MAP_WIDTH, 1, r.bg, r.fg))
            && BoardOf(Map(MAP_WIDTH, 1, r.bg, r.fg)).bg[0] == 0x1520
  {
    hide Rows, Meaning, Output, BoardOf, Writable;
    var t := Tables([], [], [WALL], [], WALLS);
    assert ValidStamp(WALL);
    assert FirstBlock(WALLS, 1, tile, NO_TILE) == if tile == 0xF18 then 1 else 2;
    OneTileSeen(t, tile, MV_NONE);
  }

  /** Saving a map and opening the file: what comes back for tidy maps and for plain ones. */
  method SaveAndReopen(t: Tables, m: Map) returns (r: Result<Map>)
    requires Decodable(t) && Valid(t) && Writable(m)
    ensures r.Ok? <==> m.width == MAP_WIDTH && m.height <= MAX_WRITE_HEIGHT
    ensures r.Ok? && Tidy(t, BoardOf(m)) ==>
              && Writable(r.value) && BoardOf(r.value) == Seen(t, BoardOf(m))
              && (BoardOf(r.value) == BoardOf(m) <==> forall c :: 0 <= c < |BoardOf(m).bg| ==> Kept(t, BoardOf(m), c))
    ensures r.Ok? && Plain(t, BoardOf(m)) && BlocksHaveEntries(t) ==>
              Writable(r.value) && ComesBack(t, BoardOf(m), BoardOf(r.value))
  {
    hide Valid, Decodable, Output, Rows, Tidy, Plain, BlocksHaveEntries, Meaning, BoardOf, Writable, Scanned, Seen, Kept, ComesBack;
    var f := Write(t, m);
    if f.Err? {
      return Err(f.error);
    }
    ghost var b := BoardOf(m);
    SavedBytes(t, m);
    FileHeight(t, m, f.value);
    var l := Open(t, f.value);
    if Tidy(t, b) {
      TidyReady(t, b, m.height);
      RoundTrip(t, b, m.height);
    }
    if Plain(t, b) && BlocksHaveEntries(t) {
      PlainRoundTrip(t, b, m.height);
    }
    return Ok(Map(MAP_WIDTH, l.height, l.bg, l.fg));
  }

  lemma SavedBytes(t: Tables, m: Map)
    requires Valid(t) && Writable(m) && m.width == MAP_WIDTH
    ensures Output(t, BoardOf(m)) == Scanned(t, BoardOf(m), |BoardOf(m).bg|).dst
    ensures |BoardOf(m).bg| == MAP_WIDTH * m.height
  {
  }

  lemma FileHeight(t: Tables, m: Map, f: seq<Byte>)
    requires Valid(t) && Writable(m) && m.width == MAP_WIDTH
    requires f == Rows(Output(t, BoardOf(m)), MAP_WIDTH as Byte, m.height)
    ensures |f| / (MAP_WIDTH + 1) == m.height
  {
    hide Rows, Output, BoardOf;
    RowCount(MAP_WIDTH, m.height);
  }

  lemma TidyReady(t: Tables, b: Board, h: nat)
    requires Decodable(t) && Valid(t) && Square(b, |b.bg|) && b.w > 0 && |b.bg| == b.w * h && Tidy(t, b)
    ensures Ready(t, b, h)
  {
  }
}
