/** Crystal Caves entries of several cells, cell by cell: what the writer puts and what the reader finds. */
module CrystalCavesCells {
  import opened Bytes
  import opened Grid
  import opened CrystalCaves
  import opened CrystalCavesScan
  import opened CrystalCavesOpen
  import opened CrystalCavesTidy
  import opened CrystalCavesTheorems

  /** The entries that have a table of tiles. */
  predicate Several(a: Anchor) {
    a.AsSign? || a.AsSmall? || a.AsWide?
  }

  /** The tiles of such an entry, row by row. */
  function TilesOf(t: Tables, a: Anchor): seq<int>
    requires InTables(t, a) && Several(a)
  {
    if a.AsSign? then t.signs[a.i].tiles else if a.AsSmall? then t.smalls[a.i].tiles else t.wides[a.i].tiles
  }

  /** Signs are four cells wide and four high, small tiles two and two, wide tiles four and one. */
  function Across(a: Anchor): (n: nat)
    ensures n > 0
  {
    if a.AsSmall? then 2 else 4
  }

  lemma TilesValid(t: Tables, a: Anchor)
    requires Valid(t) && InTables(t, a) && Several(a)
    ensures |TilesOf(t, a)| == (if a.AsSign? then SIGN_TILES else STAMP_TILES) && |PartsOf(t, a)| == |TilesOf(t, a)| - 1
    ensures forall k :: 0 <= k < |TilesOf(t, a)| ==> TilesOf(t, a)[k] != HANDLED
  {
    ValidEntry(t, a);
  }

  lemma PartShape(t: Tables, a: Anchor, k: nat)
    requires Valid(t) && InTables(t, a) && Several(a) && 0 < k < |TilesOf(t, a)|
    ensures k - 1 < |PartsOf(t, a)|
    ensures PartsOf(t, a)[k - 1] ==
            Part(k % Across(a), k / Across(a), TilesOf(t, a)[k], if a.AsSign? && k == 1 then t.signs[a.i].code2 else NEXT)
  {
    ValidEntry(t, a);
  }

  // What the writer puts

  /** The entry lies within its row of the map. */
  predicate InRow(t: Tables, a: Anchor, w: nat, x: nat)
    requires InTables(t, a) && Several(a)
  {
    forall k :: 0 < k < |TilesOf(t, a)| && TilesOf(t, a)[k] != NO_TILE ==> x + k % Across(a) < w
  }

  /** The first `n` parts have claimed no cell but their own. */
  lemma {:induction false} ClaimedOwn(s: Cells, w: nat, j: nat, parts: seq<Part>, n: nat, q: nat)
    requires |s.src| == |s.dst| && n <= |parts|
    requires forall k :: 0 <= k < n && parts[k].tile != NO_TILE ==> PlaceOf(parts[k], w, j) != q
    ensures q !in Claimed(s, w, j, parts, n)
  {
    hide PlaceOf;
    if n > 0 {
      ClaimedOwn(s, w, j, parts, n - 1, q);
    }
  }

  /** Cell `k` of an entry anchored in column `x` of row `y`. */
  function CellFor(w: nat, x: nat, y: nat, across: nat, k: nat): nat
    requires across > 0
  {
    (y + k / across) * w + (x + k % across)
  }

  lemma CellsApart(w: nat, x: nat, y: nat, across: nat, j: nat, k: nat)
    requires across > 0 && x + j % across < w && x + k % across < w && j != k
    ensures CellFor(w, x, y, across, j) != CellFor(w, x, y, across, k)
  {
    hide CellFor;
    var dx, dy, ex, ey := j % across, j / across, k % across, k / across;
    CellForIs(w, x, y, across, j, dx, dy);
    CellForIs(w, x, y, across, k, ex, ey);
    if CellFor(w, x, y, across, j) == CellFor(w, x, y, across, k) {
      SamePair(w, x + dx, y + dy, x + ex, y + ey);
      SameIndex(j, k, across);
    }
  }

  lemma CellForIs(w: nat, x: nat, y: nat, across: nat, k: nat, dx: nat, dy: nat)
    requires across > 0 && dx == k % across && dy == k / across
    ensures CellFor(w, x, y, across, k) == (y + dy) * w + (x + dx)
  {
  }

  lemma SamePair(w: nat, a: nat, b: nat, c: nat, d: nat)
    requires a < w && c < w && b * w + a == d * w + c
    ensures a == c && b == d
  {
    CellUnique(a, b, w);
    CellUnique(c, d, w);
  }

  lemma SameIndex(j: nat, k: nat, n: nat)
    requires n > 0 && j % n == k % n && j / n == k / n
    ensures j == k
  {
    CellInverse(j, n);
    CellInverse(k, n);
  }

  lemma PartCell(part: Part, w: nat, x: nat, y: nat, c: nat, across: nat, k: nat)
    requires across > 0 && part.dx == k % across && part.dy == k / across && c == y * w + x
    ensures PlaceOf(part, w, c) == CellFor(w, x, y, across, k)
  {
    assert (y + part.dy) * w == y * w + part.dy * w;
  }

  /**
   * Cell `k` of an entry in its row: a tile of the entry that no other entry has claimed before
   * is put as "next", but that the second tile of a sign is put as the sign's second code.
   */
  lemma CellWritten(t: Tables, b: Board, a: Anchor, x: nat, y: nat, c: nat, k: nat, q: nat)
    requires Valid(t) && Square(b, |b.bg|) && x < b.w && c == y * b.w + x && c < |b.bg| && a == EntryAt(t, b, c)
    requires Several(a) && InRow(t, a, b.w, x) && 0 < k < |TilesOf(t, a)| && TilesOf(t, a)[k] != NO_TILE
    requires q == CellFor(b.w, x, y, Across(a), k) && q < |b.bg| && Scanned(t, b, c).src[q] == TilesOf(t, a)[k]
    ensures Output(t, b)[q] == if a.AsSign? && k == 1 then t.signs[a.i].code2 else NEXT
  {
    hide Valid, PartsOf, CodeOf, EntryAt, Scanned, Output, Claimed, TilesOf, Claims, CellFor, PlaceOf, ClaimParts, Claiming, Trailing;
    TilesValid(t, a);
    PartShape(t, a, k);
    PartCell(PartsOf(t, a)[k - 1], b.w, x, y, c, Across(a), k);
    StillFree(t, b, a, x, y, c, k, q);
    PartByte(t, b, c, k - 1);
  }

  /** The parts before part `k` leave its cell alone. */
  lemma StillFree(t: Tables, b: Board, a: Anchor, x: nat, y: nat, c: nat, k: nat, q: nat)
    requires Valid(t) && Square(b, |b.bg|) && x < b.w && c == y * b.w + x && c < |b.bg| && a == EntryAt(t, b, c)
    requires Several(a) && InRow(t, a, b.w, x) && 0 < k < |TilesOf(t, a)| && TilesOf(t, a)[k] != NO_TILE
    requires q == CellFor(b.w, x, y, Across(a), k) && q < |b.bg| && Scanned(t, b, c).src[q] == TilesOf(t, a)[k]
    ensures k - 1 < |PartsOf(t, a)| && Claims(Claiming(t, b, c, k - 1), b.w, c, PartsOf(t, a)[k - 1])
  {
    hide Valid, PartsOf, CodeOf, EntryAt, Scanned, Claimed, TilesOf, CellFor, PlaceOf, ClaimParts, Trailing;
    var parts, s := PartsOf(t, a), Scanned(t, b, c);
    var s1 := Cells(s.src, s.dst[c := CodeOf(t, a)]);
    TilesValid(t, a);
    PartShape(t, a, k);
    PartCell(parts[k - 1], b.w, x, y, c, Across(a), k);
    forall j | 0 <= j < k - 1 && parts[j].tile != NO_TILE ensures PlaceOf(parts[j], b.w, c) != q {
      PartShape(t, a, j + 1);
      PartCell(parts[j], b.w, x, y, c, Across(a), j + 1);
      assert TilesOf(t, a)[j + 1] != NO_TILE;
      CellsApart(b.w, x, y, Across(a), j + 1, k);
    }
    ClaimedOwn(s1, b.w, c, parts, k - 1, q);
    PartsTrail(t, a);
    ClaimFrame(s1, b.w, c, parts, k - 1);
  }

  /** A tile of four cells in a row is put as its code and three times "next". */
  lemma WideWritten(t: Tables, b: Board, i: nat, x: nat, y: nat, c: nat)
    requires Valid(t) && Square(b, |b.bg|) && x + 3 < b.w && c == y * b.w + x && c + 3 < |b.bg|
    requires EntryAt(t, b, c) == AsWide(i) && i < |t.wides|
    requires var tiles, src := t.wides[i].tiles, Scanned(t, b, c).src;
             |tiles| == STAMP_TILES && NO_TILE !in tiles[1..] && src[c + 1..c + 4] == tiles[1..]
    ensures Output(t, b)[c..c + 4] == [t.wides[i].code, NEXT, NEXT, NEXT]
  {
    hide Valid, EntryAt, Scanned, Output, CellFor;
    var a, src, tiles := AsWide(i), Scanned(t, b, c).src, t.wides[i].tiles;
    AnchorByte(t, b, c);
    assert src[c + 1] == src[c + 1..c + 4][0] && src[c + 2] == src[c + 1..c + 4][1] && src[c + 3] == src[c + 1..c + 4][2];
    assert tiles[1] == tiles[1..][0] && tiles[2] == tiles[1..][1] && tiles[3] == tiles[1..][2];
    WideCells(b.w, x, y, c);
    CellWritten(t, b, a, x, y, c, 1, c + 1);
    CellWritten(t, b, a, x, y, c, 2, c + 2);
    CellWritten(t, b, a, x, y, c, 3, c + 3);
  }

  lemma WideCells(w: nat, x: nat, y: nat, c: nat)
    requires c == y * w + x
    ensures CellFor(w, x, y, 4, 1) == c + 1 && CellFor(w, x, y, 4, 2) == c + 2 && CellFor(w, x, y, 4, 3) == c + 3
  {
  }

  /** A tile of two by two cells: its code, and "next" to the right, below, and below to the right. */
  lemma SmallWritten(t: Tables, b: Board, i: nat, x: nat, y: nat, c: nat, below: nat)
    requires Valid(t) && Square(b, |b.bg|) && x + 1 < b.w && c == y * b.w + x && below == (y + 1) * b.w + x
    requires c + 1 < |b.bg| && below + 1 < |b.bg| && EntryAt(t, b, c) == AsSmall(i) && i < |t.smalls|
    requires var tiles, src := t.smalls[i].tiles, Scanned(t, b, c).src;
             && |tiles| == STAMP_TILES && NO_TILE !in tiles[1..]
             && src[c + 1] == tiles[1] && src[below] == tiles[2] && src[below + 1] == tiles[3]
    ensures Output(t, b)[c..c + 2] == [t.smalls[i].code, NEXT] && Output(t, b)[below..below + 2] == [NEXT, NEXT]
  {
    hide Valid, EntryAt, Scanned, Output, CellFor;
    var a, tiles := AsSmall(i), t.smalls[i].tiles;
    AnchorByte(t, b, c);
    assert tiles[1] == tiles[1..][0] && tiles[2] == tiles[1..][1] && tiles[3] == tiles[1..][2];
    SmallCells(b.w, x, y, c, below);
    CellWritten(t, b, a, x, y, c, 1, c + 1);
    CellWritten(t, b, a, x, y, c, 2, below);
    CellWritten(t, b, a, x, y, c, 3, below + 1);
  }

  lemma SmallCells(w: nat, x: nat, y: nat, c: nat, below: nat)
    requires c == y * w + x && below == (y + 1) * w + x
    ensures CellFor(w, x, y, 2, 1) == c + 1 && CellFor(w, x, y, 2, 2) == below && CellFor(w, x, y, 2, 3) == below + 1
  {
  }

  // What the reader finds

  /** The byte for cell `k` of an entry whose code is at `p`. */
  function ByteFor(w: nat, p: nat, across: nat, k: nat): nat
    requires across > 0
  {
    p + k / across * (w + 1) + k % across
  }

  /** Cell `k` of the entry is there to be taken. */
  predicate Marked(f: seq<Byte>, w: nat, h: nat, p: nat, tiles: seq<int>, across: nat, k: nat)
    requires across > 0 && k < |tiles|
  {
    && tiles[k] != NO_TILE && k % across < w && k / across < h
    && ByteFor(w, p, across, k) < |f| && f[ByteFor(w, p, across, k)] == NEXT
  }

  /** The tiles of the first `n` cells: the first `lo` whatever the file has there, the others where they are marked. */
  function Gathered(f: seq<Byte>, w: nat, h: nat, x: nat, y: nat, p: nat, tiles: seq<int>, flags: int, across: nat, lo: nat, n: nat): seq<Tile>
    requires across > 0 && n <= |tiles|
  {
    if n == 0 then []
    else
      var k := n - 1;
      var before := Gathered(f, w, h, x, y, p, tiles, flags, across, lo, k);
      if k < lo || Marked(f, w, h, p, tiles, across, k)
      then before + [Tile(Item(x + k % across, y + k / across, Shown(tiles[k])), MovementFor(if k == 0 then flags else MV_NONE))]
      else before
  }

  lemma ByteApart(w: nat, p: nat, across: nat, j: nat, k: nat)
    requires across > 0 && j % across < w && k % across < w && j != k
    ensures ByteFor(w, p, across, j) != ByteFor(w, p, across, k)
  {
    if ByteFor(w, p, across, j) == ByteFor(w, p, across, k) {
      SamePair(w + 1, j % across, j / across, k % across, k / across);
      SameIndex(j, k, across);
    }
  }

  /** The bytes `g` after the cells before cell `n` have been taken from the file `f`. */
  predicate TakenFrom(f: seq<Byte>, g: seq<Byte>, w: nat, h: nat, p: nat, tiles: seq<int>, across: nat, lo: nat, n: nat)
    requires across > 0 && n <= |tiles|
  {
    && |g| == |f|
    && (forall k :: n <= k < |tiles| && k % across < w && ByteFor(w, p, across, k) < |f| ==>
          g[ByteFor(w, p, across, k)] == f[ByteFor(w, p, across, k)])
    && (forall k :: lo <= k < n && Marked(f, w, h, p, tiles, across, k) ==> g[ByteFor(w, p, across, k)] == EMPTY)
  }

  lemma TakeByte(f: seq<Byte>, g: seq<Byte>, w: nat, h: nat, p: nat, tiles: seq<int>, across: nat, lo: nat, n: nat)
    requires across > 0 && n < |tiles| && TakenFrom(f, g, w, h, p, tiles, across, lo, n)
    ensures Marked(f, w, h, p, tiles, across, n) ==>
              TakenFrom(f, g[ByteFor(w, p, across, n) := EMPTY], w, h, p, tiles, across, lo, n + 1)
    ensures !Marked(f, w, h, p, tiles, across, n) ==> TakenFrom(f, g, w, h, p, tiles, across, lo, n + 1)
  {
    hide ByteFor;
    forall k | 0 <= k < |tiles| && k != n && k % across < w && n % across < w
      ensures ByteFor(w, p, across, k) != ByteFor(w, p, across, n)
    {
      ByteApart(w, p, across, k, n);
    }
  }

  /** What the reader has after taking the parts before cell `n`. */
  lemma {:induction false} PartsTaken(t: Tables, a: Anchor, w: nat, h: nat, r: Reading, r1: Reading, x: nat, y: nat, p: nat, lo: nat, n: nat)
    requires Valid(t) && InTables(t, a) && Several(a) && 0 < lo <= n <= |TilesOf(t, a)| && r1.f == r.f
    requires r1.bg == r.bg + Gathered(r.f, w, h, x, y, p, TilesOf(t, a), FlagsOf(t, a), Across(a), lo, lo)
    ensures n - 1 <= |PartsOf(t, a)|
    ensures var r', f, tiles := TakeParts(r1, w, h, x, y, p, PartsOf(t, a), lo - 1, n - 1), r.f, TilesOf(t, a);
            && r'.bg == r.bg + Gathered(f, w, h, x, y, p, tiles, FlagsOf(t, a), Across(a), lo, n) && r'.fg == r1.fg
            && TakenFrom(f, r'.f, w, h, p, tiles, Across(a), lo, n)
    decreases n
  {
    hide Valid, PartsOf, FlagsOf, TilesOf, TakePart, TakenFrom, Gathered, Marked;
    TilesValid(t, a);
    if n > lo {
      PartsTaken(t, a, w, h, r, r1, x, y, p, lo, n - 1);
      PartShape(t, a, n - 1);
      var before := TakeParts(r1, w, h, x, y, p, PartsOf(t, a), lo - 1, n - 2);
      CellTaken(r, before, w, h, x, y, p, TilesOf(t, a), FlagsOf(t, a), Across(a), lo, n - 1, PartsOf(t, a)[n - 2]);
    } else {
      assert TakenFrom(r.f, r.f, w, h, p, TilesOf(t, a), Across(a), lo, lo) by { NoneTaken(r.f, w, h, p, TilesOf(t, a), Across(a), lo); }
    }
  }

  lemma NoneTaken(f: seq<Byte>, w: nat, h: nat, p: nat, tiles: seq<int>, across: nat, lo: nat)
    requires across > 0 && lo <= |tiles|
    ensures TakenFrom(f, f, w, h, p, tiles, across, lo, lo)
  {
  }

  /** Taking the part that is cell `k`. */
  lemma CellTaken(r: Reading, before: Reading, w: nat, h: nat, x: nat, y: nat, p: nat, tiles: seq<int>, flags: int, across: nat, lo: nat, k: nat, part: Part)
    requires across > 0 && 0 < lo <= k < |tiles| && part.dx == k % across && part.dy == k / across && part.tile == tiles[k]
    requires before.bg == r.bg + Gathered(r.f, w, h, x, y, p, tiles, flags, across, lo, k)
    requires TakenFrom(r.f, before.f, w, h, p, tiles, across, lo, k)
    ensures var r' := TakePart(before, w, h, x, y, p, part);
            && r'.bg == r.bg + Gathered(r.f, w, h, x, y, p, tiles, flags, across, lo, k + 1) && r'.fg == before.fg
            && TakenFrom(r.f, r'.f, w, h, p, tiles, across, lo, k + 1)
  {
    hide Shown, MovementFor, ByteFor;
    PlaceIs(part, w, p, across, k);
    TakeByte(r.f, before.f, w, h, p, tiles, across, lo, k) by { assert |r.f| == |before.f|; }
    assert k % across < w && ByteFor(w, p, across, k) < |r.f| ==> before.f[ByteFor(w, p, across, k)] == r.f[ByteFor(w, p, across, k)];
    if Marked(r.f, w, h, p, tiles, across, k) {
      Reassociate(r.bg, Gathered(r.f, w, h, x, y, p, tiles, flags, across, lo, k),
                  [Tile(Item(x + k % across, y + k / across, Shown(tiles[k])), MovementFor(MV_NONE))]);
    }
  }

  lemma PlaceIs(part: Part, w: nat, p: nat, across: nat, k: nat)
    requires across > 0 && part.dx == k % across && part.dy == k / across
    ensures PlaceOf(part, w + 1, p) == ByteFor(w, p, across, k)
  {
  }

  /** How many cells of an entry the reader takes whatever is there. */
  function Sure(a: Anchor): (lo: nat)
    ensures lo > 0
  {
    if a.AsSign? then 2 else 1
  }

  /**
   * For every file: where the reader comes to the code of an entry of several cells, it adds the
   * tiles of the entry's marked cells, each in its own place, the first with the entry's movement,
   * and blanks the marks; and it adds the overlay tile, if the entry has one.
   */
  lemma EntryRead(t: Tables, a: Anchor, w: nat, h: nat, r: Reading, x: nat, y: nat, p: nat)
    requires Decodable(t) && Valid(t) && InTables(t, a) && Several(a) && p < |r.f| && r.f[p] == CodeOf(t, a)
    requires a.AsSign? ==> p + 1 < |r.f| && r.f[p + 1] == t.signs[a.i].code2
    ensures |TilesOf(t, a)| >= Sure(a)
    ensures var r', f, tiles, across := ReadCell(t, w, h, r, x, y, p), r.f, TilesOf(t, a), Across(a);
            && r'.bg == r.bg + Gathered(f, w, h, x, y, p, tiles, FlagsOf(t, a), across, Sure(a), |tiles|)
            && r'.fg == (if a.AsSmall? && t.smalls[a.i].fg != NO_TILE then r.fg + [Item(x, y, t.smalls[a.i].fg)] else r.fg)
            && TakenFrom(f, r'.f, w, h, p, tiles, across, Sure(a), |tiles|)
  {
    hide Valid, Decodable, PartsOf, TakeParts, Gathered, AnchorIn, TakenFrom, Shown, MovementFor;
    TilesValid(t, a);
    EntryFound(t, a, r.f, p);
    var tiles := TilesOf(t, a);
    FirstGathered(r.f, w, h, x, y, p, tiles, FlagsOf(t, a), Across(a), Sure(a));
    var r1 := Insert(r, TileAt(x, y, tiles[0], FlagsOf(t, a)));
    var r2 := if a.AsSign? then Insert(r1, TileAt(x + 1, y, tiles[1], MV_NONE)) else r1;
    PartsTaken(t, a, w, h, r, r2, x, y, p, Sure(a), |tiles|);
  }

  lemma EntryFound(t: Tables, a: Anchor, f: seq<Byte>, p: nat)
    requires Decodable(t) && Valid(t) && InTables(t, a) && Several(a) && p < |f| && f[p] == CodeOf(t, a)
    requires a.AsSign? ==> p + 1 < |f| && f[p + 1] == t.signs[a.i].code2
    ensures AnchorIn(t, f, p) == a && ByteAt(f, p) != EMPTY as int
  {
    hide Valid, AnchorIn;
    Decodes(t, a, f, p);
  }

  lemma FirstGathered(f: seq<Byte>, w: nat, h: nat, x: nat, y: nat, p: nat, tiles: seq<int>, flags: int, across: nat, lo: nat)
    requires across > 1 && 1 <= lo <= 2 <= |tiles|
    ensures Gathered(f, w, h, x, y, p, tiles, flags, across, lo, lo) ==
            if lo == 1 then [TileAt(x, y, tiles[0], flags)] else [TileAt(x, y, tiles[0], flags), TileAt(x + 1, y, tiles[1], MV_NONE)]
  {
    hide MovementFor, Shown;
    assert Gathered(f, w, h, x, y, p, tiles, flags, across, lo, 1) == [TileAt(x, y, tiles[0], flags)];
  }

  /** The code of a wide tile with three marks behind it is read as the four tiles, in one row. */
  lemma WideRead(t: Tables, i: nat, w: nat, h: nat, r: Reading, x: nat, y: nat, p: nat)
    requires Decodable(t) && Valid(t) && i < |t.wides| && w > 3 && h > 0 && p + 3 < |r.f|
    requires r.f[p..p + 4] == [t.wides[i].code, NEXT, NEXT, NEXT]
    requires |t.wides[i].tiles| == STAMP_TILES && forall k :: 0 < k < 4 ==> t.wides[i].tiles[k] != NO_TILE
    ensures var m := t.wides[i];
            ReadCell(t, w, h, r, x, y, p).bg ==
            r.bg + [Tile(Item(x, y, Shown(m.tiles[0])), MovementFor(m.flags)), Tile(Item(x + 1, y, Shown(m.tiles[1])), NoLimit),
                    Tile(Item(x + 2, y, Shown(m.tiles[2])), NoLimit), Tile(Item(x + 3, y, Shown(m.tiles[3])), NoLimit)]
  {
    hide Valid, Decodable, Shown, ReadCell, Gathered;
    var a, f := AsWide(i), r.f;
    assert f[p] == f[p..p + 4][0] && f[p + 1] == f[p..p + 4][1] && f[p + 2] == f[p..p + 4][2] && f[p + 3] == f[p..p + 4][3];
    EntryRead(t, a, w, h, r, x, y, p);
    AllGathered(f, w, h, x, y, p, t.wides[i].tiles, t.wides[i].flags, 4, 1);
  }

  /** The code of a tile of two by two cells with the three marks is read as the four tiles, in two rows. */
  lemma SmallRead(t: Tables, i: nat, w: nat, h: nat, r: Reading, x: nat, y: nat, p: nat)
    requires Decodable(t) && Valid(t) && i < |t.smalls| && w > 1 && h > 1 && p + w + 2 < |r.f|
    requires r.f[p..p + 2] == [t.smalls[i].code, NEXT] && r.f[p + w + 1..p + w + 3] == [NEXT, NEXT]
    requires |t.smalls[i].tiles| == STAMP_TILES && forall k :: 0 < k < 4 ==> t.smalls[i].tiles[k] != NO_TILE
    ensures var m := t.smalls[i];
            ReadCell(t, w, h, r, x, y, p).bg ==
            r.bg + [Tile(Item(x, y, Shown(m.tiles[0])), MovementFor(m.flags)), Tile(Item(x + 1, y, Shown(m.tiles[1])), NoLimit),
                    Tile(Item(x, y + 1, Shown(m.tiles[2])), NoLimit), Tile(Item(x + 1, y + 1, Shown(m.tiles[3])), NoLimit)]
  {
    hide Valid, Decodable, Shown, ReadCell, Gathered;
    var a, f := AsSmall(i), r.f;
    assert f[p] == f[p..p + 2][0] && f[p + 1] == f[p..p + 2][1];
    assert f[p + w + 1] == f[p + w + 1..p + w + 3][0] && f[p + w + 2] == f[p + w + 1..p + w + 3][1];
    EntryRead(t, a, w, h, r, x, y, p);
    AllGathered(f, w, h, x, y, p, t.smalls[i].tiles, t.smalls[i].flags, 2, 1);
  }

  /** All four cells of an entry, if they are marked. */
  lemma AllGathered(f: seq<Byte>, w: nat, h: nat, x: nat, y: nat, p: nat, tiles: seq<int>, flags: int, across: nat, lo: nat)
    requires (across == 2 || across == 4) && lo == 1 && |tiles| == 4
    requires forall k :: 0 < k < 4 ==> Marked(f, w, h, p, tiles, across, k)
    ensures Gathered(f, w, h, x, y, p, tiles, flags, across, lo, 4) ==
            [Tile(Item(x, y, Shown(tiles[0])), MovementFor(flags)), Tile(Item(x + 1, y, Shown(tiles[1])), NoLimit),
             if across == 4 then Tile(Item(x + 2, y, Shown(tiles[2])), NoLimit) else Tile(Item(x, y + 1, Shown(tiles[2])), NoLimit),
             if across == 4 then Tile(Item(x + 3, y, Shown(tiles[3])), NoLimit) else Tile(Item(x + 1, y + 1, Shown(tiles[3])), NoLimit)]
  {
    hide Shown, Marked;
    assert Gathered(f, w, h, x, y, p, tiles, flags, across, lo, 0) == [];
    assert Marked(f, w, h, p, tiles, across, 1) && Marked(f, w, h, p, tiles, across, 2) && Marked(f, w, h, p, tiles, across, 3);
    var one := Gathered(f, w, h, x, y, p, tiles, flags, across, lo, 1);
    var two := Gathered(f, w, h, x, y, p, tiles, flags, across, lo, 2);
    var three := Gathered(f, w, h, x, y, p, tiles, flags, across, lo, 3);
    assert |one| == 1 && |two| == 2 && |three| == 3;
  }

  // Vines

  /** The position `u` rows above another. */
  function RowsUp(w: nat, p: nat, u: nat): int {
    p - u * (w + 1)
  }

  /** The tiles of a vine in the `k` cells above row `y`, from the nearest one on. */
  function VineTiles(x: nat, y: nat, mid: int, k: nat): (r: seq<Tile>)
    requires k <= y
    ensures |r| == k
  {
    seq(k, u requires 0 <= u < k => Tile(Item(x, y - 1 - u, Shown(mid)), NoLimit))
  }

  /**
   * For every file: a vine of which `k` cells above are marked, and the next one is not, is read
   * as `k + 1` tiles: its own, which is the middle one if the vine's code stands below too, and
   * the middle one without movement in each of the `k` cells above.
   */
  lemma VineRead(t: Tables, i: nat, w: nat, h: nat, r: Reading, x: nat, y: nat, p: nat, k: nat)
    requires Decodable(t) && Valid(t) && i < |t.vines| && k <= y && p < |r.f| && r.f[p] == t.vines[i].code
    requires forall u :: 1 <= u <= k ==> ByteAt(r.f, RowsUp(w, p, u)) == NEXT as int
    requires k < y ==> ByteAt(r.f, RowsUp(w, p, k + 1)) != NEXT as int
    ensures var m := t.vines[i];
            var own := if p + w + 1 < |r.f| && r.f[p + w + 1] == m.code then m.mid else m.end;
            ReadCell(t, w, h, r, x, y, p) ==
            Reading(r.f, r.bg + [Tile(Item(x, y, Shown(own)), MovementFor(m.flags))] + VineTiles(x, y, m.mid, k), r.fg)
  {
    hide Valid, Shown, AnchorIn, VineAbove, VineTiles, RowsUp, Decodable, MovementFor;
    var m := t.vines[i];
    VineFound(t, i, r.f, p);
    AboveIs(r.f, w, x, y, p, 1, m.mid, k);
  }

  lemma VineFound(t: Tables, i: nat, f: seq<Byte>, p: nat)
    requires Decodable(t) && Valid(t) && i < |t.vines| && p < |f| && f[p] == t.vines[i].code
    ensures AnchorIn(t, f, p) == AsVine(i) && ByteAt(f, p) != EMPTY as int
  {
    hide Valid, AnchorIn;
    assert InTables(t, AsVine(i)) && Direct(AsVine(i)) && CodeOf(t, AsVine(i)) == t.vines[i].code;
    Decodes(t, AsVine(i), f, p);
  }

  lemma {:induction false} AboveIs(f: seq<Byte>, w: nat, x: nat, y: nat, p: nat, up: nat, mid: int, k: nat)
    requires 1 <= up <= k + 1 && k <= y
    requires forall u :: up <= u <= k ==> ByteAt(f, RowsUp(w, p, u)) == NEXT as int
    requires k < y ==> ByteAt(f, RowsUp(w, p, k + 1)) != NEXT as int
    ensures VineAbove(f, w, x, y, p, up, mid) == VineTiles(x, y, mid, k)[up - 1..]
    decreases k + 1 - up
  {
    hide ByteAt, Shown;
    if up <= k {
      AboveIs(f, w, x, y, p, up + 1, mid, k);
      assert ByteAt(f, RowsUp(w, p, up)) == NEXT as int;
      var tiles := VineTiles(x, y, mid, k);
      assert tiles[up - 1..] == [tiles[up - 1]] + tiles[up..];
    }
  }

  // Which entry the writer takes

  /** The order in which the tables are tried. */
  function Rank(a: Anchor): nat {
    match a
    case AsVine(_) => 0
    case AsSign(_) => 1
    case AsSmall(_) => 2
    case AsWide(_) => 3
    case AsBlock(_) => 4
    case Nothing => 5
  }

  /** The entry could stand for the tile in cell `c`, with its movement and overlay tile. */
  predicate CouldBe(t: Tables, b: Board, src: seq<int>, c: nat, a: Anchor)
    requires Valid(t) && InTables(t, a) && Square(b, |src|) && c < |src|
  {
    match a
    case AsVine(i) => (src[c] == t.vines[i].mid || src[c] == t.vines[i].end) && b.attr[c] == t.vines[i].flags
    case AsSign(i) =>
      assert ValidSign(t.signs[i]);
      src[c] == t.signs[i].tiles[0] && c + 1 < |src| && src[c + 1] == t.signs[i].tiles[1]
    case AsSmall(i) =>
      assert ValidStamp(t.smalls[i]);
      src[c] == t.smalls[i].tiles[0] && b.fg[c] == t.smalls[i].fg && b.attr[c] == t.smalls[i].flags
    case AsWide(i) =>
      assert ValidStamp(t.wides[i]);
      src[c] == t.wides[i].tiles[0] && b.fg[c] == t.wides[i].fg && b.attr[c] == t.wides[i].flags
    case AsBlock(i) => src[c] == t.blocks[i].bg && b.fg[c] == t.blocks[i].fg
    case Nothing => true
  }

  /** The entry taken could stand for the cell, no entry of an earlier table could, and no earlier one of the same table but for signs. */
  lemma FirstIsTaken(t: Tables, b: Board, src: seq<int>, c: nat, e: Anchor)
    requires Valid(t) && Square(b, |src|) && c < |src| && InTables(t, e)
    ensures var a := Choose(t, b, src, c);
            && CouldBe(t, b, src, c, a)
            && (CouldBe(t, b, src, c, e) ==> Rank(a) < Rank(e) || (Rank(a) == Rank(e) && (a.AsSign? || e.Nothing? || a.i <= e.i)))
  {
    BestSignIsFirstBest(t.signs, src, b.w, c, b.attr[c], |t.signs|);
    var a := Choose(t, b, src, c);
    if a.AsSign? {
      SignThere(t.signs[a.i], src, b.w, c, b.attr[c]);
    }
    if e.AsSign? {
      SignThere(t.signs[e.i], src, b.w, c, b.attr[c]);
    }
  }

  lemma SignThere(m: Sign, src: seq<int>, w: nat, c: nat, flags: int)
    requires ValidSign(m) && c < |src|
    ensures Confidence(m, src, w, c, flags) > 0 <==> src[c] == m.tiles[0] && c + 1 < |src| && src[c + 1] == m.tiles[1]
  {
    hide Support;
  }

  /** The cells from 2 to `n - 1` of the sign, in its four rows of four, that show the sign's tile. */
  ghost function InPlace(m: Sign, src: seq<int>, w: nat, c: nat, n: nat): set<nat>
    requires ValidSign(m) && n <= SIGN_TILES
  {
    set k: nat | 2 <= k < n && m.tiles[k] != NO_TILE && c + k / 4 * w + k % 4 < |src| && src[c + k / 4 * w + k % 4] == m.tiles[k]
  }

  /** The confidence in a sign counts its tiles that are there, and one more for the right movement. */
  lemma {:induction false} SupportCounts(m: Sign, src: seq<int>, w: nat, c: nat, n: nat)
    requires ValidSign(m) && 2 <= n <= SIGN_TILES
    ensures Support(m, src, w, c, n) == |InPlace(m, src, w, c, n)|
  {
    if n == 2 {
      assert InPlace(m, src, w, c, n) == {};
    } else {
      SupportCounts(m, src, w, c, n - 1);
      var before, k := InPlace(m, src, w, c, n - 1), n - 1;
      assert InPlace(m, src, w, c, n) == if Supports(m, src, w, c, k) then before + {k} else before;
    }
  }

  lemma ConfidenceCounts(m: Sign, src: seq<int>, w: nat, c: nat, flags: int)
    requires ValidSign(m) && c < |src|
    ensures Confidence(m, src, w, c, flags) ==
            if src[c] == m.tiles[0] && c + 1 < |src| && src[c + 1] == m.tiles[1]
            then (if flags == m.flags then 3 else 2) + |InPlace(m, src, w, c, SIGN_TILES)|
            else 0
  {
    hide Support, InPlace;
    SupportCounts(m, src, w, c, SIGN_TILES);
  }

  // Single bytes

  /** A byte that no entry has as its code adds nothing, and neither does a sign's first code without its second. */
  lemma UnknownRead(t: Tables, w: nat, h: nat, r: Reading, x: nat, y: nat, p: nat)
    requires Valid(t) && p < |r.f|
    requires forall i :: 0 <= i < |t.vines| ==> t.vines[i].code != r.f[p]
    requires forall i :: 0 <= i < |t.signs| ==> t.signs[i].code1 != r.f[p] || p + 1 >= |r.f| || t.signs[i].code2 != r.f[p + 1]
    requires forall i :: 0 <= i < |t.smalls| ==> t.smalls[i].code != r.f[p]
    requires forall i :: 0 <= i < |t.wides| ==> t.wides[i].code != r.f[p]
    ensures ReadCell(t, w, h, r, x, y, p) == r
  {
    hide Valid;
  }

  /** The three pieces of a beam, the eleven of a wall and the underscore have one colour for the reader; every other tile is its own. */
  lemma LooksShown(tile: int)
    ensures -9 <= tile <= -7 ==> Shown(tile) == 0x1306 + (tile + 9)
    ensures -20 <= tile <= -10 ==> Shown(tile) == 0x1520 + (tile + 20)
    ensures tile == -30 ==> Shown(tile) == 0x1300
    ensures !(-20 <= tile <= -7) && tile != -30 ==> Shown(tile) == tile
  {
  }
}
