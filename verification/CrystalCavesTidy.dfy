/** Crystal Caves levels that come back as they were: reader and writer in step. */
module CrystalCavesTidy {
  import opened Bytes
  import opened Grid
  import opened CrystalCaves
  import opened CrystalCavesScan
  import opened CrystalCavesOpen
  import opened CrystalCavesWrite

  /** The entries that both the reader and the writer use. */
  predicate Direct(a: Anchor) {
    !a.Nothing? && !a.AsBlock?
  }

  function FlagsOf(t: Tables, a: Anchor): int
    requires InTables(t, a)
  {
    match a
    case AsVine(i) => t.vines[i].flags
    case AsSign(i) => t.signs[i].flags
    case AsSmall(i) => t.smalls[i].flags
    case AsWide(i) => t.wides[i].flags
    case _ => MV_NONE
  }

  /** The overlay tile that reading the entry adds. */
  function OverlayOf(t: Tables, a: Anchor): int
    requires InTables(t, a)
  {
    if a.AsSmall? then t.smalls[a.i].fg else NO_TILE
  }

  predicate SameSecondCode(t: Tables, a: Anchor, b: Anchor)
    requires InTables(t, a) && InTables(t, b)
  {
    a.AsSign? && b.AsSign? ==> t.signs[a.i].code2 == t.signs[b.i].code2
  }

  /** Every entry has codes of its own, none of them one of the two special ones. */
  ghost predicate Decodable(t: Tables) {
    && Valid(t)
    && (forall a, b :: InTables(t, a) && InTables(t, b) && Direct(a) && Direct(b) ==>
          CodeOf(t, a) == CodeOf(t, b) && SameSecondCode(t, a, b) ==> a == b)
    && (forall a :: InTables(t, a) && Direct(a) ==> CodeOf(t, a) != EMPTY && CodeOf(t, a) != NEXT)
    && (forall a :: InTables(t, a) ==> MV_NONE <= FlagsOf(t, a) <= MV_DROP)
    && (forall i :: 0 <= i < |t.signs| ==> t.signs[i].code2 != NEXT)
  }

  /** An entry is found again from its codes. */
  lemma Decodes(t: Tables, a: Anchor, f: seq<Byte>, p: nat)
    requires Decodable(t) && InTables(t, a) && Direct(a)
    requires p < |f| && f[p] == CodeOf(t, a)
    requires a.AsSign? ==> p + 1 < |f| && f[p + 1] == t.signs[a.i].code2
    ensures AnchorIn(t, f, p) == a
  {
    hide Valid;
    var found := AnchorIn(t, f, p);
    if !found.Nothing? {
      assert CodeOf(t, found) == CodeOf(t, a) && SameSecondCode(t, found, a);
    }
  }

  // Where a cell is in the file

  function FileAt(w: nat, c: nat): nat
    requires w > 0
  {
    c + c / w + 1
  }

  lemma FilePos(w: nat, x: nat, y: nat)
    requires x < w
    ensures FileAt(w, y * w + x) == y * (w + 1) + x + 1
  {
    CellUnique(x, y, w);
  }

  lemma FileOrder(w: nat, c: nat, d: nat)
    requires w > 0 && c < d
    ensures FileAt(w, c) < FileAt(w, d)
  {
    if c / w > d / w {
      RowsApart(d / w, c / w, w);
    }
  }

  lemma FileInside(w: nat, h: nat, c: nat)
    requires w > 0 && c < w * h
    ensures FileAt(w, c) < h * (w + 1) && c / w < h
  {
    if c / w >= h {
      RowsApart(h - 1, c / w, w);
    }
    assert c / w + 1 <= h;
    assert h * (w + 1) == w * h + h;
  }

  lemma {:induction false} RowsHold(dst: seq<Byte>, w: Byte, n: nat, x: nat, y: nat, c: nat, at: nat)
    requires w as nat * n <= |dst| && x < w as nat && y < n
    requires c == y * w as nat + x && at == y * (w as nat + 1) + x + 1
    ensures c < |dst| && at < |Rows(dst, w, n)| && Rows(dst, w, n)[at] == dst[c]
  {
    hide *;
    RowArithmetic(w as nat, n, x, y);
    var before, row := Rows(dst, w, n - 1), [w] + dst[w as nat * (n - 1)..w as nat * n];
    RowsGrow(dst, w, n);
    if y < n - 1 {
      RowsHold(dst, w, n - 1, x, y, c, at);
      AppendKeeps(before, row, at);
    } else {
      LastRow(before, w, dst, w as nat * (n - 1), w as nat * n, x);
    }
  }

  lemma RowArithmetic(w: nat, n: nat, x: nat, y: nat)
    requires x < w && y < n
    ensures y * w + x < w * n && y * (w + 1) + x + 1 < n * (w + 1) && 0 <= w * (n - 1) && w * n == w * (n - 1) + w
    ensures y < n - 1 ==> y * (w + 1) + x + 1 < (n - 1) * (w + 1)
    ensures y == n - 1 ==> y * w == w * (n - 1)
  {
    CellBound(x, y, w, n);
    RowsApart(y, n, w + 1);
    RowsApart(y, n - 1, w + 1);
  }

  lemma RowsGrow(dst: seq<Byte>, w: Byte, n: nat)
    requires 0 < n && w as nat * n <= |dst|
    ensures w as nat * n == w as nat * (n - 1) + w as nat
    ensures Rows(dst, w, n) == Rows(dst, w, n - 1) + ([w] + dst[w as nat * (n - 1)..w as nat * n])
  {
    RowEnds(w, n);
    Reassociate(Rows(dst, w, n - 1), [w], dst[w as nat * (n - 1)..w as nat * n]);
  }

  lemma AppendKeeps<T>(a: seq<T>, b: seq<T>, i: nat)
    requires i < |a|
    ensures (a + b)[i] == a[i]
  {
  }

  lemma LastRow(a: seq<Byte>, w: Byte, dst: seq<Byte>, lo: nat, hi: nat, x: nat)
    requires lo <= hi <= |dst| && x < hi - lo
    ensures (a + ([w] + dst[lo..hi]))[|a| + x + 1] == dst[lo + x]
  {
  }

  /** The byte that gives the length of row `y`, which the reader passes over. */
  function RowAt(w: nat, y: nat): nat {
    y * (w + 1)
  }

  predicate RowsMarked(f: seq<Byte>, w: nat, h: nat) {
    forall y :: 0 <= y < h ==> RowAt(w, y) < |f| && f[RowAt(w, y)] as int == w
  }

  lemma CellIsNoMark(w: nat, c: nat, y: nat)
    requires w > 0
    ensures FileAt(w, c) != RowAt(w, y)
  {
    hide FileAt;
    CellInverse(c, w);
    FilePos(w, c % w, c / w);
    BetweenMarks(w, c % w, c / w, y);
  }

  lemma BetweenMarks(w: nat, x: nat, row: nat, y: nat)
    requires x < w
    ensures row * (w + 1) + x + 1 != y * (w + 1)
  {
    RowsApart(y, row, w + 1);
    RowsApart(row, y, w + 1);
    NextMark(w, row);
  }

  lemma NextMark(w: nat, row: nat)
    ensures (row + 1) * (w + 1) == row * (w + 1) + w + 1
  {
  }

  lemma MarksKept(f: seq<Byte>, w: nat, h: nat, c: nat, v: Byte)
    requires w > 0 && RowsMarked(f, w, h) && FileAt(w, c) < |f|
    ensures RowsMarked(f[FileAt(w, c) := v], w, h)
  {
    hide FileAt, RowAt;
    forall y | 0 <= y < h ensures RowAt(w, y) < |f| && f[FileAt(w, c) := v][RowAt(w, y)] as int == w {
      CellIsNoMark(w, c, y);
    }
  }

  lemma {:induction false} RowsAreMarked(dst: seq<Byte>, w: Byte, n: nat)
    requires w as nat * n <= |dst|
    ensures RowsMarked(Rows(dst, w, n), w as nat, n)
  {
    if n > 0 {
      RowEnds(w, n);
      RowsAreMarked(dst, w, n - 1);
      RowsGrow(dst, w, n);
      MarkAppended(Rows(dst, w, n - 1), [w] + dst[w as nat * (n - 1)..w as nat * n], w as nat, n);
    }
  }

  lemma MarkAppended(before: seq<Byte>, row: seq<Byte>, w: nat, n: nat)
    requires 0 < n && |before| == (n - 1) * (w + 1) && RowsMarked(before, w, n - 1) && |row| > 0 && row[0] as int == w
    ensures RowsMarked(before + row, w, n)
  {
    forall y | 0 <= y < n ensures RowAt(w, y) < |before + row| && (before + row)[RowAt(w, y)] as int == w {
      if y < n - 1 {
        assert before[RowAt(w, y)] as int == w;
      }
    }
  }

  // What comes back

  /** What the writer has put in the end. */
  function Output(t: Tables, b: Board): (out: seq<Byte>)
    requires Valid(t) && Square(b, |b.bg|)
    ensures |out| == |b.bg|
  {
    Scanned(t, b, |b.bg|).dst
  }

  /** The buffers at cell `c`, whose entry's code has been put and of whose parts `k` have been claimed. */
  function Claiming(t: Tables, b: Board, c: nat, k: nat): (s: Cells)
    requires Valid(t) && Square(b, |b.bg|) && c < |b.bg|
    requires k <= |PartsOf(t, EntryAt(t, b, c))|
    ensures |s.src| == |s.dst| == |b.bg|
  {
    var s := Scanned(t, b, c);
    var a := EntryAt(t, b, c);
    ClaimParts(Cells(s.src, s.dst[c := CodeOf(t, a)]), b.w, c, PartsOf(t, a), k)
  }

  /** The entry that the scan finds in cell `c`. */
  function EntryAt(t: Tables, b: Board, c: nat): (a: Anchor)
    requires Valid(t) && Square(b, |b.bg|) && c < |b.bg|
    ensures InTables(t, a)
  {
    AnchorAt(t, b, Scanned(t, b, c), c)
  }

  /** An earlier entry has claimed cell `c`. */
  predicate Taken(t: Tables, b: Board, c: nat)
    requires Valid(t) && Square(b, |b.bg|) && c < |b.bg|
  {
    b.bg[c] != HANDLED && Scanned(t, b, c).src[c] == HANDLED
  }

  // Blocks

  /** The cell is written through the table of blocks, with a code of its own. */
  predicate IsBlock(t: Tables, b: Board, c: nat)
    requires Valid(t) && Square(b, |b.bg|) && c < |b.bg|
  {
    EntryAt(t, b, c).AsBlock? && CodeOf(t, EntryAt(t, b, c)) != NEXT
  }

  /** The cell is written through the table of blocks as "next": the right end of a beam. */
  predicate IsEnd(t: Tables, b: Board, c: nat)
    requires Valid(t) && Square(b, |b.bg|) && c < |b.bg|
  {
    EntryAt(t, b, c).AsBlock? && CodeOf(t, EntryAt(t, b, c)) == NEXT
  }

  /** The entry for which the reader takes a block's code. */
  function SmallFor(t: Tables, b: Board, c: nat): (i: nat)
    requires Valid(t) && Square(b, |b.bg|) && c < |b.bg|
    ensures i <= |t.smalls|
  {
    FirstStampCode(t.smalls, 0, CodeOf(t, EntryAt(t, b, c)) as int)
  }

  /** The tile that the reader has here for the block in the cell to the left, if that is one of two cells. */
  function BeamTile(t: Tables, b: Board, c: nat): int
    requires Valid(t) && Square(b, |b.bg|) && c < |b.bg| && b.w > 0
  {
    if c % b.w > 0 && IsBlock(t, b, c - 1) && SmallFor(t, b, c - 1) < |t.smalls| && ValidStamp(t.smalls[SmallFor(t, b, c - 1)])
    then t.smalls[SmallFor(t, b, c - 1)].tiles[1]
    else NO_TILE
  }

  /** The end of a beam that the reader takes for a part of the block to its left. */
  predicate IsBeamEnd(t: Tables, b: Board, c: nat)
    requires Valid(t) && Square(b, |b.bg|) && c < |b.bg| && b.w > 0
  {
    IsEnd(t, b, c) && BeamTile(t, b, c) != NO_TILE
  }

  /** The end of a beam without the beam: no entry of the reader has its code. */
  predicate IsLoose(t: Tables, b: Board, c: nat)
    requires Valid(t) && Square(b, |b.bg|) && c < |b.bg| && b.w > 0
  {
    IsEnd(t, b, c) && BeamTile(t, b, c) == NO_TILE
  }

  /** What there is to see of a cell: its tile, how that moves, and the overlay tile. */
  datatype Look = Look(tile: int, flags: int, over: int)

  /** The vine's tile: it goes on if it has its code in the row below too. */
  function VineTile(b: Board, out: seq<Byte>, m: Vine, c: nat): int {
    if c + b.w < |out| && out[c + b.w] == m.code then m.mid else m.end
  }

  /** What the reader shows for a block: its own entry, or that of the block to the left. */
  function BlockLook(t: Tables, b: Board, c: nat): Look
    requires Valid(t) && Square(b, |b.bg|) && c < |b.bg| && b.w > 0
  {
    if IsEnd(t, b, c) then Look(Shown(BeamTile(t, b, c)), MV_NONE, NO_TILE)
    else
      var i := SmallFor(t, b, c);
      if i < |t.smalls| && ValidStamp(t.smalls[i])
      then Look(Shown(t.smalls[i].tiles[0]), t.smalls[i].flags, t.smalls[i].fg)
      else Look(NO_TILE, MV_NONE, NO_TILE)
  }

  /** What the reader shows for a cell. */
  function LookAt(t: Tables, b: Board, c: nat): Look
    requires Valid(t) && Square(b, |b.bg|) && c < |b.bg| && b.w > 0
  {
    var a := EntryAt(t, b, c);
    match a
    case Nothing => Look(if Taken(t, b, c) then Shown(b.bg[c]) else NO_TILE, MV_NONE, NO_TILE)
    case AsVine(i) => Look(Shown(VineTile(b, Output(t, b), t.vines[i], c)), t.vines[i].flags, NO_TILE)
    case AsBlock(_) => BlockLook(t, b, c)
    case _ => Look(Shown(b.bg[c]), FlagsOf(t, a), OverlayOf(t, a))
  }

  /** The board as the reader shows it. */
  function Seen(t: Tables, b: Board): (r: Board)
    requires Valid(t) && Square(b, |b.bg|) && b.w > 0
    ensures Square(r, |b.bg|) && r.w == b.w
  {
    Board(b.w,
          seq(|b.bg|, c requires 0 <= c < |b.bg| => LookAt(t, b, c).tile),
          seq(|b.bg|, c requires 0 <= c < |b.bg| => LookAt(t, b, c).flags),
          seq(|b.bg|, c requires 0 <= c < |b.bg| => LookAt(t, b, c).over))
  }

  /**
   * The cell comes back as it was: an entry of the tables with the movement and the overlay tile
   * that the reader has for it, a vine that goes on or ends as the row below says, a block in the
   * reader's colour, or nothing at all.
   */
  predicate Kept(t: Tables, b: Board, c: nat)
    requires Valid(t) && Square(b, |b.bg|) && c < |b.bg| && b.w > 0
  {
    match EntryAt(t, b, c)
    case Nothing =>
      b.attr[c] == MV_NONE && b.fg[c] == NO_TILE && (b.bg[c] == NO_TILE || (Taken(t, b, c) && Shown(b.bg[c]) == b.bg[c]))
    case AsVine(i) => b.fg[c] == NO_TILE && b.bg[c] == Shown(VineTile(b, Output(t, b), t.vines[i], c))
    case AsSign(i) => b.attr[c] == t.signs[i].flags && b.fg[c] == NO_TILE && Shown(b.bg[c]) == b.bg[c]
    case AsSmall(_) => Shown(b.bg[c]) == b.bg[c]
    case AsWide(_) => b.fg[c] == NO_TILE && Shown(b.bg[c]) == b.bg[c]
    case AsBlock(_) => BlockLook(t, b, c) == Look(b.bg[c], b.attr[c], b.fg[c])
  }

  // Tidy boards

  /**
   * The reader takes the part if and only if the writer claimed it. Where the part would lie
   * beyond the right edge of the map, the reader meets the length of the next row, or a cell one
   * to the left of the writer's.
   */
  predicate TidyPart(b: Board, out: seq<Byte>, s: Cells, c: nat, part: Part)
    requires b.w > 0 && |s.src| == |out|
  {
    var pos, x := PlaceOf(part, b.w, c), c % b.w + part.dx;
    || part.tile == NO_TILE
    || (x < b.w && (pos < |out| ==> s.src[pos] == part.tile || NotUp(out, s, pos)))
    || (x >= b.w && !Claims(s, b.w, c, part) &&
        (part.dx < b.w ==> if x == b.w then pos < |out| ==> b.w != NEXT as nat else pos <= |out| ==> NotUp(out, s, pos - 1)))
  }

  /** The reader cannot take the cell for a part, or can no longer. */
  predicate NotUp(out: seq<Byte>, s: Cells, q: nat)
    requires |s.src| == |out| && q < |out|
  {
    s.src[q] == HANDLED || out[q] != NEXT
  }

  /** A block that the reader has an entry of at most two cells for; the second is a beam's end, or not up for taking. */
  predicate TidyBlock(t: Tables, b: Board, c: nat)
    requires Valid(t) && Square(b, |b.bg|) && c < |b.bg| && b.w > 0
  {
    var i := SmallFor(t, b, c);
    && i < |t.smalls| && ValidStamp(t.smalls[i])
    && t.smalls[i].tiles[2] == NO_TILE && t.smalls[i].tiles[3] == NO_TILE
    && (t.smalls[i].tiles[1] == NO_TILE ||
        if c % b.w + 1 < b.w
        then c + 1 < |b.bg| ==> IsBeamEnd(t, b, c + 1) || NotUp(Output(t, b), Scanned(t, b, c), c + 1)
        else b.w != NEXT as nat)
  }

  /**
   * What the entry in cell `c` makes the reader take is what the writer claimed for it. A vine
   * takes all cells put as "next" above it.
   */
  predicate TidyAt(t: Tables, b: Board, c: nat)
    requires Valid(t) && Square(b, |b.bg|) && c < |b.bg| && b.w > 0
  {
    var a := EntryAt(t, b, c);
    && (IsBlock(t, b, c) ==> TidyBlock(t, b, c))
    && (a.AsVine? && b.w <= c ==> !IsLoose(t, b, c - b.w))
    && forall k :: 0 <= k < |PartsOf(t, a)| ==> TidyPart(b, Output(t, b), Claiming(t, b, c, k), c, PartsOf(t, a)[k])
  }

  predicate Tidy(t: Tables, b: Board)
    requires Valid(t) && Square(b, |b.bg|) && b.w > 0
  {
    forall c :: 0 <= c < |b.bg| ==> TidyAt(t, b, c)
  }

  // The relation between reader and writer

  /** What is to come of the cells: their bytes, what they show, and which are the ends of beams, with the beam or without. */
  datatype Outcome = Outcome(bytes: seq<Byte>, seen: Board, ends: seq<bool>, loose: seq<bool>)

  predicate ForBoard(o: Outcome, b: Board) {
    Square(b, |b.bg|) && b.w > 0 && Square(o.seen, |b.bg|) && |o.bytes| == |o.ends| == |o.loose| == |b.bg|
  }

  function OutcomeOf(t: Tables, b: Board): (o: Outcome)
    requires Valid(t) && Square(b, |b.bg|) && b.w > 0
    ensures ForBoard(o, b) && o.bytes == Output(t, b)
  {
    Outcome(Output(t, b), Seen(t, b),
            seq(|b.bg|, c requires 0 <= c < |b.bg| => IsBeamEnd(t, b, c)), seq(|b.bg|, c requires 0 <= c < |b.bg| => IsLoose(t, b, c)))
  }

  /** The reader has taken the cell as a part: of an entry the writer has dealt with, or of a block. */
  predicate Gone(o: Outcome, s: Cells, e: nat, q: nat)
    requires |o.ends| == |s.src| && q < |s.src|
  {
    s.src[q] == HANDLED || (o.ends[q] && q <= e)
  }

  /** The reader's byte for a cell: blanked once the cell has been taken. */
  function View(out: Byte, gone: bool): Byte {
    if gone && out == NEXT then EMPTY else out
  }

  function BgAt(r: Reading, w: nat, q: nat): int {
    LastOn(Codes(r.bg), w, q, NO_TILE)
  }

  function AttrAt(r: Reading, w: nat, q: nat): int {
    LastOn(Attrs(r.bg), w, q, MV_NONE)
  }

  function FgAt(r: Reading, w: nat, q: nat): int {
    LastOn(r.fg, w, q, NO_TILE)
  }

  predicate CellAgrees(b: Board, o: Outcome, r: Reading, s: Cells, e: nat, q: nat)
    requires ForBoard(o, b) && |s.src| == |b.bg| && q < |b.bg|
  {
    && FileAt(b.w, q) < |r.f| && r.f[FileAt(b.w, q)] == View(o.bytes[q], Gone(o, s, e, q))
    && (s.src[q] == b.bg[q] || s.src[q] == HANDLED)
    && (q >= e && s.src[q] == HANDLED != b.bg[q] ==> o.bytes[q] == NEXT)
    && (q < e && o.bytes[q] == NEXT ==> Gone(o, s, e, q) || o.loose[q])
    && BgAt(r, b.w, q) == (if q < e || Gone(o, s, e, q) then o.seen.bg[q] else NO_TILE)
    && AttrAt(r, b.w, q) == (if q < e then o.seen.attr[q] else MV_NONE)
    && FgAt(r, b.w, q) == (if q < e then o.seen.fg[q] else NO_TILE)
  }

  /** The reader has found what the writer has dealt with, and everything in the cells before `e`. */
  predicate Agrees(b: Board, h: nat, o: Outcome, r: Reading, s: Cells, e: nat)
    requires ForBoard(o, b) && |s.src| == |b.bg|
  {
    && |b.bg| == b.w * h && |r.f| == h * (b.w + 1) && RowsMarked(r.f, b.w, h)
    && TilesInside(r.bg, b.w, h) && Inside(r.fg, b.w, h)
    && forall q :: 0 <= q < |b.bg| ==> CellAgrees(b, o, r, s, e, q)
  }

  lemma InsertSeen(r: Reading, it: Tile, w: nat, q: nat)
    ensures BgAt(Insert(r, it), w, q) == if CellOf(it.at, w) == q then it.at.code else BgAt(r, w, q)
    ensures AttrAt(Insert(r, it), w, q) == if CellOf(it.at, w) == q then FlagsFor(it.move) else AttrAt(r, w, q)
    ensures FgAt(Insert(r, it), w, q) == FgAt(r, w, q)
  {
    assert Codes(r.bg + [it]) == Codes(r.bg) + [it.at];
    assert Attrs(r.bg + [it]) == Attrs(r.bg) + [it.at.(code := FlagsFor(it.move))];
  }

  /** The tile of an anchor or a part, as the reader inserts it. */
  lemma TileFacts(x: nat, y: nat, tile: int, flags: int, w: nat)
    requires MV_NONE <= flags <= MV_DROP
    ensures TileAt(x, y, tile, flags).at == Item(x, y, Shown(tile))
    ensures tile >= NO_TILE ==> Shown(tile) == tile
    ensures FlagsFor(TileAt(x, y, tile, flags).move) == flags
  {
  }

  // Parts

  /** The geometry of a part that stays in its row: the same offset in the map and in the file. */
  lemma PartPlace(w: nat, h: nat, x: nat, y: nat, dx: nat, dy: nat)
    requires x + dx < w && y < h
    ensures var c, p := y * w + x, y * (w + 1) + x + 1;
            var pos := c + dy * w + dx;
            && CellOf(Item(x + dx, y + dy, 0), w) == pos
            && FileAt(w, pos) == p + dy * (w + 1) + dx
            && (pos < w * h <==> y + dy < h)
            && (pos >= w * h ==> p + dy * (w + 1) + dx >= h * (w + 1))
  {
    var pos := y * w + x + dy * w + dx;
    assert (y + dy) * w == y * w + dy * w;
    assert (y + dy) * (w + 1) == y * (w + 1) + dy * (w + 1);
    FilePos(w, x + dx, y + dy);
    if y + dy < h {
      CellBound(x + dx, y + dy, w, h);
    } else {
      RowsApart(h - 1, y + dy, w);
      RowsApart(h - 1, y + dy, w + 1);
      assert h * w == w * h;
      assert (y + dy) * w >= h * w;
      assert (y + dy) * (w + 1) >= h * (w + 1);
    }
  }

  /** A part beyond the right edge is at the length of the next row for the reader, or one cell before the writer's. */
  lemma PartBeyond(w: nat, h: nat, x: nat, y: nat, dx: nat, dy: nat)
    requires x < w <= x + dx && dx < w && y < h
    ensures var pos, at := y * w + x + dy * w + dx, y * (w + 1) + x + 1 + dy * (w + 1) + dx;
            && 0 < pos && (x + dx == w ==> at == RowAt(w, y + dy + 1))
            && (x + dx > w ==> at == FileAt(w, pos - 1))
            && (at < h * (w + 1) <==> y + dy + 1 < h)
            && (if x + dx > w then pos <= w * h <==> y + dy + 1 < h else pos < w * h <==> y + dy + 1 < h)
  {
    var row := y + dy + 1;
    assert row * w == y * w + dy * w + w;
    assert row * (w + 1) == y * (w + 1) + dy * (w + 1) + (w + 1);
    if row < h {
      RowsApart(row, h, w + 1);
      RowsApart(row, h, w);
    } else {
      RowsApart(h - 1, row, w + 1);
      RowsApart(h - 1, row, w);
    }
    if x + dx > w {
      FilePos(w, x + dx - w - 1, row);
    }
  }

  /** Taking the tile in cell `pos` keeps reader and writer agreed on cell `q`. */
  lemma TakenCell(b: Board, o: Outcome, r: Reading, s: Cells, e: nat, pos: nat, it: Tile, s': Cells, q: nat)
    requires ForBoard(o, b) && |s.src| == |b.bg| && q < |b.bg| && e <= pos < |b.bg|
    requires CellAgrees(b, o, r, s, e, q) && CellAgrees(b, o, r, s, e, pos)
    requires CellOf(it.at, b.w) == pos && it.at.code == o.seen.bg[pos] && FlagsFor(it.move) == MV_NONE
    requires o.bytes[pos] == NEXT && !o.ends[pos] && s'.src == s.src[pos := HANDLED]
    ensures CellAgrees(b, o, Reading(r.f[FileAt(b.w, pos) := EMPTY], r.bg + [it], r.fg), s', e, q)
  {
    hide BgAt, AttrAt, FgAt, FileAt;
    var r' := Reading(r.f[FileAt(b.w, pos) := EMPTY], r.bg + [it], r.fg);
    InsertSeen(r, it, b.w, q);
    SameSeen(r', Insert(r, it), b.w, q);
    if q != pos {
      OtherPlace(b.w, pos, q);
    }
  }

  /** One part: the reader takes it if and only if the writer claimed it. */
  lemma PartStep(b: Board, h: nat, o: Outcome, r: Reading, s: Cells, e: nat, x: nat, y: nat, part: Part)
    requires ForBoard(o, b) && |s.src| == |s.dst| == |b.bg| && x < b.w && y < h
    requires Agrees(b, h, o, r, s, e)
    requires (y * b.w + x) % b.w == x && TidyPart(b, o.bytes, s, y * b.w + x, part)
    requires part.tile != HANDLED
    requires Claims(s, b.w, y * b.w + x, part) ==>
      var pos := PlaceOf(part, b.w, y * b.w + x);
      o.bytes[pos] == NEXT && e <= pos && !o.ends[pos] && Shown(b.bg[pos]) == o.seen.bg[pos]
    ensures Agrees(b, h, o, TakePart(r, b.w, h, x, y, y * (b.w + 1) + x + 1, part), ClaimPart(s, b.w, y * b.w + x, part), e)
  {
    hide BgAt, AttrAt, FgAt, FileAt, TileAt, CellAgrees, Shown, RowAt;
    if part.tile != NO_TILE {
      var c := y * b.w + x;
      var pos := PlaceOf(part, b.w, c);
      if x + part.dx >= b.w {
        PartPassed(b, h, o, r, s, e, x, y, part);
      } else {
        PartPlace(b.w, h, x, y, part.dx, part.dy);
        if pos < |b.bg| {
          CellByte(b, o, r, s, e, pos);
          if s.src[pos] == part.tile {
            var s' := ClaimPart(s, b.w, c, part);
            var it := TileAt(x + part.dx, y + part.dy, part.tile, MV_NONE);
            TileFacts(x + part.dx, y + part.dy, part.tile, MV_NONE, b.w);
            var r' := Reading(r.f[FileAt(b.w, pos) := EMPTY], r.bg + [it], r.fg);
            MarksKept(r.f, b.w, h, pos, EMPTY);
            forall q | 0 <= q < |b.bg| ensures CellAgrees(b, o, r', s', e, q) {
              assert CellAgrees(b, o, r, s, e, q);
              TakenCell(b, o, r, s, e, pos, it, s', q);
            }
          }
        }
      }
    }
  }

  /** A part is tidy exactly if the reader and the writer do the same with it, and in the same cell. */
  lemma PartExact(b: Board, h: nat, o: Outcome, r: Reading, s: Cells, e: nat, x: nat, y: nat, part: Part)
    requires ForBoard(o, b) && |s.src| == |s.dst| == |b.bg| && x < b.w && y < h
    requires Agrees(b, h, o, r, s, e) && (e < |b.bg| ==> !o.ends[e])
    requires (y * b.w + x) % b.w == x && part.tile != NO_TILE && part.tile != HANDLED
    requires var pos := PlaceOf(part, b.w, y * b.w + x);
             && e <= pos && (x + part.dx > b.w ==> e < pos)
             && (Claims(s, b.w, y * b.w + x, part) ==> o.bytes[pos] == NEXT)
    ensures TidyPart(b, o.bytes, s, y * b.w + x, part) <==>
              && (TakePart(r, b.w, h, x, y, y * (b.w + 1) + x + 1, part) != r <==> Claims(s, b.w, y * b.w + x, part))
              && (Claims(s, b.w, y * b.w + x, part) ==> x + part.dx < b.w)
  {
    hide Agrees, TakePart;
    var pos, p := PlaceOf(part, b.w, y * b.w + x), y * (b.w + 1) + x + 1;
    TakenOrNot(r, b.w, h, x, y, p, part);
    if x + part.dx < b.w {
      ByteInside(b, h, o, r, s, e, x, y, part.dx, part.dy, pos, PlaceOf(part, b.w + 1, p));
    } else if part.dx < b.w {
      ByteBeyond(b, h, o, r, s, e, x, y, part.dx, part.dy, pos, PlaceOf(part, b.w + 1, p));
    }
  }

  /** The byte that the reader meets for a part in its row of the map. */
  lemma ByteInside(b: Board, h: nat, o: Outcome, r: Reading, s: Cells, e: nat, x: nat, y: nat, dx: nat, dy: nat, pos: nat, at: nat)
    requires ForBoard(o, b) && |s.src| == |b.bg| && Agrees(b, h, o, r, s, e) && x + dx < b.w && y < h
    requires pos == y * b.w + x + dy * b.w + dx && at == y * (b.w + 1) + x + 1 + dy * (b.w + 1) + dx
    ensures at < |r.f| <==> pos < |b.bg|
    ensures at < |r.f| ==> dy < h && r.f[at] == View(o.bytes[pos], Gone(o, s, e, pos))
  {
    hide BgAt, AttrAt, FgAt, FileAt, CellAgrees, RowsMarked, View, Gone;
    PartPlace(b.w, h, x, y, dx, dy);
    if pos < |b.bg| {
      CellByte(b, o, r, s, e, pos);
    }
  }

  /** The byte that the reader meets for a part beyond the right edge. */
  lemma ByteBeyond(b: Board, h: nat, o: Outcome, r: Reading, s: Cells, e: nat, x: nat, y: nat, dx: nat, dy: nat, pos: nat, at: nat)
    requires ForBoard(o, b) && |s.src| == |b.bg| && Agrees(b, h, o, r, s, e)
    requires x < b.w <= x + dx && dx < b.w && y < h
    requires pos == y * b.w + x + dy * b.w + dx && at == y * (b.w + 1) + x + 1 + dy * (b.w + 1) + dx
    ensures at < |r.f| ==> dy < h
    ensures x + dx == b.w ==> (at < |r.f| <==> pos < |b.bg|) && (at < |r.f| ==> r.f[at] as int == b.w)
    ensures x + dx > b.w ==> 0 < pos && (at < |r.f| <==> pos <= |b.bg|)
    ensures x + dx > b.w && at < |r.f| ==> r.f[at] == View(o.bytes[pos - 1], Gone(o, s, e, pos - 1))
  {
    hide BgAt, AttrAt, FgAt, FileAt, CellAgrees, RowAt, View, Gone;
    PartBeyond(b.w, h, x, y, dx, dy);
    if x + dx > b.w && pos <= |b.bg| {
      CellByte(b, o, r, s, e, pos - 1);
    }
  }

  lemma TakenOrNot(r: Reading, w: nat, h: nat, x: nat, y: nat, p: nat, part: Part)
    ensures var pos := PlaceOf(part, w + 1, p);
            TakePart(r, w, h, x, y, p, part) != r <==>
            part.tile != NO_TILE && part.dx < w && part.dy < h && pos < |r.f| && r.f[pos] == NEXT
  {
    var pos := PlaceOf(part, w + 1, p);
    if pos < |r.f| && r.f[pos] == NEXT {
      assert r.f[pos := EMPTY][pos] != r.f[pos];
    }
  }

  /** A part beyond the right edge that the writer did not claim is not taken either. */
  lemma PartPassed(b: Board, h: nat, o: Outcome, r: Reading, s: Cells, e: nat, x: nat, y: nat, part: Part)
    requires ForBoard(o, b) && |s.src| == |s.dst| == |b.bg| && x < b.w <= x + part.dx && y < h
    requires Agrees(b, h, o, r, s, e) && part.tile != NO_TILE
    requires (y * b.w + x) % b.w == x && TidyPart(b, o.bytes, s, y * b.w + x, part)
    ensures TakePart(r, b.w, h, x, y, y * (b.w + 1) + x + 1, part) == r
    ensures ClaimPart(s, b.w, y * b.w + x, part) == s
  {
    hide Agrees;
    var pos, p := PlaceOf(part, b.w, y * b.w + x), y * (b.w + 1) + x + 1;
    TakenOrNot(r, b.w, h, x, y, p, part);
    if part.dx < b.w {
      ByteBeyond(b, h, o, r, s, e, x, y, part.dx, part.dy, pos, PlaceOf(part, b.w + 1, p));
    }
  }

  /** What the relation says of one cell's byte and tile. */
  lemma CellByte(b: Board, o: Outcome, r: Reading, s: Cells, e: nat, q: nat)
    requires ForBoard(o, b) && |s.src| == |b.bg| && q < |b.bg|
    requires CellAgrees(b, o, r, s, e, q)
    ensures FileAt(b.w, q) < |r.f| && r.f[FileAt(b.w, q)] == View(o.bytes[q], Gone(o, s, e, q))
    ensures s.src[q] == b.bg[q] || s.src[q] == HANDLED
    ensures q >= e && s.src[q] == HANDLED != b.bg[q] ==> o.bytes[q] == NEXT
    ensures q < e && o.bytes[q] == NEXT ==> Gone(o, s, e, q) || o.loose[q]
  {
  }

  lemma OtherPlace(w: nat, c: nat, d: nat)
    requires w > 0 && c != d
    ensures FileAt(w, c) != FileAt(w, d)
  {
    if c < d {
      FileOrder(w, c, d);
    } else {
      FileOrder(w, d, c);
    }
  }

  /** What has been seen does not depend on the bytes left. */
  lemma SameSeen(r: Reading, r2: Reading, w: nat, q: nat)
    requires r.bg == r2.bg && r.fg == r2.fg
    ensures BgAt(r, w, q) == BgAt(r2, w, q) && AttrAt(r, w, q) == AttrAt(r2, w, q) && FgAt(r, w, q) == FgAt(r2, w, q)
  {
  }
}
