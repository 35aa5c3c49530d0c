/** Crystal Caves levels: the tables of tiles, and what the writer makes of each cell. */
module CrystalCaves {
  import opened Bytes
  import opened Grid

  const MAP_WIDTH := 40
  const MAX_WRITE_HEIGHT := 200

  /** No tile here: in the tables, in the cells, and for a neighbour outside the map. */
  const NO_TILE := -1

  /** The byte for a cell without a tile; among tile codes, a cell already dealt with. */
  const EMPTY: Byte := 0x20
  const HANDLED := 0x20

  /** The byte for a cell that belongs to a tile anchored in an earlier cell. */
  const NEXT: Byte := 0x6E

  // Movement

  const INDETERMINATE := 0xFFFF_FFFF

  /** How far a tile may move; NoLimit also stands for a tile that does not move at all. */
  datatype Movement = NoLimit | Limit(left: int, right: int, up: int, down: int)

  const MV_NONE := 0
  const MV_VERT := 1
  const MV_HORZ := 2
  const MV_DROP := 3

  /** The movement that `open` gives a tile whose table entry has these flags. */
  function MovementFor(flags: int): Movement {
    if flags == MV_VERT then Limit(0, 0, INDETERMINATE, INDETERMINATE)
    else if flags == MV_HORZ then Limit(INDETERMINATE, INDETERMINATE, 0, 0)
    else if flags == MV_DROP then Limit(0, 0, 0, INDETERMINATE)
    else NoLimit
  }

  /** The flags that `write` looks for in the tables. */
  function FlagsFor(m: Movement): int {
    if m.NoLimit? then MV_NONE
    else if m.up == INDETERMINATE && m.down == INDETERMINATE && m.left == 0 && m.right == 0 then MV_VERT
    else if m.up == 0 && m.down == 0 && m.left == INDETERMINATE && m.right == INDETERMINATE then MV_HORZ
    else if m.up == 0 && m.down == INDETERMINATE && m.left == 0 && m.right == 0 then MV_DROP
    else MV_NONE
  }

  /** Reading undoes writing for the four flags, and writing undoes reading for the four movements; all others count as none. */
  lemma MovementRoundTrip(flags: int, m: Movement)
    ensures FlagsFor(MovementFor(flags)) == flags <==> MV_NONE <= flags <= MV_DROP
    ensures MovementFor(FlagsFor(m)) == m <==> exists f :: MV_NONE <= f <= MV_DROP && MovementFor(f) == m
    ensures FlagsFor(m) == MV_NONE || MovementFor(FlagsFor(m)) == m
  {
    if MovementFor(FlagsFor(m)) == m {
      assert MV_NONE <= FlagsFor(m) <= MV_DROP;
    }
  }

  /** A background tile; the codes of tiles are 32-bit values, given here with their sign. */
  datatype Tile = Tile(at: Item, move: Movement)

  // Tables

  datatype Vine = Vine(code: Byte, mid: int, end: int, flags: int)
  datatype Sign = Sign(code1: Byte, code2: Byte, tiles: seq<int>, flags: int)
  datatype Stamp = Stamp(code: Byte, tiles: seq<int>, fg: int, flags: int)
  datatype Block = Block(code: Byte, bg: int, fg: int)

  /** Vines, signs (4x4), tiles of 2x2 and of 4x1 cells, and blocks that are only written. */
  datatype Tables = Tables(vines: seq<Vine>, signs: seq<Sign>, smalls: seq<Stamp>, wides: seq<Stamp>, blocks: seq<Block>)

  const SIGN_TILES := 16
  const STAMP_TILES := 4

  /** What the tables of the format look like: no tile is mistaken for a cell dealt with. */
  predicate Valid(t: Tables) {
    && (forall i :: 0 <= i < |t.vines| ==> t.vines[i].mid != HANDLED && t.vines[i].end != HANDLED)
    && (forall i :: 0 <= i < |t.signs| ==> ValidSign(t.signs[i]))
    && (forall i :: 0 <= i < |t.smalls| ==> ValidStamp(t.smalls[i]))
    && (forall i :: 0 <= i < |t.wides| ==> ValidStamp(t.wides[i]))
    && (forall i :: 0 <= i < |t.blocks| ==> t.blocks[i].bg != HANDLED)
  }

  predicate ValidSign(m: Sign) {
    && |m.tiles| == SIGN_TILES && m.tiles[0] != NO_TILE && m.tiles[1] != NO_TILE
    && forall k :: 0 <= k < SIGN_TILES ==> m.tiles[k] != HANDLED
  }

  predicate ValidStamp(m: Stamp) {
    |m.tiles| == STAMP_TILES && forall k :: 0 <= k < STAMP_TILES ==> m.tiles[k] != HANDLED
  }

  /** The table entry that a cell is the first cell of. */
  datatype Anchor = Nothing | AsVine(i: nat) | AsSign(i: nat) | AsSmall(i: nat) | AsWide(i: nat) | AsBlock(i: nat)

  predicate InTables(t: Tables, a: Anchor) {
    match a
    case Nothing => true
    case AsVine(i) => i < |t.vines|
    case AsSign(i) => i < |t.signs|
    case AsSmall(i) => i < |t.smalls|
    case AsWide(i) => i < |t.wides|
    case AsBlock(i) => i < |t.blocks|
  }

  /** The byte for the anchor's own cell. */
  function CodeOf(t: Tables, a: Anchor): Byte
    requires InTables(t, a)
  {
    match a
    case Nothing => EMPTY
    case AsVine(i) => t.vines[i].code
    case AsSign(i) => t.signs[i].code1
    case AsSmall(i) => t.smalls[i].code
    case AsWide(i) => t.wides[i].code
    case AsBlock(i) => t.blocks[i].code
  }

  /** A further cell of a table entry: where it is, the tile it shows and the byte for it. */
  datatype Part = Part(dx: nat, dy: nat, tile: int, put: Byte)

  function PartsOf(t: Tables, a: Anchor): seq<Part>
    requires Valid(t) && InTables(t, a)
  {
    match a
    case AsSign(i) =>
      var m := t.signs[i];
      seq(SIGN_TILES - 1, k requires 0 <= k < SIGN_TILES - 1 =>
        Part((k + 1) % 4, (k + 1) / 4, m.tiles[k + 1], if k == 0 then m.code2 else NEXT))
    case AsSmall(i) =>
      var m := t.smalls[i];
      seq(STAMP_TILES - 1, k requires 0 <= k < STAMP_TILES - 1 => Part((k + 1) % 2, (k + 1) / 2, m.tiles[k + 1], NEXT))
    case AsWide(i) =>
      var m := t.wides[i];
      seq(STAMP_TILES - 1, k requires 0 <= k < STAMP_TILES - 1 => Part(k + 1, 0, m.tiles[k + 1], NEXT))
    case _ => []
  }

  /** Every part lies after its anchor and its tile is not mistaken for a cell dealt with. */
  lemma PartsFacts(t: Tables, a: Anchor, k: nat)
    requires Valid(t) && InTables(t, a) && k < |PartsOf(t, a)|
    ensures var part := PartsOf(t, a)[k];
            && part.dx < 4 && part.dy < 4 && 0 < part.dx + part.dy
            && part.tile != HANDLED && (part.put == NEXT || (a.AsSign? && k == 0))
  {
    match a
    case AsSign(i) => assert ValidSign(t.signs[i]);
    case AsSmall(i) => assert ValidStamp(t.smalls[i]);
    case AsWide(i) => assert ValidStamp(t.wides[i]);
  }

  // What the writer sees

  /** The three layers of cells that the writer lays out: tiles, movement flags and overlay. */
  datatype Board = Board(w: nat, bg: seq<int>, attr: seq<int>, fg: seq<int>)

  predicate Square(b: Board, n: nat) {
    |b.bg| == |b.attr| == |b.fg| == n
  }

  /** The writer's two changing buffers: tiles still to be dealt with, and bytes put so far. */
  datatype Cells = Cells(src: seq<int>, dst: seq<Byte>)

  function Rel(src: seq<int>, w: nat, j: nat, dx: nat, dy: nat): int {
    var pos := j + dy * w + dx;
    if pos < |src| then src[pos] else NO_TILE
  }

  predicate VineFits(m: Vine, tile: int, flags: int) {
    (tile == m.mid || tile == m.end) && flags == m.flags
  }

  predicate StampFits(m: Stamp, tile: int, fg: int, flags: int)
    requires ValidStamp(m)
  {
    tile == m.tiles[0] && fg == m.fg && flags == m.flags
  }

  predicate BlockFits(m: Block, tile: int, fg: int) {
    tile == m.bg && fg == m.fg
  }

  function FirstVine(vs: seq<Vine>, i: nat, tile: int, flags: int): (r: nat)
    requires i <= |vs|
    ensures i <= r <= |vs|
    ensures forall k :: i <= k < r ==> !VineFits(vs[k], tile, flags)
    ensures r < |vs| ==> VineFits(vs[r], tile, flags)
    decreases |vs| - i
  {
    if i == |vs| || VineFits(vs[i], tile, flags) then i else FirstVine(vs, i + 1, tile, flags)
  }

  function FirstStamp(ms: seq<Stamp>, i: nat, tile: int, fg: int, flags: int): (r: nat)
    requires i <= |ms| && forall k :: 0 <= k < |ms| ==> ValidStamp(ms[k])
    ensures i <= r <= |ms|
    ensures forall k :: i <= k < r ==> !StampFits(ms[k], tile, fg, flags)
    ensures r < |ms| ==> StampFits(ms[r], tile, fg, flags)
    decreases |ms| - i
  {
    if i == |ms| || StampFits(ms[i], tile, fg, flags) then i else FirstStamp(ms, i + 1, tile, fg, flags)
  }

  function FirstBlock(ms: seq<Block>, i: nat, tile: int, fg: int): (r: nat)
    requires i <= |ms|
    ensures i <= r <= |ms|
    ensures forall k :: i <= k < r ==> !BlockFits(ms[k], tile, fg)
    ensures r < |ms| ==> BlockFits(ms[r], tile, fg)
    decreases |ms| - i
  {
    if i == |ms| || BlockFits(ms[i], tile, fg) then i else FirstBlock(ms, i + 1, tile, fg)
  }

  // The best sign

  /** A further cell of the sign shows the tile that the sign wants there. */
  predicate Supports(m: Sign, src: seq<int>, w: nat, j: nat, k: nat)
    requires |m.tiles| == SIGN_TILES && k < SIGN_TILES
  {
    var tile := Rel(src, w, j, k % 4, k / 4);
    m.tiles[k] != NO_TILE && tile != HANDLED && tile == m.tiles[k]
  }

  /** How many of the cells 2 to `n - 1` of the sign are in place. */
  function Support(m: Sign, src: seq<int>, w: nat, j: nat, n: nat): (c: nat)
    requires |m.tiles| == SIGN_TILES && 2 <= n <= SIGN_TILES
    ensures c <= n - 2
  {
    if n == 2 then 0 else Support(m, src, w, j, n - 1) + if Supports(m, src, w, j, n - 1) then 1 else 0
  }

  /** How well a sign fits a cell; zero if its first two tiles are not there. */
  function Confidence(m: Sign, src: seq<int>, w: nat, j: nat, flags: int): nat
    requires |m.tiles| == SIGN_TILES
  {
    if Rel(src, w, j, 0, 0) == m.tiles[0] && Rel(src, w, j, 1, 0) == m.tiles[1]
    then 2 + (if flags == m.flags then 1 else 0) + Support(m, src, w, j, SIGN_TILES)
    else 0
  }

  /** The sign to use among the first `n`, as the writer's search finds it; `|ms|` if none fits. */
  function BestSign(ms: seq<Sign>, src: seq<int>, w: nat, j: nat, flags: int, n: nat): (r: nat)
    requires n <= |ms| && forall k :: 0 <= k < |ms| ==> ValidSign(ms[k])
    ensures r < n || r == |ms|
  {
    if n == 0 then |ms|
    else
      var best := BestSign(ms, src, w, j, flags, n - 1);
      var score := if best == |ms| then 0 else Confidence(ms[best], src, w, j, flags);
      if Confidence(ms[n - 1], src, w, j, flags) > score then n - 1 else best
  }

  /** The sign chosen is the first one with the highest confidence; none is chosen only if none fits. */
  lemma {:induction false} BestSignIsFirstBest(ms: seq<Sign>, src: seq<int>, w: nat, j: nat, flags: int, n: nat)
    requires n <= |ms| && forall k :: 0 <= k < |ms| ==> ValidSign(ms[k])
    ensures var r := BestSign(ms, src, w, j, flags, n);
            if r == |ms| then forall k :: 0 <= k < n ==> Confidence(ms[k], src, w, j, flags) == 0
            else
              && r < n && Confidence(ms[r], src, w, j, flags) > 0
              && (forall k :: 0 <= k < n ==> Confidence(ms[k], src, w, j, flags) <= Confidence(ms[r], src, w, j, flags))
              && (forall k :: 0 <= k < r ==> Confidence(ms[k], src, w, j, flags) < Confidence(ms[r], src, w, j, flags))
  {
    hide Confidence;
    if n > 0 {
      BestSignIsFirstBest(ms, src, w, j, flags, n - 1);
    }
  }

  // One step of the scan

  /** The table entry for the tile in cell `j`: vines first, then signs, then the rest. */
  function Choose(t: Tables, b: Board, src: seq<int>, j: nat): (a: Anchor)
    requires Valid(t) && Square(b, |src|) && j < |src|
    ensures InTables(t, a)
  {
    var v := FirstVine(t.vines, 0, src[j], b.attr[j]);
    if v < |t.vines| then AsVine(v)
    else
      var s := BestSign(t.signs, src, b.w, j, b.attr[j], |t.signs|);
      if s < |t.signs| then AsSign(s)
      else
        var m := FirstStamp(t.smalls, 0, src[j], b.fg[j], b.attr[j]);
        if m < |t.smalls| then AsSmall(m)
        else
          var l := FirstStamp(t.wides, 0, src[j], b.fg[j], b.attr[j]);
          if l < |t.wides| then AsWide(l)
          else
            var k := FirstBlock(t.blocks, 0, src[j], b.fg[j]);
            if k < |t.blocks| then AsBlock(k) else Nothing
  }

  /** The cell of a part of the entry anchored in cell `j`. */
  function PlaceOf(part: Part, w: nat, j: nat): nat {
    j + part.dy * w + part.dx
  }

  /** Claiming the first `n` parts of the entry anchored in cell `j`. */
  function ClaimParts(s: Cells, w: nat, j: nat, parts: seq<Part>, n: nat): (r: Cells)
    requires |s.src| == |s.dst| && n <= |parts|
    ensures |r.src| == |r.dst| == |s.src|
  {
    if n == 0 then s else ClaimPart(ClaimParts(s, w, j, parts, n - 1), w, j, parts[n - 1])
  }

  function ClaimPart(s: Cells, w: nat, j: nat, part: Part): (r: Cells)
    requires |s.src| == |s.dst|
    ensures |r.src| == |r.dst| == |s.src|
  {
    var pos := PlaceOf(part, w, j);
    if part.tile != NO_TILE && pos < |s.src| && s.src[pos] == part.tile
    then Cells(s.src[pos := HANDLED], s.dst[pos := part.put])
    else s
  }

  /** The anchor in cell `j`, if the scan finds one there. */
  function AnchorAt(t: Tables, b: Board, s: Cells, j: nat): (a: Anchor)
    requires Valid(t) && Square(b, |s.src|) && j < |s.src|
    ensures InTables(t, a)
  {
    if s.src[j] == NO_TILE then Nothing else Choose(t, b, s.src, j)
  }

  function Step(t: Tables, b: Board, s: Cells, j: nat): (r: Cells)
    requires Valid(t) && Square(b, |s.src|) && |s.src| == |s.dst| && j < |s.src|
    ensures |r.src| == |r.dst| == |s.src|
  {
    var a := AnchorAt(t, b, s, j);
    if a.Nothing? then s
    else
      var parts := PartsOf(t, a);
      ClaimParts(Cells(s.src, s.dst[j := CodeOf(t, a)]), b.w, j, parts, |parts|)
  }

  /** The buffers after scanning the first `n` cells. */
  function Scanned(t: Tables, b: Board, n: nat): (s: Cells)
    requires Valid(t) && Square(b, |b.bg|) && n <= |b.bg|
    ensures |s.src| == |s.dst| == |b.bg|
  {
    if n == 0 then Cells(b.bg, Repeat(EMPTY, |b.bg|)) else Step(t, b, Scanned(t, b, n - 1), n - 1)
  }
}
