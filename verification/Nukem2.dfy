/** Duke Nukem II levels: the whole file, from layers to bytes and back. */
module Nukem2 {
  import opened Bytes
  import opened Grid
  import opened Nukem2Rle
  import opened Nukem2Decode

  const NUM_SOLID_TILES := 1000
  const NUM_MASKED_TILES := 160
  const DEFAULT_BGTILE := 0

  /** What the writer keeps in its foreground buffer for a cell with no tile. */
  const NO_TILE := 0xFFFF

  /** Bytes before the actors, and the length of the three filenames at either end. */
  const HEADER_LEN := 47
  const NAMES_LEN := 39

  /** The most actors whose background offset still fits in the header. */
  const MAX_ACTORS := 10914

  /** A level. The filenames and flags are kept as the bytes the file has for them. */
  datatype Map = Map(width: nat, height: nat, bg: seq<Item>, fg: seq<Item>, actors: seq<Item>,
                     names: seq<Byte>, flags: Byte, altBack: Byte, zoneNames: seq<Byte>)

  // Cells

  /**
   * The word for a cell. The masks and shifts of the format act on separate bits, so that
   * "or" is addition: 0x8000, ten bits of background and five bits of foreground.
   */
  function CellWord(b: int, f: int): (w: int)
    requires 0 <= b < NUM_SOLID_TILES && (0 <= f < NUM_MASKED_TILES || f == NO_TILE)
    ensures IsWord(w)
  {
    if f == NO_TILE then b * 8
    else if b == DEFAULT_BGTILE then (f * 5 + NUM_SOLID_TILES) * 8
    else 0x8000 + b + f % 0x20 * 0x400
  }

  /** Bits 5 and 6 of a foreground code, which the word has no room for. */
  function CellExtra(b: int, f: int): (e: int)
    requires 0 <= b < NUM_SOLID_TILES && (0 <= f < NUM_MASKED_TILES || f == NO_TILE)
    ensures IsExtra(e)
  {
    if f == NO_TILE || b == DEFAULT_BGTILE then 0 else f / 0x20 % 4 * 0x20
  }

  function WordBg(v: int): int
    requires IsWord(v)
  {
    if v >= 0x8000 then v % 0x400
    else if v < NUM_SOLID_TILES * 8 then v / 8
    else DEFAULT_BGTILE
  }

  function WordFg(v: int, extra: int): int
    requires IsWord(v)
  {
    if v >= 0x8000 then v / 0x400 % 0x20 + extra
    else if v < NUM_SOLID_TILES * 8 then NO_TILE
    else (v / 8 - NUM_SOLID_TILES) / 5
  }

  /** What a foreground code becomes when its extra bits come back as `e`. */
  function SeenFg(b: int, f: int, e: int): int {
    if f == NO_TILE || b == DEFAULT_BGTILE then f else f % 0x20 + e
  }

  /** The three forms of a cell do not collide: the word alone gives back all but two bits. */
  lemma CellReadBack(b: int, f: int, e: int)
    requires 0 <= b < NUM_SOLID_TILES && (0 <= f < NUM_MASKED_TILES || f == NO_TILE)
    ensures WordBg(CellWord(b, f)) == b
    ensures WordFg(CellWord(b, f), e) == SeenFg(b, f, e)
  {
  }

  /** Four cells' extra bits in one byte. */
  function PackGroup(e0: int, e1: int, e2: int, e3: int): Byte
    requires IsExtra(e0) && IsExtra(e1) && IsExtra(e2) && IsExtra(e3)
  {
    (e0 / 32 + e1 / 8 + e2 / 2 + e3 * 2) as Byte
  }

  lemma Digits(n: int, q0: int, q1: int, q2: int, q3: int)
    requires 0 <= q0 < 4 && 0 <= q1 < 4 && 0 <= q2 < 4 && 0 <= q3 < 4
    requires n == q0 + 4 * (q1 + 4 * (q2 + 4 * q3))
    ensures n % 4 == q0 && n / 4 % 4 == q1 && n / 16 % 4 == q2 && n / 64 == q3
  {
    assert n / 4 == q1 + 4 * (q2 + 4 * q3);
    assert n / 16 == q2 + 4 * q3;
  }

  /** The shifts of an extra value by 5, 3 and 1 to the right and by 1 to the left. */
  lemma Shifts(e: int)
    requires IsExtra(e)
    ensures var q := e / 32; 0 <= q < 4 && q * 32 == e && e / 8 == 4 * q && e / 2 == 16 * q && e * 2 == 64 * q
  {
  }

  lemma UnpackGroup(e0: int, e1: int, e2: int, e3: int)
    requires IsExtra(e0) && IsExtra(e1) && IsExtra(e2) && IsExtra(e3)
    ensures var b := PackGroup(e0, e1, e2, e3);
            Field(b, 0) == e0 && Field(b, 1) == e1 && Field(b, 2) == e2 && Field(b, 3) == e3
  {
    Shifts(e0);
    Shifts(e1);
    Shifts(e2);
    Shifts(e3);
    hide IsExtra;
    Digits(PackGroup(e0, e1, e2, e3) as int, e0 / 32, e1 / 32, e2 / 32, e3 / 32);
  }

  predicate AreExtras(extra: seq<int>) {
    |extra| == NUM_TILES && forall c :: 0 <= c < NUM_TILES ==> IsExtra(extra[c])
  }

  function Packed(extra: seq<int>): (s: seq<Byte>)
    requires AreExtras(extra)
    ensures |s| == NUM_GROUPS
  {
    seq(NUM_GROUPS, k requires 0 <= k < NUM_GROUPS =>
      PackGroup(extra[4 * k], extra[4 * k + 1], extra[4 * k + 2], extra[4 * k + 3]))
  }

  /** Packing, coding, decoding and unpacking give back every value but the last two. */
  lemma ExtraReadBack(extra: seq<int>, codes: seq<Code>, c: nat)
    requires AreExtras(extra) && c < NUM_TILES
    requires Lossless(codes, Packed(extra))
    ensures Upper(Decoded(codes + [Run(0, 0)]), c) == if c < 4 * NUM_GROUPS then extra[c] else 0
  {
    hide Coded, Decoded, PackGroup, Field;
    Emit(codes, Run(0, 0));
    AddNothing(Decoded(codes));
    if c < 4 * NUM_GROUPS {
      var k := c / 4;
      assert Packed(extra)[k] == if k < |Decoded(codes)| then Decoded(codes)[k] else 0;
      UnpackGroup(extra[4 * k], extra[4 * k + 1], extra[4 * k + 2], extra[4 * k + 3]);
      ZeroField(c % 4);
      assert Field(Packed(extra)[k], c % 4) == extra[c] by {
        assert c % 4 == 0 || c % 4 == 1 || c % 4 == 2 || c % 4 == 3;
      }
    }
  }

  lemma ZeroField(k: nat)
    requires k < 4
    ensures Field(0, k) == 0
  {
  }

  // Layers

  /** What `write` asks of a level: its asserts, and codes that the format has. */
  predicate Writable(m: Map) {
    && 0 < m.width < 0x1_0000 && m.width * m.height < NUM_TILES
    && Inside(m.bg, m.width, m.height) && Inside(m.fg, m.width, m.height) && Inside(m.actors, m.width, m.height)
    && (forall k :: 0 <= k < |m.bg| ==> 0 <= m.bg[k].code < NUM_SOLID_TILES)
    && (forall k :: 0 <= k < |m.fg| ==> 0 <= m.fg[k].code < NUM_MASKED_TILES)
    && |m.actors| <= MAX_ACTORS
    && (forall k :: 0 <= k < |m.actors| ==> AreWords(ActorWords(m.actors[k])))
    && |m.names| == NAMES_LEN && |m.zoneNames| == NAMES_LEN
  }

  function ActorWords(a: Item): seq<int> {
    [a.code, a.x, a.y]
  }

  predicate IsBg(grid: seq<int>) {
    |grid| == NUM_TILES && forall c :: 0 <= c < NUM_TILES ==> 0 <= grid[c] < NUM_SOLID_TILES
  }

  predicate IsFg(grid: seq<int>) {
    |grid| == NUM_TILES && forall c :: 0 <= c < NUM_TILES ==> 0 <= grid[c] < NUM_MASKED_TILES || grid[c] == NO_TILE
  }

  lemma LayersFit(m: Map)
    requires Writable(m)
    ensures Fits(m.bg, m.width, NUM_TILES) && Fits(m.fg, m.width, NUM_TILES)
  {
    InsideFits(m.bg, m.width, m.height, NUM_TILES);
    InsideFits(m.fg, m.width, m.height, NUM_TILES);
  }

  /** The background buffer of the writer. */
  function BgGrid(m: Map): (grid: seq<int>)
    requires Writable(m)
    ensures IsBg(grid)
  {
    LayersFit(m);
    PaintedRange(Repeat(DEFAULT_BGTILE, NUM_TILES), m.bg, m.width, 0, NUM_SOLID_TILES);
    Paint(Repeat(DEFAULT_BGTILE, NUM_TILES), m.bg, m.width)
  }

  /** The foreground buffer of the writer. */
  function FgGrid(m: Map): (grid: seq<int>)
    requires Writable(m)
    ensures IsFg(grid)
  {
    LayersFit(m);
    FgRange(m.fg, m.width);
    Paint(Repeat(NO_TILE, NUM_TILES), m.fg, m.width)
  }

  lemma {:induction false} FgRange(items: seq<Item>, w: nat)
    requires Fits(items, w, NUM_TILES)
    requires forall k :: 0 <= k < |items| ==> 0 <= items[k].code < NUM_MASKED_TILES
    ensures IsFg(Paint(Repeat(NO_TILE, NUM_TILES), items, w))
  {
    if items != [] {
      FgRange(items[..|items| - 1], w);
    }
  }

  function CellWords(bg: seq<int>, fg: seq<int>): (ws: seq<int>)
    requires IsBg(bg) && IsFg(fg)
    ensures |ws| == NUM_TILES && AreWords(ws)
  {
    seq(NUM_TILES, c requires 0 <= c < NUM_TILES => CellWord(bg[c], fg[c]))
  }

  function CellExtras(bg: seq<int>, fg: seq<int>): (es: seq<int>)
    requires IsBg(bg) && IsFg(fg)
    ensures AreExtras(es)
  {
    seq(NUM_TILES, c requires 0 <= c < NUM_TILES => CellExtra(bg[c], fg[c]))
  }

  // The file

  function ActorsWords(actors: seq<Item>, n: nat): (ws: seq<int>)
    requires n <= |actors|
    ensures |ws| == 3 * n
  {
    if n == 0 then [] else ActorsWords(actors, n - 1) + ActorWords(actors[n - 1])
  }

  lemma {:induction false} ActorsAreWords(actors: seq<Item>, n: nat)
    requires n <= |actors| && forall k :: 0 <= k < |actors| ==> AreWords(ActorWords(actors[k]))
    ensures AreWords(ActorsWords(actors, n))
  {
    if n > 0 {
      ActorsAreWords(actors, n - 1);
    }
  }

  /** Offset of the map width, where the main layer starts. */
  function BgOffset(m: Map): nat {
    HEADER_LEN + 6 * |m.actors|
  }

  function Head(m: Map): (s: seq<Byte>)
    requires Writable(m)
    ensures |s| == 43
  {
    PrintWord(BgOffset(m)) + m.names + [m.flags, m.altBack]
  }

  /** All the words from the unknown field to the length of the coded section. */
  function FileWords(m: Map, lenExtra: int): (ws: seq<int>)
    requires Writable(m) && IsWord(lenExtra)
    ensures |ws| == 2 + 3 * |m.actors| + 1 + NUM_TILES + 1 && AreWords(ws)
  {
    ActorsAreWords(m.actors, |m.actors|);
    [0, 3 * |m.actors|] + ActorsWords(m.actors, |m.actors|) + [m.width] + CellWords(BgGrid(m), FgGrid(m)) + [lenExtra]
  }

  /** The file written for `m` when its coded section is `section`. */
  function FileOf(m: Map, section: seq<Byte>): seq<Byte>
    requires Writable(m) && IsWord(|section|)
  {
    Head(m) + PrintWords(FileWords(m, |section|)) + (section + m.zoneNames)
  }
}
