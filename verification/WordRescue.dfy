/** Opening a Word Rescue level. */
module WordRescue {
  import opened Bytes
  import opened Grid

  const DEFAULT_BGTILE := 0xFF
  const DEFAULT_ATTILE := 0x20
  const MAX_VALID_TILECODE := 240

  const CODE_GRUZZLE := 1
  const CODE_SLIME := 2
  const CODE_BOOK := 3
  const CODE_DRIP := 4
  const CODE_ANIM := 5
  const CODE_FG := 6
  const CODE_LETTER := 7
  const CODE_ENTRANCE := 0x1001
  const CODE_EXIT := 0x1002

  const NUM_LETTERS := 7

  const SOLID := 0x73
  const PLATFORM := 0x74

  /** The blocking flags the reader sets for the two solid attributes. */
  const BLOCK_ALL := 0x0F
  const BLOCK_TOP_JUMP_DOWN := 0x14
  const JUMP_DOWN := 0x10

  datatype Attr = Attr(x: nat, y: nat, code: int, blocking: bool, flags: nat)

  datatype Map = Map(width: nat, height: nat, bgColour: int, tileset: int, backdrop: int,
                     bg: seq<Item>, attrs: seq<Attr>, fine: seq<Item>, coarse: seq<Item>)

  // Item blocks

  /** `n` points of `stride` bytes each, from `at` on, all with the same code. */
  function PointsIn(f: seq<Byte>, at: nat, stride: nat, code: int, n: nat): (items: seq<Item>)
    requires stride >= 4 && at + stride * n <= |f|
    ensures |items| == n
  {
    if n == 0 then []
    else
      assert stride * (n - 1) + stride == stride * n;
      var p := at + stride * (n - 1);
      PointsIn(f, at, stride, code, n - 1) + [Item(WordAt(f, p), WordAt(f, p + 2), code)]
  }

  datatype Block = Block(items: seq<Item>, end: nat)

  /** A block that starts with its own count. */
  function CountedBlock(f: seq<Byte>, at: nat, stride: nat, code: int): Result<Block>
    requires stride >= 4
  {
    if at + 2 > |f| then Err(Truncated)
    else
      var n := WordAt(f, at);
      if at + 2 + stride * n > |f| then Err(Truncated)
      else Ok(Block(PointsIn(f, at + 2, stride, code, n), at + 2 + stride * n))
  }

  /** The letters: always seven, each with a code of its own. */
  function LettersIn(f: seq<Byte>, at: nat, n: nat): (items: seq<Item>)
    requires at + 4 * n <= |f|
    ensures |items| == n
  {
    if n == 0 then []
    else
      var p := at + 4 * (n - 1);
      LettersIn(f, at, n - 1) + [Item(WordAt(f, p), WordAt(f, p + 2), CODE_LETTER + n - 1)]
  }

  function LetterBlock(f: seq<Byte>, at: nat): Result<Block> {
    if at + 4 * NUM_LETTERS > |f| then Err(Truncated)
    else Ok(Block(LettersIn(f, at, NUM_LETTERS), at + 4 * NUM_LETTERS))
  }

  /** Offset of the first item block. */
  const BLOCKS_AT := 18

  /** The item layers, and where the background layer starts. */
  datatype Items = Items(fine: seq<Item>, coarse: seq<Item>, end: nat)

  function ParseItems(f: seq<Byte>): Result<Items> {
    var gruzzles :- CountedBlock(f, BLOCKS_AT, 4, CODE_GRUZZLE);
    var drips :- CountedBlock(f, gruzzles.end, 6, CODE_DRIP);
    var slimes :- CountedBlock(f, drips.end, 4, CODE_SLIME);
    var books :- CountedBlock(f, slimes.end, 4, CODE_BOOK);
    var letters :- LetterBlock(f, books.end);
    var anims :- CountedBlock(f, letters.end, 4, CODE_ANIM);
    var fgs :- CountedBlock(f, anims.end, 4, CODE_FG);
    Ok(Items(gruzzles.items + drips.items,
             slimes.items + books.items + letters.items + anims.items + fgs.items,
             fgs.end))
  }

  // Layers

  /** The cells read for a layer, where reading stopped, and whether the file ended first. */
  datatype Layer = Layer(cells: seq<Byte>, end: nat, cut: bool)

  /** Reads pairs until at least `n` cells are known. */
  function ReadLayer(f: seq<Byte>, pos: nat, n: int): Layer
    decreases |f| - pos
  {
    if n <= 0 then Layer([], pos, false)
    else if pos + 2 > |f| then Layer([], pos, true)
    else
      var rest := ReadLayer(f, pos + 2, n - f[pos] as int);
      Layer(Repeat(f[pos + 1], f[pos] as nat) + rest.cells, rest.end, rest.cut)
  }

  /** The items of a layer; a map without cells has none. */
  function LayerItems(cells: seq<Byte>, width: nat, blank: int): seq<Item> {
    if width == 0 then [] else Scan(Ints(cells), width, blank, |cells|)
  }

  /** An attribute as the reader presents it: one cell to the right, with flags for solid ones. */
  function AttrOf(it: Item): Attr {
    if it.code == SOLID then Attr(it.x + 1, it.y, it.code, true, BLOCK_ALL)
    else if it.code == PLATFORM then Attr(it.x + 1, it.y, it.code, true, BLOCK_TOP_JUMP_DOWN)
    else Attr(it.x + 1, it.y, it.code, false, 0)
  }

  function AttrsOf(items: seq<Item>): (attrs: seq<Attr>)
    ensures |attrs| == |items|
  {
    seq(|items|, k requires 0 <= k < |items| => AttrOf(items[k]))
  }

  /** Attribute cells are half the size of background cells; the product is kept in 16 bits. */
  function AttrSize(n: nat): nat {
    n * 2 % 0x1_0000
  }

  /** What a file holds, or how reading it fails. */
  function Parse(f: seq<Byte>): Result<Map> {
    if |f| < BLOCKS_AT then Err(Truncated)
    else
      var width, height := WordAt(f, 0), WordAt(f, 2);
      var items :- ParseItems(f);
      var bg := ReadLayer(f, items.end, width * height);
      if bg.cut then Err(Truncated)
      else
        var atWidth := AttrSize(width);
        var at := ReadLayer(f, bg.end, atWidth * AttrSize(height));
        var tileset := WordAt(f, 6);
        var ends := [Item(WordAt(f, 10), WordAt(f, 12), CODE_ENTRANCE), Item(WordAt(f, 14), WordAt(f, 16), CODE_EXIT)];
        Ok(Map(width, height, WordAt(f, 4), if tileset > 0 then tileset - 1 else tileset, WordAt(f, 8),
               LayerItems(bg.cells, width, DEFAULT_BGTILE),
               AttrsOf(LayerItems(at.cells, atWidth, DEFAULT_ATTILE)),
               items.fine + ends, items.coarse))
  }

  // The loops of `open`

  lemma StrideBound(stride: nat, i: nat, n: nat)
    requires i < n
    ensures stride * (i + 1) == stride * i + stride <= stride * n
  {
    assert stride * (i + 1) <= stride * n;
  }

  method ReadPoints(f: seq<Byte>, at: nat, stride: nat, code: int, items: seq<Item>) returns (r: Result<Block>)
    requires stride >= 4
    ensures var b := CountedBlock(f, at, stride, code);
            r == if b.Err? then b else Ok(Block(items + b.value.items, b.value.end))
  {
    if at + 2 > |f| {
      return Err(Truncated);
    }
    var count := WordAt(f, at);
    var pos, found := at + 2, [];
    for i := 0 to count
      invariant pos == at + 2 + stride * i <= |f|
      invariant found == PointsIn(f, at + 2, stride, code, i)
    {
      StrideBound(stride, i, count);
      if pos + stride > |f| {
        return Err(Truncated);
      }
      found := found + [Item(WordAt(f, pos), WordAt(f, pos + 2), code)];
      pos := pos + stride;
    }
    return Ok(Block(items + found, pos));
  }

  method ReadLetters(f: seq<Byte>, at: nat) returns (r: Result<Block>)
    ensures r == LetterBlock(f, at)
  {
    var pos, found := at, [];
    for i := 0 to NUM_LETTERS
      invariant pos == at + 4 * i && (i > 0 ==> pos <= |f|)
      invariant i > 0 ==> found == LettersIn(f, at, i)
      invariant i == 0 ==> found == []
    {
      if pos + 4 > |f| {
        return Err(Truncated);
      }
      found := found + [Item(WordAt(f, pos), WordAt(f, pos + 2), CODE_LETTER + i)];
      pos := pos + 4;
    }
    return Ok(Block(found, pos));
  }

  lemma {:induction false} SkipBlank(grid: seq<int>, w: nat, blank: int, i: nat, j: nat)
    requires w > 0 && i <= j <= |grid| && forall c :: i <= c < j ==> grid[c] == blank
    ensures Scan(grid, w, blank, j) == Scan(grid, w, blank, i)
  {
    if i < j {
      SkipBlank(grid, w, blank, i, j - 1);
    }
  }

  /** The items of `num` equal cells that follow `done`. */
  method AddRun(tiles: seq<Item>, i: nat, num: nat, code: Byte, width: nat, blank: int, ghost done: seq<Byte>)
    returns (r: seq<Item>)
    requires width > 0 && i == |done|
    requires tiles == LayerItems(done, width, blank)
    ensures r == LayerItems(done + Repeat(code, num), width, blank)
  {
    hide ItemAt;
    ghost var all := done + Repeat(code, num);
    ghost var grid := Ints(all);
    ScanPrefix(Ints(done), grid, width, blank, i);
    r := tiles;
    if code as int == blank {
      SkipBlank(grid, width, blank, i, i + num);
    } else {
      var n := 0;
      while n < num
        invariant n <= num && r == Scan(grid, width, blank, i + n)
      {
        assert grid[i + n] == code as int;
        r := r + [ItemAt(i + n, width, code as int)];
        n := n + 1;
      }
    }
  }

  /** The loop over a layer's pairs: it counts cells, and makes an item of each that is not blank. */
  method ReadTiles(f: seq<Byte>, at: nat, width: nat, numCells: nat, blank: int)
    returns (tiles: seq<Item>, pos: nat, cut: bool)
    requires numCells > 0 ==> width > 0
    ensures var layer := ReadLayer(f, at, numCells);
            tiles == LayerItems(layer.cells, width, blank) && pos == layer.end && cut == layer.cut
  {
    hide LayerItems;
    tiles, pos, cut := [], at, false;
    var i := 0;
    ghost var done: seq<Byte> := [];
    NoItems(width, blank);
    ghost var layer := ReadLayer(f, at, numCells);
    assert [] + layer.cells == layer.cells;
    while i < numCells
      invariant i == |done| && !cut && tiles == LayerItems(done, width, blank)
      invariant var rest := ReadLayer(f, pos, numCells - i);
                layer == Layer(done + rest.cells, rest.end, rest.cut)
      decreases |f| - pos
    {
      if pos + 2 > |f| {
        cut := true;
        AddNothing(done);
        return;
      }
      var num, code := f[pos] as int, f[pos + 1];
      tiles := AddRun(tiles, i, num, code, width, blank, done);
      Reassociate(done, Repeat(code, num), ReadLayer(f, pos + 2, numCells - i - num).cells);
      done := done + Repeat(code, num);
      i := i + num;
      pos := pos + 2;
    }
    AddNothing(done);
  }

  lemma NoItems(width: nat, blank: int)
    ensures LayerItems([], width, blank) == []
  {
  }

  /** Attribute cells; a file that ends early simply has no more of them. */
  method ReadAttributes(f: seq<Byte>, at: nat, width: nat, numCells: nat) returns (attrs: seq<Attr>)
    requires numCells > 0 ==> width > 0
    ensures attrs == AttrsOf(LayerItems(ReadLayer(f, at, numCells).cells, width, DEFAULT_ATTILE))
  {
    var tiles, pos, cut := ReadTiles(f, at, width, numCells, DEFAULT_ATTILE);
    attrs := [];
    for i := 0 to |tiles|
      invariant |attrs| == i && forall k :: 0 <= k < i ==> attrs[k] == AttrOf(tiles[k])
    {
      attrs := attrs + [AttrOf(tiles[i])];
    }
  }

  method Open(f: seq<Byte>) returns (r: Result<Map>)
    ensures r == Parse(f)
  {
    hide CountedBlock, LetterBlock, LayerItems, ReadLayer, AttrsOf, WordAt, AttrSize, ParseItems;
    if |f| < BLOCKS_AT {
      return Err(Truncated);
    }
    var mapWidth, mapHeight := WordAt(f, 0), WordAt(f, 2);
    var bgColour, tileset, backdrop := WordAt(f, 4), WordAt(f, 6), WordAt(f, 8);
    if tileset > 0 {
      tileset := tileset - 1;
    }
    var items := ReadItems(f);
    if items.Err? {
      return Err(items.error);
    }
    var items8 := items.value.fine + [Item(WordAt(f, 10), WordAt(f, 12), CODE_ENTRANCE), Item(WordAt(f, 14), WordAt(f, 16), CODE_EXIT)];
    var tiles, pos, cut := ReadTiles(f, items.value.end, mapWidth, mapWidth * mapHeight, DEFAULT_BGTILE);
    if cut {
      return Err(Truncated);
    }
    var atWidth, atHeight := AttrSize(mapWidth), AttrSize(mapHeight);
    var atItems := ReadAttributes(f, pos, atWidth, atWidth * atHeight);
    r := Ok(Map(mapWidth, mapHeight, bgColour, tileset, backdrop, tiles, atItems, items8, items.value.coarse));
  }

  /** The seven item blocks, one after the other. */
  method ReadItems(f: seq<Byte>) returns (r: Result<Items>)
    ensures r == ParseItems(f)
  {
    hide CountedBlock, LetterBlock;
    var b := ReadPoints(f, BLOCKS_AT, 4, CODE_GRUZZLE, []);
    if b.Err? {
      return Err(b.error);
    }
    var items8 := b.value.items;
    NothingBefore(CountedBlock(f, BLOCKS_AT, 4, CODE_GRUZZLE).value.items);
    b := ReadPoints(f, b.value.end, 6, CODE_DRIP, items8);
    if b.Err? {
      return Err(b.error);
    }
    items8 := b.value.items;
    ghost var slimesAt := b.value.end;
    b := ReadPoints(f, b.value.end, 4, CODE_SLIME, []);
    if b.Err? {
      return Err(b.error);
    }
    NothingBefore(CountedBlock(f, slimesAt, 4, CODE_SLIME).value.items);
    b := ReadPoints(f, b.value.end, 4, CODE_BOOK, b.value.items);
    if b.Err? {
      return Err(b.error);
    }
    var items16 := b.value.items;
    b := ReadLetters(f, b.value.end);
    if b.Err? {
      return Err(b.error);
    }
    items16 := items16 + b.value.items;
    b := ReadPoints(f, b.value.end, 4, CODE_ANIM, items16);
    if b.Err? {
      return Err(b.error);
    }
    b := ReadPoints(f, b.value.end, 4, CODE_FG, b.value.items);
    if b.Err? {
      return Err(b.error);
    }
    r := Ok(Items(items8, b.value.items, b.value.end));
  }

  lemma NothingBefore(items: seq<Item>)
    ensures [] + items == items
  {
  }
}
