/** Writing a Word Rescue level. */
module WordRescueWrite {
  import opened Bytes
  import opened Grid
  import opened WordRescueRle
  import opened WordRescue

  /** The drip frequency written for every drip: continuous. */
  const DRIP_FREQUENCY := 0x44

  /** The items among the first `n` that have the code, in order. */
  function WithCode(items: seq<Item>, code: int, n: nat): (r: seq<Item>)
    requires n <= |items|
    ensures |r| <= n && forall k :: 0 <= k < |r| ==> r[k].code == code && r[k] in items
  {
    if n == 0 then []
    else if items[n - 1].code == code then WithCode(items, code, n - 1) + [items[n - 1]]
    else WithCode(items, code, n - 1)
  }

  /** The last item among the first `n` that has the code; one at the origin if there is none. */
  function LastWith(items: seq<Item>, code: int, n: nat): (r: Item)
    requires n <= |items|
    ensures r.code == code && (r == Item(0, 0, code) || r in items)
  {
    if n == 0 then Item(0, 0, code)
    else if items[n - 1].code == code then items[n - 1]
    else LastWith(items, code, n - 1)
  }

  function All(items: seq<Item>, code: int): seq<Item> {
    WithCode(items, code, |items|)
  }

  function Last(items: seq<Item>, code: int): Item {
    LastWith(items, code, |items|)
  }

  function Letters(items: seq<Item>, n: nat): (r: seq<Item>)
    requires n <= |items|
    ensures |r| == NUM_LETTERS
  {
    seq(NUM_LETTERS, k requires 0 <= k < NUM_LETTERS => LastWith(items, CODE_LETTER + k, n))
  }

  lemma LettersInOrder(items: seq<Item>, n: nat)
    requires n <= |items|
    ensures forall k :: 0 <= k < NUM_LETTERS ==> Letters(items, n)[k].code == CODE_LETTER + k
  {
    forall k | 0 <= k < NUM_LETTERS ensures Letters(items, n)[k].code == CODE_LETTER + k {
      assert Letters(items, n)[k] == LastWith(items, CODE_LETTER + k, n);
    }
  }

  /** Sorts the fine items into their kinds. */
  method SplitFine(items: seq<Item>) returns (gruzzles: seq<Item>, drips: seq<Item>, start: Item, end: Item)
    ensures gruzzles == All(items, CODE_GRUZZLE) && drips == All(items, CODE_DRIP)
    ensures start == Last(items, CODE_ENTRANCE) && end == Last(items, CODE_EXIT)
  {
    gruzzles, drips := [], [];
    start, end := Item(0, 0, CODE_ENTRANCE), Item(0, 0, CODE_EXIT);
    for i := 0 to |items|
      invariant gruzzles == WithCode(items, CODE_GRUZZLE, i) && drips == WithCode(items, CODE_DRIP, i)
      invariant start == LastWith(items, CODE_ENTRANCE, i) && end == LastWith(items, CODE_EXIT, i)
    {
      var it := items[i];
      if it.code == CODE_GRUZZLE {
        gruzzles := gruzzles + [it];
      } else if it.code == CODE_DRIP {
        drips := drips + [it];
      } else if it.code == CODE_ENTRANCE {
        start := it;
      } else if it.code == CODE_EXIT {
        end := it;
      }
    }
  }

  /** Sorts the coarse items into their kinds; each letter keeps the last place given for it. */
  method SplitCoarse(items: seq<Item>)
    returns (slimes: seq<Item>, books: seq<Item>, letters: seq<Item>, anims: seq<Item>, fgs: seq<Item>)
    ensures slimes == All(items, CODE_SLIME) && books == All(items, CODE_BOOK)
    ensures anims == All(items, CODE_ANIM) && fgs == All(items, CODE_FG)
    ensures letters == Letters(items, |items|)
  {
    slimes, books, anims, fgs := [], [], [], [];
    letters := seq(NUM_LETTERS, k => Item(0, 0, CODE_LETTER + k));
    for i := 0 to |items|
      invariant slimes == WithCode(items, CODE_SLIME, i) && books == WithCode(items, CODE_BOOK, i)
      invariant anims == WithCode(items, CODE_ANIM, i) && fgs == WithCode(items, CODE_FG, i)
      invariant |letters| == NUM_LETTERS
      invariant forall k :: 0 <= k < NUM_LETTERS ==> letters[k] == LastWith(items, CODE_LETTER + k, i)
    {
      var it := items[i];
      if it.code == CODE_SLIME {
        slimes := slimes + [it];
      } else if it.code == CODE_BOOK {
        books := books + [it];
      } else if CODE_LETTER <= it.code < CODE_LETTER + NUM_LETTERS {
        letters := letters[it.code - CODE_LETTER := it];
      } else if it.code == CODE_ANIM {
        anims := anims + [it];
      } else if it.code == CODE_FG {
        fgs := fgs + [it];
      }
    }
  }

  // The words of the file

  function PointWords(it: Item, drip: bool): seq<int> {
    if drip then [it.x, it.y, DRIP_FREQUENCY] else [it.x, it.y]
  }

  function PointsWords(items: seq<Item>, drip: bool, n: nat): (ws: seq<int>)
    requires n <= |items|
    ensures |ws| == (if drip then 3 else 2) * n
  {
    if n == 0 then [] else PointsWords(items, drip, n - 1) + PointWords(items[n - 1], drip)
  }

  /** The block of a kind of item: its count and its points. */
  function BlockWords(items: seq<Item>, drip: bool): seq<int> {
    [|items|] + PointsWords(items, drip, |items|)
  }

  function HeaderWords(m: Map): (ws: seq<int>)
    ensures |ws| == 9
  {
    var start, end := Last(m.fine, CODE_ENTRANCE), Last(m.fine, CODE_EXIT);
    [m.width, m.height, m.bgColour, m.tileset + 1, m.backdrop, start.x, start.y, end.x, end.y]
  }

  function FineWords(m: Map): seq<int> {
    BlockWords(All(m.fine, CODE_GRUZZLE), false) + BlockWords(All(m.fine, CODE_DRIP), true)
  }

  function CoarseWords(m: Map): seq<int> {
    BlockWords(All(m.coarse, CODE_SLIME), false) + BlockWords(All(m.coarse, CODE_BOOK), false)
    + PointsWords(Letters(m.coarse, |m.coarse|), false, NUM_LETTERS)
    + BlockWords(All(m.coarse, CODE_ANIM), false) + BlockWords(All(m.coarse, CODE_FG), false)
  }

  function FileWords(m: Map): seq<int> {
    HeaderWords(m) + FineWords(m) + CoarseWords(m)
  }

  predicate WordItems(items: seq<Item>) {
    IsWord(|items|) && forall k :: 0 <= k < |items| ==> IsWord(items[k].x) && IsWord(items[k].y)
  }

  /**
   * What `write` asks of a level: sizes, counts, coordinates and attributes that fit their
   * fields, and every item that passes its bounds checks in its buffers.
   */
  predicate Writable(m: Map) {
    && 0 < m.width < 0x1_0000 && 0 < m.height < 0x1_0000 && 2 * m.width * (2 * m.height) < 0x8000_0000
    && IsWord(m.bgColour) && 0 <= m.tileset < 0xFFFF && IsWord(m.backdrop)
    && WordItems(m.fine) && WordItems(m.coarse)
    && Lands(m.bg, m.width, m.height, m.width * m.height)
    && Lands(AttrItems(m.attrs), 2 * m.width, 2 * m.height, 2 * m.width * (2 * m.height))
  }

  /** The sizes of the attribute layer fit the 16 bits that the reader has for them. */
  predicate AttrSizesFit(m: Map) {
    m.width < 0x8000 && m.height < 0x8000
  }

  lemma KindIsWords(items: seq<Item>, code: int)
    requires WordItems(items)
    ensures WordItems(All(items, code)) && IsWord(Last(items, code).x) && IsWord(Last(items, code).y)
  {
    var kind := All(items, code);
    forall k | 0 <= k < |kind| ensures IsWord(kind[k].x) && IsWord(kind[k].y) {
      assert kind[k] in items;
    }
  }

  lemma NoPoints(items: seq<Item>, drip: bool)
    ensures PointsWords(items, drip, 0) == []
  {
  }

  lemma OnePoint(start: seq<int>, items: seq<Item>, drip: bool, j: nat)
    requires j < |items|
    ensures start + PointsWords(items, drip, j + 1) ==
            start + PointsWords(items, drip, j) + [items[j].x] + [items[j].y] + (if drip then [DRIP_FREQUENCY] else [])
  {
  }

  /** Writes a block after the words already written. */
  method WriteBlock(head: seq<Byte>, ghost ws: seq<int>, items: seq<Item>, counted: bool, drip: bool)
    returns (out: seq<Byte>, ghost ws': seq<int>)
    requires AreWords(ws) && head == PrintWords(ws) && WordItems(items)
    ensures ws' == ws + (if counted then BlockWords(items, drip) else PointsWords(items, drip, |items|))
    ensures AreWords(ws') && out == PrintWords(ws')
  {
    hide PrintWords, PrintWord, PointsWords;
    out, ws' := head, ws;
    NoPoints(items, drip);
    if counted {
      PrintWordsAppend(ws, |items|);
      out := out + PrintWord(|items|);
      ws' := ws + [|items|];
    }
    ghost var start := ws';
    AddNothing(ws');
    for j := 0 to |items|
      invariant AreWords(ws') && out == PrintWords(ws')
      invariant ws' == start + PointsWords(items, drip, j)
    {
      var it := items[j];
      PrintWordsAppend(ws', it.x);
      PrintWordsAppend(ws' + [it.x], it.y);
      out := out + PrintWord(it.x) + PrintWord(it.y);
      ws' := ws' + [it.x] + [it.y];
      if drip {
        PrintWordsAppend(ws', DRIP_FREQUENCY);
        out := out + PrintWord(DRIP_FREQUENCY);
        ws' := ws' + [DRIP_FREQUENCY];
      }
      OnePoint(start, items, drip, j);
    }
  }

  // Layers

  /** No item lies outside the map, by the writer's check. */
  predicate NoneOutside(items: seq<Item>, w: nat, h: nat) {
    forall k :: 0 <= k < |items| ==> items[k].x <= w && items[k].y <= h
  }

  /** Lays the background out, or stops at the first tile outside the map. */
  method PlaceTiles(items: seq<Item>, w: nat, h: nat, tiles: array<Byte>) returns (ok: bool)
    requires tiles.Length == w * h
    requires Lands(items, w, h, w * h)
    modifies tiles
    ensures ok <==> NoneOutside(items, w, h)
    ensures ok ==> Fits(Narrow(items), w, w * h)
    ensures ok ==> Ints(tiles[..]) == Paint(old(Ints(tiles[..])), Narrow(items), w)
  {
    hide Ints, Paint, Narrow, Fits;
    ghost var start, all := Ints(tiles[..]), Narrow(items);
    NarrowPrefix(items, 0);
    NothingPainted(start, w);
    for k := 0 to |items|
      invariant NoneOutside(items[..k], w, h) && Fits(all[..k], w, w * h)
      invariant Ints(tiles[..]) == Paint(start, all[..k], w)
    {
      if items[k].x > w || items[k].y > h {
        return false;
      }
      PaintNext(start, items, k, w);
      SetByte(tiles[..], CellOf(items[k], w), (items[k].code % 0x100) as Byte);
      tiles[CellOf(items[k], w)] := (items[k].code % 0x100) as Byte;
    }
    NarrowPrefix(items, |items|);
    return true;
  }

  /** The byte for an attribute: solid ones are told apart by their flags alone. */
  function AttrCode(a: Attr): int {
    if a.blocking && a.flags != 0 then
      if a.flags / JUMP_DOWN % 2 == 1 then PLATFORM else SOLID
    else a.code % 0x1_0000
  }

  /** Where the writer puts the first `n` attributes; those in column zero are skipped. */
  function Placed(attrs: seq<Attr>, n: nat): seq<Item>
    requires n <= |attrs|
  {
    if n == 0 then []
    else if attrs[n - 1].x < 1 then Placed(attrs, n - 1)
    else Placed(attrs, n - 1) + [Item(attrs[n - 1].x - 1, attrs[n - 1].y, AttrCode(attrs[n - 1]))]
  }

  function AttrItems(attrs: seq<Attr>): seq<Item> {
    Placed(attrs, |attrs|)
  }

  lemma NarrowMore(items: seq<Item>, it: Item)
    ensures Narrow(items + [it]) == Narrow(items) + [it.(code := it.code % 0x100)]
  {
  }

  lemma NothingPlaced(attrs: seq<Attr>, start: seq<int>, w: nat)
    ensures Fits(Narrow(Placed(attrs, 0)), w, |start|) && start == Paint(start, Narrow(Placed(attrs, 0)), w)
  {
  }

  /** Lays the attributes out in a grid of twice the map's size. */
  method PlaceAttrs(attrs: seq<Attr>, w: nat, h: nat, grid: array<Byte>) returns (ok: bool)
    requires grid.Length == w * h
    requires Lands(AttrItems(attrs), w, h, w * h)
    modifies grid
    ensures ok <==> NoneOutside(AttrItems(attrs), w, h)
    ensures ok ==> Fits(Narrow(AttrItems(attrs)), w, w * h)
    ensures ok ==> Ints(grid[..]) == Paint(old(Ints(grid[..])), Narrow(AttrItems(attrs)), w)
  {
    hide AttrCode, Narrow, Paint, Fits, Ints;
    NothingPlaced(attrs, Ints(grid[..]), w);
    ghost var start := Ints(grid[..]);
    for k := 0 to |attrs|
      invariant NoneOutside(Placed(attrs, k), w, h) && Fits(Narrow(Placed(attrs, k)), w, w * h)
      invariant Ints(grid[..]) == Paint(start, Narrow(Placed(attrs, k)), w)
    {
      var code := AttrCode(attrs[k]);
      var xpos := attrs[k].x;
      if xpos < 1 {
        continue;
      }
      xpos := xpos - 1;
      ghost var it := Item(xpos, attrs[k].y, code);
      assert Placed(attrs, k + 1) == Placed(attrs, k) + [it];
      PlacedPrefix(attrs, k + 1, |attrs|);
      assert AttrItems(attrs)[|Placed(attrs, k)|] == Placed(attrs, k + 1)[|Placed(attrs, k)|] == it;
      if xpos > w || attrs[k].y > h {
        return false;
      }
      PaintAfter(start, Placed(attrs, k), it, w);
      var c := attrs[k].y * w + xpos;
      SetByte(grid[..], c, (code % 0x100) as Byte);
      grid[c] := (code % 0x100) as Byte;
    }
    return true;
  }

  lemma PaintAfter(start: seq<int>, items: seq<Item>, it: Item, w: nat)
    requires Fits(Narrow(items), w, |start|) && CellOf(it, w) < |start|
    ensures Fits(Narrow(items + [it]), w, |start|)
    ensures Paint(start, Narrow(items + [it]), w) == Paint(start, Narrow(items), w)[CellOf(it, w) := it.code % 0x100]
  {
    NarrowMore(items, it);
    var all := Narrow(items + [it]);
    assert all[..|items|] == Narrow(items);
  }

  lemma {:induction false} PlacedPrefix(attrs: seq<Attr>, m: nat, n: nat)
    requires m <= n <= |attrs|
    ensures Placed(attrs, m) <= Placed(attrs, n)
  {
    if m < n {
      PlacedPrefix(attrs, m, n - 1);
    }
  }

  /** The level can be written: nothing lies outside the map. */
  predicate InBounds(m: Map) {
    NoneOutside(m.bg, m.width, m.height) && NoneOutside(AttrItems(m.attrs), 2 * m.width, 2 * m.height)
  }

  /** The bytes of the two layers, before coding. */
  predicate LayerBytes(m: Map, tiles: seq<Byte>, attrs: seq<Byte>) {
    && |tiles| == m.width * m.height && |attrs| == (2 * m.width) * (2 * m.height)
    && Fits(Narrow(m.bg), m.width, |tiles|) && Fits(Narrow(AttrItems(m.attrs)), 2 * m.width, |attrs|)
    && Ints(tiles) == Paint(Repeat(DEFAULT_BGTILE, |tiles|), Narrow(m.bg), m.width)
    && Ints(attrs) == Paint(Repeat(DEFAULT_ATTILE, |attrs|), Narrow(AttrItems(m.attrs)), 2 * m.width)
  }

  function FileOf(m: Map, tiles: seq<Pair>, attrs: seq<Pair>): seq<Byte>
    requires AreWords(FileWords(m))
  {
    PrintWords(FileWords(m)) + PrintPairs(tiles) + PrintPairs(attrs)
  }

  /** `ps` is a shortest code for `data`. */
  ghost predicate CodeFor(ps: seq<Pair>, data: seq<Byte>) {
    Cells(ps) == data && Positive(ps) && |ps| == GreedyCount(data, 0)
  }

  /** The words before the layers. */
  method WriteItems(m: Map) returns (out: seq<Byte>)
    requires Writable(m)
    ensures AreWords(FileWords(m)) && out == PrintWords(FileWords(m))
  {
    hide PrintWords, BlockWords, PointsWords, WithCode, LastWith;
    var gruzzles, drips, start, end := SplitFine(m.fine);
    var slimes, books, letters, anims, fgs := SplitCoarse(m.coarse);
    KindIsWords(m.fine, CODE_GRUZZLE);
    KindIsWords(m.fine, CODE_DRIP);
    KindIsWords(m.fine, CODE_ENTRANCE);
    KindIsWords(m.fine, CODE_EXIT);
    KindIsWords(m.coarse, CODE_SLIME);
    KindIsWords(m.coarse, CODE_BOOK);
    KindIsWords(m.coarse, CODE_ANIM);
    KindIsWords(m.coarse, CODE_FG);
    LettersAreWords(m.coarse);
    var header := [m.width, m.height, m.bgColour, m.tileset + 1, m.backdrop, start.x, start.y, end.x, end.y];
    assert header == HeaderWords(m);
    out := PrintWords(header);
    ghost var ws := header;
    out, ws := WriteBlock(out, ws, gruzzles, true, false);
    out, ws := WriteBlock(out, ws, drips, true, true);
    out, ws := WriteBlock(out, ws, slimes, true, false);
    out, ws := WriteBlock(out, ws, books, true, false);
    out, ws := WriteBlock(out, ws, letters, false, false);
    out, ws := WriteBlock(out, ws, anims, true, false);
    out, ws := WriteBlock(out, ws, fgs, true, false);
    WordsInOrder(m);
  }

  lemma LettersAreWords(items: seq<Item>)
    requires WordItems(items)
    ensures WordItems(Letters(items, |items|))
  {
    hide WithCode, LastWith;
    var letters := Letters(items, |items|);
    forall k | 0 <= k < NUM_LETTERS ensures IsWord(letters[k].x) && IsWord(letters[k].y) {
      KindIsWords(items, CODE_LETTER + k);
    }
  }

  lemma WordsInOrder(m: Map)
    ensures FileWords(m) ==
            HeaderWords(m) + BlockWords(All(m.fine, CODE_GRUZZLE), false) + BlockWords(All(m.fine, CODE_DRIP), true)
            + BlockWords(All(m.coarse, CODE_SLIME), false) + BlockWords(All(m.coarse, CODE_BOOK), false)
            + PointsWords(Letters(m.coarse, |m.coarse|), false, NUM_LETTERS)
            + BlockWords(All(m.coarse, CODE_ANIM), false) + BlockWords(All(m.coarse, CODE_FG), false)
  {
    hide HeaderWords, BlockWords, PointsWords, All, Letters;
    var fine := BlockWords(All(m.fine, CODE_GRUZZLE), false) + BlockWords(All(m.fine, CODE_DRIP), true);
    assert HeaderWords(m) + fine == HeaderWords(m) + BlockWords(All(m.fine, CODE_GRUZZLE), false) + BlockWords(All(m.fine, CODE_DRIP), true);
  }

  method Write(m: Map) returns (r: Result<seq<Byte>>, ghost tiles: seq<Pair>, ghost attrs: seq<Pair>,
                                ghost tileBytes: seq<Byte>, ghost attrBytes: seq<Byte>)
    requires Writable(m)
    ensures if InBounds(m) then
              && AreWords(FileWords(m)) && r == Ok(FileOf(m, tiles, attrs))
              && LayerBytes(m, tileBytes, attrBytes) && CodeFor(tiles, tileBytes) && CodeFor(attrs, attrBytes)
            else r == Err(OutsideMap)
  {
    hide PrintWords, FileWords, PrintPairs, Cells, GreedyCount, Positive, Placed, NoneOutside;
    tiles, attrs, tileBytes, attrBytes := [], [], [], [];
    var out := WriteItems(m);
    AreaPositive(m.width, m.height);
    AreaPositive(2 * m.width, 2 * m.height);
    var tileGrid := new Byte[m.width * m.height](_ => DEFAULT_BGTILE as Byte);
    assert Ints(tileGrid[..]) == Repeat(DEFAULT_BGTILE, m.width * m.height);
    var ok := PlaceTiles(m.bg, m.width, m.height, tileGrid);
    if !ok {
      return Err(OutsideMap), tiles, attrs, tileBytes, attrBytes;
    }
    var len;
    out, len, tiles := RleWrite(out, tileGrid[..]);
    tileBytes := tileGrid[..];
    var attrGrid := new Byte[(2 * m.width) * (2 * m.height)](_ => DEFAULT_ATTILE as Byte);
    assert Ints(attrGrid[..]) == Repeat(DEFAULT_ATTILE, (2 * m.width) * (2 * m.height));
    ok := PlaceAttrs(m.attrs, 2 * m.width, 2 * m.height, attrGrid);
    if !ok {
      return Err(OutsideMap), tiles, attrs, tileBytes, attrBytes;
    }
    out, len, attrs := RleWrite(out, attrGrid[..]);
    attrBytes := attrGrid[..];
    r := Ok(out);
  }

  lemma AreaPositive(w: nat, h: nat)
    requires w > 0 && h > 0
    ensures w * h > 0
  {
  }
}
