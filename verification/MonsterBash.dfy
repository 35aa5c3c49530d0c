/** Monster Bash background files: three layers in one 16-bit word a cell. */
module MonsterBash {
  import opened Bytes
  import opened Grid

  const TILE: bv16 := 0x1FF      // bits for the tile
  const ATTR: bv16 := 0xDE00     // bits for the attributes
  const POINT: bv16 := 0x2000    // bit for an interactive item
  const HEADER := 8
  const TILE_SIZE := 16

  /** What an item of the attribute layer says, apart from its place: what it blocks, and how one moves there. */
  datatype Flags = Flags(blocking: bool, left: bool, right: bool, top: bool, bottom: bool, slant: bool, movement: bool, limit: bool)

  datatype Attr = Attr(at: Item, flags: Flags)

  function Or(a: bv16, b: bv16): bv16 {
    a | b
  }

  function And(a: bv16, b: bv16): bv16 {
    a & b
  }

  /** A code cut to sixteen bits. */
  function ToWord(n: int): bv16 {
    if IsWord(n) then n as bv16 else (n % 0x1_0000) as bv16
  }

  function ToInt(w: bv16): (n: int)
    ensures IsWord(n)
  {
    w as int
  }

  function Bit(on: bool, mask: bv16): bv16 {
    if on then mask else 0
  }

  /** The bits that the writer merges in for an attribute. */
  function MaskOf(a: Flags): bv16 {
    (if a.blocking
     then Bit(a.left, 0x200) | Bit(a.right, 0x400) | Bit(a.top, 0x800) | Bit(a.bottom, 0x1000) | Bit(a.slant, 0x4000)
     else 0)
    | Bit(a.movement && a.limit, 0x8000)
  }

  /** The flags that the reader makes of a word. */
  function FlagsOf(word: bv16): Flags {
    Flags(true, word & 0x200 != 0, word & 0x400 != 0, word & 0x800 != 0, word & 0x1000 != 0, word & 0x4000 != 0,
          word & 0x8000 != 0, word & 0x8000 != 0)
  }

  /** Which bit stands for which flag, for the writer: sides count only if something is blocked, and movement only with a limit. */
  lemma MaskBits(a: Flags)
    ensures And(MaskOf(a), 0x21FF) == 0
    ensures And(MaskOf(a), 0x200) != 0 <==> a.blocking && a.left
    ensures And(MaskOf(a), 0x400) != 0 <==> a.blocking && a.right
    ensures And(MaskOf(a), 0x800) != 0 <==> a.blocking && a.top
    ensures And(MaskOf(a), 0x1000) != 0 <==> a.blocking && a.bottom
    ensures And(MaskOf(a), 0x4000) != 0 <==> a.blocking && a.slant
    ensures And(MaskOf(a), 0x8000) != 0 <==> a.movement && a.limit
  {
  }

  lemma FlagsReadBack(word: bv16)
    ensures MaskOf(FlagsOf(word)) == And(word, ATTR)
  {
  }

  /** The three layers share out all sixteen bits. */
  lemma BitsShared(word: bv16)
    ensures Or(Or(And(word, TILE), And(word, ATTR)), And(word, POINT)) == word
  {
  }

  lemma WordKept(word: bv16)
    ensures ToWord(ToInt(word)) == word
  {
  }

  datatype Layers = Layers(tiles: seq<Item>, attrs: seq<Attr>, points: seq<Item>)

  datatype Map = Map(width: nat, height: nat, layers: Layers)

  // Reading

  /** The layers of the first `n` words. */
  function Split(words: seq<bv16>, w: nat, n: nat): Layers
    requires w > 0 && n <= |words|
  {
    if n == 0 then Layers([], [], [])
    else
      var l := Split(words, w, n - 1);
      AddCell(l, words[n - 1], ItemAt(n - 1, w, 0))
  }

  /** What one word adds to the layers. */
  function AddCell(l: Layers, word: bv16, at: Item): Layers {
    Layers(
      if And(word, TILE) != 0 then l.tiles + [at.(code := ToInt(And(word, TILE)))] else l.tiles,
      if And(word, ATTR) != 0 then l.attrs + [Attr(at.(code := ToInt(And(word, ATTR) >> 9)), FlagsOf(word))] else l.attrs,
      if And(word, POINT) != 0 then l.points + [at.(code := 1)] else l.points)
  }

  function WordsIn(f: seq<Byte>): (ws: seq<bv16>)
    ensures |f| >= HEADER ==> |ws| == (|f| - HEADER) / 2
  {
    if |f| < HEADER then []
    else seq((|f| - HEADER) / 2, i requires 0 <= i < (|f| - HEADER) / 2 => ToWord(WordAt(f, HEADER + 2 * i)))
  }

  function WidthIn(f: seq<Byte>): nat
    requires |f| >= HEADER
  {
    WordAt(f, 2) / 2
  }

  function HeightIn(f: seq<Byte>): nat
    requires |f| >= HEADER
  {
    WordAt(f, 6) / TILE_SIZE
  }

  function Cells(w: nat, h: nat): nat {
    w * h
  }

  /** How many cells are read: those of the map, as far as the file goes. */
  function CellsRead(f: seq<Byte>): (n: nat)
    requires |f| >= HEADER
    ensures n <= |WordsIn(f)|
  {
    var cells := Cells(WidthIn(f), HeightIn(f));
    if cells <= |WordsIn(f)| then cells else |WordsIn(f)|
  }

  function Meaning(f: seq<Byte>): Result<Map> {
    if |f| < HEADER + 2 then Err(Truncated)
    else
      var w := WidthIn(f);
      Ok(Map(w, HeightIn(f), if w == 0 then Layers([], [], []) else Split(WordsIn(f), w, CellsRead(f))))
  }

  /** Reads the cells of one row, or as many as there are left. */
  method ReadRow(f: seq<Byte>, w: nat, start: nat, before: Layers) returns (l: Layers, c: nat)
    requires |f| >= HEADER && w > 0 && start <= |WordsIn(f)| && before == Split(WordsIn(f), w, start)
    ensures c == (if start + w <= |WordsIn(f)| then start + w else |WordsIn(f)|)
    ensures l == Split(WordsIn(f), w, c)
  {
    hide AddCell, ItemAt, WordAt, ToWord;
    l, c := before, start;
    var x := 0;
    while x < w && |f| - HEADER - 2 * c >= 2
      invariant 0 <= x <= w && c == start + x <= |WordsIn(f)| && l == Split(WordsIn(f), w, c)
    {
      var word := ToWord(WordAt(f, HEADER + 2 * c));
      l := AddCell(l, word, ItemAt(c, w, 0));
      c := c + 1;
      x := x + 1;
    }
  }

  method Open(f: seq<Byte>) returns (r: Result<Map>)
    ensures r == Meaning(f)
  {
    hide Split, WordsIn, WordAt;
    if |f| < HEADER + 2 {
      return Err(Truncated);
    }
    var mapWidth, mapHeight := WidthIn(f), HeightIn(f);
    var l := Layers([], [], []);
    if mapWidth == 0 {
      return Ok(Map(mapWidth, mapHeight, l));
    }
    NothingSplit(WordsIn(f), mapWidth);
    var c := 0;
    ghost var cells := 0;
    for y := 0 to mapHeight
      invariant cells == mapWidth * y && c == (if cells <= |WordsIn(f)| then cells else |WordsIn(f)|)
      invariant l == Split(WordsIn(f), mapWidth, c)
    {
      l, c := ReadRow(f, mapWidth, c, l);
      cells := cells + mapWidth;
      NextRow(mapWidth, y);
      if |f| - HEADER - 2 * c < 2 {
        RowsApart(y, mapHeight, mapWidth);
        break;
      }
    }
    return Ok(Map(mapWidth, mapHeight, l));
  }

  lemma NextRow(w: nat, y: nat)
    ensures w * (y + 1) == w * y + w
  {
  }

  lemma NothingSplit(words: seq<bv16>, w: nat)
    requires w > 0
    ensures Split(words, w, 0) == Layers([], [], [])
  {
  }

  // Writing

  predicate Outside(items: seq<Item>, w: nat, h: nat) {
    exists k :: 0 <= k < |items| && (items[k].x > w || items[k].y > h)
  }

  /** The error for items outside counts all of them, the first one too, but not those one column or row past the edges. */
  lemma OutsideExactly(items: seq<Item>, w: nat, h: nat)
    ensures Outside(items, w, h) <==> exists it :: it in items && (it.x > w || it.y > h)
  {
    if it: Item :| it in items && (it.x > w || it.y > h) {
      var k :| 0 <= k < |items| && items[k] == it;
    }
  }

  function Places(attrs: seq<Attr>): (r: seq<Item>)
    ensures |r| == |attrs|
  {
    seq(|attrs|, k requires 0 <= k < |attrs| => attrs[k].at)
  }

  /** What the writer's buffer demands. */
  predicate Writable(m: Map) {
    var cells := m.width * m.height;
    && Lands(m.layers.tiles, m.width, m.height, cells) && Lands(Places(m.layers.attrs), m.width, m.height, cells)
    && Lands(m.layers.points, m.width, m.height, cells)
  }

  /** The word of cell `c` after the first `n` tiles, which overwrite it. */
  function TileWord(items: seq<Item>, n: nat, w: nat, c: nat): bv16
    requires n <= |items|
  {
    if n == 0 then 0
    else if CellOf(items[n - 1], w) == c then ToWord(items[n - 1].code)
    else TileWord(items, n - 1, w, c)
  }

  /** The bits that the first `n` attributes merge into cell `c`. */
  function AttrWord(attrs: seq<Attr>, n: nat, w: nat, c: nat): bv16
    requires n <= |attrs|
  {
    if n == 0 then 0
    else if CellOf(attrs[n - 1].at, w) == c then Or(AttrWord(attrs, n - 1, w, c), MaskOf(attrs[n - 1].flags))
    else AttrWord(attrs, n - 1, w, c)
  }

  /** The bit that the first `n` interactive items merge into cell `c`; items outside the map are passed over. */
  function PointWord(items: seq<Item>, n: nat, w: nat, h: nat, c: nat): bv16
    requires n <= |items|
  {
    if n == 0 then 0
    else if items[n - 1].x <= w && items[n - 1].y <= h && CellOf(items[n - 1], w) == c
    then Or(PointWord(items, n - 1, w, h, c), POINT)
    else PointWord(items, n - 1, w, h, c)
  }

  function Merged(l: Layers, w: nat, h: nat, c: nat): bv16 {
    Or(Or(TileWord(l.tiles, |l.tiles|, w, c), AttrWord(l.attrs, |l.attrs|, w, c)), PointWord(l.points, |l.points|, w, h, c))
  }

  /** The words of the map, cell by cell. */
  function MergedWords(m: Map): (r: seq<bv16>)
    ensures |r| == m.width * m.height
  {
    seq(m.width * m.height, c requires 0 <= c < m.width * m.height => Merged(m.layers, m.width, m.height, c))
  }

  method PutTiles(bgdata: array<bv16>, items: seq<Item>, w: nat, h: nat) returns (outside: bool)
    requires Lands(items, w, h, w * h) && bgdata.Length == w * h && forall c :: 0 <= c < bgdata.Length ==> bgdata[c] == 0
    modifies bgdata
    ensures outside == Outside(items, w, h)
    ensures !outside ==> forall c :: 0 <= c < bgdata.Length ==> bgdata[c] == TileWord(items, |items|, w, c)
  {
    for k := 0 to |items|
      invariant forall j :: 0 <= j < k ==> items[j].x <= w && items[j].y <= h
      invariant forall c :: 0 <= c < bgdata.Length ==> bgdata[c] == TileWord(items, k, w, c)
    {
      var i := items[k];
      if i.x > w || i.y > h {
        return true;
      }
      bgdata[i.y * w + i.x] := ToWord(i.code);
    }
    return false;
  }

  lemma OrMore(v: bv16, a: bv16, mask: bv16)
    ensures Or(v, Or(a, mask)) == Or(Or(v, a), mask)
  {
  }

  lemma AttrStep(v: bv16, attrs: seq<Attr>, k: nat, w: nat, c: nat)
    requires k < |attrs|
    ensures Or(v, AttrWord(attrs, k + 1, w, c)) ==
            if CellOf(attrs[k].at, w) == c then Or(Or(v, AttrWord(attrs, k, w, c)), MaskOf(attrs[k].flags))
            else Or(v, AttrWord(attrs, k, w, c))
  {
    hide MaskOf, Or;
    OrMore(v, AttrWord(attrs, k, w, c), MaskOf(attrs[k].flags));
  }

  method MergeAttrs(bgdata: array<bv16>, attrs: seq<Attr>, w: nat, h: nat) returns (outside: bool)
    requires Lands(Places(attrs), w, h, w * h) && bgdata.Length == w * h
    modifies bgdata
    ensures outside == Outside(Places(attrs), w, h)
    ensures !outside ==> forall c :: 0 <= c < bgdata.Length ==> bgdata[c] == Or(old(bgdata[c]), AttrWord(attrs, |attrs|, w, c))
  {
    hide MaskOf, AttrWord, Or;
    ghost var start := bgdata[..];
    NoAttrs(start, attrs, w);
    for k := 0 to |attrs|
      invariant forall j :: 0 <= j < k ==> attrs[j].at.x <= w && attrs[j].at.y <= h
      invariant forall c :: 0 <= c < bgdata.Length ==> bgdata[c] == Or(start[c], AttrWord(attrs, k, w, c))
    {
      var ta := attrs[k].at;
      assert Places(attrs)[k] == ta;
      if ta.x > w || ta.y > h {
        return true;
      }
      forall c | 0 <= c < bgdata.Length
        ensures Or(start[c], AttrWord(attrs, k + 1, w, c)) == if CellOf(ta, w) == c then Or(bgdata[c], MaskOf(attrs[k].flags)) else bgdata[c]
      {
        AttrStep(start[c], attrs, k, w, c);
      }
      bgdata[ta.y * w + ta.x] := Or(bgdata[ta.y * w + ta.x], MaskOf(attrs[k].flags));
    }
    return false;
  }

  lemma NoAttrs(start: seq<bv16>, attrs: seq<Attr>, w: nat)
    ensures forall c :: 0 <= c < |start| ==> start[c] == Or(start[c], AttrWord(attrs, 0, w, c))
  {
  }

  lemma PointStep(v: bv16, items: seq<Item>, k: nat, w: nat, h: nat, c: nat)
    requires k < |items|
    ensures Or(v, PointWord(items, k + 1, w, h, c)) ==
            if items[k].x <= w && items[k].y <= h && CellOf(items[k], w) == c
            then Or(Or(v, PointWord(items, k, w, h, c)), POINT) else Or(v, PointWord(items, k, w, h, c))
  {
    hide Or;
    OrMore(v, PointWord(items, k, w, h, c), POINT);
  }

  method MergePoints(bgdata: array<bv16>, items: seq<Item>, w: nat, h: nat)
    requires Lands(items, w, h, w * h) && bgdata.Length == w * h
    modifies bgdata
    ensures forall c :: 0 <= c < bgdata.Length ==> bgdata[c] == Or(old(bgdata[c]), PointWord(items, |items|, w, h, c))
  {
    hide PointWord, Or;
    ghost var start := bgdata[..];
    NoPoints(start, items, w, h);
    for k := 0 to |items|
      invariant forall c :: 0 <= c < bgdata.Length ==> bgdata[c] == Or(start[c], PointWord(items, k, w, h, c))
    {
      var i := items[k];
      forall c | 0 <= c < bgdata.Length
        ensures Or(start[c], PointWord(items, k + 1, w, h, c)) ==
                if i.x <= w && i.y <= h && CellOf(i, w) == c then Or(bgdata[c], POINT) else bgdata[c]
      {
        PointStep(start[c], items, k, w, h, c);
      }
      if i.x <= w && i.y <= h {
        bgdata[i.y * w + i.x] := Or(bgdata[i.y * w + i.x], POINT);
      }
    }
  }

  lemma NoPoints(start: seq<bv16>, items: seq<Item>, w: nat, h: nat)
    ensures forall c :: 0 <= c < |start| ==> start[c] == Or(start[c], PointWord(items, 0, w, h, c))
  {
  }

  /** The four words before the map; sizes are cut to sixteen bits. */
  function HeaderWords(w: nat, h: nat): (r: seq<int>)
    ensures |r| == 4 && AreWords(r)
  {
    [(h * (TILE_SIZE * TILE_SIZE) + w) % 0x1_0000, w * 2 % 0x1_0000, w * TILE_SIZE % 0x1_0000, h * TILE_SIZE % 0x1_0000]
  }

  function AsInts(words: seq<bv16>): (r: seq<int>)
    ensures |r| == |words| && AreWords(r)
  {
    seq(|words|, i requires 0 <= i < |words| => ToInt(words[i]))
  }

  function FileOf(m: Map): seq<Byte> {
    PrintWords(HeaderWords(m.width, m.height)) + PrintWords(AsInts(MergedWords(m)))
  }

  method WriteBackground(m: Map) returns (r: Result<seq<Byte>>)
    requires Writable(m)
    ensures r == if Outside(m.layers.tiles, m.width, m.height) || Outside(Places(m.layers.attrs), m.width, m.height)
                 then Err(OutsideMap) else Ok(FileOf(m))
  {
    hide TileWord, AttrWord, PointWord, Outside, Lands, PrintWords, PrintWord, Or, ToInt;
    var lenBG := m.width * m.height;
    var bgdata := new bv16[lenBG](_ => 0);
    var outside := PutTiles(bgdata, m.layers.tiles, m.width, m.height);
    if outside {
      return Err(OutsideMap);
    }
    outside := MergeAttrs(bgdata, m.layers.attrs, m.width, m.height);
    if outside {
      return Err(OutsideMap);
    }
    MergePoints(bgdata, m.layers.points, m.width, m.height);
    assert bgdata[..] == MergedWords(m);
    var f := PrintGrid(PrintWords(HeaderWords(m.width, m.height)), bgdata);
    return Ok(f);
  }

  method PrintGrid(head: seq<Byte>, bgdata: array<bv16>) returns (f: seq<Byte>)
    ensures f == head + PrintWords(AsInts(bgdata[..]))
  {
    hide PrintWords, PrintWord, ToInt, AsInts;
    ghost var words := AsInts(bgdata[..]);
    f := head;
    NothingPrinted(f, words);
    for i := 0 to bgdata.Length
      invariant AreWords(words[..i]) && f == head + PrintWords(words[..i])
    {
      TakeNext(words, i);
      AsIntAt(bgdata[..], i);
      WriteWord(head, words[..i], words[i]);
      f := f + PrintWord(ToInt(bgdata[i]));
    }
    assert words[..bgdata.Length] == words;
  }

  lemma AsIntAt(words: seq<bv16>, i: nat)
    requires i < |words|
    ensures AsInts(words)[i] == ToInt(words[i])
  {
  }

  lemma NothingPrinted(f: seq<Byte>, words: seq<int>)
    ensures AreWords(words[..0]) && f + PrintWords(words[..0]) == f
  {
  }

  // What comes back

  /** The three layers of a grid, merged again, give back each of its words. */
  lemma {:induction false} MergeUndoesSplit(words: seq<bv16>, w: nat, h: nat, n: nat, c: nat)
    requires w > 0 && n <= |words| && |words| == w * h && c < |words|
    ensures var l := Split(words, w, n);
            && TileWord(l.tiles, |l.tiles|, w, c) == (if c < n then And(words[c], TILE) else 0)
            && AttrWord(l.attrs, |l.attrs|, w, c) == (if c < n then And(words[c], ATTR) else 0)
            && PointWord(l.points, |l.points|, w, h, c) == (if c < n then And(words[c], POINT) else 0)
  {
    hide AddCell, TileWord, AttrWord, PointWord, ItemAt, Or, And;
    NothingMerged(w, h, c);
    if n > 0 {
      MergeUndoesSplit(words, w, h, n - 1, c);
      var l, at := Split(words, w, n - 1), ItemAt(n - 1, w, 0);
      CellPlace(w, h, n - 1);
      AddedTile(l, words[n - 1], at, w, c);
      AddedAttr(l, words[n - 1], at, w, c);
      AddedPoint(l, words[n - 1], at, w, h, c);
      OrNothing(And(words[n - 1], ATTR));
      OrNothing(And(words[n - 1], POINT));
    }
  }

  lemma OrNothing(v: bv16)
    ensures Or(0, v) == v && Or(v, 0) == v
  {
  }

  lemma NothingMerged(w: nat, h: nat, c: nat)
    ensures TileWord([], 0, w, c) == 0 && AttrWord([], 0, w, c) == 0 && PointWord([], 0, w, h, c) == 0
  {
  }

  lemma CellPlace(w: nat, h: nat, c: nat)
    requires w > 0 && c < w * h
    ensures var at := ItemAt(c, w, 0); CellOf(at, w) == c && at.x < w && at.y < h
  {
    CellInverse(c, w);
    CellInside(w, h, c);
  }

  lemma AddedTile(l: Layers, word: bv16, at: Item, w: nat, c: nat)
    ensures var l' := AddCell(l, word, at);
            TileWord(l'.tiles, |l'.tiles|, w, c) ==
            if CellOf(at, w) == c && And(word, TILE) != 0 then And(word, TILE) else TileWord(l.tiles, |l.tiles|, w, c)
  {
    hide FlagsOf, And, ToWord, ToInt;
    WordKept(And(word, TILE));
    TilesSame(l.tiles, AddCell(l, word, at).tiles, |l.tiles|, w, c);
  }

  lemma AddedAttr(l: Layers, word: bv16, at: Item, w: nat, c: nat)
    ensures var l' := AddCell(l, word, at);
            AttrWord(l'.attrs, |l'.attrs|, w, c) ==
            if CellOf(at, w) == c then Or(AttrWord(l.attrs, |l.attrs|, w, c), And(word, ATTR)) else AttrWord(l.attrs, |l.attrs|, w, c)
  {
    hide MaskOf, FlagsOf, And, Or;
    FlagsReadBack(word);
    OrNothing(AttrWord(l.attrs, |l.attrs|, w, c));
    AttrsSame(l.attrs, AddCell(l, word, at).attrs, |l.attrs|, w, c);
  }

  lemma AddedPoint(l: Layers, word: bv16, at: Item, w: nat, h: nat, c: nat)
    requires at.x < w && at.y < h
    ensures var l' := AddCell(l, word, at);
            PointWord(l'.points, |l'.points|, w, h, c) ==
            if CellOf(at, w) == c then Or(PointWord(l.points, |l.points|, w, h, c), And(word, POINT))
            else PointWord(l.points, |l.points|, w, h, c)
  {
    hide FlagsOf, And, Or;
    OneBit(word);
    OrNothing(PointWord(l.points, |l.points|, w, h, c));
    PointsSame(l.points, AddCell(l, word, at).points, |l.points|, w, h, c);
  }

  lemma OneBit(word: bv16)
    ensures And(word, POINT) == 0 || And(word, POINT) == POINT
  {
  }

  lemma CellInside(w: nat, h: nat, c: nat)
    requires w > 0 && c < w * h
    ensures c % w < w && c / w < h
  {
    if c / w >= h {
      RowsApart(h - 1, c / w, w);
    }
  }

  lemma {:induction false} TilesSame(a: seq<Item>, b: seq<Item>, n: nat, w: nat, c: nat)
    requires n <= |a| && a <= b
    ensures TileWord(a, n, w, c) == TileWord(b, n, w, c)
  {
    if n > 0 {
      TilesSame(a, b, n - 1, w, c);
    }
  }

  lemma {:induction false} AttrsSame(a: seq<Attr>, b: seq<Attr>, n: nat, w: nat, c: nat)
    requires n <= |a| && a <= b
    ensures AttrWord(a, n, w, c) == AttrWord(b, n, w, c)
  {
    if n > 0 {
      AttrsSame(a, b, n - 1, w, c);
    }
  }

  lemma {:induction false} PointsSame(a: seq<Item>, b: seq<Item>, n: nat, w: nat, h: nat, c: nat)
    requires n <= |a| && a <= b
    ensures PointWord(a, n, w, h, c) == PointWord(b, n, w, h, c)
  {
    if n > 0 {
      PointsSame(a, b, n - 1, w, h, c);
    }
  }

  /** The layers of a grid stay within the map. */
  lemma {:induction false} SplitInside(words: seq<bv16>, w: nat, h: nat, n: nat)
    requires w > 0 && n <= |words| && |words| == w * h
    ensures var l := Split(words, w, n);
            Inside(l.tiles, w, h) && Inside(Places(l.attrs), w, h) && Inside(l.points, w, h)
  {
    hide FlagsOf, And, ItemAt;
    if n > 0 {
      SplitInside(words, w, h, n - 1);
      CellPlace(w, h, n - 1);
      var l, at := Split(words, w, n - 1), ItemAt(n - 1, w, 0);
      AddedInside(l, words[n - 1], at, w, h);
    }
  }

  lemma AddedInside(l: Layers, word: bv16, at: Item, w: nat, h: nat)
    requires Inside(l.tiles, w, h) && Inside(Places(l.attrs), w, h) && Inside(l.points, w, h) && at.x < w && at.y < h
    ensures var l' := AddCell(l, word, at);
            Inside(l'.tiles, w, h) && Inside(Places(l'.attrs), w, h) && Inside(l'.points, w, h)
  {
    hide FlagsOf, And;
    var l' := AddCell(l, word, at);
    forall k | 0 <= k < |l'.attrs| ensures Places(l'.attrs)[k].x < w && Places(l'.attrs)[k].y < h {
      assert k < |l.attrs| ==> Places(l'.attrs)[k] == Places(l.attrs)[k];
    }
  }

  /** Splitting any grid of 16-bit words into layers and merging these reproduces it exactly. */
  lemma GridKept(words: seq<bv16>, w: nat, h: nat)
    requires w > 0 && |words| == w * h
    ensures var m := Map(w, h, Split(words, w, |words|));
            && Writable(m) && !Outside(m.layers.tiles, w, h) && !Outside(Places(m.layers.attrs), w, h)
            && MergedWords(m) == words
  {
    hide TileWord, AttrWord, PointWord, Or, And, Split;
    var m := Map(w, h, Split(words, w, |words|));
    SplitInside(words, w, h, |words|);
    InsideLands(m.layers.tiles, w, h, w * h);
    InsideLands(Places(m.layers.attrs), w, h, w * h);
    InsideLands(m.layers.points, w, h, w * h);
    forall c | 0 <= c < |words| ensures Merged(m.layers, w, h, c) == words[c] {
      MergeUndoesSplit(words, w, h, |words|, c);
      BitsShared(words[c]);
    }
  }

  lemma {:induction false} SplitPrefix(a: seq<bv16>, b: seq<bv16>, w: nat, n: nat)
    requires w > 0 && n <= |a| && n <= |b| && forall i :: 0 <= i < n ==> a[i] == b[i]
    ensures Split(a, w, n) == Split(b, w, n)
  {
    hide AddCell;
    if n > 0 {
      SplitPrefix(a, b, w, n - 1);
    }
  }

  /** Saving a background that was opened writes its words again, one for one. */
  lemma SecondSave(f: seq<Byte>)
    requires Meaning(f).Ok? && WidthIn(f) > 0 && WidthIn(f) * HeightIn(f) <= |WordsIn(f)|
    ensures Writable(Meaning(f).value) && MergedWords(Meaning(f).value) == WordsIn(f)[..WidthIn(f) * HeightIn(f)]
  {
    hide WordsIn, Split, Merged, Writable;
    var w, h := WidthIn(f), HeightIn(f);
    var words := WordsIn(f)[..w * h];
    SplitPrefix(WordsIn(f), words, w, w * h);
    GridKept(words, w, h);
  }

  /**
   * What opening a written background gives: the size, unless it is cut, and the layers of the
   * merged words. The header says how many pixels a column of tiles has, plus the width in tiles,
   * and the width in bytes and in pixels and the height in pixels, all of tiles of 16 by 16 pixels.
   */
  lemma RoundTrip(m: Map)
    requires m.width > 0 && m.height > 0
    ensures Meaning(FileOf(m)).Ok?
    ensures WidthIn(FileOf(m)) == m.width <==> m.width < 0x8000
    ensures HeightIn(FileOf(m)) == m.height <==> m.height < 0x1000
    ensures m.width < 0x8000 && m.height < 0x1000 ==>
            Meaning(FileOf(m)) == Ok(Map(m.width, m.height, Split(MergedWords(m), m.width, m.width * m.height)))
    ensures |FileOf(m)| == HEADER + 2 * (m.width * m.height)
    ensures WordAt(FileOf(m), 0) == (16 * m.height * 16 + m.width) % 0x1_0000 && WordAt(FileOf(m), 2) == 2 * m.width % 0x1_0000
    ensures WordAt(FileOf(m), 4) == 16 * m.width % 0x1_0000 && WordAt(FileOf(m), 6) == 16 * m.height % 0x1_0000
  {
    hide WordAt, Split, FileOf, MergedWords, WordsIn;
    HeaderReadBack(m);
    GridReadBack(m);
    CellBound(0, 0, m.width, m.height);
  }

  lemma HeaderReadBack(m: Map)
    ensures |FileOf(m)| == HEADER + 2 * (m.width * m.height)
    ensures WidthIn(FileOf(m)) == m.width * 2 % 0x1_0000 / 2
    ensures HeightIn(FileOf(m)) == m.height * TILE_SIZE % 0x1_0000 / TILE_SIZE
    ensures WordAt(FileOf(m), 0) == (16 * m.height * 16 + m.width) % 0x1_0000 && WordAt(FileOf(m), 2) == 2 * m.width % 0x1_0000
    ensures WordAt(FileOf(m), 4) == 16 * m.width % 0x1_0000 && WordAt(FileOf(m), 6) == 16 * m.height % 0x1_0000
  {
    hide PrintWords, WordAt, MergedWords;
    var head, tail := HeaderWords(m.width, m.height), PrintWords(AsInts(MergedWords(m)));
    assert [] + PrintWords(head) + tail == FileOf(m);
    WordInFile([], head, tail, 0);
    WordInFile([], head, tail, 1);
    WordInFile([], head, tail, 2);
    WordInFile([], head, tail, 3);
  }

  lemma GridReadBack(m: Map)
    ensures |FileOf(m)| >= HEADER && WordsIn(FileOf(m)) == MergedWords(m)
  {
    hide PrintWords, WordAt, Merged, ToInt, ToWord, WidthIn, HeightIn;
    HeaderReadBack(m);
    var f, head, grid := FileOf(m), PrintWords(HeaderWords(m.width, m.height)), AsInts(MergedWords(m));
    forall c | 0 <= c < m.width * m.height ensures WordsIn(f)[c] == MergedWords(m)[c] {
      AddNothing(head + PrintWords(grid));
      WordInFile(head, grid, [], c);
      WordKept(MergedWords(m)[c]);
    }
  }

  method SaveAndReopen(m: Map) returns (r: Result<Map>)
    requires Writable(m) && 0 < m.width < 0x8000 && 0 < m.height < 0x1000
    ensures r == if Outside(m.layers.tiles, m.width, m.height) || Outside(Places(m.layers.attrs), m.width, m.height)
                 then Err(OutsideMap)
                 else Ok(Map(m.width, m.height, Split(MergedWords(m), m.width, m.width * m.height)))
  {
    hide Split, Merged, Outside, Writable, FileOf, Meaning, MergedWords;
    var f := WriteBackground(m);
    if f.Err? {
      return Err(f.error);
    }
    RoundTrip(m);
    r := Open(f.value);
  }
}
