/** Writing Crystal Caves levels. */
module CrystalCavesWrite {
  import opened Bytes
  import opened Grid
  import opened CrystalCaves

  datatype Map = Map(width: nat, height: nat, bg: seq<Tile>, fg: seq<Item>)

  predicate TilesInside(tiles: seq<Tile>, w: nat, h: nat) {
    forall k :: 0 <= k < |tiles| ==> tiles[k].at.x < w && tiles[k].at.y < h
  }

  /** What the writer's assertions demand. */
  predicate Writable(m: Map) {
    TilesInside(m.bg, m.width, m.height) && Inside(m.fg, m.width, m.height)
  }

  /** The tiles as items for the layer of codes, and for the layer of movement flags. */
  function Codes(tiles: seq<Tile>): (r: seq<Item>)
    ensures |r| == |tiles|
  {
    seq(|tiles|, k requires 0 <= k < |tiles| => tiles[k].at)
  }

  function Attrs(tiles: seq<Tile>): (r: seq<Item>)
    ensures |r| == |tiles|
  {
    seq(|tiles|, k requires 0 <= k < |tiles| => tiles[k].at.(code := FlagsFor(tiles[k].move)))
  }

  lemma TilesFit(tiles: seq<Tile>, w: nat, h: nat)
    requires TilesInside(tiles, w, h)
    ensures Fits(Codes(tiles), w, w * h) && Fits(Attrs(tiles), w, w * h)
  {
    InsideFits(Codes(tiles), w, h, w * h);
    InsideFits(Attrs(tiles), w, h, w * h);
  }

  /** The cells as the writer lays them out. */
  function BoardOf(m: Map): (b: Board)
    requires Writable(m)
    ensures Square(b, m.width * m.height) && b.w == m.width
  {
    TilesFit(m.bg, m.width, m.height);
    InsideFits(m.fg, m.width, m.height, m.width * m.height);
    var n := m.width * m.height;
    Board(m.width,
          Paint(Repeat(NO_TILE, n), Codes(m.bg), m.width),
          Paint(Repeat(MV_NONE, n), Attrs(m.bg), m.width),
          Paint(Repeat(NO_TILE, n), m.fg, m.width))
  }

  /** The first `n` rows of the file, each after a byte giving its length. */
  function Rows(dst: seq<Byte>, w: Byte, n: nat): (f: seq<Byte>)
    requires w as nat * n <= |dst|
    ensures |f| == n * (w as nat + 1)
  {
    if n == 0 then []
    else
      RowEnds(w, n);
      Rows(dst, w, n - 1) + [w] + dst[w as nat * (n - 1)..w as nat * n]
  }

  lemma RowEnds(w: Byte, n: nat)
    requires n > 0
    ensures w as nat * n == w as nat * (n - 1) + w as nat
  {
  }

  // Choosing a table entry

  /** The tile next to cell `j`; outside the map there is none. */
  method Look(src: array<int>, w: nat, j: nat, dx: nat, dy: nat) returns (tile: int)
    ensures tile == Rel(src[..], w, j, dx, dy)
  {
    var pos := j + dy * w + dx;
    return if pos < src.Length then src[pos] else NO_TILE;
  }

  method Score(m: Sign, src: array<int>, w: nat, j: nat, flags: int) returns (confidence: nat)
    requires ValidSign(m)
    ensures confidence == Confidence(m, src[..], w, j, flags)
  {
    hide Rel;
    var here := Look(src, w, j, 0, 0);
    var right := Look(src, w, j, 1, 0);
    if !(here == m.tiles[0] && right == m.tiles[1]) {
      return 0;
    }
    confidence := 2;
    if flags == m.flags {
      confidence := confidence + 1;
    }
    ghost var base := confidence;
    for k := 2 to SIGN_TILES
      invariant confidence == base + Support(m, src[..], w, j, k)
    {
      var tile := Look(src, w, j, k % 4, k / 4);
      if m.tiles[k] != NO_TILE && tile != HANDLED && tile == m.tiles[k] {
        confidence := confidence + 1;
      }
    }
  }

  method PickSign(ms: seq<Sign>, src: array<int>, w: nat, j: nat, flags: int) returns (r: nat)
    requires forall k :: 0 <= k < |ms| ==> ValidSign(ms[k])
    ensures r == BestSign(ms, src[..], w, j, flags, |ms|)
  {
    hide Confidence;
    r := |ms|;
    var best := 0;
    for i := 0 to |ms|
      invariant r == BestSign(ms, src[..], w, j, flags, i)
      invariant best == if r == |ms| then 0 else Confidence(ms[r], src[..], w, j, flags)
    {
      var confidence := Score(ms[i], src, w, j, flags);
      if confidence > best {
        best := confidence;
        r := i;
      }
    }
  }

  method PickStamp(ms: seq<Stamp>, tile: int, fg: int, flags: int) returns (i: nat)
    requires forall k :: 0 <= k < |ms| ==> ValidStamp(ms[k])
    ensures i == FirstStamp(ms, 0, tile, fg, flags)
  {
    i := 0;
    while i < |ms|
      invariant 0 <= i <= |ms| && FirstStamp(ms, 0, tile, fg, flags) == FirstStamp(ms, i, tile, fg, flags)
    {
      assert ValidStamp(ms[i]);
      if tile == ms[i].tiles[0] && fg == ms[i].fg && flags == ms[i].flags {
        return;
      }
      i := i + 1;
    }
  }

  method Pick(t: Tables, ghost b: Board, src: array<int>, w: nat, j: nat, attr: int, fg: int) returns (a: Anchor)
    requires Valid(t) && Square(b, src.Length) && b.w == w && j < src.Length && attr == b.attr[j] && fg == b.fg[j]
    ensures a == Choose(t, b, src[..], j)
  {
    hide BestSign, ValidSign, ValidStamp;
    var i := 0;
    while i < |t.vines| && !((src[j] == t.vines[i].mid || src[j] == t.vines[i].end) && attr == t.vines[i].flags)
      invariant 0 <= i <= |t.vines| && FirstVine(t.vines, 0, src[j], attr) == FirstVine(t.vines, i, src[j], attr)
    {
      i := i + 1;
    }
    if i < |t.vines| {
      return AsVine(i);
    }
    i := PickSign(t.signs, src, w, j, attr);
    if i < |t.signs| {
      return AsSign(i);
    }
    i := PickStamp(t.smalls, src[j], fg, attr);
    if i < |t.smalls| {
      return AsSmall(i);
    }
    i := PickStamp(t.wides, src[j], fg, attr);
    if i < |t.wides| {
      return AsWide(i);
    }
    i := 0;
    while i < |t.blocks| && !(src[j] == t.blocks[i].bg && fg == t.blocks[i].fg)
      invariant 0 <= i <= |t.blocks| && FirstBlock(t.blocks, 0, src[j], fg) == FirstBlock(t.blocks, i, src[j], fg)
    {
      i := i + 1;
    }
    if i < |t.blocks| {
      return AsBlock(i);
    }
    return Nothing;
  }

  // The scan

  /** Puts the entry's code in its own cell, and claims the cells of its parts. */
  method PutEntry(t: Tables, src: array<int>, dst: array<Byte>, w: nat, j: nat, a: Anchor)
    requires Valid(t) && InTables(t, a) && src.Length == dst.Length && j < src.Length
    modifies src, dst
    ensures Cells(src[..], dst[..]) ==
            ClaimParts(Cells(old(src[..]), old(dst[..])[j := CodeOf(t, a)]), w, j, PartsOf(t, a), |PartsOf(t, a)|)
  {
    hide PartsOf, CodeOf, Valid;
    dst[j] := CodeOf(t, a);
    ghost var start := Cells(src[..], dst[..]);
    var parts := PartsOf(t, a);
    for k := 0 to |parts|
      invariant Cells(src[..], dst[..]) == ClaimParts(start, w, j, parts, k)
    {
      var pos := PlaceOf(parts[k], w, j);
      if parts[k].tile != NO_TILE && pos < src.Length && src[pos] == parts[k].tile {
        dst[pos] := parts[k].put;
        src[pos] := HANDLED;
      }
    }
  }

  method ScanCells(t: Tables, ghost b: Board, src: array<int>, attr: array<int>, fg: array<int>, w: nat) returns (dst: array<Byte>)
    requires Valid(t) && src.Length == attr.Length == fg.Length && src != attr && src != fg && b == Board(w, src[..], attr[..], fg[..])
    modifies src
    ensures fresh(dst) && dst[..] == Scanned(t, b, |b.bg|).dst
  {
    hide Valid, Choose, ClaimParts, PartsOf, CodeOf;
    dst := new Byte[src.Length](_ => EMPTY);
    assert dst[..] == Repeat(EMPTY, src.Length);
    for j := 0 to src.Length
      invariant attr[..] == b.attr && fg[..] == b.fg
      invariant Cells(src[..], dst[..]) == Scanned(t, b, j)
    {
      if src[j] != NO_TILE {
        var a := Pick(t, b, src, w, j, attr[j], fg[j]);
        if !a.Nothing? {
          PutEntry(t, src, dst, w, j, a);
        }
      }
    }
  }

  // The file

  method LayTiles(src: array<int>, attr: array<int>, tiles: seq<Tile>, w: nat, h: nat)
    requires TilesInside(tiles, w, h) && src.Length == attr.Length == w * h && src != attr
    modifies src, attr
    ensures Fits(Codes(tiles), w, src.Length) && src[..] == Paint(old(src[..]), Codes(tiles), w)
    ensures Fits(Attrs(tiles), w, src.Length) && attr[..] == Paint(old(attr[..]), Attrs(tiles), w)
  {
    ghost var codes, flags := Codes(tiles), Attrs(tiles);
    ghost var src0, attr0 := src[..], attr[..];
    TilesFit(tiles, w, h);
    assert codes[..0] == [] && flags[..0] == [];
    for k := 0 to |tiles|
      invariant Fits(codes[..k], w, src.Length) && Fits(flags[..k], w, src.Length)
      invariant src[..] == Paint(src0, codes[..k], w) && attr[..] == Paint(attr0, flags[..k], w)
    {
      assert codes[..k + 1][..k] == codes[..k] && flags[..k + 1][..k] == flags[..k];
      assert codes[k] == tiles[k].at && CellOf(flags[k], w) == CellOf(codes[k], w);
      var cell := tiles[k].at.y * w + tiles[k].at.x;
      src[cell] := tiles[k].at.code;
      attr[cell] := FlagsFor(tiles[k].move);
    }
    assert codes[..|tiles|] == codes && flags[..|tiles|] == flags;
  }

  method EmitRows(dst: array<Byte>, h: nat) returns (f: seq<Byte>)
    requires dst.Length == MAP_WIDTH * h
    ensures f == Rows(dst[..], MAP_WIDTH as Byte, h)
  {
    f := [];
    for y := 0 to h
      invariant f == Rows(dst[..], MAP_WIDTH as Byte, y)
    {
      f := f + [MAP_WIDTH as Byte] + dst[MAP_WIDTH * y..MAP_WIDTH * (y + 1)];
    }
  }

  method Write(t: Tables, m: Map) returns (r: Result<seq<Byte>>)
    requires Valid(t) && Writable(m)
    ensures r ==
      if m.width != MAP_WIDTH then Err(BadLayout)
      else if m.height > MAX_WRITE_HEIGHT then Err(TooMany)
      else Ok(Rows(Scanned(t, BoardOf(m), |BoardOf(m).bg|).dst, MAP_WIDTH as Byte, m.height))
  {
    hide Valid, Scanned, Paint, Codes, Attrs;
    if m.width != MAP_WIDTH {
      return Err(BadLayout);
    }
    if m.height > MAX_WRITE_HEIGHT {
      return Err(TooMany);
    }
    var lenBG := m.width * m.height;
    var src := new int[lenBG](_ => NO_TILE);
    var attr := new int[lenBG](_ => MV_NONE);
    var fg := new int[lenBG](_ => NO_TILE);
    assert src[..] == Repeat(NO_TILE, lenBG) && attr[..] == Repeat(MV_NONE, lenBG) && fg[..] == Repeat(NO_TILE, lenBG);
    LayTiles(src, attr, m.bg, m.width, m.height);
    InsideFits(m.fg, m.width, m.height, lenBG);
    PaintInto(fg, m.fg, m.width);
    ghost var b := BoardOf(m);
    var dst := ScanCells(t, b, src, attr, fg, m.width);
    var f := EmitRows(dst, m.height);
    return Ok(f);
  }
}
