/** What is read of a Word Rescue level whose file ends early. */
module WordRescueCut {
  import opened Bytes
  import opened Grid
  import opened WordRescueRle
  import opened WordRescue
  import opened WordRescueWrite
  import opened WordRescueTheorems

  // Layers

  /** Reading a layer whose pairs all stand before the end of the file: it is cut if they are too few. */
  lemma {:induction false} LayerUpToEnd(f: seq<Byte>, at: nat, ps: seq<Pair>, n: nat, k: nat)
    requires k <= |ps| && PairsAt(f, at, ps) && Positive(ps) && |Cells(ps)| <= n && |f| < at + 2 * |ps| + 2
    ensures |Unroll(ps, k)| <= |Cells(ps)|
    ensures ReadLayer(f, at + 2 * k, n - |Unroll(ps, k)|) == Layer(Cells(ps)[|Unroll(ps, k)|..], at + 2 * |ps|, |Cells(ps)| < n)
    decreases |ps| - k
  {
    UnrollPrefix(ps, k, |ps|);
    if k < |ps| {
      LayerUpToEnd(f, at, ps, n, k + 1);
      UnrollPrefix(ps, k + 1, |ps|);
      SplitRun(Cells(ps), Unroll(ps, k), Repeat(ps[k].code, ps[k].count as nat));
    }
  }

  lemma CutLayerAt(f: seq<Byte>, at: nat, ps: seq<Pair>, n: nat)
    requires PairsAt(f, at, ps) && Positive(ps) && |Cells(ps)| <= n && |f| < at + 2 * |ps| + 2
    ensures ReadLayer(f, at, n) == Layer(Cells(ps), at + 2 * |ps|, |Cells(ps)| < n)
  {
    hide ReadLayer;
    LayerUpToEnd(f, at, ps, n, 0);
  }

  /** The first pairs of a layer stand for its first cells, and for fewer than all. */
  lemma FirstPairs(ps: seq<Pair>, k: nat)
    requires k <= |ps| && Positive(ps)
    ensures Positive(ps[..k]) && Cells(ps[..k]) <= Cells(ps) && (k < |ps| ==> |Cells(ps[..k])| < |Cells(ps)|)
  {
    SameUnroll(ps, k, k);
    UnrollPrefix(ps, k, |ps|);
    if k < |ps| {
      UnrollPrefix(ps, k + 1, |ps|);
    }
  }

  lemma {:induction false} SameUnroll(ps: seq<Pair>, k: nat, n: nat)
    requires n <= k <= |ps|
    ensures Unroll(ps[..k], n) == Unroll(ps, n)
  {
    if n > 0 {
      SameUnroll(ps, k, n - 1);
    }
  }

  lemma PairsInPrefix(f: seq<Byte>, n: nat, at: nat, ps: seq<Pair>, k: nat)
    requires PairsAt(f, at, ps) && k <= |ps| && at + 2 * k <= n <= |f|
    ensures PairsAt(f[..n], at, ps[..k])
  {
  }

  // Items

  lemma WordInPrefix(f: seq<Byte>, n: nat, at: nat)
    requires at + 2 <= n <= |f|
    ensures WordAt(f[..n], at) == WordAt(f, at)
  {
  }

  lemma {:induction false} PointsInPrefix(f: seq<Byte>, n: nat, at: nat, stride: nat, code: int, k: nat)
    requires stride >= 4 && n <= |f| && at + stride * k <= n
    ensures PointsIn(f[..n], at, stride, code, k) == PointsIn(f, at, stride, code, k)
  {
    hide WordAt;
    if k > 0 {
      StrideBound(stride, k - 1, k);
      PointsInPrefix(f, n, at, stride, code, k - 1);
      WordInPrefix(f, n, at + stride * (k - 1));
      WordInPrefix(f, n, at + stride * (k - 1) + 2);
    }
  }

  /** A block found in the first `n` bytes is the one found in the whole file. */
  lemma BlockInPrefix(f: seq<Byte>, n: nat, at: nat, stride: nat, code: int)
    requires stride >= 4 && n <= |f|
    ensures var b := CountedBlock(f[..n], at, stride, code);
            if b.Ok? then b == CountedBlock(f, at, stride, code) && b.value.end <= n else b.error == Truncated
  {
    hide WordAt, PointsIn;
    if at + 2 <= n {
      WordInPrefix(f, n, at);
      var count := WordAt(f, at);
      if at + 2 + stride * count <= n {
        PointsInPrefix(f, n, at + 2, stride, code, count);
      }
    }
  }

  lemma {:induction false} LettersInPrefix(f: seq<Byte>, n: nat, at: nat, k: nat)
    requires n <= |f| && at + 4 * k <= n
    ensures LettersIn(f[..n], at, k) == LettersIn(f, at, k)
  {
    hide WordAt;
    if k > 0 {
      LettersInPrefix(f, n, at, k - 1);
      WordInPrefix(f, n, at + 4 * (k - 1));
      WordInPrefix(f, n, at + 4 * (k - 1) + 2);
    }
  }

  lemma LetterBlockInPrefix(f: seq<Byte>, n: nat, at: nat)
    requires n <= |f|
    ensures var b := LetterBlock(f[..n], at);
            if b.Ok? then b == LetterBlock(f, at) && b.value.end <= n else b.error == Truncated
  {
    if at + 4 * NUM_LETTERS <= n {
      LettersInPrefix(f, n, at, NUM_LETTERS);
    }
  }

  /** Items found in the first `n` bytes are those of the whole file, and end there; there is no other error than that the file ends. */
  lemma ItemsInPrefix(f: seq<Byte>, n: nat)
    requires n <= |f|
    ensures var r := ParseItems(f[..n]);
            if r.Ok? then r == ParseItems(f) && r.value.end <= n else r.error == Truncated
  {
    hide CountedBlock, LetterBlock;
    BlockInPrefix(f, n, BLOCKS_AT, 4, CODE_GRUZZLE);
    var gruzzles := CountedBlock(f[..n], BLOCKS_AT, 4, CODE_GRUZZLE);
    if gruzzles.Ok? {
      BlockInPrefix(f, n, gruzzles.value.end, 6, CODE_DRIP);
      var drips := CountedBlock(f[..n], gruzzles.value.end, 6, CODE_DRIP);
      if drips.Ok? {
        CoarseInPrefix(f, n, drips.value.end);
      }
    }
  }

  lemma CoarseInPrefix(f: seq<Byte>, n: nat, at: nat)
    requires n <= |f|
    ensures var g := f[..n];
            var slimes := CountedBlock(g, at, 4, CODE_SLIME);
            if slimes.Err? then slimes.error == Truncated
            else
              && slimes == CountedBlock(f, at, 4, CODE_SLIME)
              && var books := CountedBlock(g, slimes.value.end, 4, CODE_BOOK);
                 if books.Err? then books.error == Truncated
                 else
                   && books == CountedBlock(f, slimes.value.end, 4, CODE_BOOK)
                   && var letters := LetterBlock(g, books.value.end);
                      if letters.Err? then letters.error == Truncated
                      else
                        && letters == LetterBlock(f, books.value.end)
                        && var anims := CountedBlock(g, letters.value.end, 4, CODE_ANIM);
                           if anims.Err? then anims.error == Truncated
                           else
                             && anims == CountedBlock(f, letters.value.end, 4, CODE_ANIM)
                             && var fgs := CountedBlock(g, anims.value.end, 4, CODE_FG);
                                if fgs.Err? then fgs.error == Truncated
                                else fgs == CountedBlock(f, anims.value.end, 4, CODE_FG) && fgs.value.end <= n
  {
    hide CountedBlock, LetterBlock;
    BlockInPrefix(f, n, at, 4, CODE_SLIME);
    var slimes := CountedBlock(f[..n], at, 4, CODE_SLIME);
    if slimes.Ok? {
      BlockInPrefix(f, n, slimes.value.end, 4, CODE_BOOK);
      var books := CountedBlock(f[..n], slimes.value.end, 4, CODE_BOOK);
      if books.Ok? {
        LetterBlockInPrefix(f, n, books.value.end);
        var letters := LetterBlock(f[..n], books.value.end);
        if letters.Ok? {
          BlockInPrefix(f, n, letters.value.end, 4, CODE_ANIM);
          var anims := CountedBlock(f[..n], letters.value.end, 4, CODE_ANIM);
          if anims.Ok? {
            BlockInPrefix(f, n, anims.value.end, 4, CODE_FG);
          }
        }
      }
    }
  }

  // The whole file

  /**
   * The first `n` bytes of a written level: up to the end of the background they are an error;
   * from there on they are the level with the attributes of the pairs that are complete.
   */
  lemma CutFile(m: Map, tiles: seq<Pair>, attrs: seq<Pair>, tileBytes: seq<Byte>, attrBytes: seq<Byte>, n: nat)
    requires Writable(m) && AttrSizesFit(m) && AreWords(FileWords(m)) && LayerBytes(m, tileBytes, attrBytes)
    requires Cells(tiles) == tileBytes && Positive(tiles) && Cells(attrs) == attrBytes && Positive(attrs)
    requires n <= |FileOf(m, tiles, attrs)|
    ensures var attrsAt := LayersAt(m) + 2 * |tiles|;
            if n < attrsAt then Parse(FileOf(m, tiles, attrs)[..n]) == Err(Truncated)
            else
              && (n - attrsAt) / 2 <= |attrs|
              && Parse(FileOf(m, tiles, attrs)[..n]) == Ok(Reopened(m, tileBytes, Cells(attrs[..(n - attrsAt) / 2])))
  {
    hide FileWords, FileOf, WordsAt, PairsAt, Cells, Positive, ParseItems, ReadLayer, Scan, AttrsOf, WithCode, LastWith, WordAt;
    var f, at := FileOf(m, tiles, attrs), LayersAt(m);
    PartsOfFile(m, tiles, attrs);
    ItemsReadBack(f, m);
    ItemsInPrefix(f, n);
    if n >= at {
      ItemsKept(f, n, m);
      HeaderReadBack(f[..n], m);
      PartsInFile(f, n, at, tiles, attrs, |tileBytes|, |attrBytes|);
      if n >= at + 2 * |tiles| {
        assert AttrSize(m.width) == 2 * m.width && AttrSize(m.height) == 2 * m.height;
      }
    }
  }

  /** The two layers in the first `n` bytes. */
  lemma PartsInFile(f: seq<Byte>, n: nat, at: nat, tiles: seq<Pair>, attrs: seq<Pair>, lenTiles: nat, lenAttrs: nat)
    requires at <= n <= |f| == at + 2 * |tiles| + 2 * |attrs| && PairsAt(f, at, tiles) && PairsAt(f, at + 2 * |tiles|, attrs)
    requires Positive(tiles) && Positive(attrs) && |Cells(tiles)| == lenTiles && |Cells(attrs)| == lenAttrs
    ensures n < at + 2 * |tiles| ==> ReadLayer(f[..n], at, lenTiles).cut
    ensures n >= at + 2 * |tiles| ==>
              var attrsAt := at + 2 * |tiles|;
              var k := (n - attrsAt) / 2;
              && k <= |attrs| && ReadLayer(f[..n], at, lenTiles) == Layer(Cells(tiles), attrsAt, false)
              && ReadLayer(f[..n], attrsAt, lenAttrs).cells == Cells(attrs[..k])
  {
    hide PairsAt, Cells, Positive, ReadLayer;
    if n < at + 2 * |tiles| {
      var k := (n - at) / 2;
      PairsInPrefix(f, n, at, tiles, k);
      FirstPairs(tiles, k);
      CutLayerAt(f[..n], at, tiles[..k], lenTiles);
    } else {
      var k := (n - at - 2 * |tiles|) / 2;
      PairsInPrefix(f, n, at, tiles, |tiles|);
      assert tiles[..|tiles|] == tiles;
      LayerAt(f[..n], at, tiles);
      PairsInPrefix(f, n, at + 2 * |tiles|, attrs, k);
      FirstPairs(attrs, k);
      CutLayerAt(f[..n], at + 2 * |tiles|, attrs[..k], lenAttrs);
    }
  }

  lemma ItemsKept(f: seq<Byte>, n: nat, m: Map)
    requires WordsAt(f, 0, FileWords(m)) && LayersAt(m) <= n <= |f|
    ensures ParseItems(f[..n]) == Ok(Items(FileFine(m), FileCoarse(m), LayersAt(m))) && WordsAt(f[..n], 0, FileWords(m))
  {
    hide FileWords, ParseItems, WordAt;
    forall k | 0 <= k < |FileWords(m)| ensures WordAt(f[..n], 2 * k) == FileWords(m)[k] {
      WordInPrefix(f, n, 2 * k);
      assert WordAt(f, 0 + 2 * k) == FileWords(m)[k];
    }
    assert WordsAt(f[..n], 0, FileWords(m));
    ItemsReadBack(f[..n], m);
  }

  // Files that no writer makes

  /** Reading a layer stops after the first pair that completes it; what this pair says too much is kept. */
  lemma {:induction false} LayerStops(f: seq<Byte>, at: nat, ps: seq<Pair>, n: nat, j: nat)
    requires PairsAt(f, at, ps) && j <= |ps| && |Cells(ps)| >= n && forall k :: 0 <= k < |ps| ==> |Unroll(ps, k)| < n
    ensures |Unroll(ps, j)| <= |Cells(ps)|
    ensures ReadLayer(f, at + 2 * j, n - |Unroll(ps, j)|) == Layer(Cells(ps)[|Unroll(ps, j)|..], at + 2 * |ps|, false)
    decreases |ps| - j
  {
    UnrollPrefix(ps, j, |ps|);
    if j < |ps| {
      LayerStops(f, at, ps, n, j + 1);
      UnrollPrefix(ps, j + 1, |ps|);
      assert |Unroll(ps, j)| < n;
      SplitRun(Cells(ps), Unroll(ps, j), Repeat(ps[j].code, ps[j].count as nat));
    }
  }

  /** A map without columns or rows has no cells, and the tile set zero is not counted down. */
  lemma NoCells(f: seq<Byte>)
    requires |f| >= BLOCKS_AT && ParseItems(f).Ok? && WordAt(f, 0) * WordAt(f, 2) == 0
    ensures Parse(f).Ok? && Parse(f).value.bg == []
    ensures WordAt(f, 0) == 0 ==> Parse(f).value.attrs == []
    ensures WordAt(f, 6) == 0 ==> Parse(f).value.tileset == 0
  {
    hide ParseItems, WordAt;
  }

  /** The size of the attribute layer is twice the map's, less what sixteen bits cannot hold. */
  lemma AttrSizeCut(n: nat)
    requires n < 0x1_0000
    ensures AttrSize(n) == if n < 0x8000 then 2 * n else 2 * n - 0x1_0000
  {
  }
}
