/** What survives when a Word Rescue level is written and opened again. */
module WordRescueTheorems {
  import opened Bytes
  import opened Grid
  import opened WordRescueRle
  import opened WordRescue
  import opened WordRescueWrite

  // Item blocks

  lemma {:induction false} PointAt(items: seq<Item>, drip: bool, n: nat, j: nat)
    requires j < n <= |items|
    ensures var s := if drip then 3 else 2;
            var ws := PointsWords(items, drip, n);
            && s * j + 2 <= |ws| && ws[s * j] == items[j].x && ws[s * j + 1] == items[j].y
  {
    if j < n - 1 {
      PointAt(items, drip, n - 1, j);
    }
  }

  lemma {:induction false} PointsReadBack(f: seq<Byte>, at: nat, items: seq<Item>, drip: bool, code: int, n: nat)
    requires n <= |items| && WordsAt(f, at, PointsWords(items, drip, |items|))
    requires forall k :: 0 <= k < |items| ==> items[k].code == code
    ensures var stride := if drip then 6 else 4;
            && at + stride * n <= |f| && PointsIn(f, at, stride, code, n) == items[..n]
  {
    hide PointsWords;
    if n > 0 {
      PointsReadBack(f, at, items, drip, code, n - 1);
      PointAt(items, drip, |items|, n - 1);
      TakeNext(items, n - 1);
    }
  }

  lemma BlockReadBack(f: seq<Byte>, at: nat, items: seq<Item>, drip: bool, code: int)
    requires WordsAt(f, at, BlockWords(items, drip))
    requires forall k :: 0 <= k < |items| ==> items[k].code == code
    ensures CountedBlock(f, at, if drip then 6 else 4, code) == Ok(Block(items, at + 2 * |BlockWords(items, drip)|))
  {
    hide PointsWords, PointsIn;
    SplitWordsAt(f, at, [|items|], PointsWords(items, drip, |items|));
    assert WordAt(f, at + 2 * 0) == [|items|][0];
    PointsReadBack(f, at + 2, items, drip, code, |items|);
    assert items[..|items|] == items;
  }

  lemma {:induction false} LettersReadBack(f: seq<Byte>, at: nat, items: seq<Item>, n: nat)
    requires n <= NUM_LETTERS && |items| == NUM_LETTERS && WordsAt(f, at, PointsWords(items, false, NUM_LETTERS))
    requires forall k :: 0 <= k < NUM_LETTERS ==> items[k].code == CODE_LETTER + k
    ensures at + 4 * n <= |f| && LettersIn(f, at, n) == items[..n]
  {
    hide PointsWords;
    if n > 0 {
      LettersReadBack(f, at, items, n - 1);
      PointAt(items, false, NUM_LETTERS, n - 1);
      TakeNext(items, n - 1);
    }
  }

  /** The fine items in the order in which a file keeps them. */
  function FileFine(m: Map): seq<Item> {
    All(m.fine, CODE_GRUZZLE) + All(m.fine, CODE_DRIP)
  }

  function FileCoarse(m: Map): seq<Item> {
    All(m.coarse, CODE_SLIME) + All(m.coarse, CODE_BOOK) + Letters(m.coarse, |m.coarse|)
    + All(m.coarse, CODE_ANIM) + All(m.coarse, CODE_FG)
  }

  /** Offset of the background layer. */
  function LayersAt(m: Map): nat {
    2 * |FileWords(m)|
  }

  lemma FineReadBack(f: seq<Byte>, at: nat, m: Map)
    requires WordsAt(f, at, FineWords(m))
    ensures var g := BlockWords(All(m.fine, CODE_GRUZZLE), false);
            && CountedBlock(f, at, 4, CODE_GRUZZLE) == Ok(Block(All(m.fine, CODE_GRUZZLE), at + 2 * |g|))
            && CountedBlock(f, at + 2 * |g|, 6, CODE_DRIP) == Ok(Block(All(m.fine, CODE_DRIP), at + 2 * |FineWords(m)|))
  {
    hide BlockWords, CountedBlock, WithCode;
    var g, d := BlockWords(All(m.fine, CODE_GRUZZLE), false), BlockWords(All(m.fine, CODE_DRIP), true);
    SplitWordsAt(f, at, g, d);
    BlockReadBack(f, at, All(m.fine, CODE_GRUZZLE), false, CODE_GRUZZLE);
    BlockReadBack(f, at + 2 * |g|, All(m.fine, CODE_DRIP), true, CODE_DRIP);
  }

  lemma CoarseReadBack(f: seq<Byte>, at: nat, m: Map)
    requires WordsAt(f, at, CoarseWords(m))
    ensures var slimes := CountedBlock(f, at, 4, CODE_SLIME);
            && slimes.Ok?
            && var books := CountedBlock(f, slimes.value.end, 4, CODE_BOOK);
            && books.Ok?
            && var letters := LetterBlock(f, books.value.end);
            && letters.Ok?
            && var anims := CountedBlock(f, letters.value.end, 4, CODE_ANIM);
            && anims.Ok?
            && var fgs := CountedBlock(f, anims.value.end, 4, CODE_FG);
            && fgs.Ok? && fgs.value.end == at + 2 * |CoarseWords(m)|
            && slimes.value.items + books.value.items + letters.value.items + anims.value.items + fgs.value.items == FileCoarse(m)
  {
    hide BlockWords, CountedBlock, WithCode, LastWith, PointsWords, LettersIn;
    var s, b := BlockWords(All(m.coarse, CODE_SLIME), false), BlockWords(All(m.coarse, CODE_BOOK), false);
    var l := PointsWords(Letters(m.coarse, |m.coarse|), false, NUM_LETTERS);
    var a, g := BlockWords(All(m.coarse, CODE_ANIM), false), BlockWords(All(m.coarse, CODE_FG), false);
    SplitWordsAt(f, at, s + b + l + a, g);
    SplitWordsAt(f, at, s + b + l, a);
    SplitWordsAt(f, at, s + b, l);
    SplitWordsAt(f, at, s, b);
    BlockReadBack(f, at, All(m.coarse, CODE_SLIME), false, CODE_SLIME);
    BlockReadBack(f, at + 2 * |s|, All(m.coarse, CODE_BOOK), false, CODE_BOOK);
    LettersInOrder(m.coarse, |m.coarse|);
    LettersReadBack(f, at + 2 * |s + b|, Letters(m.coarse, |m.coarse|), NUM_LETTERS);
    assert Letters(m.coarse, |m.coarse|)[..NUM_LETTERS] == Letters(m.coarse, |m.coarse|);
    BlockReadBack(f, at + 2 * |s + b + l|, All(m.coarse, CODE_ANIM), false, CODE_ANIM);
    BlockReadBack(f, at + 2 * |s + b + l + a|, All(m.coarse, CODE_FG), false, CODE_FG);
  }

  lemma ItemsReadBack(f: seq<Byte>, m: Map)
    requires WordsAt(f, 0, FileWords(m))
    ensures ParseItems(f) == Ok(Items(FileFine(m), FileCoarse(m), LayersAt(m)))
  {
    hide CountedBlock, LetterBlock, CoarseWords, FineWords, HeaderWords, WithCode, LastWith, BlockWords;
    SplitWordsAt(f, 0, HeaderWords(m) + FineWords(m), CoarseWords(m));
    SplitWordsAt(f, 0, HeaderWords(m), FineWords(m));
    FineReadBack(f, 2 * |HeaderWords(m)|, m);
    CoarseReadBack(f, 2 * |HeaderWords(m) + FineWords(m)|, m);
  }

  // Layers

  /** The pairs `ps` stand in `f` from `at` on. */
  predicate PairsAt(f: seq<Byte>, at: nat, ps: seq<Pair>) {
    at + 2 * |ps| <= |f| && forall k :: 0 <= k < |ps| ==> f[at + 2 * k] == ps[k].count && f[at + 2 * k + 1] == ps[k].code
  }

  lemma PrintedPairsAt(head: seq<Byte>, ps: seq<Pair>, tail: seq<Byte>)
    ensures PairsAt(head + PrintPairs(ps) + tail, |head|, ps)
  {
    var f, pairs := head + PrintPairs(ps) + tail, PrintPairs(ps);
    forall k | 0 <= k < |ps| ensures f[|head| + 2 * k] == ps[k].count && f[|head| + 2 * k + 1] == ps[k].code {
      assert (2 * k) / 2 == k && (2 * k + 1) / 2 == k;
      assert f[|head| + 2 * k] == pairs[2 * k] && f[|head| + 2 * k + 1] == pairs[2 * k + 1];
    }
  }

  /** Counting cells finds the end of the layer: it stops after the last pair and not before. */
  lemma {:induction false} LayerReadBack(f: seq<Byte>, at: nat, ps: seq<Pair>, k: nat)
    requires k <= |ps| && PairsAt(f, at, ps) && Positive(ps)
    ensures |Unroll(ps, k)| <= |Cells(ps)|
    ensures ReadLayer(f, at + 2 * k, |Cells(ps)| - |Unroll(ps, k)|)
            == Layer(Cells(ps)[|Unroll(ps, k)|..], at + 2 * |ps|, false)
    decreases |ps| - k
  {
    UnrollPrefix(ps, k, |ps|);
    if k < |ps| {
      LayerReadBack(f, at, ps, k + 1);
      UnrollPrefix(ps, k + 1, |ps|);
      SplitRun(Cells(ps), Unroll(ps, k), Repeat(ps[k].code, ps[k].count as nat));
    }
  }

  lemma SplitRun(all: seq<Byte>, a: seq<Byte>, b: seq<Byte>)
    requires a + b <= all
    ensures all[|a|..] == b + all[|a + b|..]
  {
    assert all[|a|..|a + b|] == b by {
      assert forall i :: 0 <= i < |b| ==> (a + b)[|a| + i] == b[i];
    }
  }

  lemma LayerAt(f: seq<Byte>, at: nat, ps: seq<Pair>)
    requires PairsAt(f, at, ps) && Positive(ps)
    ensures ReadLayer(f, at, |Cells(ps)|) == Layer(Cells(ps), at + 2 * |ps|, false)
  {
    hide ReadLayer;
    LayerReadBack(f, at, ps, 0);
  }

  // The round trip

  /** The level that comes back when its layers are `tiles` and `attrs`. */
  function Reopened(m: Map, tiles: seq<Byte>, attrs: seq<Byte>): Map
    requires m.width > 0
  {
    Map(m.width, m.height, m.bgColour, m.tileset, m.backdrop,
        Scan(Ints(tiles), m.width, DEFAULT_BGTILE, |tiles|),
        AttrsOf(Scan(Ints(attrs), 2 * m.width, DEFAULT_ATTILE, |attrs|)),
        FileFine(m) + [Last(m.fine, CODE_ENTRANCE), Last(m.fine, CODE_EXIT)],
        FileCoarse(m))
  }

  lemma HeaderReadBack(f: seq<Byte>, m: Map)
    requires WordsAt(f, 0, FileWords(m))
    ensures |f| >= BLOCKS_AT
    ensures WordAt(f, 0) == m.width && WordAt(f, 2) == m.height && WordAt(f, 4) == m.bgColour
    ensures WordAt(f, 6) == m.tileset + 1 && WordAt(f, 8) == m.backdrop
    ensures Item(WordAt(f, 10), WordAt(f, 12), CODE_ENTRANCE) == Last(m.fine, CODE_ENTRANCE)
    ensures Item(WordAt(f, 14), WordAt(f, 16), CODE_EXIT) == Last(m.fine, CODE_EXIT)
  {
    hide LastWith, FineWords, CoarseWords, WordAt;
    SplitWordsAt(f, 0, HeaderWords(m) + FineWords(m), CoarseWords(m));
    SplitWordsAt(f, 0, HeaderWords(m), FineWords(m));
    var h := HeaderWords(m);
    assert WordAt(f, 0 + 2 * 0) == h[0] && WordAt(f, 0 + 2 * 1) == h[1] && WordAt(f, 0 + 2 * 2) == h[2];
    assert WordAt(f, 0 + 2 * 3) == h[3] && WordAt(f, 0 + 2 * 4) == h[4] && WordAt(f, 0 + 2 * 5) == h[5];
    assert WordAt(f, 0 + 2 * 6) == h[6] && WordAt(f, 0 + 2 * 7) == h[7] && WordAt(f, 0 + 2 * 8) == h[8];
  }

  /** The three parts of the file are where the reader looks for them. */
  lemma PartsOfFile(m: Map, tiles: seq<Pair>, attrs: seq<Pair>)
    requires AreWords(FileWords(m))
    ensures var f := FileOf(m, tiles, attrs);
            && |f| == LayersAt(m) + 2 * |tiles| + 2 * |attrs|
            && WordsAt(f, 0, FileWords(m)) && PairsAt(f, LayersAt(m), tiles)
            && PairsAt(f, LayersAt(m) + 2 * |tiles|, attrs)
  {
    hide PrintWords, PrintPairs, FileWords, WordsAt, PairsAt;
    var ws, ps, qs := PrintWords(FileWords(m)), PrintPairs(tiles), PrintPairs(attrs);
    PrintedWordsAt([], FileWords(m), ps + qs);
    assert [] + ws + (ps + qs) == ws + ps + qs;
    PrintedPairsAt(ws, tiles, qs);
    PrintedPairsAt(ws + ps, attrs, []);
    AddNothing(ws + ps + qs);
  }

  /** Two layers with no length between them come back as they were, and the items in file order. */
  lemma RoundTrip(m: Map, tiles: seq<Pair>, attrs: seq<Pair>, tileBytes: seq<Byte>, attrBytes: seq<Byte>)
    requires Writable(m) && AttrSizesFit(m) && AreWords(FileWords(m)) && LayerBytes(m, tileBytes, attrBytes)
    requires Cells(tiles) == tileBytes && Positive(tiles) && Cells(attrs) == attrBytes && Positive(attrs)
    ensures Parse(FileOf(m, tiles, attrs)) == Ok(Reopened(m, tileBytes, attrBytes))
  {
    hide FileWords, FileOf, WordsAt, PairsAt, Cells, Positive, ParseItems, ReadLayer, Scan, AttrsOf, WithCode, LastWith;
    var f := FileOf(m, tiles, attrs);
    PartsOfFile(m, tiles, attrs);
    HeaderReadBack(f, m);
    ItemsReadBack(f, m);
    LayerAt(f, LayersAt(m), tiles);
    LayerAt(f, LayersAt(m) + 2 * |tiles|, attrs);
    assert AttrSize(m.width) == 2 * m.width && AttrSize(m.height) == 2 * m.height;
  }

  method SaveAndReopen(m: Map) returns (r: Result<Map>, ghost tiles: seq<Byte>, ghost attrs: seq<Byte>)
    requires Writable(m)
    ensures !InBounds(m) ==> r == Err(OutsideMap)
    ensures InBounds(m) && AttrSizesFit(m) ==> LayerBytes(m, tiles, attrs) && r == Ok(Reopened(m, tiles, attrs))
  {
    hide Parse, FileWords, Cells, GreedyCount;
    var f;
    ghost var ps, qs;
    f, ps, qs, tiles, attrs := Write(m);
    if f.Err? {
      return Err(f.error), tiles, attrs;
    }
    if AttrSizesFit(m) {
      RoundTrip(m, ps, qs, tiles, attrs);
    }
    r := Open(f.value);
  }

  // Exactly which layers survive

  lemma BackgroundExact(m: Map, tiles: seq<Byte>, attrs: seq<Byte>)
    requires m.width > 0 && LayerBytes(m, tiles, attrs)
    ensures Reopened(m, tiles, attrs).bg == m.bg <==> Canonical(m.bg, m.width, DEFAULT_BGTILE) && ByteCodes(m.bg)
  {
    BytesReadBack(tiles, m.bg, m.width, DEFAULT_BGTILE);
  }

  /** Reading an attribute and writing it again gives the same byte in the same cell. */
  lemma {:induction false} PlacedBack(items: seq<Item>, n: nat)
    requires n <= |items| && ByteCodes(items)
    ensures Placed(AttrsOf(items), n) == items[..n]
  {
    if n > 0 {
      PlacedBack(items, n - 1);
      TakeNext(items, n - 1);
      assert AttrCode(AttrOf(items[n - 1])) == items[n - 1].code;
    }
  }

  /** Attributes survive exactly when they are those a reader would make of a grid of bytes. */
  lemma AttributesExact(m: Map, tiles: seq<Byte>, attrs: seq<Byte>)
    requires m.width > 0 && LayerBytes(m, tiles, attrs)
    ensures Reopened(m, tiles, attrs).attrs == m.attrs <==>
            m.attrs == AttrsOf(AttrItems(m.attrs)) && ByteCodes(AttrItems(m.attrs))
            && Canonical(AttrItems(m.attrs), 2 * m.width, DEFAULT_ATTILE)
  {
    hide Scan, Canonical, Narrow, AttrsOf, Placed;
    var w := 2 * m.width;
    var seen := Scan(Ints(attrs), w, DEFAULT_ATTILE, |attrs|);
    ScanByteCodes(attrs, w, DEFAULT_ATTILE, |attrs|);
    ScanCanonical(Ints(attrs), w, DEFAULT_ATTILE, |attrs|);
    PlacedBack(seen, |seen|);
    assert seen[..|seen|] == seen;
    NarrowBytes(AttrItems(m.attrs));
    ScanPaint(Narrow(AttrItems(m.attrs)), w, DEFAULT_ATTILE, |attrs|);
  }

  lemma {:induction false} WithCodeConcat(a: seq<Item>, b: seq<Item>, code: int, n: nat)
    requires n <= |b|
    ensures WithCode(a + b, code, |a| + n) == WithCode(a, code, |a|) + WithCode(b, code, n)
  {
    if n == 0 {
      WithCodeSame(a + b, a, code, |a|);
    } else {
      WithCodeConcat(a, b, code, n - 1);
      assert (a + b)[|a| + n - 1] == b[n - 1];
    }
  }

  lemma {:induction false} WithCodeSame(a: seq<Item>, b: seq<Item>, code: int, n: nat)
    requires n <= |a| && n <= |b| && forall k :: 0 <= k < n ==> a[k] == b[k]
    ensures WithCode(a, code, n) == WithCode(b, code, n)
  {
    if n > 0 {
      WithCodeSame(a, b, code, n - 1);
    }
  }

  lemma AllConcat(a: seq<Item>, b: seq<Item>, code: int)
    ensures All(a + b, code) == All(a, code) + All(b, code)
  {
    WithCodeConcat(a, b, code, |b|);
  }

  /** Items that all have one code. */
  lemma {:induction false} OneKind(items: seq<Item>, kind: int, code: int, n: nat)
    requires n <= |items| && forall k :: 0 <= k < |items| ==> items[k].code == kind
    ensures WithCode(items, code, n) == if kind == code then items[..n] else []
  {
    if n > 0 {
      OneKind(items, kind, code, n - 1);
      TakeNext(items, n - 1);
    }
  }

  lemma AllOfKind(items: seq<Item>, kind: int, code: int)
    ensures All(All(items, kind), code) == if kind == code then All(items, kind) else []
  {
    OneKind(All(items, kind), kind, code, |All(items, kind)|);
    assert All(items, kind)[..|All(items, kind)|] == All(items, kind);
  }

  /** Each fine kind comes back in its own order; there is exactly one entrance and one exit. */
  lemma FineKept(m: Map, tiles: seq<Byte>, attrs: seq<Byte>)
    requires m.width > 0
    ensures var fine := Reopened(m, tiles, attrs).fine;
            && All(fine, CODE_GRUZZLE) == All(m.fine, CODE_GRUZZLE)
            && All(fine, CODE_DRIP) == All(m.fine, CODE_DRIP)
            && All(fine, CODE_ENTRANCE) == [Last(m.fine, CODE_ENTRANCE)]
            && All(fine, CODE_EXIT) == [Last(m.fine, CODE_EXIT)]
  {
    forall code | code in {CODE_GRUZZLE, CODE_DRIP, CODE_ENTRANCE, CODE_EXIT}
      ensures All(Reopened(m, tiles, attrs).fine, code) ==
              All(All(m.fine, CODE_GRUZZLE), code) + All(All(m.fine, CODE_DRIP), code)
              + (if code == CODE_ENTRANCE then [Last(m.fine, CODE_ENTRANCE)] else if code == CODE_EXIT then [Last(m.fine, CODE_EXIT)] else [])
    {
      FineParts(m, code);
    }
    AllOfKind(m.fine, CODE_GRUZZLE, CODE_GRUZZLE);
    AllOfKind(m.fine, CODE_GRUZZLE, CODE_DRIP);
    AllOfKind(m.fine, CODE_GRUZZLE, CODE_ENTRANCE);
    AllOfKind(m.fine, CODE_GRUZZLE, CODE_EXIT);
    AllOfKind(m.fine, CODE_DRIP, CODE_GRUZZLE);
    AllOfKind(m.fine, CODE_DRIP, CODE_DRIP);
    AllOfKind(m.fine, CODE_DRIP, CODE_ENTRANCE);
    AllOfKind(m.fine, CODE_DRIP, CODE_EXIT);
  }

  lemma FineParts(m: Map, code: int)
    ensures var ends := [Last(m.fine, CODE_ENTRANCE), Last(m.fine, CODE_EXIT)];
            All(FileFine(m) + ends, code) ==
            All(All(m.fine, CODE_GRUZZLE), code) + All(All(m.fine, CODE_DRIP), code)
            + (if code == CODE_ENTRANCE then [Last(m.fine, CODE_ENTRANCE)] else if code == CODE_EXIT then [Last(m.fine, CODE_EXIT)] else [])
  {
    var ends := [Last(m.fine, CODE_ENTRANCE), Last(m.fine, CODE_EXIT)];
    AllConcat(FileFine(m), ends, code);
    AllConcat(All(m.fine, CODE_GRUZZLE), All(m.fine, CODE_DRIP), code);
    hide LastWith;
    assert WithCode(ends, code, 0) == [];
    assert WithCode(ends, code, 1) == if code == CODE_ENTRANCE then [ends[0]] else [];
    assert WithCode(ends, code, 2) == if code == CODE_ENTRANCE then [ends[0]] else if code == CODE_EXIT then [ends[1]] else [];
  }

  lemma {:induction false} OneLetter(items: seq<Item>, code: int, n: nat)
    requires n <= |items| == NUM_LETTERS && forall k :: 0 <= k < NUM_LETTERS ==> items[k].code == CODE_LETTER + k
    ensures WithCode(items, code, n) == if CODE_LETTER <= code < CODE_LETTER + n then [items[code - CODE_LETTER]] else []
  {
    if n > 0 {
      OneLetter(items, code, n - 1);
    }
  }

  lemma CoarseParts(m: Map, code: int)
    ensures All(FileCoarse(m), code) ==
            All(All(m.coarse, CODE_SLIME), code) + All(All(m.coarse, CODE_BOOK), code)
            + All(Letters(m.coarse, |m.coarse|), code)
            + All(All(m.coarse, CODE_ANIM), code) + All(All(m.coarse, CODE_FG), code)
  {
    hide All, Letters;
    var s, b, l := All(m.coarse, CODE_SLIME), All(m.coarse, CODE_BOOK), Letters(m.coarse, |m.coarse|);
    var a, g := All(m.coarse, CODE_ANIM), All(m.coarse, CODE_FG);
    AllConcat(s, b, code);
    AllConcat(s + b, l, code);
    AllConcat(s + b + l, a, code);
    AllConcat(s + b + l + a, g, code);
  }

  /** Each coarse kind comes back in its own order, and each letter once, at the last place it had. */
  lemma CoarseKept(m: Map, code: int)
    ensures code in {CODE_SLIME, CODE_BOOK, CODE_ANIM, CODE_FG} ==> All(FileCoarse(m), code) == All(m.coarse, code)
    ensures CODE_LETTER <= code < CODE_LETTER + NUM_LETTERS ==> All(FileCoarse(m), code) == [Last(m.coarse, code)]
  {
    hide WithCode, LastWith, FileCoarse;
    CoarseParts(m, code);
    AllOfKind(m.coarse, CODE_SLIME, code);
    AllOfKind(m.coarse, CODE_BOOK, code);
    AllOfKind(m.coarse, CODE_ANIM, code);
    AllOfKind(m.coarse, CODE_FG, code);
    LettersInOrder(m.coarse, |m.coarse|);
    OneLetter(Letters(m.coarse, |m.coarse|), code, NUM_LETTERS);
  }

  // What becomes of single items

  /** The last item of a kind counts, wherever it is; without any, one at the origin does. */
  lemma {:induction false} LastIsLast(items: seq<Item>, code: int, n: nat)
    requires n <= |items|
    ensures forall k :: 0 <= k < n && items[k].code == code && (forall j :: k < j < n ==> items[j].code != code) ==>
              LastWith(items, code, n) == items[k]
    ensures (forall k :: 0 <= k < n ==> items[k].code != code) ==> LastWith(items, code, n) == Item(0, 0, code)
  {
    if n > 0 {
      LastIsLast(items, code, n - 1);
    }
  }

  /** Every drip is written with the frequency 0x44 after its place. */
  lemma {:induction false} DripFrequency(items: seq<Item>, n: nat, k: nat)
    requires k < n <= |items|
    ensures PointsWords(items, true, n)[3 * k + 2] == 0x44
  {
    if k < n - 1 {
      DripFrequency(items, n - 1, k);
    }
  }

  /**
   * An attribute beyond column zero is seen in its own place. If it blocks anything it is a platform
   * or a solid cell, as its jump-down flag says; if not, it is what the low byte of its code says.
   */
  lemma AttributeSeen(a: Attr)
    requires a.x > 0
    ensures AttrItems([a]) == [Item(a.x - 1, a.y, AttrCode(a))]
    ensures var r := AttrOf(Item(a.x - 1, a.y, AttrCode(a) % 0x100));
            && r.x == a.x && r.y == a.y
            && (a.blocking && a.flags > 0 ==> r.code == (if a.flags / 16 % 2 == 1 then 0x74 else 0x73))
            && (!(a.blocking && a.flags > 0) ==> r.code == a.code % 0x100)
            && (r.blocking <==> r.code == 0x73 || r.code == 0x74)
            && r.flags == if r.code == 0x73 then 15 else if r.code == 0x74 then 20 else 0
  {
    hide AttrCode;
    CodeSeen(a);
    assert [a][0] == a && Placed([a], 0) == [];
  }

  lemma CodeSeen(a: Attr)
    ensures AttrCode(a) % 0x100 ==
            if a.blocking && a.flags > 0 then (if a.flags / 16 % 2 == 1 then 0x74 else 0x73) else a.code % 0x100
  {
    LowByte(a.code);
  }

  lemma LowByte(n: int)
    ensures n % 0x1_0000 % 0x100 == n % 0x100
  {
  }

  /** Attributes in column zero are not written. */
  lemma {:induction false} ColumnZero(attrs: seq<Attr>, n: nat)
    requires n <= |attrs| && forall k :: 0 <= k < n ==> attrs[k].x == 0
    ensures Placed(attrs, n) == []
  {
    if n > 0 {
      ColumnZero(attrs, n - 1);
    }
  }

  /** Exactly which items stop a level from being written; attributes in column zero do not. */
  lemma OutsideExactly(m: Map)
    ensures InBounds(m) <==>
            && (forall k :: 0 <= k < |m.bg| ==> m.bg[k].x <= m.width && m.bg[k].y <= m.height)
            && (forall k :: 0 <= k < |m.attrs| && m.attrs[k].x > 0 ==> m.attrs[k].x - 1 <= 2 * m.width && m.attrs[k].y <= 2 * m.height)
  {
    PlacedInside(m.attrs, |m.attrs|, 2 * m.width, 2 * m.height);
  }

  lemma {:induction false} PlacedInside(attrs: seq<Attr>, n: nat, w: nat, h: nat)
    requires n <= |attrs|
    ensures NoneOutside(Placed(attrs, n), w, h) <==>
            forall k :: 0 <= k < n && attrs[k].x > 0 ==> attrs[k].x - 1 <= w && attrs[k].y <= h
  {
    hide AttrCode;
    if n > 0 {
      PlacedInside(attrs, n - 1, w, h);
      if attrs[n - 1].x > 0 {
        var before := Placed(attrs, n - 1);
        assert Placed(attrs, n)[|before|].x == attrs[n - 1].x - 1 && Placed(attrs, n)[|before|].y == attrs[n - 1].y;
        assert forall k :: 0 <= k < |before| ==> Placed(attrs, n)[k] == before[k];
      }
    }
  }
}
