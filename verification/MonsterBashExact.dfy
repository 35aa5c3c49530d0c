/** Which layers of a Monster Bash background come back as they were. */
module MonsterBashExact {
  import opened Bytes
  import opened Grid
  import opened MonsterBash

  // Words and numbers

  /** A word with one more bit at its end. */
  function WithBit(v: bv16, odd: bool): bv16 {
    if odd then (v << 1) | 1 else v << 1
  }

  lemma EvenWord(v: bv16)
    requires v as int < 0x8000
    ensures (v << 1) as int == 2 * (v as int)
  {
  }

  lemma OddWord(v: bv16)
    requires v as int < 0x8000
    ensures ((v << 1) | 1) as int == 2 * (v as int) + 1
  {
  }

  lemma WithBitIs(v: bv16, odd: bool)
    requires ToInt(v) < 0x8000
    ensures ToInt(WithBit(v, odd)) == 2 * ToInt(v) + if odd then 1 else 0
  {
    if odd {
      OddWord(v);
      assert WithBit(v, odd) == (v << 1) | 1;
    } else {
      EvenWord(v);
      assert WithBit(v, odd) == v << 1;
    }
  }

  /** Every 16-bit number is the value of its word. */
  lemma {:induction false} NumberKept(n: nat)
    requires IsWord(n)
    ensures ToInt(ToWord(n)) == n
  {
    hide ToInt, ToWord, WithBit;
    if n == 0 {
      NoValue();
    } else {
      NumberKept(n / 2);
      WithBitIs(ToWord(n / 2), n % 2 == 1);
      WordKept(WithBit(ToWord(n / 2), n % 2 == 1));
    }
  }

  lemma NoValue()
    ensures ToInt(ToWord(0)) == 0
  {
    WordKept(0);
  }

  lemma TileBits(v: bv16)
    ensures ToInt(And(v, TILE)) <= 0x1FF
    ensures ToInt(v) <= 0x1FF ==> And(v, TILE) == v
    ensures v == 0 <==> ToInt(v) == 0
  {
  }

  /** The number that the reader gives an attribute. */
  function AttrCode(mask: bv16): (n: int)
    ensures IsWord(n)
  {
    ToInt(mask >> 9)
  }

  /** The bits that such a number stands for. */
  function AttrBits(code: int): bv16 {
    ToWord(code) << 9
  }

  lemma AttrCodeKept(mask: bv16)
    requires And(mask, ATTR) == mask
    ensures AttrBits(AttrCode(mask)) == mask
    ensures mask == 0 <==> AttrCode(mask) == 0
  {
    WordKept(mask >> 9);
    HighBits(mask);
    TileBits(mask >> 9);
  }

  lemma HighBits(mask: bv16)
    requires And(mask, ATTR) == mask
    ensures (mask >> 9) << 9 == mask && (mask == 0 <==> mask >> 9 == 0)
  {
  }

  lemma MaskBits(a: Flags)
    ensures And(MaskOf(a), ATTR) == MaskOf(a)
  {
  }

  /** The flags of a word depend on its attribute bits alone. */
  lemma FlagBits(word: bv16)
    ensures FlagsOf(And(word, ATTR)) == FlagsOf(word)
    ensures And(And(word, ATTR), ATTR) == And(word, ATTR)
  {
  }

  /** Bits of the three layers, merged, are told apart again. */
  lemma BitsApart(t: bv16, a: bv16, p: bv16)
    requires And(t, TILE) == t && And(a, ATTR) == a && (p == 0 || p == POINT)
    ensures And(Or(Or(t, a), p), TILE) == t && And(Or(Or(t, a), p), ATTR) == a && And(Or(Or(t, a), p), POINT) == p
  {
  }

  // Layers in normal form

  /** An attribute as the reader makes it: its flags and its code say the same, and they say something. */
  predicate NormalAttr(a: Attr) {
    var mask := MaskOf(a.flags);
    mask != 0 && a.at.code == AttrCode(mask) && a.flags == FlagsOf(mask)
  }

  /** Layers in reading order and inside the map, whose codes fit their bits. */
  predicate Normal(l: Layers, w: nat, h: nat) {
    && Inside(l.tiles, w, h) && Canonical(l.tiles, w, 0) && (forall k :: 0 <= k < |l.tiles| ==> 1 <= l.tiles[k].code <= 0x1FF)
    && Inside(Places(l.attrs), w, h) && Canonical(Places(l.attrs), w, 0)
    && (forall k :: 0 <= k < |l.attrs| ==> NormalAttr(l.attrs[k]))
    && Inside(l.points, w, h) && Canonical(l.points, w, 0) && (forall k :: 0 <= k < |l.points| ==> l.points[k].code == 1)
  }

  // The layers of a grid, one by one

  function TileInts(words: seq<bv16>): (r: seq<int>)
    ensures |r| == |words|
  {
    seq(|words|, c requires 0 <= c < |words| => ToInt(And(words[c], TILE)))
  }

  function AttrInts(words: seq<bv16>): (r: seq<int>)
    ensures |r| == |words|
  {
    seq(|words|, c requires 0 <= c < |words| => AttrCode(And(words[c], ATTR)))
  }

  function PointInts(words: seq<bv16>): (r: seq<int>)
    ensures |r| == |words|
  {
    seq(|words|, c requires 0 <= c < |words| => if And(words[c], POINT) != 0 then 1 else 0)
  }

  /** Each layer is gathered from its own numbers, and the attributes are normal. */
  lemma {:induction false} SplitIsScan(words: seq<bv16>, w: nat, n: nat)
    requires w > 0 && n <= |words|
    ensures var l := Split(words, w, n);
            && l.tiles == Scan(TileInts(words), w, 0, n)
            && Places(l.attrs) == Scan(AttrInts(words), w, 0, n)
            && l.points == Scan(PointInts(words), w, 0, n)
            && forall k :: 0 <= k < |l.attrs| ==> NormalAttr(l.attrs[k])
  {
    hide And, FlagsOf, MaskOf, ToInt, AttrCode, NormalAttr;
    if n > 0 {
      SplitIsScan(words, w, n - 1);
      var l, word := Split(words, w, n - 1), words[n - 1];
      TileBits(And(word, TILE));
      AddedNormal(l, word, ItemAt(n - 1, w, 0));
    }
  }

  lemma AddedNormal(l: Layers, word: bv16, at: Item)
    requires forall k :: 0 <= k < |l.attrs| ==> NormalAttr(l.attrs[k])
    ensures var l' := AddCell(l, word, at);
            && Places(l'.attrs) == (if And(word, ATTR) != 0 then Places(l.attrs) + [at.(code := AttrCode(And(word, ATTR)))] else Places(l.attrs))
            && (And(word, ATTR) != 0 <==> AttrCode(And(word, ATTR)) != 0)
            && forall k :: 0 <= k < |l'.attrs| ==> NormalAttr(l'.attrs[k])
  {
    hide And, FlagsOf, MaskOf, ToInt;
    FlagBits(word);
    FlagsReadBack(word);
    AttrCodeKept(And(word, ATTR));
    if And(word, ATTR) != 0 {
      assert NormalAttr(Attr(at.(code := AttrCode(And(word, ATTR))), FlagsOf(word)));
    }
  }

  /** The layers of any grid are normal. */
  lemma SplitNormal(words: seq<bv16>, w: nat, h: nat)
    requires w > 0 && |words| == w * h
    ensures Normal(Split(words, w, |words|), w, h)
  {
    hide And, ToInt, NormalAttr, Split, Scan, AttrCode;
    var l := Split(words, w, |words|);
    SplitIsScan(words, w, |words|);
    SplitInside(words, w, h, |words|);
    ScanCanonical(TileInts(words), w, 0, |words|);
    ScanCanonical(AttrInts(words), w, 0, |words|);
    ScanCanonical(PointInts(words), w, 0, |words|);
    forall c | 0 <= c < |words| ensures 0 <= TileInts(words)[c] <= 0x1FF {
      TileBits(words[c]);
    }
    ScanRange(TileInts(words), w, 0, |words|, 0x1FF);
    ScanRange(PointInts(words), w, 0, |words|, 1);
  }

  lemma {:induction false} ScanRange(grid: seq<int>, w: nat, blank: int, n: nat, top: int)
    requires w > 0 && n <= |grid| && blank == 0 && forall c :: 0 <= c < n ==> 0 <= grid[c] <= top
    ensures forall k :: 0 <= k < |Scan(grid, w, blank, n)| ==> 1 <= Scan(grid, w, blank, n)[k].code <= top
  {
    if n > 0 {
      ScanRange(grid, w, blank, n - 1, top);
    }
  }

  // Merging normal layers

  lemma {:induction false} TileWordIs(items: seq<Item>, n: nat, w: nat, c: nat)
    requires n <= |items|
    ensures TileWord(items, n, w, c) == ToWord(LastOn(items[..n], w, c, 0))
  {
    hide ToWord;
    if n > 0 {
      TileWordIs(items, n - 1, w, c);
      assert items[..n][..n - 1] == items[..n - 1];
    } else {
      assert ToWord(0) == 0 by { ZeroWord(); }
    }
  }

  lemma ZeroWord()
    ensures ToWord(0) == 0 && AttrBits(0) == 0
  {
    WordKept(0);
  }

  /** In strict order no attribute before the last one is on the last one's cell. */
  lemma {:induction false} AttrWordIs(attrs: seq<Attr>, n: nat, w: nat, c: nat)
    requires n <= |attrs| && Canonical(Places(attrs), w, 0) && forall k :: 0 <= k < |attrs| ==> NormalAttr(attrs[k])
    ensures AttrWord(attrs, n, w, c) == AttrBits(LastOn(Places(attrs)[..n], w, c, 0))
    ensures And(AttrWord(attrs, n, w, c), ATTR) == AttrWord(attrs, n, w, c)
  {
    hide And, Or, MaskOf, FlagsOf, ToWord, ToInt, AttrBits, AttrCode;
    ZeroWord();
    OrNothing(0);
    NoBits();
    if n > 0 {
      var a := attrs[n - 1];
      AttrWordIs(attrs, n - 1, w, c);
      assert Places(attrs)[..n][..n - 1] == Places(attrs)[..n - 1];
      assert NormalAttr(a) && Places(attrs)[n - 1] == a.at;
      if CellOf(a.at, w) == c {
        var before := Places(attrs)[..n - 1];
        forall k | 0 <= k < n - 1 ensures CellOf(before[k], w) != c {
          assert CellOf(Places(attrs)[k], w) < CellOf(Places(attrs)[n - 1], w);
        }
        NotOn(Places(attrs)[..n - 1], w, c, 0);
        OrNothing(MaskOf(a.flags));
        MaskBits(a.flags);
        AttrCodeKept(MaskOf(a.flags));
      }
    }
  }

  lemma NoBits()
    ensures And(0, ATTR) == 0
  {
  }

  lemma {:induction false} PointWordIs(items: seq<Item>, n: nat, w: nat, h: nat, c: nat)
    requires n <= |items| && Inside(items, w, h) && forall k :: 0 <= k < |items| ==> items[k].code == 1
    ensures PointWord(items, n, w, h, c) == if LastOn(items[..n], w, c, 0) == 1 then POINT else 0
    ensures LastOn(items[..n], w, c, 0) == 0 || LastOn(items[..n], w, c, 0) == 1
  {
    hide Or;
    OrNothing(POINT);
    if n > 0 {
      PointWordIs(items, n - 1, w, h, c);
      PointTwice();
      assert items[..n][..n - 1] == items[..n - 1];
    }
  }

  lemma PointTwice()
    ensures Or(POINT, POINT) == POINT
  {
  }

  lemma {:induction false} LastInRange(items: seq<Item>, w: nat, c: nat, top: int)
    requires top >= 0 && forall k :: 0 <= k < |items| ==> 0 <= items[k].code <= top
    ensures 0 <= LastOn(items, w, c, 0) <= top
  {
    if items != [] {
      LastInRange(items[..|items| - 1], w, c, top);
    }
  }

  /** The numbers of one merged word: what the last item of each layer says. */
  lemma MergedCell(l: Layers, w: nat, h: nat, c: nat)
    requires Normal(l, w, h)
    ensures var word := Merged(l, w, h, c);
            && ToInt(And(word, TILE)) == LastOn(l.tiles, w, c, 0)
            && AttrCode(And(word, ATTR)) == LastOn(Places(l.attrs), w, c, 0)
            && (if And(word, POINT) != 0 then 1 else 0) == LastOn(l.points, w, c, 0)
  {
    hide And, Or, MaskOf, FlagsOf, ToWord, ToInt, AttrBits, AttrCode, NormalAttr, Canonical;
    var places := Places(l.attrs);
    assert l.tiles[..|l.tiles|] == l.tiles && places[..|places|] == places && l.points[..|l.points|] == l.points;
    TileWordIs(l.tiles, |l.tiles|, w, c);
    AttrWordIs(l.attrs, |l.attrs|, w, c);
    PointWordIs(l.points, |l.points|, w, h, c);
    var t, a := LastOn(l.tiles, w, c, 0), LastOn(places, w, c, 0);
    LastInRange(l.tiles, w, c, 0x1FF);
    NumberKept(t);
    TileBits(ToWord(t));
    var p := PointWord(l.points, |l.points|, w, h, c);
    BitsApart(ToWord(t), AttrWord(l.attrs, |l.attrs|, w, c), p);
    AttrCodes(l.attrs, w, c);
    PointIsSet();
  }

  lemma PointIsSet()
    ensures POINT != 0
  {
  }

  lemma {:induction false} AttrCodes(attrs: seq<Attr>, w: nat, c: nat)
    requires forall k :: 0 <= k < |attrs| ==> NormalAttr(attrs[k])
    ensures AttrCode(AttrBits(LastOn(Places(attrs), w, c, 0))) == LastOn(Places(attrs), w, c, 0)
  {
    hide And, MaskOf, FlagsOf, AttrBits, AttrCode;
    if attrs == [] {
      ZeroCode();
    } else {
      var init, last := attrs[..|attrs| - 1], attrs[|attrs| - 1];
      AttrCodes(init, w, c);
      assert Places(attrs)[..|attrs| - 1] == Places(init);
      assert NormalAttr(last);
      MaskBits(last.flags);
      AttrCodeKept(MaskOf(last.flags));
    }
  }

  lemma ZeroCode()
    ensures AttrCode(AttrBits(0)) == 0
  {
    ZeroWord();
    TileBits(0);
  }

  /** Normal attributes are known by their places and codes. */
  lemma SameAttrs(a: seq<Attr>, b: seq<Attr>)
    requires Places(a) == Places(b)
    requires forall k :: 0 <= k < |a| ==> NormalAttr(a[k])
    requires forall k :: 0 <= k < |b| ==> NormalAttr(b[k])
    ensures a == b
  {
    hide And, MaskOf, FlagsOf, AttrBits, AttrCode;
    assert |Places(a)| == |a| && |Places(b)| == |b|;
    forall k | 0 <= k < |a| ensures a[k] == b[k] {
      assert Places(a)[k] == a[k].at && Places(b)[k] == b[k].at;
      assert NormalAttr(a[k]) && NormalAttr(b[k]);
      MaskBits(a[k].flags);
      MaskBits(b[k].flags);
      AttrCodeKept(MaskOf(a[k].flags));
      AttrCodeKept(MaskOf(b[k].flags));
    }
  }

  /** Normal layers come back from their merged words. */
  lemma NormalComesBack(m: Map)
    requires m.width > 0 && Normal(m.layers, m.width, m.height)
    ensures Split(MergedWords(m), m.width, m.width * m.height) == m.layers
  {
    hide And, Split, Scan, AttrCode, NormalAttr, ToInt, Merged, Canonical;
    var words, w, n := MergedWords(m), m.width, m.width * m.height;
    var l := Split(words, w, n);
    SplitIsScan(words, w, n);
    InsideFits(m.layers.tiles, w, m.height, n);
    InsideFits(Places(m.layers.attrs), w, m.height, n);
    InsideFits(m.layers.points, w, m.height, n);
    forall c | 0 <= c < n
      ensures TileInts(words)[c] == Paint(Repeat(0, n), m.layers.tiles, w)[c]
      ensures AttrInts(words)[c] == Paint(Repeat(0, n), Places(m.layers.attrs), w)[c]
      ensures PointInts(words)[c] == Paint(Repeat(0, n), m.layers.points, w)[c]
    {
      MergedCell(m.layers, w, m.height, c);
      PaintedCell(Repeat(0, n), m.layers.tiles, w, c);
      PaintedCell(Repeat(0, n), Places(m.layers.attrs), w, c);
      PaintedCell(Repeat(0, n), m.layers.points, w, c);
    }
    assert TileInts(words) == Paint(Repeat(0, n), m.layers.tiles, w);
    assert AttrInts(words) == Paint(Repeat(0, n), Places(m.layers.attrs), w);
    assert PointInts(words) == Paint(Repeat(0, n), m.layers.points, w);
    ScanPaint(m.layers.tiles, w, 0, n);
    ScanPaint(Places(m.layers.attrs), w, 0, n);
    ScanPaint(m.layers.points, w, 0, n);
    SameAttrs(l.attrs, m.layers.attrs);
  }

  /**
   * Layers come back as they were if and only if each of them is inside the map and in
   * reading order, tiles have nine bits, attributes say something, in code and flags alike,
   * and interactive items have the code 1.
   */
  lemma LayersExact(m: Map)
    requires m.width > 0
    ensures Split(MergedWords(m), m.width, m.width * m.height) == m.layers <==> Normal(m.layers, m.width, m.height)
  {
    hide Split, Merged, Normal;
    if Split(MergedWords(m), m.width, m.width * m.height) == m.layers {
      SplitNormal(MergedWords(m), m.width, m.height);
    }
    if Normal(m.layers, m.width, m.height) {
      NormalComesBack(m);
    }
  }

  // Files of other lengths

  /** How many cells of the map the first `n` bytes of its file have. */
  function CellsThere(m: Map, n: nat): (c: nat)
    ensures c <= m.width * m.height
  {
    if n < HEADER then 0 else if (n - HEADER) / 2 <= m.width * m.height then (n - HEADER) / 2 else m.width * m.height
  }

  /**
   * The first `n` bytes of a written background, or the whole file with anything after it: the
   * map with as many of its cells as are there, and an error without a single one.
   */
  lemma CutFile(m: Map, n: nat, more: seq<Byte>)
    requires 0 < m.width < 0x8000 && 0 < m.height < 0x1000 && n <= |FileOf(m)| && (n < |FileOf(m)| ==> more == [])
    ensures Meaning(FileOf(m)[..n] + more) ==
            if n < 10 then Err(Truncated) else Ok(Map(m.width, m.height, Split(MergedWords(m), m.width, CellsThere(m, n))))
  {
    hide WordAt, Split, FileOf, MergedWords, WordsIn, CellsThere, Meaning;
    var whole, f := FileOf(m), FileOf(m)[..n] + more;
    HeaderReadBack(m);
    GridReadBack(m);
    if n < |whole| {
      AddNothing(whole[..n]);
    }
    AreaPositive(m.width, m.height);
    if n >= HEADER + 2 {
      SameWord(whole, f, n, 2);
      SameWord(whole, f, n, 6);
      var cells := CellsThere(m, n);
      CellsInFile(m, f, n);
      SameWords(whole, f, n, cells);
      SplitPrefix(WordsIn(f), MergedWords(m), m.width, cells);
      MeaningIs(f, m.width, m.height, cells);
    } else {
      TooShort(f);
    }
  }

  lemma AreaPositive(w: nat, h: nat)
    requires w > 0 && h > 0
    ensures w * h > 0
  {
  }

  lemma TooShort(f: seq<Byte>)
    requires |f| < HEADER + 2
    ensures Meaning(f) == Err(Truncated)
  {
  }

  lemma MeaningIs(f: seq<Byte>, w: nat, h: nat, cells: nat)
    requires |f| >= HEADER + 2 && WidthIn(f) == w > 0 && HeightIn(f) == h && CellsRead(f) == cells
    ensures Meaning(f) == Ok(Map(w, h, Split(WordsIn(f), w, cells)))
  {
    hide WordAt, Split, WordsIn;
  }

  /** Of the file's own cells as many are read as are there. */
  lemma CellsInFile(m: Map, f: seq<Byte>, n: nat)
    requires HEADER + 2 <= n <= |f| && WidthIn(f) == m.width && HeightIn(f) == m.height
    requires n <= HEADER + 2 * (m.width * m.height) && (n < HEADER + 2 * (m.width * m.height) ==> |f| == n)
    ensures CellsRead(f) == CellsThere(m, n) <= (n - HEADER) / 2
  {
    hide WordAt, WidthIn, HeightIn;
    var area := m.width * m.height;
    assert Cells(m.width, m.height) == area;
    assert |WordsIn(f)| == (|f| - HEADER) / 2;
  }

  lemma SameWord(a: seq<Byte>, b: seq<Byte>, n: nat, at: nat)
    requires n <= |a| && n <= |b| && a[..n] == b[..n] && at + 2 <= n
    ensures WordAt(a, at) == WordAt(b, at)
  {
    assert a[at] == a[..n][at] && a[at + 1] == a[..n][at + 1];
    assert b[at] == b[..n][at] && b[at + 1] == b[..n][at + 1];
  }

  lemma SameWords(a: seq<Byte>, b: seq<Byte>, n: nat, cells: nat)
    requires HEADER <= n <= |a| && n <= |b| && a[..n] == b[..n] && HEADER + 2 * cells <= n
    ensures forall i :: 0 <= i < cells ==> WordsIn(a)[i] == WordsIn(b)[i]
  {
    hide WordAt, ToWord;
    forall i | 0 <= i < cells ensures WordsIn(a)[i] == WordsIn(b)[i] {
      SameWord(a, b, n, HEADER + 2 * i);
    }
  }

  /** A file that gives the width zero has no cells. */
  lemma NoColumns(f: seq<Byte>)
    requires |f| >= 10 && WordAt(f, 2) < 2
    ensures Meaning(f) == Ok(Map(0, WordAt(f, 6) / 16, Layers([], [], [])))
  {
  }
}
