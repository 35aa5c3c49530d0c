/** Items scattered into a row-major grid and gathered back from it. */
module Grid {
  import opened Bytes

  datatype Item = Item(x: nat, y: nat, code: int)

  function CellOf(it: Item, w: nat): nat {
    it.y * w + it.x
  }

  /** The item for cell `c` of a grid of width `w`. */
  function ItemAt(c: nat, w: nat, code: int): Item
    requires w > 0
  {
    Item(c % w, c / w, code)
  }

  predicate Inside(items: seq<Item>, w: nat, h: nat) {
    forall k :: 0 <= k < |items| ==> items[k].x < w && items[k].y < h
  }

  /** Every item lands in a cell of a grid of `size` cells. */
  predicate Fits(items: seq<Item>, w: nat, size: nat) {
    forall k :: 0 <= k < |items| ==> CellOf(items[k], w) < size
  }

  /**
   * The writers check coordinates with `>`, and so let the column and row just past the
   * edges pass; every item that passes must still land in a buffer of `size` cells.
   */
  predicate Lands(items: seq<Item>, w: nat, h: nat, size: nat) {
    forall k :: 0 <= k < |items| && items[k].x <= w && items[k].y <= h ==> CellOf(items[k], w) < size
  }

  lemma InsideLands(items: seq<Item>, w: nat, h: nat, size: nat)
    requires Inside(items, w, h) && w * h <= size
    ensures Lands(items, w, h, size)
  {
    InsideFits(items, w, h, size);
  }

  lemma CellBound(x: nat, y: nat, w: nat, h: nat)
    requires x < w && y < h
    ensures y * w + x < w * h
  {
    assert (y + 1) * w <= h * w;
  }

  lemma InsideFits(items: seq<Item>, w: nat, h: nat, size: nat)
    requires Inside(items, w, h) && w * h <= size
    ensures Fits(items, w, size)
  {
    forall k | 0 <= k < |items| ensures CellOf(items[k], w) < size {
      CellBound(items[k].x, items[k].y, w, h);
    }
  }

  /** Row-major order and its inverse: cell `c` is column `c % w` of row `c / w`. */
  lemma CellInverse(c: nat, w: nat)
    requires w > 0
    ensures (c / w) * w + c % w == c && c % w < w
  {
  }

  lemma CellUnique(x: nat, y: nat, w: nat)
    requires x < w
    ensures (y * w + x) / w == y && (y * w + x) % w == x
  {
    var c := y * w + x;
    var q, r := c / w, c % w;
    assert q * w + r == c;
    RowsApart(q, y, w);
    RowsApart(y, q, w);
  }

  lemma RowsApart(a: int, b: int, w: nat)
    ensures a < b ==> (a + 1) * w <= b * w
  {
  }

  /** The grid after placing the items in order: the last item on a cell wins. */
  function Paint(grid: seq<int>, items: seq<Item>, w: nat): (r: seq<int>)
    requires Fits(items, w, |grid|)
    ensures |r| == |grid|
  {
    if items == [] then grid
    else
      var last := items[|items| - 1];
      Paint(grid, items[..|items| - 1], w)[CellOf(last, w) := last.code]
  }

  /** The code that the last item on cell `c` gives it, or `none` if no item is there. */
  function LastOn(items: seq<Item>, w: nat, c: nat, none: int): int {
    if items == [] then none
    else
      var last := items[|items| - 1];
      if CellOf(last, w) == c then last.code else LastOn(items[..|items| - 1], w, c, none)
  }

  lemma {:induction false} PaintedCell(grid: seq<int>, items: seq<Item>, w: nat, c: nat)
    requires Fits(items, w, |grid|) && c < |grid|
    ensures Paint(grid, items, w)[c] == LastOn(items, w, c, grid[c])
  {
    if items != [] {
      PaintedCell(grid, items[..|items| - 1], w, c);
    }
  }

  /** Codes painted over a grid stay within any range that holds the grid and the items. */
  lemma {:induction false} PaintedRange(grid: seq<int>, items: seq<Item>, w: nat, lo: int, hi: int)
    requires Fits(items, w, |grid|)
    requires forall c :: 0 <= c < |grid| ==> lo <= grid[c] < hi
    requires forall k :: 0 <= k < |items| ==> lo <= items[k].code < hi
    ensures forall c :: 0 <= c < |grid| ==> lo <= Paint(grid, items, w)[c] < hi
  {
    if items != [] {
      PaintedRange(grid, items[..|items| - 1], w, lo, hi);
    }
  }

  /** The items for the first `n` cells in row-major order, skipping blank cells. */
  function Scan(grid: seq<int>, w: nat, blank: int, n: nat): (items: seq<Item>)
    requires w > 0 && n <= |grid|
  {
    if n == 0 then []
    else if grid[n - 1] == blank then Scan(grid, w, blank, n - 1)
    else Scan(grid, w, blank, n - 1) + [ItemAt(n - 1, w, grid[n - 1])]
  }

  lemma {:induction false} ScanFits(grid: seq<int>, w: nat, blank: int, n: nat)
    requires w > 0 && n <= |grid|
    ensures Fits(Scan(grid, w, blank, n), w, n)
  {
    if n > 0 {
      ScanFits(grid, w, blank, n - 1);
      CellInverse(n - 1, w);
    }
  }

  /** Scattering the gathered items over a blank grid rebuilds the grid. */
  lemma {:induction false} PaintScan(grid: seq<int>, w: nat, blank: int, n: nat)
    requires w > 0 && n <= |grid|
    ensures Fits(Scan(grid, w, blank, n), w, |grid|)
    ensures Paint(Repeat(blank, |grid|), Scan(grid, w, blank, n), w) == grid[..n] + Repeat(blank, |grid| - n)
  {
    ScanFits(grid, w, blank, n);
    if n > 0 {
      PaintScan(grid, w, blank, n - 1);
      CellInverse(n - 1, w);
      var items := Scan(grid, w, blank, n);
      if grid[n - 1] != blank {
        assert items[..|items| - 1] == Scan(grid, w, blank, n - 1);
      }
    }
  }

  lemma GridRebuilt(grid: seq<int>, w: nat, blank: int)
    requires w > 0
    ensures Fits(Scan(grid, w, blank, |grid|), w, |grid|)
    ensures Paint(Repeat(blank, |grid|), Scan(grid, w, blank, |grid|), w) == grid
  {
    PaintScan(grid, w, blank, |grid|);
  }

  /** Items in strictly increasing cell order, none of them blank. */
  predicate Canonical(items: seq<Item>, w: nat, blank: int) {
    && (forall k :: 0 <= k < |items| ==> items[k].x < w && items[k].code != blank)
    && (forall j, k :: 0 <= j < k < |items| ==> CellOf(items[j], w) < CellOf(items[k], w))
  }

  lemma {:induction false} ScanCanonical(grid: seq<int>, w: nat, blank: int, n: nat)
    requires w > 0 && n <= |grid|
    ensures Canonical(Scan(grid, w, blank, n), w, blank)
  {
    if n > 0 {
      ScanCanonical(grid, w, blank, n - 1);
      ScanFits(grid, w, blank, n - 1);
      CellInverse(n - 1, w);
    }
  }

  /** Gathering undoes scattering exactly when the items were in canonical order. */
  lemma ScanPaint(items: seq<Item>, w: nat, blank: int, size: nat)
    requires w > 0 && Fits(items, w, size)
    ensures Scan(Paint(Repeat(blank, size), items, w), w, blank, size) == items <==> Canonical(items, w, blank)
  {
    var grid := Paint(Repeat(blank, size), items, w);
    ScanCanonical(grid, w, blank, size);
    if Canonical(items, w, blank) {
      GatherCanonical(items, w, blank, size, size);
      assert OnCellsBelow(items, w, size) == items by { AllBelow(items, w, size); }
    }
  }

  function OnCellsBelow(items: seq<Item>, w: nat, n: nat): seq<Item> {
    if items == [] then []
    else if CellOf(items[|items| - 1], w) < n then items
    else OnCellsBelow(items[..|items| - 1], w, n)
  }

  lemma AllBelow(items: seq<Item>, w: nat, n: nat)
    requires Fits(items, w, n)
    ensures OnCellsBelow(items, w, n) == items
  {
  }

  lemma {:induction false} GatherCanonical(items: seq<Item>, w: nat, blank: int, size: nat, n: nat)
    requires w > 0 && Fits(items, w, size) && n <= size && Canonical(items, w, blank)
    ensures Scan(Paint(Repeat(blank, size), items, w), w, blank, n) == OnCellsBelow(items, w, n)
  {
    if n == 0 {
      NoneBelowZero(items, w);
    } else {
      GatherCanonical(items, w, blank, size, n - 1);
      PaintedCell(Repeat(blank, size), items, w, n - 1);
      CutAt(items, w, blank, n - 1);
    }
  }

  lemma {:induction false} NoneBelowZero(items: seq<Item>, w: nat)
    ensures OnCellsBelow(items, w, 0) == []
  {
    if items != [] {
      NoneBelowZero(items[..|items| - 1], w);
    }
  }

  /** In canonical items, cell `c` adds its own item, if it has one, to those before it. */
  lemma {:induction false} CutAt(items: seq<Item>, w: nat, blank: int, c: nat)
    requires w > 0 && Canonical(items, w, blank)
    ensures OnCellsBelow(items, w, c + 1) ==
            if LastOn(items, w, c, blank) == blank then OnCellsBelow(items, w, c)
            else OnCellsBelow(items, w, c) + [ItemAt(c, w, LastOn(items, w, c, blank))]
  {
    if items != [] {
      var init, last := items[..|items| - 1], items[|items| - 1];
      if CellOf(last, w) < c {
        NotOn(init, w, c, blank);
      } else if CellOf(last, w) == c {
        AllBelow(init, w, c);
        CellUnique(last.x, last.y, w);
        assert items == init + [last];
      } else {
        CutAt(init, w, blank, c);
      }
    }
  }

  lemma {:induction false} NotOn(items: seq<Item>, w: nat, c: nat, none: int)
    requires forall k :: 0 <= k < |items| ==> CellOf(items[k], w) != c
    ensures LastOn(items, w, c, none) == none
  {
    if items != [] {
      NotOn(items[..|items| - 1], w, c, none);
    }
  }

  /** Placing one more item. */
  lemma PaintOne(start: seq<int>, items: seq<Item>, k: nat, w: nat)
    requires k < |items| && Fits(items[..k], w, |start|) && CellOf(items[k], w) < |start|
    ensures Fits(items[..k + 1], w, |start|)
    ensures Paint(start, items[..k + 1], w) == Paint(start, items[..k], w)[CellOf(items[k], w) := items[k].code]
  {
    assert items[..k + 1][..k] == items[..k];
  }

  /** The last item on a cell is the one after which no item is on the cell. */
  lemma {:induction false} LastIs(items: seq<Item>, w: nat, c: nat, k: nat, none: int)
    requires k < |items| && CellOf(items[k], w) == c
    requires forall j :: k < j < |items| ==> CellOf(items[j], w) != c
    ensures LastOn(items, w, c, none) == items[k].code
  {
    if k < |items| - 1 {
      LastIs(items[..|items| - 1], w, c, k, none);
    }
  }

  /** The loop every writer uses to lay its items out in a buffer. */
  method PaintInto(a: array<int>, items: seq<Item>, w: nat)
    requires Fits(items, w, a.Length)
    modifies a
    ensures a[..] == Paint(old(a[..]), items, w)
  {
    ghost var start := a[..];
    assert items[..0] == [];
    for k := 0 to |items|
      invariant Fits(items[..k], w, a.Length)
      invariant a[..] == Paint(start, items[..k], w)
    {
      assert items[..k + 1][..k] == items[..k];
      a[CellOf(items[k], w)] := items[k].code;
    }
    assert items[..|items|] == items;
  }

  /** Only the cells scanned matter. */
  lemma {:induction false} ScanPrefix(g: seq<int>, h: seq<int>, w: nat, blank: int, n: nat)
    requires w > 0 && n <= |g| && n <= |h| && forall c :: 0 <= c < n ==> g[c] == h[c]
    ensures Scan(g, w, blank, n) == Scan(h, w, blank, n)
  {
    if n > 0 {
      ScanPrefix(g, h, w, blank, n - 1);
    }
  }

  // Layers of bytes

  function Ints(bytes: seq<Byte>): (s: seq<int>)
    ensures |s| == |bytes|
  {
    seq(|bytes|, i requires 0 <= i < |bytes| => bytes[i] as int)
  }

  /** The items as a buffer of bytes keeps them: codes are cut to eight bits. */
  function Narrow(items: seq<Item>): (r: seq<Item>)
    ensures |r| == |items|
  {
    seq(|items|, k requires 0 <= k < |items| => items[k].(code := items[k].code % 0x100))
  }

  predicate ByteCodes(items: seq<Item>) {
    forall k :: 0 <= k < |items| ==> 0 <= items[k].code < 0x100
  }

  lemma {:induction false} ScanByteCodes(bytes: seq<Byte>, w: nat, blank: int, n: nat)
    requires w > 0 && n <= |bytes|
    ensures ByteCodes(Scan(Ints(bytes), w, blank, n))
  {
    if n > 0 {
      ScanByteCodes(bytes, w, blank, n - 1);
    }
  }

  lemma NarrowBytes(items: seq<Item>)
    ensures Narrow(items) == items <==> ByteCodes(items)
  {
    if Narrow(items) == items {
      assert forall k :: 0 <= k < |items| ==> Narrow(items)[k].code == items[k].code % 0x100;
    }
  }

  /** Items come back from a layer of bytes if and only if they are in reading order and are bytes. */
  lemma BytesReadBack(bytes: seq<Byte>, items: seq<Item>, w: nat, blank: int)
    requires w > 0 && Fits(Narrow(items), w, |bytes|)
    requires Ints(bytes) == Paint(Repeat(blank, |bytes|), Narrow(items), w)
    ensures Scan(Ints(bytes), w, blank, |bytes|) == items <==> Canonical(items, w, blank) && ByteCodes(items)
  {
    hide Scan, Canonical, Narrow;
    NarrowBytes(items);
    ScanByteCodes(bytes, w, blank, |bytes|);
    ScanCanonical(Ints(bytes), w, blank, |bytes|);
    ScanPaint(Narrow(items), w, blank, |bytes|);
  }

  // Steps of a writer that lays out a layer of bytes item by item

  lemma BlankBytes(bytes: seq<Byte>)
    requires forall i :: 0 <= i < |bytes| ==> bytes[i] == bytes[0]
    ensures bytes != [] ==> Ints(bytes) == Repeat(bytes[0] as int, |bytes|)
  {
  }

  lemma NarrowPrefix(items: seq<Item>, n: nat)
    requires n <= |items|
    ensures Narrow(items)[..n] == Narrow(items[..n])
    ensures n == |items| ==> Narrow(items)[..n] == Narrow(items)
    ensures n == 0 ==> Narrow(items)[..n] == []
  {
  }

  lemma NothingPainted(grid: seq<int>, w: nat)
    ensures Fits([], w, |grid|) && Paint(grid, [], w) == grid
  {
  }

  /** What placing item `k` changes. */
  lemma PaintNext(start: seq<int>, items: seq<Item>, k: nat, w: nat)
    requires k < |items| && Fits(Narrow(items)[..k], w, |start|) && CellOf(items[k], w) < |start|
    ensures Fits(Narrow(items)[..k + 1], w, |start|)
    ensures Paint(start, Narrow(items)[..k + 1], w) ==
            Paint(start, Narrow(items)[..k], w)[CellOf(items[k], w) := items[k].code % 0x100]
  {
    var all := Narrow(items);
    assert all[..k + 1][..k] == all[..k];
  }

  lemma SetByte(bytes: seq<Byte>, c: nat, b: Byte)
    requires c < |bytes|
    ensures Ints(bytes[c := b]) == Ints(bytes)[c := b as int]
  {
  }
}
