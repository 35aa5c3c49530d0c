/** God of Thunder levels: one large map cut up into screens, and things sorted by screen. */
module GodOfThunder {
  import opened Bytes
  import opened Grid

  const SCREEN_WIDTH := 20
  const SCREEN_HEIGHT := 12
  const ACROSS := 10
  const DOWN := 12
  const SCREENS := 120
  const MAP_WIDTH := 200
  const MAP_HEIGHT := 144
  const LEN_BG := 240
  const LEN_ALL_BG := 28800

  // Geometry

  function ScreenOf(x: nat, y: nat): nat {
    y / SCREEN_HEIGHT * ACROSS + x / SCREEN_WIDTH
  }

  /** The place of a cell in its own screen. */
  function OffsetOf(x: nat, y: nat): nat {
    y % SCREEN_HEIGHT * SCREEN_WIDTH + x % SCREEN_WIDTH
  }

  /** The place of a cell in the buffer that holds all screens one after the other. */
  function PlaceOf(x: nat, y: nat): nat {
    ScreenOf(x, y) * LEN_BG + OffsetOf(x, y)
  }

  /** The reader's coordinates for offset `i` of screen `s`. */
  function XOf(s: nat, i: nat): nat {
    s % ACROSS * SCREEN_WIDTH + i % SCREEN_WIDTH
  }

  function YOf(s: nat, i: nat): nat {
    s / ACROSS * SCREEN_HEIGHT + i / SCREEN_WIDTH
  }

  /** Cutting the map up is a bijection: the writer's index and the reader's coordinates are inverse. */
  lemma CellToPlace(x: nat, y: nat)
    requires x < MAP_WIDTH && y < MAP_HEIGHT
    ensures ScreenOf(x, y) < SCREENS && OffsetOf(x, y) < LEN_BG && PlaceOf(x, y) < LEN_ALL_BG
    ensures XOf(ScreenOf(x, y), OffsetOf(x, y)) == x && YOf(ScreenOf(x, y), OffsetOf(x, y)) == y
  {
    var sy, sx := y / SCREEN_HEIGHT, x / SCREEN_WIDTH;
    var oy, ox := y % SCREEN_HEIGHT, x % SCREEN_WIDTH;
    assert sx < ACROSS && sy < DOWN;
    assert (sy * ACROSS + sx) / ACROSS == sy && (sy * ACROSS + sx) % ACROSS == sx;
    assert (oy * SCREEN_WIDTH + ox) / SCREEN_WIDTH == oy && (oy * SCREEN_WIDTH + ox) % SCREEN_WIDTH == ox;
  }

  /** The place of a cell on one of the screens is in the buffer, and within its screen. */
  lemma PlaceInBuffer(x: nat, y: nat)
    requires ScreenOf(x, y) < SCREENS
    ensures OffsetOf(x, y) < LEN_BG && PlaceOf(x, y) < LEN_ALL_BG
  {
  }

  /** Where an item is seen again: in its own cell, unless that is past the edges of the map. */
  function Wrap(it: Item): Item {
    var s, i := ScreenOf(it.x, it.y), OffsetOf(it.x, it.y);
    Item(XOf(s, i), YOf(s, i), it.code)
  }

  function WrapAll(items: seq<Item>): (r: seq<Item>)
    ensures |r| == |items|
  {
    seq(|items|, k requires 0 <= k < |items| => Wrap(items[k]))
  }

  /** Items inside the map are seen where they are. */
  lemma WrapInside(items: seq<Item>)
    requires Inside(items, MAP_WIDTH, MAP_HEIGHT)
    ensures WrapAll(items) == items
  {
    hide ScreenOf, OffsetOf, XOf, YOf;
    forall k | 0 <= k < |items| ensures WrapAll(items)[k] == items[k] {
      CellToPlace(items[k].x, items[k].y);
    }
  }

  /** Wrapping keeps an item on its screen and in its place there. */
  lemma WrapKeepsPlace(it: Item)
    requires ScreenOf(it.x, it.y) < SCREENS
    ensures var r := Wrap(it);
            && r.x < MAP_WIDTH && r.y < MAP_HEIGHT && r.code == it.code
            && ScreenOf(r.x, r.y) == ScreenOf(it.x, it.y) && PlaceOf(r.x, r.y) == PlaceOf(it.x, it.y)
            && r.x % SCREEN_WIDTH == it.x % SCREEN_WIDTH && r.y % SCREEN_HEIGHT == it.y % SCREEN_HEIGHT
  {
    PlaceInBuffer(it.x, it.y);
    PlaceToCell(ScreenOf(it.x, it.y), OffsetOf(it.x, it.y));
    SameOffset(Wrap(it).x, Wrap(it).y, it.x, it.y);
  }

  lemma SameOffset(x: nat, y: nat, x2: nat, y2: nat)
    requires OffsetOf(x, y) == OffsetOf(x2, y2)
    ensures x % SCREEN_WIDTH == x2 % SCREEN_WIDTH && y % SCREEN_HEIGHT == y2 % SCREEN_HEIGHT
  {
  }

  lemma PlaceToCell(s: nat, i: nat)
    requires s < SCREENS && i < LEN_BG
    ensures XOf(s, i) < MAP_WIDTH && YOf(s, i) < MAP_HEIGHT
    ensures ScreenOf(XOf(s, i), YOf(s, i)) == s && OffsetOf(XOf(s, i), YOf(s, i)) == i
    ensures PlaceOf(XOf(s, i), YOf(s, i)) == s * LEN_BG + i
  {
    var sy, sx, oy, ox := s / ACROSS, s % ACROSS, i / SCREEN_WIDTH, i % SCREEN_WIDTH;
    assert (sy * SCREEN_HEIGHT + oy) / SCREEN_HEIGHT == sy && (sy * SCREEN_HEIGHT + oy) % SCREEN_HEIGHT == oy;
    assert (sx * SCREEN_WIDTH + ox) / SCREEN_WIDTH == sx && (sx * SCREEN_WIDTH + ox) % SCREEN_WIDTH == ox;
  }

  /** Every place is hit by exactly one cell. */
  lemma PlaceUnique(x: nat, y: nat, x2: nat, y2: nat)
    requires x < MAP_WIDTH && y < MAP_HEIGHT && x2 < MAP_WIDTH && y2 < MAP_HEIGHT
    ensures PlaceOf(x, y) == PlaceOf(x2, y2) <==> x == x2 && y == y2
    ensures CellOf(Item(x, y, 0), MAP_WIDTH) == CellOf(Item(x2, y2, 0), MAP_WIDTH) <==> x == x2 && y == y2
  {
    hide ScreenOf, OffsetOf, XOf, YOf;
    CellToPlace(x, y);
    CellToPlace(x2, y2);
    CellUnique(x, y, MAP_WIDTH);
    CellUnique(x2, y2, MAP_WIDTH);
  }

  /** The items with the index of their place, as the buffer of all screens sees them. */
  function Reblock(items: seq<Item>): (r: seq<Item>)
    ensures |r| == |items|
  {
    seq(|items|, k requires 0 <= k < |items| => Item(PlaceOf(items[k].x, items[k].y), 0, items[k].code))
  }

  /** The last item on a cell is the last one on its place. */
  lemma {:induction false} LastOnPlace(items: seq<Item>, x: nat, y: nat, none: int)
    requires Inside(items, MAP_WIDTH, MAP_HEIGHT) && x < MAP_WIDTH && y < MAP_HEIGHT
    ensures LastOn(Reblock(items), 1, PlaceOf(x, y), none) == LastOn(items, MAP_WIDTH, y * MAP_WIDTH + x, none)
  {
    hide PlaceOf;
    if items != [] {
      var init, last := items[..|items| - 1], items[|items| - 1];
      LastOnPlace(init, x, y, none);
      PlaceUnique(last.x, last.y, x, y);
      assert Reblock(items)[..|items| - 1] == Reblock(init);
    }
  }

  // Things sorted by screen

  /** The items on screen `s`, in their order. */
  function OnScreen(items: seq<Item>, s: nat): (r: seq<Item>)
    ensures |r| <= |items|
  {
    if items == [] then []
    else
      var last := items[|items| - 1];
      var before := OnScreen(items[..|items| - 1], s);
      if ScreenOf(last.x, last.y) == s then before + [last] else before
  }

  /** The items of the first `n` screens, screen by screen. */
  function ByScreen(items: seq<Item>, n: nat): seq<Item> {
    if n == 0 then [] else ByScreen(items, n - 1) + OnScreen(items, n - 1)
  }

  lemma {:induction false} OnScreenAppend(a: seq<Item>, b: seq<Item>, s: nat)
    ensures OnScreen(a + b, s) == OnScreen(a, s) + OnScreen(b, s)
  {
    hide ScreenOf;
    if b == [] {
      AddNothing(a);
      AddNothing(OnScreen(a, s));
    } else {
      var init, last := b[..|b| - 1], b[|b| - 1];
      OnScreenAppend(a, init, s);
      assert (a + b)[..|a + b| - 1] == a + init;
    }
  }

  lemma {:induction false} OnScreenTwice(items: seq<Item>, s: nat, s2: nat)
    ensures OnScreen(OnScreen(items, s), s2) == if s == s2 then OnScreen(items, s) else []
    ensures forall k :: 0 <= k < |OnScreen(items, s)| ==> ScreenOf(OnScreen(items, s)[k].x, OnScreen(items, s)[k].y) == s
  {
    hide ScreenOf;
    if items != [] {
      OnScreenTwice(items[..|items| - 1], s, s2);
      var before, last := OnScreen(items[..|items| - 1], s), items[|items| - 1];
      assert (before + [last])[..|before|] == before;
    }
  }

  lemma NothingOnScreen(s: nat)
    ensures OnScreen([], s) == []
  {
  }

  /** Sorting is stable: the items of each screen keep their order, and each screen has its own. */
  lemma {:induction false} SortIsStable(items: seq<Item>, n: nat, s: nat)
    ensures OnScreen(ByScreen(items, n), s) == if s < n then OnScreen(items, s) else []
  {
    hide OnScreen;
    NothingOnScreen(s);
    if n > 0 {
      SortIsStable(items, n - 1, s);
      OnScreenAppend(ByScreen(items, n - 1), OnScreen(items, n - 1), s);
      OnScreenTwice(items, n - 1, s);
      AddNothing(OnScreen(ByScreen(items, n - 1), s));
    }
  }

  /** The result is in order of screens. */
  lemma {:induction false} SortIsOrdered(items: seq<Item>, n: nat)
    ensures forall k :: 0 <= k < |ByScreen(items, n)| ==> ScreenOf(ByScreen(items, n)[k].x, ByScreen(items, n)[k].y) < n
    ensures forall j, k :: 0 <= j < k < |ByScreen(items, n)| ==>
              ScreenOf(ByScreen(items, n)[j].x, ByScreen(items, n)[j].y) <= ScreenOf(ByScreen(items, n)[k].x, ByScreen(items, n)[k].y)
  {
    hide ScreenOf;
    if n > 0 {
      SortIsOrdered(items, n - 1);
      OnScreenTwice(items, n - 1, 0);
    }
  }

  lemma {:induction false} ByScreenLast(items: seq<Item>, last: Item, n: nat)
    ensures multiset(ByScreen(items + [last], n)) ==
            multiset(ByScreen(items, n)) + if ScreenOf(last.x, last.y) < n then multiset{last} else multiset{}
  {
    hide ScreenOf;
    if n > 0 {
      ByScreenLast(items, last, n - 1);
      assert (items + [last])[..|items|] == items;
    }
  }

  /** Nothing is lost or duplicated. */
  lemma {:induction false} SortIsPermutation(items: seq<Item>)
    requires Inside(items, MAP_WIDTH, MAP_HEIGHT)
    ensures multiset(ByScreen(items, SCREENS)) == multiset(items)
  {
    hide ScreenOf, ByScreen;
    if items == [] {
      NothingByScreen(SCREENS);
    } else {
      var init, last := items[..|items| - 1], items[|items| - 1];
      SortIsPermutation(init);
      ByScreenLast(init, last, SCREENS);
      CellToPlace(last.x, last.y);
      assert items == init + [last];
    }
  }

  lemma {:induction false} NothingByScreen(n: nat)
    ensures ByScreen([], n) == []
  {
    if n > 0 {
      NothingByScreen(n - 1);
    }
  }
}
