/** God of Thunder levels: opening what was written. */
module GodOfThunderTheorems {
  import opened Bytes
  import opened Grid
  import opened GodOfThunder
  import opened GodOfThunderFile

  lemma {:induction false} BlockReadBack(c: Screens, n: nat, s: nat)
    requires Sized(c) && s < n <= SCREENS
    ensures BlockAt(Blocks(c, n), s) == Block(c, s)
    decreases n
  {
    hide Block, Sized;
    if s < n - 1 {
      BlockReadBack(c, n - 1, s);
      SliceKept(Blocks(c, n - 1), Block(c, n - 1), s * LEN_SCREEN, (s + 1) * LEN_SCREEN);
    } else {
      SliceAdded(Blocks(c, n - 1), Block(c, n - 1));
    }
  }

  /** The three parts of a screen that stand before, in and after its tables. */
  lemma BlockSplit(c: Screens, s: nat)
    requires Sized(c) && s < SCREENS
    ensures
      var b := Block(c, s);
      && b[..ACTOR_OFFSET] == c.bg[s * LEN_BG..(s + 1) * LEN_BG] + [c.defaults[s], c.music[s]]
      && b[ACTOR_OFFSET..OBJ_OFFSET] == Ids(c.actors[s], ACTORS) + Positions(c.actors[s], ACTORS) + Repeat(0 as Byte, 48)
      && b[OBJ_OFFSET..OBJ_OFFSET + 150] ==
           Ids(c.objects[s], OBJECTS) + PrintWords(Xs(c.objects[s], OBJECTS)) + PrintWords(Ys(c.objects[s], OBJECTS))
  {
    hide Ids, Positions, Xs, Ys, ValidSlots;
    var p1 := c.bg[s * LEN_BG..(s + 1) * LEN_BG] + [c.defaults[s], c.music[s]];
    var p2 := Ids(c.actors[s], ACTORS) + Positions(c.actors[s], ACTORS) + Repeat(0 as Byte, 48);
    var p3 := Ids(c.objects[s], OBJECTS) + PrintWords(Xs(c.objects[s], OBJECTS)) + PrintWords(Ys(c.objects[s], OBJECTS));
    FourParts(p1, p2, p3, Repeat(0 as Byte, 40));
  }

  lemma FourParts<T>(a: seq<T>, b: seq<T>, c: seq<T>, d: seq<T>)
    ensures var all := a + b + c + d;
            && all[..|a|] == a && all[|a|..|a| + |b|] == b
            && all[|a| + |b|..|a| + |b| + |c|] == c
  {
  }

  lemma BgBytes(c: Screens, s: nat, i: nat)
    requires Sized(c) && s < SCREENS && i < LEN_BG
    ensures Block(c, s)[i] == c.bg[s * LEN_BG + i]
    ensures Block(c, s)[LEN_BG] == c.defaults[s] && Block(c, s)[LEN_BG + 1] == c.music[s]
  {
    hide Block;
    BlockSplit(c, s);
    var part := Block(c, s)[..ACTOR_OFFSET];
    assert part[i] == Block(c, s)[i] && part[LEN_BG] == Block(c, s)[LEN_BG] && part[LEN_BG + 1] == Block(c, s)[LEN_BG + 1];
  }

  lemma ActorBytes(c: Screens, s: nat, i: nat)
    requires Sized(c) && s < SCREENS && i < ACTORS
    ensures Block(c, s)[ACTOR_OFFSET + i] == Ids(c.actors[s], ACTORS)[i]
    ensures Block(c, s)[ACTOR_OFFSET + ACTORS + i] == Positions(c.actors[s], ACTORS)[i]
  {
    hide Block, Ids, Positions;
    BlockSplit(c, s);
    var part := Block(c, s)[ACTOR_OFFSET..OBJ_OFFSET];
    assert part[i] == Block(c, s)[ACTOR_OFFSET + i] && part[ACTORS + i] == Block(c, s)[ACTOR_OFFSET + ACTORS + i];
  }

  lemma ObjectBytes(c: Screens, s: nat, i: nat)
    requires Sized(c) && s < SCREENS && i < OBJECTS
    ensures Block(c, s)[OBJ_OFFSET + i] == Ids(c.objects[s], OBJECTS)[i]
    ensures WordAt(Block(c, s), OBJ_OFFSET + 30 + 2 * i) == Xs(c.objects[s], OBJECTS)[i]
    ensures WordAt(Block(c, s), OBJ_OFFSET + 90 + 2 * i) == Ys(c.objects[s], OBJECTS)[i]
  {
    hide Block, Ids, Xs, Ys;
    BlockSplit(c, s);
    var b, ids, xs, ys := Block(c, s), Ids(c.objects[s], OBJECTS), Xs(c.objects[s], OBJECTS), Ys(c.objects[s], OBJECTS);
    var part := b[OBJ_OFFSET..OBJ_OFFSET + 150];
    assert part[i] == b[OBJ_OFFSET + i];
    WordInside(ids, PrintWords(xs), PrintWords(ys), 2 * i);
    WordInside(ids + PrintWords(xs), PrintWords(ys), [], 2 * i);
    AddNothing(ids + PrintWords(xs) + PrintWords(ys));
    WordsReadBack(xs, i);
    WordsReadBack(ys, i);
    assert WordAt(part, 30 + 2 * i) == WordAt(b, OBJ_OFFSET + 30 + 2 * i);
    assert WordAt(part, 90 + 2 * i) == WordAt(b, OBJ_OFFSET + 90 + 2 * i);
  }

  // Actors and objects

  /** What is left of the items: a code whose successor is zero as a byte is dropped. */
  function Kept(items: seq<Item>): (r: seq<Item>)
    ensures |r| <= |items|
  {
    if items == [] then []
    else
      var before, last := Kept(items[..|items| - 1]), items[|items| - 1];
      if (last.code + 1) % 0x100 == 0 then before else before + [last.(code := (last.code + 1) % 0x100 - 1)]
  }

  predicate SlotCodes(items: seq<Item>) {
    forall k :: 0 <= k < |items| ==> 0 <= items[k].code < 0xFF
  }

  /** Nothing is dropped or changed if and only if all codes are at most 254. */
  lemma {:induction false} KeptExact(items: seq<Item>)
    ensures Kept(items) == items <==> SlotCodes(items)
  {
    if items != [] {
      var init, last := items[..|items| - 1], items[|items| - 1];
      KeptExact(init);
      if Kept(items) == items {
        assert |Kept(items)| == |items|;
        assert Kept(items)[..|init|] == Kept(init) && Kept(items)[|init|] == last;
      }
      if SlotCodes(items) {
        assert 0 <= last.code < 0xFF;
        assert items == init + [last];
      }
    }
  }

  lemma {:induction false} KeptAppend(a: seq<Item>, b: seq<Item>)
    ensures Kept(a + b) == Kept(a) + Kept(b)
  {
    if b == [] {
      AddNothing(a);
      AddNothing(Kept(a));
    } else {
      KeptAppend(a, b[..|b| - 1]);
      assert (a + b)[..|a + b| - 1] == a + b[..|b| - 1];
    }
  }

  lemma {:induction false} ActorsReadBack(c: Screens, s: nat, items: seq<Item>, n: nat)
    requires Sized(c) && s < SCREENS && n <= ACTORS && |items| <= ACTORS && c.actors[s] == SlotsOf(items)
    requires forall k :: 0 <= k < |items| ==> items[k].x < MAP_WIDTH && items[k].y < MAP_HEIGHT && ScreenOf(items[k].x, items[k].y) == s
    ensures ActorsIn(Block(c, s), s, n) == Kept(items[..if n <= |items| then n else |items|])
  {
    hide Block, XOf, YOf, ScreenOf, OffsetOf, Sized;
    if n > 0 {
      ActorsReadBack(c, s, items, n - 1);
      ActorBytes(c, s, n - 1);
      if n <= |items| {
        var it := items[n - 1];
        CellToPlace(it.x, it.y);
        assert items[..n][..n - 1] == items[..n - 1];
        SlotPosition(it);
      }
    }
  }

  lemma SlotPosition(it: Item)
    ensures SlotOf(it).y * SCREEN_WIDTH + SlotOf(it).x == OffsetOf(it.x, it.y)
  {
  }

  /** The bytes of slot `i` in the table of objects. */
  lemma ObjectSlot(c: Screens, s: nat, items: seq<Item>, i: nat)
    requires Sized(c) && s < SCREENS && i < OBJECTS && |items| <= OBJECTS && c.objects[s] == SlotsOf(items)
    ensures var b := Block(c, s);
            if i < |items|
            then b[OBJ_OFFSET + i] == SlotOf(items[i]).id && WordAt(b, OBJ_OFFSET + 30 + 2 * i) == SlotOf(items[i]).x
                 && WordAt(b, OBJ_OFFSET + 90 + 2 * i) == SlotOf(items[i]).y
            else b[OBJ_OFFSET + i] == 0
  {
    hide Block, SlotOf, WordAt;
    ObjectBytes(c, s, i);
  }

  lemma {:induction false} ObjectsReadBack(c: Screens, s: nat, items: seq<Item>, n: nat)
    requires Sized(c) && s < SCREENS && n <= OBJECTS && |items| <= OBJECTS && c.objects[s] == SlotsOf(items)
    requires forall k :: 0 <= k < |items| ==> items[k].x < MAP_WIDTH && items[k].y < MAP_HEIGHT && ScreenOf(items[k].x, items[k].y) == s
    ensures ObjectsIn(Block(c, s), s, n) == Kept(items[..if n <= |items| then n else |items|])
  {
    hide Block, ScreenOf, Sized, SlotOf, SlotsOf, WordAt;
    if n > 0 {
      ObjectsReadBack(c, s, items, n - 1);
      ObjectSlot(c, s, items, n - 1);
      if n <= |items| {
        assert items[..n][..n - 1] == items[..n - 1];
        ObjectPlace(items[n - 1], s);
      }
    }
  }

  lemma ObjectPlace(it: Item, s: nat)
    requires it.x < MAP_WIDTH && it.y < MAP_HEIGHT && ScreenOf(it.x, it.y) == s
    ensures s % ACROSS * SCREEN_WIDTH + SlotOf(it).x == it.x && s / ACROSS * SCREEN_HEIGHT + SlotOf(it).y == it.y
    ensures SlotOf(it).id as int == (it.code + 1) % 0x100
  {
    var sy, sx := it.y / SCREEN_HEIGHT, it.x / SCREEN_WIDTH;
    assert (sy * ACROSS + sx) / ACROSS == sy && (sy * ACROSS + sx) % ACROSS == sx;
  }

  /** The items on a screen satisfy what the two lemmas above ask for. */
  lemma {:induction false} OnScreenFacts(items: seq<Item>, s: nat)
    requires Inside(items, MAP_WIDTH, MAP_HEIGHT)
    ensures forall k :: 0 <= k < |OnScreen(items, s)| ==>
              var it := OnScreen(items, s)[k]; it.x < MAP_WIDTH && it.y < MAP_HEIGHT && ScreenOf(it.x, it.y) == s
  {
    hide ScreenOf;
    if items != [] {
      OnScreenFacts(items[..|items| - 1], s);
    }
  }

  /** What the reader finds in the first `n` screens. */
  lemma {:induction false} ScreensReadBack(c: Screens, m: Map, n: nat)
    requires IsScreensOf(c, m) && n <= SCREENS && RoomFor(m.actors, ACTORS) && RoomFor(m.objects, OBJECTS)
    requires Inside(m.actors, MAP_WIDTH, MAP_HEIGHT) && Inside(m.objects, MAP_WIDTH, MAP_HEIGHT)
    ensures var r := Meaning(Blocks(c, SCREENS), n);
            && r.actors == Kept(ByScreen(m.actors, n)) && r.objects == Kept(ByScreen(m.objects, n))
            && |r.bg| == n * LEN_BG && |r.defaults| == n && |r.music| == n
  {
    hide Blocks, Block, BlockAt, Kept, OnScreen, SlotsOf, ActorsIn, ObjectsIn, BgIn, RoomFor, IsScreensOf, Inside;
    ScreensSized(c, m);
    if n == 0 {
      assert Kept([]) == [] by { NothingKept(); }
    } else {
      var s := n - 1;
      ScreensReadBack(c, m, s);
      BlockReadBack(c, SCREENS, s);
      ThingsReadBack(c, m, s);
      KeptAppend(ByScreen(m.actors, s), OnScreen(m.actors, s));
      KeptAppend(ByScreen(m.objects, s), OnScreen(m.objects, s));
    }
  }

  lemma NothingKept()
    ensures Kept([]) == []
  {
  }

  lemma ScreensSized(c: Screens, m: Map)
    requires IsScreensOf(c, m)
    ensures Sized(c)
  {
  }

  lemma ThingsReadBack(c: Screens, m: Map, s: nat)
    requires IsScreensOf(c, m) && s < SCREENS && RoomFor(m.actors, ACTORS) && RoomFor(m.objects, OBJECTS)
    requires Inside(m.actors, MAP_WIDTH, MAP_HEIGHT) && Inside(m.objects, MAP_WIDTH, MAP_HEIGHT)
    ensures ActorsIn(Block(c, s), s, ACTORS) == Kept(OnScreen(m.actors, s))
    ensures ObjectsIn(Block(c, s), s, OBJECTS) == Kept(OnScreen(m.objects, s))
  {
    hide Block, Kept, OnScreen, SlotsOf, ActorsIn, ObjectsIn, Paint, Ints, Narrow, Reblock, ScreenOf;
    var a, o := OnScreen(m.actors, s), OnScreen(m.objects, s);
    OnScreenFacts(m.actors, s);
    OnScreenFacts(m.objects, s);
    ActorsReadBack(c, s, a, ACTORS);
    ObjectsReadBack(c, s, o, OBJECTS);
    assert a[..|a|] == a && o[..|o|] == o;
  }

  // Layers of bytes

  /** One screen adds its tiles at the reader's coordinates. */
  lemma {:induction false} BgInScreen(c: Screens, s: nat, n: nat, i: nat)
    requires Sized(c) && s < SCREENS && i < n <= LEN_BG
    ensures BgIn(Block(c, s), s, n)[i] == Item(XOf(s, i), YOf(s, i), c.bg[s * LEN_BG + i] as int)
  {
    hide Block, XOf, YOf, Sized;
    if i < n - 1 {
      BgInScreen(c, s, n - 1, i);
    } else {
      BgBytes(c, s, i);
    }
  }

  /** Where in the layers the reader puts what it finds on screen `s`. */
  lemma {:induction false} LayersReadBack(c: Screens, n: nat, s: nat, i: nat)
    requires Sized(c) && s < n <= SCREENS && i < LEN_BG
    ensures var r := Meaning(Blocks(c, SCREENS), n);
            && |r.bg| == n * LEN_BG && r.bg[s * LEN_BG + i] == Item(XOf(s, i), YOf(s, i), c.bg[s * LEN_BG + i] as int)
            && |r.defaults| == n && r.defaults[s] == Item(s % ACROSS, s / ACROSS, c.defaults[s] as int)
            && |r.music| == n && r.music[s] == Item(s % ACROSS, s / ACROSS, MUSIC + c.music[s] as int)
  {
    hide Block, Blocks, BlockAt, XOf, YOf, Sized, ActorsIn, ObjectsIn, BgIn;
    BlockReadBack(c, SCREENS, n - 1);
    LayerSizes(Blocks(c, SCREENS), n - 1);
    if s < n - 1 {
      LayersReadBack(c, n - 1, s, i);
    } else {
      BgInScreen(c, s, LEN_BG, i);
      BgBytes(c, s, 0);
    }
  }

  lemma {:induction false} LayerSizes(f: seq<Byte>, n: nat)
    requires n * LEN_SCREEN <= |f|
    ensures |Meaning(f, n).bg| == n * LEN_BG && |Meaning(f, n).defaults| == n && |Meaning(f, n).music| == n
  {
    hide BgIn, ActorsIn, ObjectsIn, BlockAt;
    if n > 0 {
      LayerSizes(f, n - 1);
    }
  }

  /** The byte for a cell is the code of the last item there. */
  lemma BgCell(c: Screens, m: Map, x: nat, y: nat)
    requires IsScreensOf(c, m) && Inside(m.bg, MAP_WIDTH, MAP_HEIGHT) && x < MAP_WIDTH && y < MAP_HEIGHT
    ensures PlaceOf(x, y) < |c.bg|
    ensures c.bg[PlaceOf(x, y)] as int == LastOn(Narrow(m.bg), MAP_WIDTH, y * MAP_WIDTH + x, DEFAULT_BGTILE as int)
  {
    hide PlaceOf, LastOn, Paint, OnScreen;
    CellToPlace(x, y);
    var blank, place := Repeat(DEFAULT_BGTILE as int, LEN_ALL_BG), PlaceOf(x, y);
    assert Ints(c.bg)[place] == c.bg[place] as int;
    PaintedCell(blank, Reblock(Narrow(m.bg)), 1, place);
    LastOnPlace(Narrow(m.bg), x, y, DEFAULT_BGTILE as int);
  }

  /** The byte for a screen in a layer with one cell a screen. */
  lemma ScreenByte(bytes: seq<Byte>, items: seq<Item>, none: int, s: nat)
    requires |bytes| == SCREENS && s < SCREENS && Fits(Narrow(items), ACROSS, SCREENS)
    requires Ints(bytes) == Paint(Repeat(none, SCREENS), Narrow(items), ACROSS)
    ensures bytes[s] as int == LastOn(Narrow(items), ACROSS, s, none)
  {
    hide LastOn, Paint;
    assert Ints(bytes)[s] == bytes[s] as int;
    PaintedCell(Repeat(none, SCREENS), Narrow(items), ACROSS, s);
  }

  /**
   * What comes back from a file: every cell of the map once, with the code of the last item
   * on it; one default tile and one song for every screen; and the actors and objects sorted
   * by screen, of which those are lost whose code plus one is zero as a byte.
   */
  predicate CameBack(r: Map, m: Map) {
    && r.width == MAP_WIDTH && r.height == MAP_HEIGHT
    && |r.bg| == LEN_ALL_BG && |r.defaults| == |r.music| == SCREENS
    && (forall x, y :: 0 <= x < MAP_WIDTH && 0 <= y < MAP_HEIGHT ==>
          PlaceOf(x, y) < LEN_ALL_BG &&
          r.bg[PlaceOf(x, y)] == Item(x, y, LastOn(Narrow(m.bg), MAP_WIDTH, y * MAP_WIDTH + x, DEFAULT_BGTILE as int)))
    && (forall s :: 0 <= s < SCREENS ==>
          r.defaults[s] == Item(s % ACROSS, s / ACROSS, LastOn(Narrow(m.defaults), ACROSS, s, DEFAULT_BGTILE as int)))
    && (forall s :: 0 <= s < SCREENS ==>
          r.music[s] == Item(s % ACROSS, s / ACROSS, MUSIC + LastOn(Narrow(m.music), ACROSS, s, 0)))
    && r.actors == Kept(ByScreen(m.actors, SCREENS)) && r.objects == Kept(ByScreen(m.objects, SCREENS))
  }

  lemma RoundTrip(c: Screens, m: Map)
    requires IsScreensOf(c, m) && RoomFor(m.actors, ACTORS) && RoomFor(m.objects, OBJECTS)
    requires Inside(m.bg, MAP_WIDTH, MAP_HEIGHT) && Inside(m.actors, MAP_WIDTH, MAP_HEIGHT) && Inside(m.objects, MAP_WIDTH, MAP_HEIGHT)
    ensures CameBack(Meaning(Blocks(c, SCREENS), SCREENS), m)
  {
    hide Blocks, Meaning, LastOn, Narrow, Paint, Reblock, OnScreen, Kept, ByScreen, PlaceOf, SlotsOf, Ints, RoomFor, Inside, Fits;
    var r := Meaning(Blocks(c, SCREENS), SCREENS);
    ScreensReadBack(c, m, SCREENS);
    MapSize(Blocks(c, SCREENS), SCREENS);
    forall x, y | 0 <= x < MAP_WIDTH && 0 <= y < MAP_HEIGHT
      ensures PlaceOf(x, y) < LEN_ALL_BG &&
              r.bg[PlaceOf(x, y)] == Item(x, y, LastOn(Narrow(m.bg), MAP_WIDTH, y * MAP_WIDTH + x, DEFAULT_BGTILE as int))
    {
      CellReadBack(c, m, x, y);
    }
    forall s | 0 <= s < SCREENS
      ensures r.defaults[s] == Item(s % ACROSS, s / ACROSS, LastOn(Narrow(m.defaults), ACROSS, s, DEFAULT_BGTILE as int))
      ensures r.music[s] == Item(s % ACROSS, s / ACROSS, MUSIC + LastOn(Narrow(m.music), ACROSS, s, 0))
    {
      LayersReadBack(c, SCREENS, s, 0);
      ScreenByte(c.defaults, m.defaults, DEFAULT_BGTILE as int, s);
      ScreenByte(c.music, m.music, 0, s);
    }
  }

  lemma CellReadBack(c: Screens, m: Map, x: nat, y: nat)
    requires IsScreensOf(c, m) && Inside(m.bg, MAP_WIDTH, MAP_HEIGHT) && x < MAP_WIDTH && y < MAP_HEIGHT
    ensures var r := Meaning(Blocks(c, SCREENS), SCREENS);
            PlaceOf(x, y) < LEN_ALL_BG && |r.bg| == LEN_ALL_BG &&
            r.bg[PlaceOf(x, y)] == Item(x, y, LastOn(Narrow(m.bg), MAP_WIDTH, y * MAP_WIDTH + x, DEFAULT_BGTILE as int))
  {
    hide Blocks, Meaning, LastOn, Narrow, Paint, Reblock, ScreenOf, OffsetOf, XOf, YOf, OnScreen;
    CellToPlace(x, y);
    LayersReadBack(c, SCREENS, ScreenOf(x, y), OffsetOf(x, y));
    BgCell(c, m, x, y);
  }

  lemma {:induction false} MapSize(f: seq<Byte>, n: nat)
    requires n * LEN_SCREEN <= |f|
    ensures Meaning(f, n).width == MAP_WIDTH && Meaning(f, n).height == MAP_HEIGHT
  {
    if n > 0 {
      MapSize(f, n - 1);
    }
  }

  /** The actors, or the objects, come back as the stable sort by screen exactly if all codes are at most 254. */
  lemma SortedExactly(items: seq<Item>)
    requires Inside(items, MAP_WIDTH, MAP_HEIGHT)
    ensures Kept(ByScreen(items, SCREENS)) == ByScreen(items, SCREENS) <==> SlotCodes(items)
  {
    hide ByScreen, Kept;
    var sorted := ByScreen(items, SCREENS);
    KeptExact(sorted);
    SortIsPermutation(items);
    if SlotCodes(sorted) {
      forall k | 0 <= k < |items| ensures 0 <= items[k].code < 0xFF {
        assert items[k] in multiset(sorted);
      }
    }
    if SlotCodes(items) {
      forall k | 0 <= k < |sorted| ensures 0 <= sorted[k].code < 0xFF {
        assert sorted[k] in multiset(items);
      }
    }
  }

  // Items past the edges

  /** The map with every item where it is seen again. */
  function WrapMap(m: Map): Map {
    m.(bg := WrapAll(m.bg), actors := WrapAll(m.actors), objects := WrapAll(m.objects))
  }

  predicate AllOnScreens(items: seq<Item>) {
    forall k :: 0 <= k < |items| ==> ScreenOf(items[k].x, items[k].y) < SCREENS
  }

  lemma {:induction false} OnScreenWrap(items: seq<Item>, s: nat)
    requires AllOnScreens(items)
    ensures SlotsOf(OnScreen(WrapAll(items), s)) == SlotsOf(OnScreen(items, s))
    ensures |OnScreen(WrapAll(items), s)| == |OnScreen(items, s)|
  {
    hide ScreenOf, OffsetOf, XOf, YOf, SlotOf, Wrap;
    if items != [] {
      var init, last := items[..|items| - 1], items[|items| - 1];
      OnScreenWrap(init, s);
      assert WrapAll(items)[..|items| - 1] == WrapAll(init);
      WrapKeepsPlace(last);
      SameSlot(last);
      SlotsMore(OnScreen(init, s), last);
      SlotsMore(OnScreen(WrapAll(init), s), Wrap(last));
    }
  }

  lemma SameSlot(it: Item)
    requires ScreenOf(it.x, it.y) < SCREENS
    ensures SlotOf(Wrap(it)) == SlotOf(it)
  {
    hide ScreenOf, Wrap;
    WrapKeepsPlace(it);
  }

  lemma SlotsMore(items: seq<Item>, it: Item)
    ensures SlotsOf(items + [it]) == SlotsOf(items) + [SlotOf(it)]
  {
  }

  lemma WrapIsInside(items: seq<Item>)
    requires AllOnScreens(items)
    ensures Inside(WrapAll(items), MAP_WIDTH, MAP_HEIGHT)
    ensures Reblock(Narrow(WrapAll(items))) == Reblock(Narrow(items))
  {
    hide ScreenOf, OffsetOf, XOf, YOf, PlaceOf, Wrap;
    forall k | 0 <= k < |items|
      ensures WrapAll(items)[k].x < MAP_WIDTH && WrapAll(items)[k].y < MAP_HEIGHT
      ensures Reblock(Narrow(WrapAll(items)))[k] == Reblock(Narrow(items))[k]
    {
      WrapKeepsPlace(items[k]);
    }
  }

  /** The buffers of a map are also those of the map with its items wrapped. */
  lemma WrapScreens(c: Screens, m: Map)
    requires IsScreensOf(c, m) && AllOnScreens(m.bg) && AllOnScreens(m.actors) && AllOnScreens(m.objects)
    requires RoomFor(m.actors, ACTORS) && RoomFor(m.objects, OBJECTS)
    ensures IsScreensOf(c, WrapMap(m)) && RoomFor(WrapMap(m).actors, ACTORS) && RoomFor(WrapMap(m).objects, OBJECTS)
    ensures Inside(WrapMap(m).bg, MAP_WIDTH, MAP_HEIGHT)
    ensures Inside(WrapMap(m).actors, MAP_WIDTH, MAP_HEIGHT) && Inside(WrapMap(m).objects, MAP_WIDTH, MAP_HEIGHT)
  {
    hide WrapAll, AllOnScreens, SlotsOf, OnScreen, Paint, Ints, Narrow, Reblock, Inside, Fits;
    WrapIsInside(m.bg);
    WrapIsInside(m.actors);
    WrapIsInside(m.objects);
    forall s | 0 <= s < SCREENS
      ensures SlotsOf(OnScreen(WrapAll(m.actors), s)) == SlotsOf(OnScreen(m.actors, s))
      ensures SlotsOf(OnScreen(WrapAll(m.objects), s)) == SlotsOf(OnScreen(m.objects, s))
      ensures |OnScreen(WrapAll(m.actors), s)| <= ACTORS && |OnScreen(WrapAll(m.objects), s)| <= OBJECTS
    {
      OnScreenWrap(m.actors, s);
      OnScreenWrap(m.objects, s);
    }
  }

  /** A map that is written has all its items on some screen. */
  lemma AllPlaced(m: Map)
    requires Writable(m) && WriteFault(m).Ok?
    ensures AllOnScreens(m.bg) && AllOnScreens(m.actors) && AllOnScreens(m.objects)
    ensures RoomFor(m.actors, ACTORS) && RoomFor(m.objects, OBJECTS)
  {
    hide RoomFor, MusicFault;
    NoneOutside(m.bg);
    NoneOutside(m.actors);
    NoneOutside(m.objects);
  }

  lemma NoneOutside(items: seq<Item>)
    requires OnScreens(items) && !Outside(items)
    ensures AllOnScreens(items)
  {
    hide ScreenOf;
    forall k | 0 <= k < |items| ensures ScreenOf(items[k].x, items[k].y) < SCREENS {
      assert Passes(items[k]);
    }
  }

  lemma WrapKeepsCodes(items: seq<Item>)
    ensures SlotCodes(WrapAll(items)) <==> SlotCodes(items)
  {
    hide ScreenOf, OffsetOf, XOf, YOf;
    forall k | 0 <= k < |items| ensures WrapAll(items)[k].code == items[k].code {
    }
  }

  /** What a file is read as, for a map whose items may lie just past the edges. */
  lemma WrittenComesBack(c: Screens, m: Map)
    requires IsScreensOf(c, m) && Writable(m) && WriteFault(m).Ok?
    ensures CameBack(Meaning(Blocks(c, SCREENS), SCREENS), WrapMap(m))
    ensures Inside(WrapAll(m.actors), MAP_WIDTH, MAP_HEIGHT) && Inside(WrapAll(m.objects), MAP_WIDTH, MAP_HEIGHT)
  {
    hide CameBack, IsScreensOf, Writable, WriteFault, Blocks, Meaning, WrapAll;
    AllPlaced(m);
    WrapScreens(c, m);
    RoundTrip(c, WrapMap(m));
  }

  // Layers that come back as they were

  /** The item that the reader makes for place `j` of the buffer of all screens. */
  function BgItem(j: nat, code: int): Item {
    Item(XOf(j / LEN_BG, j % LEN_BG), YOf(j / LEN_BG, j % LEN_BG), code)
  }

  /** One item with a byte code for every cell of the map, screen by screen. */
  predicate BgInOrder(items: seq<Item>) {
    && |items| == LEN_ALL_BG
    && forall j :: 0 <= j < LEN_ALL_BG ==> items[j] == BgItem(j, items[j].code) && 0 <= items[j].code < 0x100
  }

  /** One item for every screen, in order, with a code in the range of a byte from `lo` on. */
  predicate ScreensInOrder(items: seq<Item>, lo: int) {
    && |items| == SCREENS
    && forall s :: 0 <= s < SCREENS ==> items[s] == ItemAt(s, ACROSS, items[s].code) && lo <= items[s].code < lo + 0x100
  }

  lemma BgItemPlace(j: nat, code: int)
    requires j < LEN_ALL_BG
    ensures var it := BgItem(j, code);
            it.x < MAP_WIDTH && it.y < MAP_HEIGHT && PlaceOf(it.x, it.y) == j
  {
    hide XOf, YOf, PlaceOf, ScreenOf, OffsetOf;
    PlaceToCell(j / LEN_BG, j % LEN_BG);
  }

  /** The byte for the cell of place `j`. */
  function BgByte(items: seq<Item>, j: nat): int {
    LastOn(Narrow(items), MAP_WIDTH, CellOf(BgItem(j, 0), MAP_WIDTH), DEFAULT_BGTILE as int)
  }

  lemma {:induction false} NarrowRange(items: seq<Item>, w: nat, c: nat, none: int)
    requires 0 <= none < 0x100
    ensures 0 <= LastOn(Narrow(items), w, c, none) < 0x100
  {
    if items != [] {
      var init := items[..|items| - 1];
      NarrowRange(init, w, c, none);
      assert Narrow(items)[..|items| - 1] == Narrow(init);
    }
  }

  lemma BgReopened(r: Map, m: Map, j: nat)
    requires CameBack(r, m) && j < LEN_ALL_BG
    ensures r.bg[j] == BgItem(j, BgByte(m.bg, j)) && 0 <= BgByte(m.bg, j) < 0x100
  {
    hide LastOn, Narrow, PlaceOf, Kept, ByScreen, XOf, YOf;
    var it := BgItem(j, 0);
    BgItemPlace(j, 0);
    NarrowRange(m.bg, MAP_WIDTH, CellOf(it, MAP_WIDTH), DEFAULT_BGTILE as int);
    assert r.bg[PlaceOf(it.x, it.y)] == Item(it.x, it.y, LastOn(Narrow(m.bg), MAP_WIDTH, it.y * MAP_WIDTH + it.x, DEFAULT_BGTILE as int));
  }

  /** In a layer in order, the byte of a cell is its item's code. */
  lemma BgByteInOrder(items: seq<Item>, j: nat)
    requires BgInOrder(items) && j < LEN_ALL_BG
    ensures BgByte(items, j) == items[j].code
  {
    hide LastOn, PlaceOf, BgItem;
    NarrowBytes(items);
    assert items[j] == BgItem(j, items[j].code);
    SameCell(j, 0, items[j].code);
    forall k | j < k < |items| ensures CellOf(items[k], MAP_WIDTH) != CellOf(items[j], MAP_WIDTH) {
      assert items[k] == BgItem(k, items[k].code);
      BgItemPlace(j, items[j].code);
      BgItemPlace(k, items[k].code);
      PlaceUnique(items[j].x, items[j].y, items[k].x, items[k].y);
    }
    LastIs(items, MAP_WIDTH, CellOf(items[j], MAP_WIDTH), j, DEFAULT_BGTILE as int);
  }

  lemma SameCell(j: nat, code: int, code2: int)
    ensures CellOf(BgItem(j, code), MAP_WIDTH) == CellOf(BgItem(j, code2), MAP_WIDTH)
  {
  }

  lemma InOrderInside(items: seq<Item>)
    requires BgInOrder(items)
    ensures WrapAll(items) == items
  {
    hide BgItem, Wrap;
    forall k | 0 <= k < |items| ensures items[k].x < MAP_WIDTH && items[k].y < MAP_HEIGHT {
      BgItemPlace(k, items[k].code);
    }
    WrapInside(items);
  }

  /** The background comes back as it was if and only if it has one item with a byte code for every cell, in the reader's order. */
  lemma BgExact(r: Map, m: Map)
    requires CameBack(r, WrapMap(m))
    ensures r.bg == m.bg <==> BgInOrder(m.bg)
  {
    hide BgItem, BgByte, WrapAll;
    if r.bg == m.bg {
      forall j | 0 <= j < LEN_ALL_BG ensures m.bg[j] == BgItem(j, m.bg[j].code) && 0 <= m.bg[j].code < 0x100 {
        BgReopened(r, WrapMap(m), j);
        BgItemCode(j, BgByte(WrapMap(m).bg, j));
      }
    }
    if BgInOrder(m.bg) {
      InOrderInside(m.bg);
      forall j | 0 <= j < LEN_ALL_BG ensures r.bg[j] == m.bg[j] {
        BgReopened(r, WrapMap(m), j);
        BgByteInOrder(m.bg, j);
      }
    }
  }

  lemma BgItemCode(j: nat, code: int)
    ensures BgItem(j, code).code == code
  {
  }

  /** The last item of a screen in a layer in order is its only one. */
  lemma ScreenInOrder(items: seq<Item>, lo: int, s: nat, none: int)
    requires ScreensInOrder(items, lo) && s < SCREENS
    ensures LastOn(Narrow(items), ACROSS, s, none) == items[s].code % 0x100
  {
    hide LastOn;
    var n := Narrow(items);
    forall k | 0 <= k < |n| ensures CellOf(n[k], ACROSS) == k {
      assert items[k] == ItemAt(k, ACROSS, items[k].code);
      CellInverse(k, ACROSS);
    }
    LastIs(n, ACROSS, s, s, none);
  }

  /**
   * Such a layer comes back as it was if and only if it has one item for every screen, in
   * order, with codes in the layer's range of bytes.
   */
  lemma ScreensExact(r: seq<Item>, items: seq<Item>, lo: int, none: int)
    requires lo % 0x100 == 0 && 0 <= none < 0x100 && |r| == SCREENS
    requires forall s :: 0 <= s < SCREENS ==> r[s] == ItemAt(s, ACROSS, lo + LastOn(Narrow(items), ACROSS, s, none))
    ensures r == items <==> ScreensInOrder(items, lo)
  {
    hide LastOn, Narrow;
    if r == items {
      forall s | 0 <= s < SCREENS ensures items[s] == ItemAt(s, ACROSS, items[s].code) && lo <= items[s].code < lo + 0x100 {
        NarrowRange(items, ACROSS, s, none);
      }
    }
    if ScreensInOrder(items, lo) {
      forall s | 0 <= s < SCREENS ensures r[s] == items[s] {
        ScreenInOrder(items, lo, s, none);
        assert items[s] == ItemAt(s, ACROSS, items[s].code);
      }
    }
  }

  /** When the three layers of bytes come back as lists. */
  lemma LayersExact(r: Map, m: Map)
    requires CameBack(r, WrapMap(m))
    ensures r.bg == m.bg <==> BgInOrder(m.bg)
    ensures r.defaults == m.defaults <==> ScreensInOrder(m.defaults, 0)
    ensures r.music == m.music <==> ScreensInOrder(m.music, MUSIC)
  {
    hide BgInOrder, ScreensInOrder, LastOn, Narrow, Kept, ByScreen, WrapAll, PlaceOf;
    BgExact(r, m);
    ScreensExact(r.defaults, m.defaults, 0, DEFAULT_BGTILE as int);
    ScreensExact(r.music, m.music, MUSIC, 0);
  }

  /** A cell without an item comes back with a tile of the default code. */
  lemma EmptyCellFilled(r: Map, m: Map, x: nat, y: nat)
    requires CameBack(r, m) && x < MAP_WIDTH && y < MAP_HEIGHT
    requires forall k :: 0 <= k < |m.bg| ==> !(m.bg[k].x == x && m.bg[k].y == y) && m.bg[k].x < MAP_WIDTH
    ensures Item(x, y, DEFAULT_BGTILE as int) in r.bg
  {
    hide PlaceOf, Kept, ByScreen;
    var c := y * MAP_WIDTH + x;
    forall k | 0 <= k < |m.bg| ensures CellOf(Narrow(m.bg)[k], MAP_WIDTH) != c {
      CellUnique(m.bg[k].x, m.bg[k].y, MAP_WIDTH);
      CellUnique(x, y, MAP_WIDTH);
    }
    NotOn(Narrow(m.bg), MAP_WIDTH, c, DEFAULT_BGTILE as int);
    assert r.bg[PlaceOf(x, y)] == Item(x, y, DEFAULT_BGTILE as int);
  }

  /** An actor with code 255 is not there any more when the file is read. */
  lemma LastCodeDropped(c: Screens, m: Map, x: nat, y: nat)
    requires IsScreensOf(c, m) && Writable(m) && WriteFault(m).Ok?
    requires m.actors == [Item(x, y, 0xFF)]
    ensures Meaning(Blocks(c, SCREENS), SCREENS).actors == []
  {
    hide IsScreensOf, Writable, WriteFault, Blocks, Meaning, ByScreen, Wrap;
    WrittenComesBack(c, m);
    WrapKeepsCodes(m.actors);
    var sorted := ByScreen(WrapAll(m.actors), SCREENS);
    SortIsPermutation(WrapAll(m.actors));
    assert WrapAll(m.actors) == [Wrap(m.actors[0])];
    assert sorted == [sorted[0]] && sorted[0].code == 0xFF by { OnlyOne(sorted, Wrap(m.actors[0])); WrapCode(m.actors[0]); }
    assert Kept([]) == [];
  }

  lemma WrapCode(it: Item)
    ensures Wrap(it).code == it.code
  {
  }

  lemma OnlyOne(items: seq<Item>, it: Item)
    requires multiset(items) == multiset([it])
    ensures items == [it]
  {
    assert |multiset(items)| == |multiset([it])|;
    assert items[0] in multiset(items);
  }

  method SaveAndReopen(m: Map) returns (r: Result<Map>)
    requires Writable(m)
    ensures if m.width != MAP_WIDTH || m.height != MAP_HEIGHT then r == Err(BadLayout)
            else if WriteFault(m).Err? then r == Err(WriteFault(m).error)
            else r.Ok? && CameBack(r.value, WrapMap(m))
    ensures Inside(m.bg, MAP_WIDTH, MAP_HEIGHT) && Inside(m.actors, MAP_WIDTH, MAP_HEIGHT) && Inside(m.objects, MAP_WIDTH, MAP_HEIGHT)
            ==> WrapMap(m) == m
    ensures r.Ok? ==> (r.value.actors == ByScreen(WrapAll(m.actors), SCREENS) <==> SlotCodes(m.actors))
                      && (r.value.objects == ByScreen(WrapAll(m.objects), SCREENS) <==> SlotCodes(m.objects))
    ensures r.Ok? ==> (r.value.bg == m.bg <==> BgInOrder(m.bg))
                      && (r.value.defaults == m.defaults <==> ScreensInOrder(m.defaults, 0))
                      && (r.value.music == m.music <==> ScreensInOrder(m.music, MUSIC))
  {
    hide BgInOrder, ScreensInOrder, CameBack, IsScreensOf, Writable, WriteFault, ByScreen, SlotCodes, Kept, Blocks, Meaning, WrapAll, Inside;
    if Inside(m.bg, MAP_WIDTH, MAP_HEIGHT) && Inside(m.actors, MAP_WIDTH, MAP_HEIGHT) && Inside(m.objects, MAP_WIDTH, MAP_HEIGHT) {
      WrapInside(m.bg);
      WrapInside(m.actors);
      WrapInside(m.objects);
    }
    var f, c := Write(m);
    if f.Err? {
      return Err(f.error);
    }
    ScreensSized(c, m);
    WrittenComesBack(c, m);
    r := Open(f.value);
    SortedExactly(WrapAll(m.actors));
    SortedExactly(WrapAll(m.objects));
    WrapKeepsCodes(m.actors);
    WrapKeepsCodes(m.objects);
    ThingsCameBack(r.value, WrapMap(m));
    LayersExact(r.value, m);
  }

  lemma ThingsCameBack(r: Map, m: Map)
    requires CameBack(r, m)
    ensures r.actors == Kept(ByScreen(m.actors, SCREENS)) && r.objects == Kept(ByScreen(m.objects, SCREENS))
  {
  }

  // Screens as they are

  /** Slots not in use, and all bytes behind the tables, are zero. */
  lemma UnusedIsZero(c: Screens, s: nat, i: nat)
    requires Sized(c) && s < SCREENS && i < LEN_SCREEN
    ensures var actors, objects := |c.actors[s]|, |c.objects[s]|;
            || 242 + actors <= i < 258 || 258 + actors <= i < 274 || 274 <= i < 322
            || 322 + objects <= i < 352 || 352 + 2 * objects <= i < 412 || 412 + 2 * objects <= i < 472 || 472 <= i
            ==> Block(c, s)[i] == 0
  {
    hide Ids, Positions, Xs, Ys, ValidSlots, PrintWords;
    var a, o := c.actors[s], c.objects[s];
    IdsUnused(a, ACTORS);
    PositionsUnused(a);
    IdsUnused(o, OBJECTS);
    PlacesUnused(o);
    BlockParts(c, s, i);
  }

  lemma IdsUnused(slots: seq<Slot>, cap: nat)
    ensures forall i :: |slots| <= i < cap ==> Ids(slots, cap)[i] == 0
  {
  }

  lemma PositionsUnused(slots: seq<Slot>)
    requires ValidSlots(slots)
    ensures forall i :: |slots| <= i < ACTORS ==> Positions(slots, ACTORS)[i] == 0
  {
  }

  lemma PlacesUnused(slots: seq<Slot>)
    requires ValidSlots(slots)
    ensures forall i :: 2 * |slots| <= i < 60 ==> PrintWords(Xs(slots, OBJECTS))[i] == 0 && PrintWords(Ys(slots, OBJECTS))[i] == 0
  {
    forall i | 2 * |slots| <= i < 60 ensures PrintWords(Xs(slots, OBJECTS))[i] == 0 && PrintWords(Ys(slots, OBJECTS))[i] == 0 {
      assert Xs(slots, OBJECTS)[i / 2] == 0 && Ys(slots, OBJECTS)[i / 2] == 0;
    }
  }

  /** Where the tables of a screen are. */
  lemma BlockParts(c: Screens, s: nat, i: nat)
    requires Sized(c) && s < SCREENS && i < LEN_SCREEN
    ensures var a, o, b := c.actors[s], c.objects[s], Block(c, s)[i];
            && (242 <= i < 258 ==> b == Ids(a, ACTORS)[i - 242]) && (258 <= i < 274 ==> b == Positions(a, ACTORS)[i - 258])
            && (274 <= i < 322 ==> b == 0) && (322 <= i < 352 ==> b == Ids(o, OBJECTS)[i - 322])
            && (352 <= i < 412 ==> b == PrintWords(Xs(o, OBJECTS))[i - 352])
            && (412 <= i < 472 ==> b == PrintWords(Ys(o, OBJECTS))[i - 412]) && (472 <= i ==> b == 0)
  {
    hide Ids, Positions, Xs, Ys, ValidSlots, PrintWords;
  }

  /** How many of the first `n` bytes of a table are not zero. */
  function InUse(b: seq<Byte>, at: nat, n: nat): (c: nat)
    requires at + n <= |b|
    ensures c <= n
  {
    if n == 0 then 0 else InUse(b, at, n - 1) + if b[at + n - 1] != 0 then 1 else 0
  }

  /**
   * For every screen, whoever wrote it: each actor's slot that is not zero is read, in order, as an
   * actor of one code less in the cell that its position counts to, and nothing else is.
   */
  lemma {:induction false} ActorsFound(b: seq<Byte>, s: nat, n: nat, i: nat)
    requires |b| == 512 && i < n <= 16
    ensures |ActorsIn(b, s, n)| == InUse(b, 242, n)
    ensures b[242 + i] != 0 ==>
              var pos := b[258 + i] as int;
              && InUse(b, 242, i) < |ActorsIn(b, s, n)|
              && ActorsIn(b, s, n)[InUse(b, 242, i)] == Item(s % 10 * 20 + pos % 20, s / 10 * 12 + pos / 20, b[242 + i] as int - 1)
    decreases n
  {
    if i < n - 1 {
      ActorsFound(b, s, n - 1, i);
    } else if n > 1 {
      ActorsFound(b, s, n - 1, 0);
    } else {
      assert ActorsIn(b, s, 0) == [];
    }
  }

  /** Likewise each object's slot, with a word for its column and one for its row on the screen. */
  lemma {:induction false} ObjectsFound(b: seq<Byte>, s: nat, n: nat, i: nat)
    requires |b| == 512 && i < n <= 30
    ensures |ObjectsIn(b, s, n)| == InUse(b, 322, n)
    ensures b[322 + i] != 0 ==>
              && InUse(b, 322, i) < |ObjectsIn(b, s, n)|
              && ObjectsIn(b, s, n)[InUse(b, 322, i)] ==
                 Item(s % 10 * 20 + WordAt(b, 352 + 2 * i), s / 10 * 12 + WordAt(b, 412 + 2 * i), b[322 + i] as int - 1)
    decreases n
  {
    hide WordAt;
    if i < n - 1 {
      ObjectsFound(b, s, n - 1, i);
    } else if n > 1 {
      ObjectsFound(b, s, n - 1, 0);
    } else {
      assert ObjectsIn(b, s, 0) == [];
    }
  }

  // Why a map is not written

  predicate BadPlace(it: Item) {
    it.x > 200 || it.y > 144
  }

  /** Song `k` is the first one that is wrong. */
  predicate FirstBadSong(music: seq<Item>, k: nat)
    requires k < |music|
  {
    (BadPlace(music[k]) || music[k].code < 256) && forall j :: 0 <= j < k ==> !BadPlace(music[j]) && music[j].code >= 256
  }

  lemma {:induction false} SongFault(music: seq<Item>, n: nat)
    requires n <= |music|
    ensures MusicFault(music, n).Ok? <==> forall j :: 0 <= j < n ==> !BadPlace(music[j]) && music[j].code >= 256
    ensures forall k :: 0 <= k < n && FirstBadSong(music, k) ==>
              MusicFault(music, n) == Err(if BadPlace(music[k]) then OutsideMap else OutOfRange)
  {
    if n > 0 {
      SongFault(music, n - 1);
    }
  }

  /**
   * A map is written if nothing lies outside and all songs have their codes. The error is that for
   * a code exactly if the tiles and default tiles are fine and the first song that is wrong has its
   * place right.
   */
  lemma FaultExactly(m: Map)
    ensures WriteFault(m).Ok? <==>
            && (forall it :: it in m.bg || it in m.defaults || it in m.music || it in m.actors || it in m.objects ==> !BadPlace(it))
            && (forall it :: it in m.music ==> it.code >= 256)
    ensures WriteFault(m) == Err(OutOfRange) <==>
            && (forall it :: it in m.bg || it in m.defaults ==> !BadPlace(it))
            && exists k :: 0 <= k < |m.music| && FirstBadSong(m.music, k) && !BadPlace(m.music[k])
    ensures WriteFault(m).Err? ==> WriteFault(m).error == OutsideMap || WriteFault(m).error == OutOfRange
  {
    SongFault(m.music, |m.music|);
    NoneOutsideIs(m.bg);
    NoneOutsideIs(m.defaults);
    NoneOutsideIs(m.actors);
    NoneOutsideIs(m.objects);
    if MusicFault(m.music, |m.music|).Err? {
      var k := BadSong(m.music, |m.music|);
    }
  }

  lemma NoneOutsideIs(items: seq<Item>)
    ensures Outside(items) <==> exists it :: it in items && BadPlace(it)
  {
    if Outside(items) {
      var k :| 0 <= k < |items| && (items[k].x > MAP_WIDTH || items[k].y > MAP_HEIGHT);
      assert items[k] in items && BadPlace(items[k]);
    }
  }

  lemma {:induction false} BadSong(music: seq<Item>, n: nat) returns (k: nat)
    requires n <= |music| && MusicFault(music, n).Err?
    ensures k < n && FirstBadSong(music, k)
  {
    SongFault(music, n - 1);
    if MusicFault(music, n - 1).Err? {
      k := BadSong(music, n - 1);
    } else {
      k := n - 1;
    }
  }
}
