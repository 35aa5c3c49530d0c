/** Reading and writing God of Thunder levels. */
module GodOfThunderFile {
  import opened Bytes
  import opened Grid
  import opened GodOfThunder

  const LEN_SCREEN := 512
  const ACTORS := 16
  const OBJECTS := 30
  const ACTOR_OFFSET := 242
  const OBJ_OFFSET := 322
  const DEFAULT_BGTILE: Byte := 0xB0
  const MUSIC := 256   // added to the codes of songs

  datatype Map = Map(width: nat, height: nat, bg: seq<Item>, defaults: seq<Item>, music: seq<Item>, actors: seq<Item>, objects: seq<Item>)

  // Slots

  /** An entry in a screen's table of actors or objects: a code plus one, and a cell of the screen. */
  datatype Slot = Slot(id: Byte, x: nat, y: nat)

  function SlotOf(it: Item): (s: Slot)
    ensures s.x < SCREEN_WIDTH && s.y < SCREEN_HEIGHT
  {
    Slot(((it.code + 1) % 0x100) as Byte, it.x % SCREEN_WIDTH, it.y % SCREEN_HEIGHT)
  }

  function SlotsOf(items: seq<Item>): (r: seq<Slot>)
    ensures |r| == |items|
  {
    seq(|items|, k requires 0 <= k < |items| => SlotOf(items[k]))
  }

  predicate ValidSlots(slots: seq<Slot>) {
    forall k :: 0 <= k < |slots| ==> slots[k].x < SCREEN_WIDTH && slots[k].y < SCREEN_HEIGHT
  }

  function Ids(slots: seq<Slot>, cap: nat): (r: seq<Byte>)
    ensures |r| == cap
  {
    seq(cap, i requires 0 <= i < cap => if i < |slots| then slots[i].id else 0)
  }

  function Positions(slots: seq<Slot>, cap: nat): (r: seq<Byte>)
    requires ValidSlots(slots)
    ensures |r| == cap
  {
    seq(cap, i requires 0 <= i < cap => if i < |slots| then (slots[i].y * SCREEN_WIDTH + slots[i].x) as Byte else 0)
  }

  function Xs(slots: seq<Slot>, cap: nat): (r: seq<int>)
    requires ValidSlots(slots)
    ensures |r| == cap && AreWords(r)
  {
    seq(cap, i requires 0 <= i < cap => if i < |slots| then slots[i].x else 0)
  }

  function Ys(slots: seq<Slot>, cap: nat): (r: seq<int>)
    requires ValidSlots(slots)
    ensures |r| == cap && AreWords(r)
  {
    seq(cap, i requires 0 <= i < cap => if i < |slots| then slots[i].y else 0)
  }

  // Screens

  /** The writer's buffers: the three layers of bytes, and the slots of every screen. */
  datatype Screens = Screens(bg: seq<Byte>, defaults: seq<Byte>, music: seq<Byte>, actors: seq<seq<Slot>>, objects: seq<seq<Slot>>)

  predicate Sized(c: Screens) {
    && |c.bg| == LEN_ALL_BG && |c.defaults| == |c.music| == |c.actors| == |c.objects| == SCREENS
    && (forall s :: 0 <= s < SCREENS ==> ValidSlots(c.actors[s]) && ValidSlots(c.objects[s]))
  }

  /** The 512 bytes of a screen. */
  function Block(c: Screens, s: nat): (b: seq<Byte>)
    requires Sized(c) && s < SCREENS
    ensures |b| == LEN_SCREEN
  {
    c.bg[s * LEN_BG..(s + 1) * LEN_BG] + [c.defaults[s], c.music[s]]
    + (Ids(c.actors[s], ACTORS) + Positions(c.actors[s], ACTORS) + Repeat(0 as Byte, 48))
    + (Ids(c.objects[s], OBJECTS) + PrintWords(Xs(c.objects[s], OBJECTS)) + PrintWords(Ys(c.objects[s], OBJECTS)))
    + Repeat(0 as Byte, 40)
  }

  function Blocks(c: Screens, n: nat): (f: seq<Byte>)
    requires Sized(c) && n <= SCREENS
    ensures |f| == n * LEN_SCREEN
  {
    if n == 0 then [] else Blocks(c, n - 1) + Block(c, n - 1)
  }

  /** The buffers that a map is laid out in. */
  ghost predicate IsScreensOf(c: Screens, m: Map) {
    && Sized(c)
    && Fits(Reblock(Narrow(m.bg)), 1, LEN_ALL_BG) && Fits(Narrow(m.defaults), ACROSS, SCREENS) && Fits(Narrow(m.music), ACROSS, SCREENS)
    && Ints(c.bg) == Paint(Repeat(DEFAULT_BGTILE as int, LEN_ALL_BG), Reblock(Narrow(m.bg)), 1)
    && Ints(c.defaults) == Paint(Repeat(DEFAULT_BGTILE as int, SCREENS), Narrow(m.defaults), ACROSS)
    && Ints(c.music) == Paint(Repeat(0, SCREENS), Narrow(m.music), ACROSS)
    && (forall s :: 0 <= s < SCREENS ==> c.actors[s] == SlotsOf(OnScreen(m.actors, s)))
    && (forall s :: 0 <= s < SCREENS ==> c.objects[s] == SlotsOf(OnScreen(m.objects, s)))
  }

  // Writing

  /** The check that every layer goes through; it lets the cells just past the edges pass. */
  predicate Outside(items: seq<Item>) {
    exists k :: 0 <= k < |items| && (items[k].x > MAP_WIDTH || items[k].y > MAP_HEIGHT)
  }

  predicate Passes(it: Item) {
    it.x <= MAP_WIDTH && it.y <= MAP_HEIGHT
  }

  /** Items that pass the check must be on one of the screens; one column too far is on the next row of screens. */
  predicate OnScreens(items: seq<Item>) {
    forall k :: 0 <= k < |items| && Passes(items[k]) ==> ScreenOf(items[k].x, items[k].y) < SCREENS
  }

  /** In a layer with one cell a screen, items that pass the check must name a screen. */
  predicate NamesScreens(items: seq<Item>) {
    forall k :: 0 <= k < |items| && Passes(items[k]) ==> CellOf(items[k], ACROSS) < SCREENS
  }

  predicate RoomFor(items: seq<Item>, cap: nat) {
    forall s :: 0 <= s < SCREENS ==> |OnScreen(items, s)| <= cap
  }

  /** What the writer's fixed buffers demand. */
  predicate Writable(m: Map) {
    && OnScreens(m.bg) && NamesScreens(m.defaults) && NamesScreens(m.music)
    && OnScreens(m.actors) && OnScreens(m.objects)
    && RoomFor(m.actors, ACTORS) && RoomFor(m.objects, OBJECTS)
  }

  /** What is wrong with the first `n` songs, if anything: the first one that is wrong counts. */
  function MusicFault(music: seq<Item>, n: nat): Result<bool>
    requires n <= |music|
  {
    if n == 0 then Ok(true)
    else
      var before := MusicFault(music, n - 1);
      if before.Err? then before
      else if music[n - 1].x > MAP_WIDTH || music[n - 1].y > MAP_HEIGHT then Err(OutsideMap)
      else if music[n - 1].code < MUSIC then Err(OutOfRange)
      else before
  }

  lemma {:induction false} MusicFaultStays(music: seq<Item>, m: nat, n: nat)
    requires m <= n <= |music| && MusicFault(music, m).Err?
    ensures MusicFault(music, n) == MusicFault(music, m)
  {
    if m < n {
      MusicFaultStays(music, m, n - 1);
    }
  }

  method LayBg(items: seq<Item>) returns (r: Result<seq<Byte>>)
    requires OnScreens(items)
    ensures if Outside(items) then r == Err(OutsideMap)
            else r.Ok? && |r.value| == LEN_ALL_BG && Fits(Reblock(Narrow(items)), 1, LEN_ALL_BG)
                 && Ints(r.value) == Paint(Repeat(DEFAULT_BGTILE as int, LEN_ALL_BG), Reblock(Narrow(items)), 1)
  {
    hide Ints, Paint, Narrow, Fits, PlaceOf;
    var bg := new Byte[LEN_ALL_BG](_ => DEFAULT_BGTILE);
    BlankBytes(bg[..]);
    ghost var blank := Repeat(DEFAULT_BGTILE as int, LEN_ALL_BG);
    ghost var all := Reblock(Narrow(items));
    assert all[..0] == [];
    NothingPainted(blank, 1);
    for k := 0 to |items|
      invariant forall j :: 0 <= j < k ==> items[j].x <= MAP_WIDTH && items[j].y <= MAP_HEIGHT
      invariant Fits(all[..k], 1, LEN_ALL_BG) && Ints(bg[..]) == Paint(blank, all[..k], 1)
    {
      var i := items[k];
      if i.x > MAP_WIDTH || i.y > MAP_HEIGHT {
        return Err(OutsideMap);
      }
      assert Passes(i);
      PlaceInBuffer(i.x, i.y);
      var screenX, screenY := i.x / SCREEN_WIDTH, i.y / SCREEN_HEIGHT;
      var s := screenY * ACROSS + screenX;
      var originX, originY := screenX * SCREEN_WIDTH, screenY * SCREEN_HEIGHT;
      var place := s * LEN_BG + ((i.y - originY) * SCREEN_WIDTH + (i.x - originX));
      PlaceIs(i.x, i.y);
      PlaceReblocked(blank, items, k);
      SetByte(bg[..], place, (i.code % 0x100) as Byte);
      bg[place] := (i.code % 0x100) as Byte;
    }
    assert all[..|items|] == all;
    return Ok(bg[..]);
  }

  lemma PlaceIs(x: nat, y: nat)
    ensures PlaceOf(x, y) == (y / SCREEN_HEIGHT * ACROSS + x / SCREEN_WIDTH) * LEN_BG
              + ((y - y / SCREEN_HEIGHT * SCREEN_HEIGHT) * SCREEN_WIDTH + (x - x / SCREEN_WIDTH * SCREEN_WIDTH))
  {
  }

  lemma PlaceReblocked(start: seq<int>, items: seq<Item>, k: nat)
    requires k < |items| && Fits(Reblock(Narrow(items))[..k], 1, |start|) && PlaceOf(items[k].x, items[k].y) < |start|
    ensures Fits(Reblock(Narrow(items))[..k + 1], 1, |start|)
    ensures Paint(start, Reblock(Narrow(items))[..k + 1], 1) ==
            Paint(start, Reblock(Narrow(items))[..k], 1)[PlaceOf(items[k].x, items[k].y) := items[k].code % 0x100]
  {
    hide PlaceOf, Paint;
    var all := Reblock(Narrow(items));
    assert all[k] == Item(PlaceOf(items[k].x, items[k].y), 0, items[k].code % 0x100);
    PaintOne(start, all, k, 1);
  }

  method LayDefaults(items: seq<Item>) returns (r: Result<seq<Byte>>)
    requires NamesScreens(items)
    ensures if Outside(items) then r == Err(OutsideMap)
            else r.Ok? && |r.value| == SCREENS && Fits(Narrow(items), ACROSS, SCREENS)
                 && Ints(r.value) == Paint(Repeat(DEFAULT_BGTILE as int, SCREENS), Narrow(items), ACROSS)
  {
    hide Ints, Paint, Narrow, Fits;
    var defaultBG := new Byte[SCREENS](_ => DEFAULT_BGTILE);
    BlankBytes(defaultBG[..]);
    ghost var blank := Repeat(DEFAULT_BGTILE as int, SCREENS);
    ghost var all := Narrow(items);
    NarrowPrefix(items, 0);
    NothingPainted(blank, ACROSS);
    for k := 0 to |items|
      invariant forall j :: 0 <= j < k ==> items[j].x <= MAP_WIDTH && items[j].y <= MAP_HEIGHT
      invariant Fits(all[..k], ACROSS, SCREENS) && Ints(defaultBG[..]) == Paint(blank, all[..k], ACROSS)
    {
      var i := items[k];
      if i.x > MAP_WIDTH || i.y > MAP_HEIGHT {
        return Err(OutsideMap);
      }
      PaintNext(blank, items, k, ACROSS);
      SetByte(defaultBG[..], i.y * ACROSS + i.x, (i.code % 0x100) as Byte);
      defaultBG[i.y * ACROSS + i.x] := (i.code % 0x100) as Byte;
    }
    NarrowPrefix(items, |items|);
    return Ok(defaultBG[..]);
  }

  method LayMusic(items: seq<Item>) returns (r: Result<seq<Byte>>)
    requires NamesScreens(items)
    ensures if MusicFault(items, |items|).Err? then r.Err? && r.error == MusicFault(items, |items|).error
            else r.Ok? && |r.value| == SCREENS && Fits(Narrow(items), ACROSS, SCREENS)
                 && Ints(r.value) == Paint(Repeat(0, SCREENS), Narrow(items), ACROSS)
  {
    hide Ints, Paint, Narrow, Fits;
    var mus := new Byte[SCREENS](_ => 0);
    BlankBytes(mus[..]);
    ghost var all := Narrow(items);
    NarrowPrefix(items, 0);
    NothingPainted(Repeat(0, SCREENS), ACROSS);
    for k := 0 to |items|
      invariant MusicFault(items, k).Ok?
      invariant Fits(all[..k], ACROSS, SCREENS) && Ints(mus[..]) == Paint(Repeat(0, SCREENS), all[..k], ACROSS)
    {
      var i := items[k];
      if i.x > MAP_WIDTH || i.y > MAP_HEIGHT {
        MusicFaultStays(items, k + 1, |items|);
        return Err(OutsideMap);
      }
      if i.code < MUSIC {
        MusicFaultStays(items, k + 1, |items|);
        return Err(OutOfRange);
      }
      PaintNext(Repeat(0, SCREENS), items, k, ACROSS);
      assert (i.code - MUSIC) % 0x100 == i.code % 0x100;
      SetByte(mus[..], i.y * ACROSS + i.x, ((i.code - MUSIC) % 0x100) as Byte);
      mus[i.y * ACROSS + i.x] := ((i.code - MUSIC) % 0x100) as Byte;
    }
    NarrowPrefix(items, |items|);
    return Ok(mus[..]);
  }

  /** Puts every item in the next free slot of its screen. */
  method FillSlots(items: seq<Item>, cap: nat) returns (r: Result<seq<seq<Slot>>>)
    requires OnScreens(items) && RoomFor(items, cap)
    ensures if Outside(items) then r == Err(OutsideMap)
            else r.Ok? && |r.value| == SCREENS
                 && forall s :: 0 <= s < SCREENS ==> r.value[s] == SlotsOf(OnScreen(items, s))
  {
    hide ScreenOf, SlotOf, OnScreen, SlotsOf, RoomFor;
    NoSlotsYet();
    var entry := new seq<Slot>[SCREENS](_ => []);
    assert items[..0] == [];
    for k := 0 to |items|
      invariant forall j :: 0 <= j < k ==> items[j].x <= MAP_WIDTH && items[j].y <= MAP_HEIGHT
      invariant forall s :: 0 <= s < SCREENS ==> entry[s] == SlotsOf(OnScreen(items[..k], s))
    {
      var i := items[k];
      if i.x > MAP_WIDTH || i.y > MAP_HEIGHT {
        return Err(OutsideMap);
      }
      var screenX, screenY := i.x / SCREEN_WIDTH, i.y / SCREEN_HEIGHT;
      var s := screenY * ACROSS + screenX;
      var originX, originY := screenX * SCREEN_WIDTH, screenY * SCREEN_HEIGHT;
      assert Passes(i);
      SlotIs(i, s, originX, originY);
      NextSlots(items, k);
      entry[s] := entry[s] + [Slot(((i.code + 1) % 0x100) as Byte, i.x - originX, i.y - originY)];
    }
    assert items[..|items|] == items;
    return Ok(entry[..]);
  }

  lemma SlotIs(i: Item, s: nat, originX: nat, originY: nat)
    requires originX == i.x / SCREEN_WIDTH * SCREEN_WIDTH && originY == i.y / SCREEN_HEIGHT * SCREEN_HEIGHT
    requires s == i.y / SCREEN_HEIGHT * ACROSS + i.x / SCREEN_WIDTH
    ensures originX <= i.x && originY <= i.y && s == ScreenOf(i.x, i.y)
    ensures SlotOf(i) == Slot(((i.code + 1) % 0x100) as Byte, i.x - originX, i.y - originY)
  {
  }

  lemma NextSlots(items: seq<Item>, k: nat)
    requires k < |items|
    ensures forall s :: 0 <= s < SCREENS ==>
              SlotsOf(OnScreen(items[..k + 1], s)) ==
              if ScreenOf(items[k].x, items[k].y) == s then SlotsOf(OnScreen(items[..k], s)) + [SlotOf(items[k])]
              else SlotsOf(OnScreen(items[..k], s))
  {
    forall s | 0 <= s < SCREENS
      ensures SlotsOf(OnScreen(items[..k + 1], s)) ==
              if ScreenOf(items[k].x, items[k].y) == s then SlotsOf(OnScreen(items[..k], s)) + [SlotOf(items[k])]
              else SlotsOf(OnScreen(items[..k], s))
    {
      hide *;
      NextSlot(items, k, s);
    }
  }

  lemma NoSlotsYet()
    ensures forall s :: 0 <= s < SCREENS ==> SlotsOf(OnScreen([], s)) == []
  {
  }

  lemma NextSlot(items: seq<Item>, k: nat, s: nat)
    requires k < |items|
    ensures SlotsOf(OnScreen(items[..k + 1], s)) ==
            if ScreenOf(items[k].x, items[k].y) == s then SlotsOf(OnScreen(items[..k], s)) + [SlotOf(items[k])]
            else SlotsOf(OnScreen(items[..k], s))
  {
    hide ScreenOf, SlotOf;
    assert items[..k + 1][..k] == items[..k];
  }

  method WriteScreens(c: Screens) returns (f: seq<Byte>)
    requires Sized(c)
    ensures f == Blocks(c, SCREENS)
  {
    hide Ids, Positions, Xs, Ys, ValidSlots;
    f := [];
    for s := 0 to SCREENS
      invariant f == Blocks(c, s)
    {
      var a, o := c.actors[s], c.objects[s];
      var block := c.bg[s * LEN_BG..(s + 1) * LEN_BG] + [c.defaults[s], c.music[s]];
      block := block + (Ids(a, ACTORS) + Positions(a, ACTORS) + Repeat(0 as Byte, 48));
      block := block + (Ids(o, OBJECTS) + PrintWords(Xs(o, OBJECTS)) + PrintWords(Ys(o, OBJECTS)));
      block := block + Repeat(0 as Byte, 40);
      f := f + block;
    }
  }

  /** Why a map of the right size cannot be written, if so. */
  function WriteFault(m: Map): Result<bool> {
    if Outside(m.bg) || Outside(m.defaults) then Err(OutsideMap)
    else if MusicFault(m.music, |m.music|).Err? then MusicFault(m.music, |m.music|)
    else if Outside(m.actors) || Outside(m.objects) then Err(OutsideMap)
    else Ok(true)
  }

  method Write(m: Map) returns (r: Result<seq<Byte>>, ghost c: Screens)
    requires Writable(m)
    ensures m.width != MAP_WIDTH || m.height != MAP_HEIGHT ==> r == Err(BadLayout)
    ensures m.width == MAP_WIDTH && m.height == MAP_HEIGHT ==>
      if WriteFault(m).Err? then r == Err(WriteFault(m).error)
      else IsScreensOf(c, m) && r == Ok(Blocks(c, SCREENS))
  {
    hide Reblock, Narrow, Paint, Ints, Fits, OnScreen, OnScreens, NamesScreens, RoomFor, Outside;
    c := Screens([], [], [], [], []);
    if m.width != MAP_WIDTH || m.height != MAP_HEIGHT {
      return Err(BadLayout), c;
    }
    var bg := LayBg(m.bg);
    if bg.Err? {
      return Err(bg.error), c;
    }
    var defaultBG := LayDefaults(m.defaults);
    if defaultBG.Err? {
      return Err(defaultBG.error), c;
    }
    var mus := LayMusic(m.music);
    if mus.Err? {
      return Err(mus.error), c;
    }
    var actor := FillSlots(m.actors, ACTORS);
    if actor.Err? {
      return Err(actor.error), c;
    }
    var obj := FillSlots(m.objects, OBJECTS);
    if obj.Err? {
      return Err(obj.error), c;
    }
    var screens := Screens(bg.value, defaultBG.value, mus.value, actor.value, obj.value);
    c := screens;
    var f := WriteScreens(screens);
    return Ok(f), c;
  }

  // Reading

  /** The background tiles at the first `n` offsets of a screen. */
  function BgIn(b: seq<Byte>, s: nat, n: nat): (r: seq<Item>)
    requires |b| == LEN_SCREEN && n <= LEN_BG
    ensures |r| == n
  {
    if n == 0 then [] else BgIn(b, s, n - 1) + [Item(XOf(s, n - 1), YOf(s, n - 1), b[n - 1] as int)]
  }

  /** The actors in the first `n` slots of a screen. */
  function ActorsIn(b: seq<Byte>, s: nat, n: nat): seq<Item>
    requires |b| == LEN_SCREEN && n <= ACTORS
  {
    if n == 0 then []
    else
      var before, id, pos := ActorsIn(b, s, n - 1), b[ACTOR_OFFSET + n - 1] as int, b[ACTOR_OFFSET + ACTORS + n - 1] as int;
      if id == 0 then before else before + [Item(XOf(s, pos), YOf(s, pos), id - 1)]
  }

  function ObjectsIn(b: seq<Byte>, s: nat, n: nat): seq<Item>
    requires |b| == LEN_SCREEN && n <= OBJECTS
  {
    if n == 0 then []
    else
      var before, id := ObjectsIn(b, s, n - 1), b[OBJ_OFFSET + n - 1] as int;
      var x, y := WordAt(b, OBJ_OFFSET + 30 + 2 * (n - 1)), WordAt(b, OBJ_OFFSET + 90 + 2 * (n - 1));
      if id == 0 then before
      else before + [Item(s % ACROSS * SCREEN_WIDTH + x, s / ACROSS * SCREEN_HEIGHT + y, id - 1)]
  }

  function BlockAt(f: seq<Byte>, s: nat): (b: seq<Byte>)
    requires (s + 1) * LEN_SCREEN <= |f|
    ensures |b| == LEN_SCREEN
  {
    f[s * LEN_SCREEN..(s + 1) * LEN_SCREEN]
  }

  /** The map in the first `n` screens of a file. */
  function Meaning(f: seq<Byte>, n: nat): Map
    requires n * LEN_SCREEN <= |f|
  {
    if n == 0 then Map(MAP_WIDTH, MAP_HEIGHT, [], [], [], [], [])
    else
      var m, s := Meaning(f, n - 1), n - 1;
      AddScreen(m, BlockAt(f, s), s)
  }

  /** What reading a screen adds to the layers. */
  function AddScreen(m: Map, b: seq<Byte>, s: nat): Map
    requires |b| == LEN_SCREEN
  {
    Map(m.width, m.height,
        m.bg + BgIn(b, s, LEN_BG),
        m.defaults + [Item(s % ACROSS, s / ACROSS, b[LEN_BG] as int)],
        m.music + [Item(s % ACROSS, s / ACROSS, MUSIC + b[LEN_BG + 1] as int)],
        m.actors + ActorsIn(b, s, ACTORS),
        m.objects + ObjectsIn(b, s, OBJECTS))
  }

  method ReadScreen(m: Map, b: seq<Byte>, s: nat) returns (r: Map)
    requires |b| == LEN_SCREEN
    ensures r == AddScreen(m, b, s)
  {
    hide XOf, YOf;
    var originX, originY := s % ACROSS, s / ACROSS;
    var tiles, actors, objects := [], [], [];
    for i := 0 to LEN_BG
      invariant tiles == BgIn(b, s, i)
    {
      tiles := tiles + [Item(XOf(s, i), YOf(s, i), b[i] as int)];
    }
    for i := 0 to ACTORS
      invariant actors == ActorsIn(b, s, i)
    {
      if b[ACTOR_OFFSET + i] != 0 {
        var pos := b[ACTOR_OFFSET + 16 + i] as int;
        actors := actors + [Item(XOf(s, pos), YOf(s, pos), b[ACTOR_OFFSET + i] as int - 1)];
      }
    }
    for i := 0 to OBJECTS
      invariant objects == ObjectsIn(b, s, i)
    {
      if b[OBJ_OFFSET + i] != 0 {
        var x, y := WordAt(b, OBJ_OFFSET + 30 + i * 2), WordAt(b, OBJ_OFFSET + 90 + i * 2);
        objects := objects + [Item(originX * SCREEN_WIDTH + x, originY * SCREEN_HEIGHT + y, b[OBJ_OFFSET + i] as int - 1)];
      }
    }
    r := Map(m.width, m.height, m.bg + tiles,
             m.defaults + [Item(originX, originY, b[LEN_BG] as int)],
             m.music + [Item(originX, originY, MUSIC + b[LEN_BG + 1] as int)],
             m.actors + actors, m.objects + objects);
  }

  method Open(f: seq<Byte>) returns (r: Result<Map>)
    ensures r == if |f| < SCREENS * LEN_SCREEN then Err(Truncated) else Ok(Meaning(f, SCREENS))
  {
    hide AddScreen;
    var m := Map(MAP_WIDTH, MAP_HEIGHT, [], [], [], [], []);
    for s := 0 to SCREENS
      invariant s * LEN_SCREEN <= |f| && m == Meaning(f, s)
    {
      if |f| < (s + 1) * LEN_SCREEN {
        return Err(Truncated);
      }
      m := ReadScreen(m, BlockAt(f, s), s);
    }
    return Ok(m);
  }
}
