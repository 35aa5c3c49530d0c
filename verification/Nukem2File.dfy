/** Opening, writing and recognising a Duke Nukem II level file. */
module Nukem2File {
  import opened Bytes
  import opened Grid
  import opened Nukem2Rle
  import opened Nukem2Decode
  import opened Nukem2

  /** Length of the main layer in bytes. */
  const LAYER_LEN := 2 * NUM_TILES

  // What a file means

  function ActorsIn(f: seq<Byte>, n: nat): seq<Item>
    requires HEADER_LEN + 6 * n <= |f|
  {
    if n == 0 then []
    else
      var at := HEADER_LEN + 6 * (n - 1);
      ActorsIn(f, n - 1) + [Item(WordAt(f, at + 2), WordAt(f, at + 4), WordAt(f, at))]
  }

  function CellsIn(f: seq<Byte>, at: nat): (ws: seq<int>)
    requires at + LAYER_LEN <= |f|
    ensures |ws| == NUM_TILES && AreWords(ws)
  {
    seq(NUM_TILES, c requires 0 <= c < NUM_TILES => WordAt(f, at + 2 * c))
  }

  function BgSeen(ws: seq<int>): (grid: seq<int>)
    requires |ws| == NUM_TILES && AreWords(ws)
    ensures |grid| == NUM_TILES
  {
    seq(NUM_TILES, c requires 0 <= c < NUM_TILES => WordBg(ws[c]))
  }

  function FgSeen(ws: seq<int>, upper: seq<Byte>): (grid: seq<int>)
    requires |ws| == NUM_TILES && AreWords(ws)
    ensures |grid| == NUM_TILES
  {
    seq(NUM_TILES, c requires 0 <= c < NUM_TILES => WordFg(ws[c], Upper(upper, c)))
  }

  /** Offset of the coded section. */
  function SectionAt(f: seq<Byte>): nat
    requires |f| >= HEADER_LEN
  {
    WordAt(f, 0) + 2 + LAYER_LEN + 2
  }

  /** The file has every part that `open` reads. */
  predicate HasParts(f: seq<Byte>) {
    && |f| >= HEADER_LEN
    && HEADER_LEN + 6 * (WordAt(f, 45) / 3) + LAYER_LEN <= |f|
    && SectionAt(f) <= |f| && WordAt(f, WordAt(f, 0)) > 0
    && SectionAt(f) + WordAt(f, SectionAt(f) - 2) + NAMES_LEN <= |f|
  }

  /** Offset of the filenames at the end of the file. */
  function SectionEnd(f: seq<Byte>): nat
    requires HasParts(f)
  {
    SectionAt(f) + WordAt(f, SectionAt(f) - 2)
  }

  function BgLayer(ws: seq<int>, width: nat): seq<Item>
    requires |ws| == NUM_TILES && AreWords(ws) && width > 0
  {
    Scan(BgSeen(ws), width, DEFAULT_BGTILE, NUM_TILES)
  }

  function FgLayer(ws: seq<int>, upper: seq<Byte>, width: nat): seq<Item>
    requires |ws| == NUM_TILES && AreWords(ws) && width > 0
  {
    Scan(FgSeen(ws, upper), width, NO_TILE, NUM_TILES)
  }

  /** The rows of a map of the given width, as far as the format's cells go. */
  function HeightFor(width: nat): nat
    requires width > 0
  {
    NUM_TILES / width
  }

  /** The level in a file with every part, when its coded section stands for `upper`. */
  function FileMeaning(f: seq<Byte>, upper: seq<Byte>): Map
    requires HasParts(f)
  {
    var main := WordAt(f, 0);
    var width := WordAt(f, main);
    var ws := CellsIn(f, main + 2);
    Map(width, HeightFor(width), BgLayer(ws, width), FgLayer(ws, upper, width), ActorsIn(f, WordAt(f, 45) / 3),
        f[2..41], f[41], f[42], f[SectionEnd(f)..SectionEnd(f) + NAMES_LEN])
  }

  // Opening

  method ReadActors(f: seq<Byte>, n: nat) returns (actors: seq<Item>)
    requires HEADER_LEN + 6 * n <= |f|
    ensures actors == ActorsIn(f, n)
  {
    actors := [];
    for i := 0 to n
      invariant actors == ActorsIn(f, i)
    {
      var at := HEADER_LEN + 6 * i;
      actors := actors + [Item(WordAt(f, at + 2), WordAt(f, at + 4), WordAt(f, at))];
    }
  }

  /** Reads the main layer into `tileValues`, stopping early if too little of the file is left. */
  method ReadCells(f: seq<Byte>, at: nat, lenMap: int, tileValues: array<int>) returns (ok: bool, pos: nat)
    requires tileValues.Length == NUM_TILES
    requires forall c :: 0 <= c < NUM_TILES ==> tileValues[c] == 0
    modifies tileValues
    ensures AreWords(tileValues[..])
    ensures lenMap >= LAYER_LEN && at + LAYER_LEN <= |f| ==>
      ok && pos == at + LAYER_LEN && tileValues[..] == CellsIn(f, at)
  {
    pos := at;
    var left := lenMap;
    var i := 0;
    while i < NUM_TILES && left >= 2
      invariant 0 <= i <= NUM_TILES && pos == at + 2 * i && left == lenMap - 2 * i
      invariant forall c :: 0 <= c < NUM_TILES ==> IsWord(tileValues[c])
      invariant forall c :: 0 <= c < i ==> at + 2 * c + 2 <= |f| && tileValues[c] == WordAt(f, at + 2 * c)
    {
      if pos + 2 > |f| {
        return false, pos;
      }
      tileValues[i] := WordAt(f, pos);
      pos := pos + 2;
      left := left - 2;
      i := i + 1;
    }
    ok := true;
  }

  /** Turns the cell values into the items of the two layers. */
  method ReadLayers(tileValues: array<int>, extraValues: array<int>, width: nat, ghost upper: seq<Byte>)
    returns (bg: seq<Item>, fg: seq<Item>)
    requires width > 0 && tileValues.Length == NUM_TILES && AreWords(tileValues[..])
    requires extraValues.Length == NUM_TILES && Unpacked(extraValues[..], upper)
    ensures bg == BgLayer(tileValues[..], width)
    ensures fg == FgLayer(tileValues[..], upper, width)
  {
    hide Upper, WordBg, WordFg, ItemAt;
    ghost var bgGrid, fgGrid := BgSeen(tileValues[..]), FgSeen(tileValues[..], upper);
    bg, fg := [], [];
    for i := 0 to NUM_TILES
      invariant bg == Scan(bgGrid, width, DEFAULT_BGTILE, i)
      invariant fg == Scan(fgGrid, width, NO_TILE, i)
    {
      var v, e := tileValues[i], extraValues[i];
      var here := tileValues[..][i];
      assert bgGrid[i] == WordBg(v) && fgGrid[i] == WordFg(v, e);
      CellForms(v, e);
      if v >= 0x8000 {
        if v % 0x400 != DEFAULT_BGTILE {
          bg := bg + [ItemAt(i, width, v % 0x400)];
        }
        fg := fg + [ItemAt(i, width, v / 0x400 % 0x20 + e)];
      } else if v < NUM_SOLID_TILES * 8 {
        if v / 8 != DEFAULT_BGTILE {
          bg := bg + [ItemAt(i, width, v / 8)];
        }
      } else {
        fg := fg + [ItemAt(i, width, (v / 8 - NUM_SOLID_TILES) / 5)];
      }
    }
  }

  /** A cell with a foreground tile never looks like one without. */
  lemma CellForms(v: int, e: int)
    requires IsWord(v) && IsExtra(e)
    ensures v >= 0x8000 ==> WordBg(v) == v % 0x400 && WordFg(v, e) == v / 0x400 % 0x20 + e < NO_TILE
    ensures v < NUM_SOLID_TILES * 8 ==> WordBg(v) == v / 8 && WordFg(v, e) == NO_TILE
    ensures NUM_SOLID_TILES * 8 <= v < 0x8000 ==>
      WordBg(v) == DEFAULT_BGTILE && WordFg(v, e) == (v / 8 - NUM_SOLID_TILES) / 5 < NO_TILE
  {
  }

  /**
   * Opening a level. The section `codes` is any reading of the coded bytes; a file with every
   * part is read completely, and the trailing filenames are found behind the section.
   */
  method Open(f: seq<Byte>, ghost codes: seq<Code>) returns (r: Result<Map>)
    ensures |f| < HEADER_LEN ==> r == Err(Truncated)
    ensures HasParts(f) && f[SectionAt(f)..SectionEnd(f)] == Coded(codes) ==> r == Ok(FileMeaning(f, Decoded(codes)))
  {
    hide Coded, Decoded, ActorsIn, BgLayer, FgLayer, Unpacked, CellsIn, HeightFor;
    if |f| < HEADER_LEN {
      return Err(Truncated);
    }
    var bgOffset := WordAt(f, 0);
    var numActors := WordAt(f, 45) / 3;
    var lenMap := |f| - HEADER_LEN;
    if lenMap < numActors * 6 {
      return Err(Truncated);
    }
    var actors := ReadActors(f, numActors);
    lenMap := lenMap - 6 * numActors;
    if bgOffset + 2 > |f| {
      return Err(Truncated);
    }
    var mapWidth := WordAt(f, bgOffset);
    if mapWidth == 0 {
      return Err(BadLayout);
    }
    var tileValues := new int[NUM_TILES](_ => 0);
    var ok, pos := ReadCells(f, bgOffset + 2, lenMap, tileValues);
    if !ok || pos + 2 > |f| {
      return Err(Truncated);
    }
    var lenExtra := WordAt(f, pos);
    var extraValues := new int[NUM_TILES](_ => 0);
    var end;
    ghost var upper;
    ok, end, upper := DecodeExtra(f, pos + 2, lenExtra, extraValues, codes);
    if !ok {
      return Err(Truncated);
    }
    var bg, fg := ReadLayers(tileValues, extraValues, mapWidth, upper);
    if end < 0 || end + NAMES_LEN > |f| {
      return Err(Truncated);
    }
    r := Ok(Map(mapWidth, HeightFor(mapWidth), bg, fg, actors, f[2..41], f[41], f[42], f[end..end + NAMES_LEN]));
  }

  // Writing

  /** The code that ends every section: a run of no bytes. */
  const TERMINATOR := Run(0, 0)

  /** `codes` stand for the packed extra bits of `m`, and fit in a section. */
  ghost predicate CodesFor(m: Map, codes: seq<Code>)
    requires Writable(m)
  {
    && Lossless(codes, Packed(CellExtras(BgGrid(m), FgGrid(m))))
    && IsWord(|Coded(codes + [TERMINATOR])|)
  }

  method WriteActors(head: seq<Byte>, m: Map) returns (out: seq<Byte>)
    requires Writable(m) && head == Head(m)
    ensures AreWords(ActorsWords(m.actors, |m.actors|))
    ensures out == head + PrintWords([0, 3 * |m.actors|] + ActorsWords(m.actors, |m.actors|))
  {
    hide PrintWords, PrintWord, ActorsWords, ActorWords, Head;
    ghost var first := [0, 3 * |m.actors|];
    ActorsStart(head, m);
    out := head + PrintWord(0) + PrintWord(3 * |m.actors|);
    for i := 0 to |m.actors|
      invariant AreWords(ActorsWords(m.actors, i))
      invariant out == head + PrintWords(first + ActorsWords(m.actors, i))
    {
      ghost var before := first + ActorsWords(m.actors, i);
      var a := m.actors[i];
      ActorsAreWords(m.actors, i + 1);
      ActorsNext(m.actors, first, i);
      out := out + PrintWord(a.code);
      WriteWord(head, before, a.code);
      out := out + PrintWord(a.x);
      WriteWord(head, before + [a.code], a.x);
      out := out + PrintWord(a.y);
      WriteWord(head, before + [a.code] + [a.x], a.y);
    }
  }

  lemma ActorsStart(head: seq<Byte>, m: Map)
    requires Writable(m)
    ensures IsWord(3 * |m.actors|) && AreWords(ActorsWords(m.actors, 0))
    ensures head + PrintWord(0) + PrintWord(3 * |m.actors|) == head + PrintWords([0, 3 * |m.actors|] + ActorsWords(m.actors, 0))
  {
    WriteWord(head, [], 0);
    WriteWord(head, [0], 3 * |m.actors|);
    assert head + PrintWords([]) == head;
    assert [0] + [3 * |m.actors|] == [0, 3 * |m.actors|];
    AddNothing([0, 3 * |m.actors|]);
  }

  lemma ActorsNext(actors: seq<Item>, first: seq<int>, i: nat)
    requires i < |actors| && AreWords(ActorsWords(actors, i + 1))
    ensures var a := actors[i];
            && first + ActorsWords(actors, i) + [a.code] + [a.x] + [a.y] == first + ActorsWords(actors, i + 1)
            && IsWord(a.code) && IsWord(a.x) && IsWord(a.y)
  {
    var a, ws := actors[i], ActorsWords(actors, i + 1);
    var n := |ActorsWords(actors, i)|;
    assert ws[n] == a.code && ws[n + 1] == a.x && ws[n + 2] == a.y;
  }

  /** Encodes every cell, keeping the bits that do not fit in `extra`. */
  method WriteCells(head: seq<Byte>, bg: array<int>, fg: array<int>, extra: array<int>)
    returns (out: seq<Byte>)
    requires IsBg(bg[..]) && IsFg(fg[..])
    requires extra.Length == NUM_TILES && extra != bg && extra != fg && forall c :: 0 <= c < NUM_TILES ==> extra[c] == 0
    modifies extra
    ensures bg[..] == old(bg[..]) && fg[..] == old(fg[..])
    ensures extra[..] == CellExtras(bg[..], fg[..])
    ensures out == head + PrintWords(CellWords(bg[..], fg[..]))
  {
    hide CellWord, CellExtra, PrintWords;
    out := head;
    ghost var words := CellWords(bg[..], fg[..]);
    NoWords(head);
    for i := 0 to NUM_TILES
      invariant bg[..] == old(bg[..]) && fg[..] == old(fg[..])
      invariant AreWords(words[..i]) && out == head + PrintWords(words[..i])
      invariant forall c :: 0 <= c < i ==> extra[c] == CellExtra(bg[c], fg[c])
      invariant forall c :: i <= c < NUM_TILES ==> extra[c] == 0
    {
      var b, f := bg[i], fg[i];
      assert b == bg[..][i] && f == fg[..][i];
      CellCases(b, f);
      WriteWord(head, words[..i], words[i]);
      TakeNext(words, i);
      assert words[i] == CellWord(b, f);
      if f == NO_TILE {
        out := out + PrintWord(b * 8);
      } else if b == DEFAULT_BGTILE {
        out := out + PrintWord((f * 5 + NUM_SOLID_TILES) * 8);
      } else {
        var code := 0x8000 + b + f % 0x20 * 0x400;
        if f / 0x20 % 4 != 0 {
          extra[i] := f / 0x20 % 4 * 0x20;
        }
        out := out + PrintWord(code);
      }
    }
    assert words[..NUM_TILES] == words;
  }

  lemma NoWords(head: seq<Byte>)
    ensures head + PrintWords([]) == head
  {
  }

  lemma CellCases(b: int, f: int)
    requires 0 <= b < NUM_SOLID_TILES && (0 <= f < NUM_MASKED_TILES || f == NO_TILE)
    ensures f == NO_TILE ==> CellWord(b, f) == b * 8 && CellExtra(b, f) == 0
    ensures f != NO_TILE && b == DEFAULT_BGTILE ==>
      CellWord(b, f) == (f * 5 + NUM_SOLID_TILES) * 8 && CellExtra(b, f) == 0
    ensures f != NO_TILE && b != DEFAULT_BGTILE ==>
      CellWord(b, f) == 0x8000 + b + f % 0x20 * 0x400 && CellExtra(b, f) == f / 0x20 % 4 * 0x20
  {
  }

  /** Packs the extra bits, four cells to a byte. */
  method PackExtra(extra: array<int>) returns (rawExtra: seq<Byte>)
    requires AreExtras(extra[..])
    ensures rawExtra == Packed(extra[..])
  {
    hide PackGroup;
    rawExtra := [];
    ghost var all := extra[..];
    for i := 0 to NUM_GROUPS
      invariant |rawExtra| == i && forall k :: 0 <= k < i ==> rawExtra[k] == Packed(all)[k]
    {
      var c := 4 * i;
      assert IsExtra(all[c]) && IsExtra(all[c + 1]) && IsExtra(all[c + 2]) && IsExtra(all[c + 3]);
      rawExtra := rawExtra + [PackGroup(extra[c], extra[c + 1], extra[c + 2], extra[c + 3])];
    }
  }

  /** The words of the file, in the order in which `write` appends them. */
  lemma WordsInOrder(m: Map, lenExtra: int)
    requires Writable(m) && IsWord(lenExtra)
    ensures var actors := [0, 3 * |m.actors|] + ActorsWords(m.actors, |m.actors|);
            var cells := CellWords(BgGrid(m), FgGrid(m));
            && AreWords(actors)
            && Head(m) + PrintWords(actors) + PrintWord(m.width) + PrintWords(cells) + PrintWord(lenExtra)
               == Head(m) + PrintWords(FileWords(m, lenExtra))
  {
    hide CellWords, PrintWords, BgGrid, FgGrid, Head;
    ActorsAreWords(m.actors, |m.actors|);
    var actors := [0, 3 * |m.actors|] + ActorsWords(m.actors, |m.actors|);
    var cells := CellWords(BgGrid(m), FgGrid(m));
    WriteWord(Head(m), actors, m.width);
    PrintWordsConcat(actors + [m.width], cells);
    WriteWord(Head(m), actors + [m.width] + cells, lenExtra);
    Reassociate(Head(m), PrintWords(actors + [m.width]), PrintWords(cells));
  }

  /** The writer's length field is wide enough for every level. */
  lemma SectionFits(section: seq<Byte>, raw: seq<Byte>)
    requires |raw| == NUM_GROUPS && 3 * |section| <= 4 * |raw| + 10
    ensures IsWord(|section|)
  {
  }

  /** Writing a level; `codes` is how its coded section came to be. */
  method Write(m: Map) returns (f: seq<Byte>, ghost codes: seq<Code>)
    requires Writable(m)
    ensures CodesFor(m, codes) && RunsCount(codes)
    ensures f == FileOf(m, Coded(codes + [TERMINATOR]))
    ensures FreezesGame(codes) <==>
      PendingLength(Packed(CellExtras(BgGrid(m), FgGrid(m))), NUM_GROUPS) >= 0x80
  {
    hide Coded, Decoded, PrintWords, CellWords, CellExtras, Packed, Lossless, RunsCount, FreezesGame, PendingLength;
    var bg := new int[NUM_TILES](_ => DEFAULT_BGTILE);
    var fg := new int[NUM_TILES](_ => NO_TILE);
    var extra := new int[NUM_TILES](_ => 0);
    LayersFit(m);
    assert bg[..] == Repeat(DEFAULT_BGTILE, NUM_TILES);
    PaintInto(bg, m.bg, m.width);
    assert fg[..] == Repeat(NO_TILE, NUM_TILES);
    PaintInto(fg, m.fg, m.width);
    assert bg[..] == BgGrid(m) && fg[..] == FgGrid(m);
    f := PrintWord(BgOffset(m)) + m.names + [m.flags, m.altBack];
    f := WriteActors(f, m);
    f := f + PrintWord(m.width);
    f := WriteCells(f, bg, fg, extra);
    var rawExtra := PackExtra(extra);
    var rleExtra;
    rleExtra, codes := EncodeExtra(rawExtra);
    SectionFits(rleExtra, rawExtra);
    Emit(codes, TERMINATOR);
    f := f + PrintWord(|rleExtra|);
    WordsInOrder(m, |rleExtra|);
    f := f + rleExtra;
    f := f + m.zoneNames;
    Reassociate(Head(m) + PrintWords(FileWords(m, |rleExtra|)), rleExtra, m.zoneNames);
  }
}
