/** Secret Agent levels: lines of text, some of which belong to the foreground of the row before. */
module SecretAgent {
  import opened Bytes

  const MAP_WIDTH := 40
  const STRIDE := 42
  const FILESIZE := 2016
  const MAX_ROWS := 46

  const NO_TILE := -1
  const SPACE: Byte := 0x20
  const STAR: Byte := 0x2A
  const CR: Byte := 0x0D
  const LF: Byte := 0x0A
  const LIGHT: Byte := 0x34   // this plus 1, 2 and 3: light shadow, left, mid and right

  // The background attribute

  /** The number that stands for a backdrop, and the tile of the backdrop. */
  datatype Backdrop = Backdrop(number: nat, tile: int)

  const BACKDROPS := [
    Backdrop(667, 0x610), Backdrop(695, 0x62C), Backdrop(767, 0x810), Backdrop(771, 0x814),
    Backdrop(325, 0x918), Backdrop(329, 0x91C), Backdrop(333, 0x920), Backdrop(337, 0x924), Backdrop(341, 0x928),
    Backdrop(209, 0xB08), Backdrop(213, 0xB0C), Backdrop(217, 0xB10), Backdrop(233, 0xB20), Backdrop(237, 0xB24),
    Backdrop(241, 0xB28), Backdrop(245, 0xB2C), Backdrop(501, 0x100)]

  function BackdropOf(choice: int): Backdrop {
    if 0 <= choice < |BACKDROPS| then BACKDROPS[choice] else BACKDROPS[0]
  }

  /** The choice that the reader makes for a number, from choice `i` on. */
  function ChoiceFor(number: int, i: nat): (r: nat)
    requires i <= |BACKDROPS|
    ensures r < |BACKDROPS|
    decreases |BACKDROPS| - i
  {
    if i == |BACKDROPS| then 0 else if BACKDROPS[i].number == number then i else ChoiceFor(number, i + 1)
  }

  function Digits(n: nat): (s: seq<Byte>)
    requires n < 1000
    ensures |s| == 3
  {
    [(0x30 + n / 100) as Byte, (0x30 + n / 10 % 10) as Byte, (0x30 + n % 10) as Byte]
  }

  /** The number that a line starts with. */
  function LeadingNumber(s: seq<Byte>, i: nat, value: nat): int
    requires i <= |s|
    decreases |s| - i
  {
    if i == |s| || !(0x30 <= s[i] as int <= 0x39) then value
    else LeadingNumber(s, i + 1, 10 * value + (s[i] as int - 0x30))
  }

  /** Every choice of backdrop comes back; anything else becomes the first one. */
  lemma BackdropReadBack(choice: int, rest: seq<Byte>)
    requires rest != [] && !(0x30 <= rest[0] as int <= 0x39)
    ensures BackdropOf(choice).number < 1000
    ensures ChoiceFor(LeadingNumber(Digits(BackdropOf(choice).number) + rest, 0, 0), 0) ==
            if 0 <= choice < |BACKDROPS| then choice else 0
  {
    var n := BackdropOf(choice).number;
    ThreeDigits(n, rest);
    if 0 <= choice < |BACKDROPS| {
      assert forall i :: 0 <= i < |BACKDROPS| && BACKDROPS[i].number == BACKDROPS[choice].number ==> i == choice;
      FindChoice(choice, 0);
    }
  }

  lemma ThreeDigits(n: nat, rest: seq<Byte>)
    requires 100 <= n < 1000 && rest != [] && !(0x30 <= rest[0] as int <= 0x39)
    ensures LeadingNumber(Digits(n) + rest, 0, 0) == n
  {
    hide LeadingNumber;
    var s := Digits(n) + rest;
    var a, b := n / 100, n / 10;
    assert s[0] as int == 0x30 + a && s[1] as int == 0x30 + b % 10 && s[2] as int == 0x30 + n % 10 && s[3] == rest[0];
    NumberStep(s, 0, 0);
    NumberStep(s, 1, a);
    NumberStep(s, 2, b);
    NumberStep(s, 3, n);
  }

  lemma NumberStep(s: seq<Byte>, i: nat, value: nat)
    requires i < |s|
    ensures LeadingNumber(s, i, value) ==
            if 0x30 <= s[i] as int <= 0x39 then LeadingNumber(s, i + 1, 10 * value + (s[i] as int - 0x30)) else value
  {
  }

  lemma {:induction false} FindChoice(choice: nat, i: nat)
    requires i <= choice < |BACKDROPS|
    requires forall k :: 0 <= k < |BACKDROPS| && BACKDROPS[k].number == BACKDROPS[choice].number ==> k == choice
    ensures ChoiceFor(BACKDROPS[choice].number, i) == choice
    decreases choice - i
  {
    if i < choice {
      FindChoice(choice, i + 1);
    }
  }

  // Tiles

  const TILES := 12

  /** A code and the 4x3 tiles it stands for; the cell of the code is the last of them. */
  datatype Entry = Entry(code: Byte, tiles: seq<int>)

  /** The table of codes, and the backdrop tiles whose light shadows have codes of their own. */
  datatype Tables = Tables(entries: seq<Entry>, lights: seq<int>)

  predicate Valid(t: Tables) {
    && (forall i :: 0 <= i < |t.entries| ==> |t.entries[i].tiles| == TILES && t.entries[i].tiles[TILES - 1] >= 0)
    && (forall i :: 0 <= i < |t.lights| ==> t.lights[i] >= 0)
  }

  /** Which of the four tiles of a backdrop this is: 0 to 3, or none. */
  function LightOf(lights: seq<int>, i: nat, tile: int): int
    requires i <= |lights|
    decreases |lights| - i
  {
    if i == |lights| then NO_TILE
    else if 0 <= tile - lights[i] <= 3 then tile - lights[i]
    else LightOf(lights, i + 1, tile)
  }

  function FirstEntry(es: seq<Entry>, i: nat, tile: int): (r: nat)
    requires i <= |es| && forall k :: 0 <= k < |es| ==> |es[k].tiles| == TILES
    ensures i <= r <= |es| && (r < |es| ==> es[r].tiles[TILES - 1] == tile)
    ensures forall k :: i <= k < r ==> es[k].tiles[TILES - 1] != tile
    decreases |es| - i
  {
    if i == |es| || es[i].tiles[TILES - 1] == tile then i else FirstEntry(es, i + 1, tile)
  }

  /** The code that the table has for a tile, if any. */
  function CodeFor(t: Tables, tile: int): Byte
    requires Valid(t)
  {
    var i := FirstEntry(t.entries, 0, tile);
    if i < |t.entries| then t.entries[i].code else SPACE
  }

  function BgByte(t: Tables, tile: int): Byte
    requires Valid(t)
  {
    var light := LightOf(t.lights, 0, tile);
    if light == 0 then SPACE
    else if light > 0 && light <= 3 then LIGHT + light as Byte
    else CodeFor(t, tile)
  }

  predicate HasCode(t: Tables, tile: int)
    requires Valid(t)
  {
    FirstEntry(t.entries, 0, tile) < |t.entries|
  }

  /** The codes for the two tiles of a cell, found in one pass over the table. */
  method EncodeCell(t: Tables, bg: int, fg: int) returns (outbg: Byte, outfg: Byte, hasFg: bool)
    requires Valid(t)
    ensures outbg == BgByte(t, bg) && outfg == CodeFor(t, fg) && hasFg == HasCode(t, fg)
  {
    outbg, outfg, hasFg := SPACE, SPACE, false;
    if bg == NO_TILE && fg == NO_TILE {
      NoTileHasNoCode(t);
      return;
    }
    var inbg, foundBG := bg, false;
    var i := 0;
    while i < |t.lights| && !foundBG
      invariant 0 <= i <= |t.lights|
      invariant if foundBG then 0 <= LightOf(t.lights, 0, bg) <= 3 && inbg == NO_TILE &&
                                outbg == (if LightOf(t.lights, 0, bg) == 0 then SPACE else LIGHT + LightOf(t.lights, 0, bg) as Byte)
                else inbg == bg && outbg == SPACE && LightOf(t.lights, 0, bg) == LightOf(t.lights, i, bg)
    {
      var light := bg - t.lights[i];
      if 0 <= light <= 3 {
        inbg := NO_TILE;
        foundBG := true;
        outbg := if light == 0 then SPACE else LIGHT + light as Byte;
      }
      i := i + 1;
    }
    outbg, outfg, hasFg := SearchTable(t, inbg, fg, foundBG, outbg);
  }

  method SearchTable(t: Tables, bg: int, fg: int, hasBg: bool, lightByte: Byte) returns (outbg: Byte, outfg: Byte, hasFg: bool)
    requires Valid(t) && (!hasBg ==> lightByte == SPACE)
    ensures outbg == (if hasBg then lightByte else CodeFor(t, bg)) && outfg == CodeFor(t, fg) && hasFg == HasCode(t, fg)
  {
    outbg, outfg, hasFg := lightByte, SPACE, false;
    var foundBG := hasBg;
    ghost var es := t.entries;
    for i := 0 to |t.entries|
      invariant hasBg ==> foundBG && outbg == lightByte
      invariant !hasBg ==> if foundBG then outbg == CodeFor(t, bg)
                           else outbg == SPACE && FirstEntry(es, 0, bg) == FirstEntry(es, i, bg)
      invariant if hasFg then outfg == CodeFor(t, fg) && HasCode(t, fg)
                else outfg == SPACE && FirstEntry(es, 0, fg) == FirstEntry(es, i, fg)
    {
      var next := t.entries[i];
      if !foundBG && bg == next.tiles[TILES - 1] {
        outbg := next.code;
        if hasFg {
          return;
        }
        foundBG := true;
      }
      if !hasFg && fg == next.tiles[TILES - 1] {
        outfg := next.code;
        hasFg := true;
        if foundBG {
          return;
        }
      }
    }
  }

  lemma NoTileHasNoCode(t: Tables)
    requires Valid(t)
    ensures BgByte(t, NO_TILE) == SPACE && CodeFor(t, NO_TILE) == SPACE && !HasCode(t, NO_TILE)
  {
    NoLight(t.lights, 0);
  }

  lemma {:induction false} NoLight(lights: seq<int>, i: nat)
    requires i <= |lights| && forall k :: 0 <= k < |lights| ==> lights[k] >= 0
    ensures LightOf(lights, i, NO_TILE) == NO_TILE
    decreases |lights| - i
  {
    if i < |lights| {
      NoLight(lights, i + 1);
    }
  }

  /** Tile `i` of the lights is the first one that begins the four tiles of a backdrop to which `tile` belongs. */
  predicate FirstLight(t: Tables, i: nat, tile: int)
    requires i < |t.lights|
  {
    t.lights[i] <= tile < t.lights[i] + 4 && forall k :: 0 <= k < i ==> !(t.lights[k] <= tile < t.lights[k] + 4)
  }

  /**
   * A tile of a backdrop is written as a blank, or as the code of its light shadow: left, middle or
   * right; every other tile has the code of the table.
   */
  lemma BackdropTiles(t: Tables, tile: int)
    requires Valid(t)
    ensures forall i :: 0 <= i < |t.lights| && FirstLight(t, i, tile) ==>
              BgByte(t, tile) as int == if tile == t.lights[i] then 0x20 else 0x34 + (tile - t.lights[i])
    ensures (forall i :: 0 <= i < |t.lights| ==> !(t.lights[i] <= tile < t.lights[i] + 4)) ==> BgByte(t, tile) == CodeFor(t, tile)
  {
    hide CodeFor;
    LightFound(t, 0, tile);
  }

  lemma {:induction false} LightFound(t: Tables, i: nat, tile: int)
    requires i <= |t.lights|
    ensures forall k :: i <= k < |t.lights| && FirstLight(t, k, tile) ==> LightOf(t.lights, i, tile) == tile - t.lights[k]
    ensures (forall k :: i <= k < |t.lights| ==> !(t.lights[k] <= tile < t.lights[k] + 4)) ==> LightOf(t.lights, i, tile) == NO_TILE
    decreases |t.lights| - i
  {
    if i < |t.lights| {
      LightFound(t, i + 1, tile);
    }
  }
}
