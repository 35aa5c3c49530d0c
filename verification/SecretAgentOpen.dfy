/** Reading Secret Agent levels. */
module SecretAgentOpen {
  import opened Bytes
  import opened SecretAgent

  /** A tile on the map; a row or column below zero stands for one that wraps around. */
  datatype Spot = Spot(x: int, y: int, code: int)

  /** A line of the file: the row it belongs to, whether it is a foreground line, and its codes. */
  datatype Line = Line(y: int, front: bool, codes: seq<Byte>)

  datatype Lines = Lines(lines: seq<Line>, height: nat)

  function Prepend(line: Line, rest: Result<Lines>): Result<Lines> {
    if rest.Err? then rest else Ok(Lines([line] + rest.value.lines, rest.value.height))
  }

  /**
   * The lines from `p` on, for a row counter `y` and a height `h` that both change on the way:
   * a line with the mark belongs to the row before, and makes the map one row less high.
   */
  function ReadLines(f: seq<Byte>, p: nat, y: nat, h: nat): Result<Lines>
    decreases if y < h then h - y else 0
  {
    if y >= h then Ok(Lines([], h))
    else if p >= |f| then Err(Truncated)
    else if f[p] == STAR then
      if p + MAP_WIDTH > |f| then Err(Truncated)
      else Prepend(Line(y - 1, true, f[p..p + MAP_WIDTH]), ReadLines(f, p + STRIDE, y, h - 1))
    else if p + MAP_WIDTH >= |f| then Err(Truncated)
    else if f[p + MAP_WIDTH] != CR then Ended(y)
    else if p + MAP_WIDTH + 1 >= |f| then Err(Truncated)
    else if f[p + MAP_WIDTH + 1] != LF then Ended(y)
    else Prepend(Line(y, false, f[p..p + MAP_WIDTH]), ReadLines(f, p + STRIDE, y + 1, h))
  }

  /** The first line that is not one ends the map. */
  function Ended(y: nat): Result<Lines> {
    if y == 0 then Err(BadLayout) else Ok(Lines([], y))
  }

  // The tiles of a line

  function FirstCode(es: seq<Entry>, i: nat, code: Byte): (r: nat)
    requires i <= |es|
    ensures i <= r <= |es| && (r < |es| ==> es[r].code == code)
    ensures forall k :: i <= k < r ==> es[k].code != code
    decreases |es| - i
  {
    if i == |es| || es[i].code == code then i else FirstCode(es, i + 1, code)
  }

  /** The tiles of an entry whose code is in column `x` of row `y`, from tile `i` on. */
  function Spots(tiles: seq<int>, i: nat, x: int, y: int): seq<Spot>
    requires i <= |tiles|
    decreases |tiles| - i
  {
    if i == |tiles| then []
    else if tiles[i] >= 0 then [Spot(x - (3 - i % 4), y - (2 - i / 4), tiles[i])] + Spots(tiles, i + 1, x, y)
    else Spots(tiles, i + 1, x, y)
  }

  function CodeSpots(t: Tables, backdrop: int, code: Byte, x: int, y: int): seq<Spot> {
    if code == SPACE then []
    else if LIGHT < code <= LIGHT + 3 then [Spot(x, y, backdrop + (code - LIGHT) as int)]
    else if code == STAR && x == 0 then []
    else
      var i := FirstCode(t.entries, 0, code);
      if i < |t.entries| then Spots(t.entries[i].tiles, 0, x, y) else []
  }

  /** The tiles of the first `n` columns of a line. */
  function LineSpots(t: Tables, backdrop: int, line: Line, n: nat): seq<Spot>
    requires n <= |line.codes|
  {
    if n == 0 then [] else LineSpots(t, backdrop, line, n - 1) + CodeSpots(t, backdrop, line.codes[n - 1], n - 1, line.y)
  }

  /** The tiles of one layer: those of its lines, in order. */
  function LayerSpots(t: Tables, backdrop: int, lines: seq<Line>, front: bool): seq<Spot> {
    if lines == [] then []
    else
      var last := lines[|lines| - 1];
      LayerSpots(t, backdrop, lines[..|lines| - 1], front)
      + if last.front == front then LineSpots(t, backdrop, last, |last.codes|) else []
  }

  method ReadCode(t: Tables, backdrop: int, code: Byte, x: int, y: int) returns (spots: seq<Spot>)
    requires Valid(t)
    ensures spots == CodeSpots(t, backdrop, code, x, y)
  {
    if code == SPACE {
      return [];
    }
    if LIGHT < code <= LIGHT + 3 {
      return [Spot(x, y, backdrop + (code - LIGHT) as int)];
    }
    if code == STAR && x == 0 {
      return [];
    }
    var i := 0;
    while i < |t.entries| && t.entries[i].code != code
      invariant 0 <= i <= |t.entries| && FirstCode(t.entries, 0, code) == FirstCode(t.entries, i, code)
    {
      i := i + 1;
    }
    spots := [];
    if i < |t.entries| {
      var tiles := t.entries[i].tiles;
      AddBefore(spots, Spots(tiles, 0, x, y));
      for k := 0 to TILES
        invariant spots + Spots(tiles, k, x, y) == Spots(tiles, 0, x, y)
      {
        SpotStep(spots, tiles, k, x, y);
        if tiles[k] >= 0 {
          spots := spots + [Spot(x - (3 - k % 4), y - (2 - k / 4), tiles[k])];
        }
      }
    }
  }

  lemma AddBefore<T>(none: seq<T>, s: seq<T>)
    requires none == []
    ensures none + s == s
  {
  }

  lemma SpotStep(spots: seq<Spot>, tiles: seq<int>, k: nat, x: int, y: int)
    requires k < |tiles|
    ensures spots + Spots(tiles, k, x, y) ==
            (if tiles[k] >= 0 then spots + [Spot(x - (3 - k % 4), y - (2 - k / 4), tiles[k])] else spots) + Spots(tiles, k + 1, x, y)
  {
  }

  method ReadLine(t: Tables, backdrop: int, line: Line) returns (spots: seq<Spot>)
    requires Valid(t)
    ensures spots == LineSpots(t, backdrop, line, |line.codes|)
  {
    hide Valid, CodeSpots;
    spots := [];
    for x := 0 to |line.codes|
      invariant spots == LineSpots(t, backdrop, line, x)
    {
      var more := ReadCode(t, backdrop, line.codes[x], x, line.y);
      spots := spots + more;
    }
  }

  datatype Level = Level(height: nat, bg: seq<Spot>, fg: seq<Spot>, choice: nat)

  /** The level in a file: the backdrop, the lines, and the tiles of the lines. */
  function Meaning(t: Tables, f: seq<Byte>): Result<Level> {
    var choice := ChoiceFor(LeadingNumber(f, 0, 0), 0);
    var backdrop := BACKDROPS[choice].tile;
    var r :- ReadLines(f, 2 * STRIDE, 0, |f| / STRIDE);
    Ok(Level(r.height, LayerSpots(t, backdrop, r.lines, false), LayerSpots(t, backdrop, r.lines, true), choice))
  }

  /** What is read in all, given what has been read already. */
  function After(done: seq<Line>, rest: Result<Lines>): Result<Lines> {
    if rest.Err? then rest else Ok(Lines(done + rest.value.lines, rest.value.height))
  }

  lemma NothingBefore(rest: Result<Lines>)
    ensures After([], rest) == rest
  {
    if rest.Ok? {
      assert [] + rest.value.lines == rest.value.lines;
    }
  }

  lemma AfterPrepend(done: seq<Line>, line: Line, rest: Result<Lines>)
    ensures After(done, Prepend(line, rest)) == After(done + [line], rest)
  {
    if rest.Ok? {
      assert done + ([line] + rest.value.lines) == done + [line] + rest.value.lines;
    }
  }

  lemma AfterEnd(done: seq<Line>, h: nat)
    ensures After(done, Ok(Lines([], h))) == Ok(Lines(done, h))
  {
    AddNothing(done);
  }

  lemma LineAdded(t: Tables, backdrop: int, done: seq<Line>, line: Line, front: bool)
    ensures LayerSpots(t, backdrop, done + [line], front) ==
            LayerSpots(t, backdrop, done, front) + if line.front == front then LineSpots(t, backdrop, line, |line.codes|) else []
  {
    assert (done + [line])[..|done|] == done;
  }

  method Open(t: Tables, f: seq<Byte>) returns (r: Result<Level>)
    requires Valid(t)
    ensures r == Meaning(t, f)
  {
    hide Valid, LineSpots, LayerSpots, ReadLines, After, Prepend;
    var number := ParseNumber(f);
    var choice := ChoiceFor(number, 0);
    var backdrop := BACKDROPS[choice].tile;
    var height, y, p := |f| / STRIDE, 0, 2 * STRIDE;
    var bgtiles, fgtiles := [], [];
    ghost var done: seq<Line> := [];
    NothingBefore(ReadLines(f, p, 0, height));
    NoLines(t, backdrop);
    while y < height
      invariant p >= 0 && y >= 0 && height >= 0
      invariant After(done, ReadLines(f, p, y, height)) == ReadLines(f, 2 * STRIDE, 0, |f| / STRIDE)
      invariant bgtiles == LayerSpots(t, backdrop, done, false) && fgtiles == LayerSpots(t, backdrop, done, true)
      decreases height - y
    {
      LineStep(f, p, y, height);
      if p >= |f| {
        AfterFailed(done);
        return Err(Truncated);
      }
      var line;
      if f[p] == STAR {
        if p + MAP_WIDTH > |f| {
          AfterFailed(done);
          return Err(Truncated);
        }
        line := Line(y - 1, true, f[p..p + MAP_WIDTH]);
        y := y - 1;
        height := height - 1;
        AfterPrepend(done, line, ReadLines(f, p + STRIDE, y + 1, height));
      } else {
        var first := if p + MAP_WIDTH < |f| then f[p + MAP_WIDTH] else 0;
        var second := if p + MAP_WIDTH + 1 < |f| then f[p + MAP_WIDTH + 1] else 0;
        if p + MAP_WIDTH >= |f| || (first == CR && p + MAP_WIDTH + 1 >= |f|) {
          AfterFailed(done);
          return Err(Truncated);
        }
        if first != CR || second != LF {
          height := y;
          if height == 0 {
            AfterBad(done);
            return Err(BadLayout);
          }
          AfterEnd(done, y);
          return Ok(Level(height, bgtiles, fgtiles, choice));
        }
        line := Line(y, false, f[p..p + MAP_WIDTH]);
        AfterPrepend(done, line, ReadLines(f, p + STRIDE, y + 1, height));
      }
      var spots := ReadLine(t, backdrop, line);
      LineAdded(t, backdrop, done, line, false);
      LineAdded(t, backdrop, done, line, true);
      if line.front {
        fgtiles := fgtiles + spots;
        AddNothing(bgtiles);
      } else {
        bgtiles := bgtiles + spots;
        AddNothing(fgtiles);
      }
      done := done + [line];
      p := p + STRIDE;
      y := y + 1;
    }
    LineStep(f, p, y, height);
    AfterEnd(done, height);
    return Ok(Level(height, bgtiles, fgtiles, choice));
  }

  method ParseNumber(f: seq<Byte>) returns (value: int)
    ensures value == LeadingNumber(f, 0, 0)
  {
    value := 0;
    var i := 0;
    while i < |f| && 0x30 <= f[i] as int <= 0x39
      invariant 0 <= i <= |f| && value >= 0 && LeadingNumber(f, i, value) == LeadingNumber(f, 0, 0)
    {
      value := 10 * value + (f[i] as int - 0x30);
      i := i + 1;
    }
  }

  lemma AfterFailed(done: seq<Line>)
    ensures After(done, Err(Truncated)) == Err(Truncated)
  {
  }

  lemma AfterBad(done: seq<Line>)
    ensures After(done, Err(BadLayout)) == Err(BadLayout)
  {
  }

  lemma NoLines(t: Tables, backdrop: int)
    ensures LayerSpots(t, backdrop, [], false) == [] && LayerSpots(t, backdrop, [], true) == []
  {
  }

  lemma LineStep(f: seq<Byte>, p: nat, y: nat, h: nat)
    ensures ReadLines(f, p, y, h) ==
      if y >= h then Ok(Lines([], h))
      else if p >= |f| then Err(Truncated)
      else if f[p] == STAR then
        if p + MAP_WIDTH > |f| then Err(Truncated)
        else Prepend(Line(y - 1, true, f[p..p + MAP_WIDTH]), ReadLines(f, p + STRIDE, y, h - 1))
      else if p + MAP_WIDTH >= |f| then Err(Truncated)
      else if f[p + MAP_WIDTH] != CR then Ended(y)
      else if p + MAP_WIDTH + 1 >= |f| then Err(Truncated)
      else if f[p + MAP_WIDTH + 1] != LF then Ended(y)
      else Prepend(Line(y, false, f[p..p + MAP_WIDTH]), ReadLines(f, p + STRIDE, y + 1, h))
  {
  }
}
