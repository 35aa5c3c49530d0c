/** Writing Secret Agent levels. */
module SecretAgentWrite {
  import opened Bytes
  import opened Grid
  import opened SecretAgent

  datatype Map = Map(width: nat, height: nat, bg: seq<Item>, fg: seq<Item>, backdrop: int)

  /** What the writer's assertions demand. */
  predicate Writable(m: Map) {
    Inside(m.bg, m.width, m.height) && Inside(m.fg, m.width, m.height)
  }

  /** The rows of codes, and which rows have foreground codes; `h` rows are in use. */
  datatype Coded = Coded(h: nat, bg: seq<Byte>, fg: seq<Byte>, valid: seq<bool>)

  predicate Sized(k: Coded) {
    k.h <= MAX_ROWS && |k.bg| == |k.fg| == MAP_WIDTH * MAX_ROWS && |k.valid| == MAX_ROWS
  }

  function Row(codes: seq<Byte>, y: nat): (r: seq<Byte>)
    requires (y + 1) * MAP_WIDTH <= |codes|
    ensures |r| == MAP_WIDTH
  {
    codes[y * MAP_WIDTH..(y + 1) * MAP_WIDTH]
  }

  /** The foreground line of a row starts with the mark, whatever was in the first column. */
  function FgRow(k: Coded, y: nat): (r: seq<Byte>)
    requires Sized(k) && y < MAX_ROWS
    ensures |r| == MAP_WIDTH
  {
    Row(k.fg, y)[0 := STAR]
  }

  function RowLines(k: Coded, y: nat): (s: seq<Byte>)
    requires Sized(k) && y < k.h
    ensures |s| == if k.valid[y] then 2 * STRIDE else STRIDE
  {
    if k.valid[y] then Row(k.bg, y) + [CR, LF] + FgRow(k, y) + [CR, LF] else Row(k.bg, y) + [CR, LF]
  }

  /** How many of the first `n` rows have a foreground line. */
  function Count(valid: seq<bool>, n: nat): (c: nat)
    requires n <= |valid|
    ensures c <= n
  {
    if n == 0 then 0 else Count(valid, n - 1) + if valid[n - 1] then 1 else 0
  }

  /** How many lines the first `n` rows take. */
  function LinesOf(k: Coded, n: nat): nat
    requires Sized(k) && n <= k.h
  {
    n + Count(k.valid, n)
  }

  function Body(k: Coded, n: nat): (s: seq<Byte>)
    requires Sized(k) && n <= k.h
    ensures |s| == STRIDE * LinesOf(k, n)
  {
    if n == 0 then [] else Body(k, n - 1) + RowLines(k, n - 1)
  }

  /** The two lines before the map. */
  function Header(backdrop: int): (s: seq<Byte>)
    ensures |s| == 2 * STRIDE
  {
    BackdropNumbers(backdrop);
    Digits(BackdropOf(backdrop).number) + Repeat(SPACE, MAP_WIDTH - 3) + [CR, LF]
    + [SPACE, SPACE, SPACE, 0x33, 0x35, 0x36, 0x37] + Repeat(SPACE, MAP_WIDTH - 7) + [CR, LF]
  }

  lemma BackdropNumbers(backdrop: int)
    ensures BackdropOf(backdrop).number < 1000
  {
  }

  /** The writer's loop goes over at most this many rows. */
  const LOOP_ROWS := MAX_ROWS - 2

  /** The whole file: rows that fit, and zeros after them if the loop comes to the end of the map. */
  function FileOf(k: Coded, backdrop: int): seq<Byte>
    requires Sized(k) && LinesOf(k, k.h) <= MAX_ROWS
  {
    if k.h < LOOP_ROWS
    then Header(backdrop) + Body(k, k.h) + Repeat(0 as Byte, FILESIZE - STRIDE * (2 + LinesOf(k, k.h)))
    else Header(backdrop) + Body(k, LOOP_ROWS)
  }

  /** Row `y` has a foreground tile that the table has a code for. */
  ghost predicate RowHasFg(t: Tables, fg: seq<int>, y: nat)
    requires Valid(t) && (y + 1) * MAP_WIDTH <= |fg|
  {
    exists c :: y * MAP_WIDTH <= c < (y + 1) * MAP_WIDTH && HasCode(t, fg[c])
  }

  /** The codes of a map's cells. */
  ghost predicate IsCoded(t: Tables, bg: seq<int>, fg: seq<int>, k: Coded)
    requires Valid(t)
  {
    && Sized(k) && |bg| == |fg| == MAP_WIDTH * k.h
    && (forall c :: 0 <= c < |bg| ==> k.bg[c] == BgByte(t, bg[c]) && k.fg[c] == CodeFor(t, fg[c]))
    && (forall y :: 0 <= y < k.h ==> (k.valid[y] <==> RowHasFg(t, fg, y)))
  }

  /** The codes that the writer ends up with; the rows that are not in use hold the filling. */
  ghost function CodedOf(t: Tables, bg: seq<int>, fg: seq<int>, h: nat): (k: Coded)
    requires Valid(t) && h <= MAX_ROWS && |bg| == |fg| == MAP_WIDTH * h
    ensures k.h == h && Sized(k) && IsCoded(t, bg, fg, k)
  {
    Coded(h,
          seq(MAP_WIDTH * MAX_ROWS, c requires 0 <= c < MAP_WIDTH * MAX_ROWS => if c < |bg| then BgByte(t, bg[c]) else SPACE),
          seq(MAP_WIDTH * MAX_ROWS, c requires 0 <= c < MAP_WIDTH * MAX_ROWS => if c < |fg| then CodeFor(t, fg[c]) else SPACE),
          seq(MAX_ROWS, y requires 0 <= y < MAX_ROWS => y < h && RowHasFg(t, fg, y)))
  }

  lemma CodedIs(t: Tables, bg: seq<int>, fg: seq<int>, k: Coded)
    requires Valid(t) && IsCoded(t, bg, fg, k)
    requires forall c :: |bg| <= c < |k.bg| ==> k.bg[c] == SPACE && k.fg[c] == SPACE
    requires forall y :: k.h <= y < |k.valid| ==> !k.valid[y]
    ensures k == CodedOf(t, bg, fg, k.h)
  {
    hide BgByte, CodeFor, HasCode, Valid, RowHasFg;
  }

  method EncodeRow(t: Tables, bgsrc: array<int>, fgsrc: array<int>, y: nat, bgdst: array<Byte>, fgdst: array<Byte>)
    returns (valid: bool)
    requires Valid(t) && bgsrc.Length == fgsrc.Length && (y + 1) * MAP_WIDTH <= bgsrc.Length <= bgdst.Length == fgdst.Length
    requires bgdst != fgdst
    modifies bgdst, fgdst
    ensures forall c :: y * MAP_WIDTH <= c < (y + 1) * MAP_WIDTH ==> bgdst[c] == BgByte(t, bgsrc[c]) && fgdst[c] == CodeFor(t, fgsrc[c])
    ensures forall c :: 0 <= c < y * MAP_WIDTH || (y + 1) * MAP_WIDTH <= c < bgdst.Length ==>
              bgdst[c] == old(bgdst[c]) && fgdst[c] == old(fgdst[c])
    ensures valid <==> RowHasFg(t, fgsrc[..], y)
  {
    hide BgByte, CodeFor, HasCode, Valid;
    valid := false;
    var at := y * MAP_WIDTH;
    for x := 0 to MAP_WIDTH
      invariant forall c :: at <= c < at + x ==> bgdst[c] == BgByte(t, bgsrc[c]) && fgdst[c] == CodeFor(t, fgsrc[c])
      invariant forall c :: 0 <= c < at || at + x <= c < bgdst.Length ==> bgdst[c] == old(bgdst[c]) && fgdst[c] == old(fgdst[c])
      invariant valid <==> exists c :: at <= c < at + x && HasCode(t, fgsrc[c])
    {
      var outbg, outfg, hasFg := EncodeCell(t, bgsrc[at + x], fgsrc[at + x]);
      bgdst[at + x], fgdst[at + x] := outbg, outfg;
      if hasFg {
        valid := true;
      }
    }
  }

  method Encode(t: Tables, bgsrc: array<int>, fgsrc: array<int>, h: nat) returns (k: Coded, lineCount: nat)
    requires Valid(t) && h <= MAX_ROWS && bgsrc.Length == fgsrc.Length == MAP_WIDTH * h
    ensures k == CodedOf(t, bgsrc[..], fgsrc[..], h) && lineCount == LinesOf(k, h)
  {
    hide BgByte, CodeFor, HasCode, Valid, RowHasFg, CodedOf;
    var bgdst := new Byte[MAP_WIDTH * MAX_ROWS](_ => SPACE);
    var fgdst := new Byte[MAP_WIDTH * MAX_ROWS](_ => SPACE);
    var fgRowValid := new bool[MAX_ROWS](_ => false);
    lineCount := 0;
    for y := 0 to h
      invariant forall c :: 0 <= c < MAP_WIDTH * y ==> bgdst[c] == BgByte(t, bgsrc[c]) && fgdst[c] == CodeFor(t, fgsrc[c])
      invariant forall c :: MAP_WIDTH * y <= c < MAP_WIDTH * MAX_ROWS ==> bgdst[c] == SPACE && fgdst[c] == SPACE
      invariant forall r :: 0 <= r < y ==> (fgRowValid[r] <==> RowHasFg(t, fgsrc[..], r))
      invariant forall r :: y <= r < MAX_ROWS ==> !fgRowValid[r]
      invariant lineCount == y + Count(fgRowValid[..], y)
    {
      var valid := EncodeRow(t, bgsrc, fgsrc, y, bgdst, fgdst);
      ghost var before := fgRowValid[..];
      fgRowValid[y] := valid;
      CountSame(before, fgRowValid[..], y);
      lineCount := lineCount + 1;
      if fgRowValid[y] {
        lineCount := lineCount + 1;
      }
    }
    k := Coded(h, bgdst[..], fgdst[..], fgRowValid[..]);
    CodedIs(t, bgsrc[..], fgsrc[..], k);
  }

  lemma {:induction false} CountSame(a: seq<bool>, b: seq<bool>, n: nat)
    requires n <= |a| && n <= |b| && forall i :: 0 <= i < n ==> a[i] == b[i]
    ensures Count(a, n) == Count(b, n)
  {
    if n > 0 {
      CountSame(a, b, n - 1);
    }
  }

  /** Writes the lines out; the writer asserts at the end that the file has the right size. */
  method Emit(k: Coded, backdrop: int) returns (f: seq<Byte>)
    requires Sized(k) && LinesOf(k, k.h) <= MAX_ROWS
    ensures f == FileOf(k, backdrop)
  {
    hide Header, RowLines;
    f := Header(backdrop);
    assert f + Body(k, 0) == f;
    var numLinesWritten := 2;
    for y := 0 to LOOP_ROWS
      invariant y <= k.h && f == Header(backdrop) + Body(k, y) && numLinesWritten == 2 + LinesOf(k, y)
    {
      if y >= k.h {
        return f + Repeat(0 as Byte, FILESIZE - numLinesWritten * STRIDE);
      }
      var row := Row(k.bg, y) + [CR, LF];
      numLinesWritten := numLinesWritten + 1;
      if k.valid[y] {
        row := row + Row(k.fg, y)[0 := STAR] + [CR, LF];
        numLinesWritten := numLinesWritten + 1;
      }
      NextRow(Header(backdrop), k, y);
      assert row == RowLines(k, y) by { RowIs(k, y); }
      f := f + row;
    }
  }

  lemma RowIs(k: Coded, y: nat)
    requires Sized(k) && y < k.h
    ensures RowLines(k, y) ==
            if k.valid[y] then Row(k.bg, y) + [CR, LF] + Row(k.fg, y)[0 := STAR] + [CR, LF] else Row(k.bg, y) + [CR, LF]
  {
  }

  lemma NextRow(head: seq<Byte>, k: Coded, y: nat)
    requires Sized(k) && y < k.h
    ensures head + Body(k, y) + RowLines(k, y) == head + Body(k, y + 1)
  {
  }

  /** The cells of the two layers of a map. */
  function BgCells(m: Map): (cells: seq<int>)
    requires Writable(m) && m.width == MAP_WIDTH
    ensures |cells| == MAP_WIDTH * m.height
  {
    InsideFits(m.bg, MAP_WIDTH, m.height, MAP_WIDTH * m.height);
    Paint(Repeat(NO_TILE, MAP_WIDTH * m.height), m.bg, MAP_WIDTH)
  }

  function FgCells(m: Map): (cells: seq<int>)
    requires Writable(m) && m.width == MAP_WIDTH
    ensures |cells| == MAP_WIDTH * m.height
  {
    InsideFits(m.fg, MAP_WIDTH, m.height, MAP_WIDTH * m.height);
    Paint(Repeat(NO_TILE, MAP_WIDTH * m.height), m.fg, MAP_WIDTH)
  }

  /** The codes of a map. */
  ghost function CodesOf(t: Tables, m: Map): (k: Coded)
    requires Valid(t) && Writable(m) && m.width == MAP_WIDTH && m.height <= MAX_ROWS
    ensures k.h == m.height && Sized(k)
  {
    CodedOf(t, BgCells(m), FgCells(m), m.height)
  }

  method Write(t: Tables, m: Map) returns (r: Result<seq<Byte>>)
    requires Valid(t) && Writable(m)
    ensures m.width != MAP_WIDTH || m.height > MAX_ROWS ==> r == Err(BadLayout)
    ensures m.width == MAP_WIDTH && m.height <= MAX_ROWS ==>
      var k := CodesOf(t, m);
      r == if LinesOf(k, m.height) > MAX_ROWS then Err(TooMany)
           else if |FileOf(k, m.backdrop)| != FILESIZE then Err(BadLayout)
           else Ok(FileOf(k, m.backdrop))
  {
    hide Valid, IsCoded, CodedOf, Paint, FileOf;
    if m.width != MAP_WIDTH || m.height > MAX_ROWS {
      return Err(BadLayout);
    }
    var lenMap := m.width * m.height;
    var bgsrc := new int[lenMap](_ => NO_TILE);
    var fgsrc := new int[lenMap](_ => NO_TILE);
    assert bgsrc[..] == Repeat(NO_TILE, lenMap) && fgsrc[..] == Repeat(NO_TILE, lenMap);
    InsideFits(m.bg, m.width, m.height, lenMap);
    InsideFits(m.fg, m.width, m.height, lenMap);
    PaintInto(bgsrc, m.bg, m.width);
    PaintInto(fgsrc, m.fg, m.width);
    var coded, lineCount := Encode(t, bgsrc, fgsrc, m.height);
    if lineCount > MAX_ROWS {
      return Err(TooMany);
    }
    var f := Emit(coded, m.backdrop);
    if |f| != FILESIZE {
      return Err(BadLayout);
    }
    return Ok(f);
  }

  /**
   * The size the writer asserts comes out for every height up to 43, and for 44 rows with
   * two foreground lines; for the other heights that pass the checks it does not.
   */
  lemma SizeExact(k: Coded, backdrop: int)
    requires Sized(k) && LinesOf(k, k.h) <= MAX_ROWS
    ensures |FileOf(k, backdrop)| == FILESIZE <==> k.h < LOOP_ROWS || (k.h == LOOP_ROWS && LinesOf(k, k.h) == MAX_ROWS)
  {
    hide Header, Body;
    if k.h > LOOP_ROWS {
      CountGrows(k.valid, LOOP_ROWS, k.h);
    }
  }

  lemma {:induction false} CountGrows(valid: seq<bool>, m: nat, n: nat)
    requires m <= n <= |valid|
    ensures Count(valid, m) <= Count(valid, n)
  {
    if m < n {
      CountGrows(valid, m, n - 1);
    }
  }
}
