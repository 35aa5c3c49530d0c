/** Dangerous Dave levels: a path of signed byte steps, and a plain background. */
module DangerousDave {
  import opened Bytes
  import opened Grid

  const MAP_WIDTH := 100
  const MAP_HEIGHT := 10
  const LEN_PATH := 256
  const LEN_BG := 1000
  const PAD_LEN := 24
  const FILESIZE := LEN_PATH + LEN_BG + PAD_LEN
  const MAX_POINTS := 128

  const DEFAULT_BGTILE := 0
  const MAX_VALID_TILECODE := 52

  /** Both bytes of the pair that ends a path. */
  const PATH_END: Byte := 0xEA

  /** The same value as a signed byte. */
  const END_STEP := -22

  datatype Point = Point(x: int, y: int)

  datatype Map = Map(points: seq<Point>, bg: seq<Item>)

  /** What is left of a number in a signed byte. */
  function Int8(n: int): (r: int)
    ensures -128 <= r <= 127
  {
    (n + 128) % 0x100 - 128
  }

  function ToByte(n: int): Byte {
    (n % 0x100) as Byte
  }

  lemma SignedByte(n: int)
    requires -128 <= n <= 127
    ensures Int8(ToByte(n) as int) == n && Int8(n) == n
    ensures ToByte(n) == PATH_END <==> n == END_STEP
  {
  }

  // The path

  /** The signed bytes for the way from `last` to `p`, one to the side of the end marker if need be. */
  function StepTo(last: Point, p: Point): (s: Point)
    ensures -128 <= s.x <= 127 && -128 <= s.y <= 127
    ensures !(s.x == END_STEP && s.y == END_STEP)
  {
    var x, y := Int8(p.x - last.x), Int8(p.y - last.y);
    if x == END_STEP && y == END_STEP then Point(x, y + 1) else Point(x, y)
  }

  /** Where the writer believes the path to be after going from `last` to `p`. */
  function Reached(last: Point, p: Point): Point {
    if Int8(p.x - last.x) == END_STEP && Int8(p.y - last.y) == END_STEP then Point(p.x, p.y + 1) else p
  }

  /** The writer's last position after the first `n` points. */
  function LastAfter(points: seq<Point>, n: nat): Point
    requires n <= |points|
  {
    if n == 0 then Point(0, 0) else Reached(LastAfter(points, n - 1), points[n - 1])
  }

  /** The step written for point `k`. */
  function StepFor(points: seq<Point>, k: nat): (s: Point)
    requires k < |points|
    ensures -128 <= s.x <= 127 && -128 <= s.y <= 127 && !(s.x == END_STEP && s.y == END_STEP)
  {
    StepTo(LastAfter(points, k), points[k])
  }

  /** The bytes of the path section: the steps, a terminator if there is room, and zeros. */
  predicate IsPathOf(path: seq<Byte>, points: seq<Point>) {
    && |path| == LEN_PATH && |points| <= MAX_POINTS
    && (forall k :: 0 <= k < |points| ==>
         path[2 * k] == ToByte(StepFor(points, k).x) && path[2 * k + 1] == ToByte(StepFor(points, k).y))
    && (|points| < MAX_POINTS ==> path[2 * |points|] == PATH_END && path[2 * |points| + 1] == PATH_END)
    && (forall i :: 2 * |points| + 2 <= i < LEN_PATH ==> path[i] == 0)
  }

  /**
   * Writes the path. The check on the last point can never fail: by then its step has
   * already been moved off the end marker.
   */
  method WritePath(points: seq<Point>) returns (r: Result<seq<Byte>>)
    requires |points| <= MAX_POINTS
    ensures r.Ok? && |r.value| == LEN_PATH && IsPathOf(r.value, points)
  {
    hide Int8, ToByte, StepTo, Reached;
    var path := new Byte[LEN_PATH](_ => 0);
    var pathpos := 0;
    var last := Point(0, 0);
    var x, y := 0, 0;
    for k := 0 to |points|
      invariant pathpos == 2 * k && last == LastAfter(points, k)
      invariant !(x == END_STEP && y == END_STEP) && -128 <= x <= 127 && -128 <= y <= 127
      invariant forall j :: 0 <= j < k ==>
          path[2 * j] == ToByte(StepFor(points, j).x) && path[2 * j + 1] == ToByte(StepFor(points, j).y)
      invariant forall i :: 2 * k <= i < LEN_PATH ==> path[i] == 0
    {
      if pathpos > LEN_PATH {
        return Err(TooMany);
      }
      var i := points[k];
      StepCases(last, i);
      x := Int8(i.x - last.x);
      y := Int8(i.y - last.y);
      last := i;
      if x == END_STEP && y == END_STEP {
        last := Point(last.x, last.y + 1);
        y := y + 1;
      }
      path[pathpos] := ToByte(x);
      path[pathpos + 1] := ToByte(y);
      pathpos := pathpos + 2;
    }
    if x == END_STEP && y == END_STEP {
      return Err(OutOfRange);
    }
    if pathpos < LEN_PATH {
      path[pathpos] := PATH_END;
      path[pathpos + 1] := PATH_END;
      pathpos := pathpos + 2;
    }
    return Ok(path[..]);
  }

  lemma StepCases(last: Point, p: Point)
    ensures var x, y := Int8(p.x - last.x), Int8(p.y - last.y);
            if x == END_STEP && y == END_STEP
            then StepTo(last, p) == Point(x, y + 1) && Reached(last, p) == Point(p.x, p.y + 1)
            else StepTo(last, p) == Point(x, y) && Reached(last, p) == p
  {
  }

  /** The points that a path section holds, from pair `k` on, when the path has got to `at`. */
  function PathIn(path: seq<Byte>, k: nat, at: Point): seq<Point>
    requires |path| == LEN_PATH && k <= MAX_POINTS
    decreases MAX_POINTS - k
  {
    if k == MAX_POINTS || (path[2 * k] == PATH_END && path[2 * k + 1] == PATH_END) then []
    else
      var next := Point(at.x + Int8(path[2 * k] as int), at.y + Int8(path[2 * k + 1] as int));
      [next] + PathIn(path, k + 1, next)
  }

  method ReadPath(path: seq<Byte>) returns (points: seq<Point>)
    requires |path| == LEN_PATH
    ensures points == PathIn(path, 0, Point(0, 0))
  {
    hide Int8, PathIn;
    points := [];
    var nextX, nextY := 0, 0;
    var i := 0;
    ghost var k := 0;
    ghost var all := PathIn(path, 0, Point(0, 0));
    assert [] + all == all;
    while i < LEN_PATH
      invariant 0 <= k <= MAX_POINTS && i == 2 * k
      invariant points + PathIn(path, k, Point(nextX, nextY)) == all
    {
      PathStep(path, k, Point(nextX, nextY));
      if path[i] == PATH_END && path[i + 1] == PATH_END {
        AddNothing(points);
        return;
      }
      nextX := nextX + Int8(path[i] as int);
      nextY := nextY + Int8(path[i + 1] as int);
      Reassociate(points, [Point(nextX, nextY)], PathIn(path, k + 1, Point(nextX, nextY)));
      points := points + [Point(nextX, nextY)];
      i := i + 2;
      k := k + 1;
    }
    PathStep(path, k, Point(nextX, nextY));
    AddNothing(points);
  }

  lemma PathStep(path: seq<Byte>, k: nat, at: Point)
    requires |path| == LEN_PATH && k <= MAX_POINTS
    ensures PathIn(path, k, at) ==
            if k == MAX_POINTS || (path[2 * k] == PATH_END && path[2 * k + 1] == PATH_END) then []
            else
              var next := Point(at.x + Int8(path[2 * k] as int), at.y + Int8(path[2 * k + 1] as int));
              [next] + PathIn(path, k + 1, next)
  {
  }

  // What comes back

  /** Where the reader is after the first `n` steps. */
  function SeenAfter(points: seq<Point>, n: nat): Point
    requires n <= |points|
  {
    if n == 0 then Point(0, 0)
    else
      var at, s := SeenAfter(points, n - 1), StepFor(points, n - 1);
      Point(at.x + s.x, at.y + s.y)
  }

  function ReadBack(points: seq<Point>): (r: seq<Point>)
    ensures |r| == |points|
  {
    seq(|points|, k requires 0 <= k < |points| => SeenAfter(points, k + 1))
  }

  /** The reader stops at the terminator and nowhere else. */
  lemma {:induction false} PathReadBack(path: seq<Byte>, points: seq<Point>, k: nat)
    requires IsPathOf(path, points) && k <= |points|
    ensures PathIn(path, k, SeenAfter(points, k)) == ReadBack(points)[k..]
    decreases |points| - k
  {
    hide PathIn, Int8, ToByte, StepFor, SeenAfter, IsPathOf;
    PathStep(path, k, SeenAfter(points, k)) by { PathLength(path, points); }
    if k < |points| {
      StepRead(path, points, k);
      PathReadBack(path, points, k + 1);
      assert ReadBack(points)[k..] == [SeenAfter(points, k + 1)] + ReadBack(points)[k + 1..];
    } else {
      EndRead(path, points);
      assert ReadBack(points)[k..] == [];
    }
  }

  lemma PathLength(path: seq<Byte>, points: seq<Point>)
    requires IsPathOf(path, points)
    ensures |path| == LEN_PATH && |points| <= MAX_POINTS
  {
  }

  /** The pair of point `k` is no end marker, and takes the reader where the path then is. */
  lemma StepRead(path: seq<Byte>, points: seq<Point>, k: nat)
    requires IsPathOf(path, points) && k < |points|
    ensures |path| == LEN_PATH && k < MAX_POINTS && !(path[2 * k] == PATH_END && path[2 * k + 1] == PATH_END)
    ensures var at := SeenAfter(points, k);
            SeenAfter(points, k + 1) == Point(at.x + Int8(path[2 * k] as int), at.y + Int8(path[2 * k + 1] as int))
  {
    hide Int8, ToByte, StepTo;
    var s := StepFor(points, k);
    SignedByte(s.x);
    SignedByte(s.y);
  }

  lemma EndRead(path: seq<Byte>, points: seq<Point>)
    requires IsPathOf(path, points)
    ensures |path| == LEN_PATH && |points| <= MAX_POINTS
    ensures |points| < MAX_POINTS ==> path[2 * |points|] == PATH_END && path[2 * |points| + 1] == PATH_END
  {
  }

  /** The step between a point and the one before it; the path starts at the origin. */
  function Delta(points: seq<Point>, k: nat): Point
    requires k < |points|
  {
    var before := if k == 0 then Point(0, 0) else points[k - 1];
    Point(points[k].x - before.x, points[k].y - before.y)
  }

  predicate Within(p: Point, lo: int, hi: int) {
    lo <= p.x <= hi && lo <= p.y <= hi
  }

  /**
   * For steps of at most 127 per axis, every point comes back, off by at most one pixel
   * downwards; the next step makes up for it, so that the error never adds up.
   */
  lemma {:induction false} NearlyExact(points: seq<Point>, n: nat)
    requires n <= |points| && forall k :: 0 <= k < |points| ==> Within(Delta(points, k), -127, 127)
    ensures SeenAfter(points, n) == LastAfter(points, n)
    ensures n > 0 ==>
      && SeenAfter(points, n).x == points[n - 1].x
      && SeenAfter(points, n).y == points[n - 1].y +
           (if points[n - 1].x - LastAfter(points, n - 1).x == END_STEP && points[n - 1].y - LastAfter(points, n - 1).y == END_STEP
            then 1 else 0)
  {
    hide StepTo, Reached;
    if n > 0 {
      NearlyExact(points, n - 1);
      assert Within(Delta(points, n - 1), -127, 127);
      NearStep(LastAfter(points, n - 1), points[n - 1]);
    }
  }

  /** A step that fits a signed byte takes reader and writer to the same place, that of the point or one below it. */
  lemma NearStep(last: Point, p: Point)
    requires Within(Point(p.x - last.x, p.y - last.y), -128, 127)
    ensures Plus(last, StepTo(last, p)) == Reached(last, p)
    ensures Reached(last, p) == if p.x - last.x == END_STEP && p.y - last.y == END_STEP then Point(p.x, p.y + 1) else p
  {
    hide Int8, ToByte;
    SignedByte(p.x - last.x);
    SignedByte(p.y - last.y);
  }

  /** A path comes back exactly if and only if no step overflows a signed byte or hits the end marker. */
  lemma ExactPath(points: seq<Point>)
    ensures ReadBack(points) == points <==>
            forall k :: 0 <= k < |points| ==> Within(Delta(points, k), -128, 127) && Delta(points, k) != Point(END_STEP, END_STEP)
  {
    if ReadBack(points) == points {
      forall k | 0 <= k < |points|
        ensures Within(Delta(points, k), -128, 127) && Delta(points, k) != Point(END_STEP, END_STEP)
      {
        ExactSoFar(points, k + 1);
      }
    }
    if forall k :: 0 <= k < |points| ==> Within(Delta(points, k), -128, 127) && Delta(points, k) != Point(END_STEP, END_STEP) {
      forall k | 0 <= k < |points| ensures ReadBack(points)[k] == points[k] {
        GoodSteps(points, k + 1);
      }
    }
  }

  function Plus(a: Point, s: Point): Point {
    Point(a.x + s.x, a.y + s.y)
  }

  /** One step is exact if and only if it fits and is not the end marker. */
  lemma StepExact(last: Point, p: Point)
    ensures var d := Point(p.x - last.x, p.y - last.y);
            Plus(last, StepTo(last, p)) == p <==> Within(d, -128, 127) && d != Point(END_STEP, END_STEP)
    ensures Plus(last, StepTo(last, p)) == p ==> Reached(last, p) == p
  {
  }

  lemma {:induction false} GoodSteps(points: seq<Point>, n: nat)
    requires n <= |points|
    requires forall k :: 0 <= k < |points| ==> Within(Delta(points, k), -128, 127) && Delta(points, k) != Point(END_STEP, END_STEP)
    ensures SeenAfter(points, n) == LastAfter(points, n) == if n == 0 then Point(0, 0) else points[n - 1]
  {
    hide StepTo, Reached;
    if n > 0 {
      GoodSteps(points, n - 1);
      StepExact(LastAfter(points, n - 1), points[n - 1]);
      assert Within(Delta(points, n - 1), -128, 127) && Delta(points, n - 1) != Point(END_STEP, END_STEP);
    }
  }

  lemma {:induction false} ExactSoFar(points: seq<Point>, n: nat)
    requires n <= |points| && ReadBack(points) == points
    ensures SeenAfter(points, n) == LastAfter(points, n) == if n == 0 then Point(0, 0) else points[n - 1]
    ensures n > 0 ==> Within(Delta(points, n - 1), -128, 127) && Delta(points, n - 1) != Point(END_STEP, END_STEP)
  {
    hide StepTo, Reached;
    if n > 0 {
      ExactSoFar(points, n - 1);
      assert ReadBack(points)[n - 1] == points[n - 1];
      StepExact(LastAfter(points, n - 1), points[n - 1]);
    }
  }

  /** A step onto the end marker's own values comes back one pixel lower. */
  lemma EndMarkerMoved()
    ensures ReadBack([Point(END_STEP, END_STEP)]) == [Point(END_STEP, END_STEP + 1)]
  {
    hide StepTo, Reached;
    var points := [Point(END_STEP, END_STEP)];
    assert LastAfter(points, 0) == Point(0, 0) && SeenAfter(points, 0) == Point(0, 0);
    StepOntoMarker();
    assert StepFor(points, 0) == Point(END_STEP, END_STEP + 1);
    assert SeenAfter(points, 1) == Point(END_STEP, END_STEP + 1);
  }

  lemma StepOntoMarker()
    ensures StepTo(Point(0, 0), Point(END_STEP, END_STEP)) == Point(END_STEP, END_STEP + 1)
  {
  }

  // The file

  /** What the writer's buffers demand. */
  predicate Writable(m: Map) {
    |m.points| <= MAX_POINTS && Lands(m.bg, MAP_WIDTH, MAP_HEIGHT, LEN_BG)
  }

  predicate InBounds(m: Map) {
    forall k :: 0 <= k < |m.bg| ==> m.bg[k].x <= MAP_WIDTH && m.bg[k].y <= MAP_HEIGHT
  }

  /** All tiles count, but those one column or row past the edges pass. */
  lemma InBoundsExactly(m: Map)
    ensures InBounds(m) <==> forall it :: it in m.bg ==> it.x <= 100 && it.y <= 10
  {
    if InBounds(m) {
      forall it | it in m.bg ensures it.x <= 100 && it.y <= 10 {
        var k :| 0 <= k < |m.bg| && m.bg[k] == it;
      }
    }
  }

  /** The background bytes. */
  predicate IsBgOf(bg: seq<Byte>, m: Map) {
    && |bg| == LEN_BG && Fits(Narrow(m.bg), MAP_WIDTH, LEN_BG)
    && Ints(bg) == Paint(Repeat(DEFAULT_BGTILE, LEN_BG), Narrow(m.bg), MAP_WIDTH)
  }

  predicate IsFileOf(f: seq<Byte>, m: Map) {
    && |f| == FILESIZE && IsPathOf(f[..LEN_PATH], m.points)
    && IsBgOf(f[LEN_PATH..LEN_PATH + LEN_BG], m)
    && f[LEN_PATH + LEN_BG..] == Repeat(0, PAD_LEN)
  }

  method Write(m: Map) returns (r: Result<seq<Byte>>)
    requires Writable(m)
    ensures if InBounds(m) then r.Ok? && IsFileOf(r.value, m) else r == Err(OutsideMap)
  {
    hide IsPathOf, Narrow, Ints, Paint, Fits;
    var path := WritePath(m.points);
    var bg := new Byte[LEN_BG](_ => 0);
    BlankBytes(bg[..]);
    ghost var all := Narrow(m.bg);
    NarrowPrefix(m.bg, 0);
    NothingPainted(Repeat(DEFAULT_BGTILE, LEN_BG), MAP_WIDTH);
    for k := 0 to |m.bg|
      invariant forall j :: 0 <= j < k ==> m.bg[j].x <= MAP_WIDTH && m.bg[j].y <= MAP_HEIGHT
      invariant Fits(all[..k], MAP_WIDTH, LEN_BG)
      invariant Ints(bg[..]) == Paint(Repeat(DEFAULT_BGTILE, LEN_BG), all[..k], MAP_WIDTH)
    {
      var i := m.bg[k];
      if i.x > MAP_WIDTH || i.y > MAP_HEIGHT {
        return Err(OutsideMap);
      }
      PaintNext(Repeat(DEFAULT_BGTILE, LEN_BG), m.bg, k, MAP_WIDTH);
      SetByte(bg[..], i.y * MAP_WIDTH + i.x, ToByte(i.code));
      bg[i.y * MAP_WIDTH + i.x] := ToByte(i.code);
    }
    assert all[..|m.bg|] == all by {
      NarrowPrefix(m.bg, |m.bg|);
    }
    var f := path.value + bg[..] + Repeat(0, PAD_LEN);
    assert f[..LEN_PATH] == path.value && f[LEN_PATH..LEN_PATH + LEN_BG] == bg[..];
    assert f[LEN_PATH + LEN_BG..] == Repeat(0, PAD_LEN);
    return Ok(f);
  }

  function BgItems(bg: seq<Byte>): seq<Item> {
    Scan(Ints(bg), MAP_WIDTH, DEFAULT_BGTILE, |bg|)
  }

  /** `open` never looks at the padding. */
  method Open(f: seq<Byte>) returns (r: Result<Map>)
    ensures r == if |f| < LEN_PATH + LEN_BG then Err(Truncated)
                 else Ok(Map(PathIn(f[..LEN_PATH], 0, Point(0, 0)), BgItems(f[LEN_PATH..LEN_PATH + LEN_BG])))
  {
    hide PathIn, ItemAt;
    if |f| < LEN_PATH + LEN_BG {
      return Err(Truncated);
    }
    var points := ReadPath(f[..LEN_PATH]);
    var bg := f[LEN_PATH..LEN_PATH + LEN_BG];
    var tiles := [];
    for i := 0 to LEN_BG
      invariant tiles == Scan(Ints(bg), MAP_WIDTH, DEFAULT_BGTILE, i)
    {
      var t := ItemAt(i, MAP_WIDTH, bg[i] as int);
      assert Ints(bg)[i] == bg[i] as int;
      if bg[i] as int != DEFAULT_BGTILE {
        tiles := tiles + [t];
      }
    }
    return Ok(Map(points, tiles));
  }

  /** The path as the reader sees it, and the background in reading order. */
  lemma RoundTrip(f: seq<Byte>, m: Map)
    requires IsFileOf(f, m)
    ensures PathIn(f[..LEN_PATH], 0, Point(0, 0)) == ReadBack(m.points)
    ensures BgItems(f[LEN_PATH..LEN_PATH + LEN_BG]) == m.bg <==>
            Canonical(m.bg, MAP_WIDTH, DEFAULT_BGTILE) && ByteCodes(m.bg)
  {
    hide PathIn, IsPathOf, ReadBack, Scan, Narrow, Canonical;
    PathReadBack(f[..LEN_PATH], m.points, 0);
    assert ReadBack(m.points)[0..] == ReadBack(m.points);
    BytesReadBack(f[LEN_PATH..LEN_PATH + LEN_BG], m.bg, MAP_WIDTH, DEFAULT_BGTILE);
  }

  method SaveAndReopen(m: Map) returns (r: Result<Map>)
    requires Writable(m)
    ensures if InBounds(m) then r.Ok? && r.value.points == ReadBack(m.points) else r == Err(OutsideMap)
    ensures r.Ok? ==> (r.value.bg == m.bg <==> Canonical(m.bg, MAP_WIDTH, DEFAULT_BGTILE) && ByteCodes(m.bg))
  {
    hide IsPathOf, IsBgOf, ReadBack, BgItems, Canonical, ByteCodes, PathIn;
    var f := Write(m);
    if f.Err? {
      return Err(f.error);
    }
    RoundTrip(f.value, m);
    r := Open(f.value);
  }

  method IsInstance(f: seq<Byte>) returns (c: Certainty)
    ensures c == if |f| == FILESIZE && (forall i :: LEN_PATH <= i < LEN_PATH + LEN_BG ==> f[i] as int <= MAX_VALID_TILECODE)
                 then DefinitelyYes else DefinitelyNo
  {
    if |f| != FILESIZE {
      return DefinitelyNo;
    }
    for i := 0 to LEN_BG
      invariant forall j :: LEN_PATH <= j < LEN_PATH + i ==> f[j] as int <= MAX_VALID_TILECODE
    {
      if f[LEN_PATH + i] as int > MAX_VALID_TILECODE {
        return DefinitelyNo;
      }
    }
    return DefinitelyYes;
  }
}
