/** The Crystal Caves detector. */
module CrystalCavesDetect {
  import opened Bytes
  import opened Grid
  import opened CrystalCaves
  import opened CrystalCavesWrite
  import opened CrystalCavesTidy

  const STRIDE := MAP_WIDTH + 1
  const MAX_MAP_HEIGHT := 100
  const MAX_VALID_TILECODE := 0xFE

  /** A row of the right length whose codes are all valid starts at `at`. */
  predicate GoodRow(f: seq<Byte>, at: nat) {
    at + STRIDE <= |f| && f[at] as int == MAP_WIDTH
    && forall x :: at < x < at + STRIDE ==> f[x] as int <= MAX_VALID_TILECODE
  }

  predicate GoodRows(f: seq<Byte>, n: nat) {
    forall y :: 0 <= y < n ==> GoodRow(f, y * STRIDE)
  }

  /** One to 99 good rows and nothing else. */
  predicate Recognised(f: seq<Byte>) {
    0 < |f| / STRIDE < MAX_MAP_HEIGHT && |f| % STRIDE == 0 && GoodRows(f, |f| / STRIDE)
  }

  method IsInstance(f: seq<Byte>) returns (c: Certainty)
    ensures c == if Recognised(f) then DefinitelyYes else DefinitelyNo
  {
    if |f| < MAP_WIDTH + 1 {
      return DefinitelyNo;
    }
    var pos, lenMap := 0, |f|;
    var y := 0;
    while y < MAX_MAP_HEIGHT && lenMap > 0
      invariant 0 <= y <= MAX_MAP_HEIGHT && 0 <= pos && 0 <= lenMap
      invariant pos == y * STRIDE && pos + lenMap == |f| && GoodRows(f, y)
    {
      if f[pos] as int != MAP_WIDTH || lenMap - 1 < MAP_WIDTH {
        assert !GoodRow(f, y * STRIDE);
        return DefinitelyNo;
      }
      for x := 0 to MAP_WIDTH
        invariant forall k :: pos < k < pos + 1 + x ==> f[k] as int <= MAX_VALID_TILECODE
      {
        if f[pos + 1 + x] as int > MAX_VALID_TILECODE {
          assert !GoodRow(f, y * STRIDE);
          return DefinitelyNo;
        }
      }
      pos := pos + STRIDE;
      lenMap := lenMap - STRIDE;
      y := y + 1;
    }
    if y == MAX_MAP_HEIGHT {
      return DefinitelyNo;
    }
    return DefinitelyYes;
  }

  /** The codes of the tables are ones the detector accepts. */
  ghost predicate GoodCodes(t: Tables) {
    && (forall a :: InTables(t, a) ==> CodeOf(t, a) as int <= MAX_VALID_TILECODE)
    && (forall i :: 0 <= i < |t.signs| ==> t.signs[i].code2 as int <= MAX_VALID_TILECODE)
  }

  predicate GoodBytes(s: seq<Byte>) {
    forall k :: 0 <= k < |s| ==> s[k] as int <= MAX_VALID_TILECODE
  }

  lemma {:induction false} ClaimsPutGoodBytes(t: Tables, a: Anchor, s: Cells, w: nat, j: nat, n: nat)
    requires Valid(t) && GoodCodes(t) && InTables(t, a) && |s.src| == |s.dst| && n <= |PartsOf(t, a)| && GoodBytes(s.dst)
    ensures GoodBytes(ClaimParts(s, w, j, PartsOf(t, a), n).dst)
  {
    hide PlaceOf, Valid;
    if n > 0 {
      ClaimsPutGoodBytes(t, a, s, w, j, n - 1);
      GoodPart(t, a, n - 1);
    }
  }

  lemma GoodPart(t: Tables, a: Anchor, k: nat)
    requires Valid(t) && GoodCodes(t) && InTables(t, a) && k < |PartsOf(t, a)|
    ensures PartsOf(t, a)[k].put as int <= MAX_VALID_TILECODE
  {
  }

  lemma {:induction false} ScanPutsGoodBytes(t: Tables, b: Board, n: nat)
    requires Valid(t) && GoodCodes(t) && Square(b, |b.bg|) && n <= |b.bg|
    ensures GoodBytes(Scanned(t, b, n).dst)
  {
    hide Valid, Choose, PartsOf, ClaimParts, CodeOf;
    if n > 0 {
      ScanPutsGoodBytes(t, b, n - 1);
      var s := Scanned(t, b, n - 1);
      var a := AnchorAt(t, b, s, n - 1);
      ClaimsPutGoodBytes(t, a, Cells(s.src, s.dst[n - 1 := CodeOf(t, a)]), b.w, n - 1, |PartsOf(t, a)|);
    }
  }

  /** A written level is recognised exactly if it has 1 to 99 rows; the writer allows 0 to 200. */
  lemma WrittenIsRecognised(t: Tables, b: Board, h: nat)
    requires Valid(t) && GoodCodes(t) && Square(b, MAP_WIDTH * h) && b.w == MAP_WIDTH
    ensures Recognised(Rows(Output(t, b), MAP_WIDTH as Byte, h)) <==> 1 <= h < MAX_MAP_HEIGHT
  {
    hide Valid, Output, Rows;
    var out := Output(t, b);
    var f := Rows(out, MAP_WIDTH as Byte, h);
    assert GoodBytes(out) by { ScanPutsGoodBytes(t, b, |b.bg|); OutputIsScanned(t, b); }
    forall y | 0 <= y < h ensures GoodRow(f, y * STRIDE) {
      RowHead(out, MAP_WIDTH as Byte, h, y);
      forall k | y * STRIDE < k < y * STRIDE + STRIDE ensures f[k] as int <= MAX_VALID_TILECODE {
        RowsHold(out, MAP_WIDTH as Byte, h, k - y * STRIDE - 1, y, y * MAP_WIDTH + (k - y * STRIDE - 1), k);
      }
    }
  }

  lemma OutputIsScanned(t: Tables, b: Board)
    requires Valid(t) && Square(b, |b.bg|)
    ensures Output(t, b) == Scanned(t, b, |b.bg|).dst
  {
  }

  lemma {:induction false} RowHead(dst: seq<Byte>, w: Byte, n: nat, y: nat)
    requires w as nat * n <= |dst| && y < n
    ensures (y + 1) * (w as nat + 1) <= n * (w as nat + 1) && Rows(dst, w, n)[y * (w as nat + 1)] == w
  {
    RowsApart(y, n, w as nat + 1);
    RowEnds(w, n);
    if y < n - 1 {
      RowHead(dst, w, n - 1, y);
    }
  }

  /** The rows recognised are all of the file: every 41st byte is the length 40, and every other one a valid code. */
  lemma RecognisedExactly(f: seq<Byte>)
    ensures Recognised(f) <==>
            && |f| % 41 == 0 && 41 <= |f| <= 99 * 41
            && forall i :: 0 <= i < |f| ==> if i % 41 == 0 then f[i] == 40 else f[i] as int <= 0xFE
  {
    if Recognised(f) {
      forall i | 0 <= i < |f| ensures if i % 41 == 0 then f[i] == 40 else f[i] as int <= 0xFE {
        var y := i / 41;
        CellInverse(i, 41);
        assert GoodRow(f, y * STRIDE);
      }
    }
    if |f| % 41 == 0 && 41 <= |f| <= 99 * 41 && forall i :: 0 <= i < |f| ==> if i % 41 == 0 then f[i] == 40 else f[i] as int <= 0xFE {
      forall y | 0 <= y < |f| / STRIDE ensures GoodRow(f, y * STRIDE) {
        forall x | y * STRIDE <= x < y * STRIDE + STRIDE ensures x < |f| && (if x == y * STRIDE then x % 41 == 0 else x % 41 != 0) {
          CellUnique(x - y * STRIDE, y, STRIDE);
        }
      }
    }
  }
}
