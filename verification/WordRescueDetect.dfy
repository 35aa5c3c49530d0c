/** The detector for Word Rescue levels, and what its answer is worth. */
module WordRescueDetect {
  import opened Bytes
  import opened Grid
  import opened WordRescueRle
  import opened WordRescue
  import opened WordRescueWrite
  import opened WordRescueTheorems

  const INDEX_DRIP := 1
  const INDEX_LETTER := 4
  const INDEX_SIZE := 7

  /** The detector's least file size: fifteen words and the letters. */
  const MIN_HEADER_SIZE := 2 * 15 + 4 * 7

  /** Where the first `i` item blocks end. */
  function BlocksEnd(f: seq<Byte>, i: nat): Result<nat>
    requires i <= INDEX_SIZE
  {
    if i == 0 then Ok(BLOCKS_AT)
    else
      var at :- BlocksEnd(f, i - 1);
      if i - 1 == INDEX_LETTER then
        if at + 4 * NUM_LETTERS > |f| then Err(Truncated) else Ok(at + 4 * NUM_LETTERS)
      else if at + 2 > |f| then Err(Truncated)
      else
        var len := (if i - 1 == INDEX_DRIP then 6 else 4) * WordAt(f, at);
        if at + 2 + len > |f| then Err(Truncated) else Ok(at + 2 + len)
  }

  /** How many of the blocks before `i` have a count of their own. */
  function Counted(i: nat): nat {
    if i <= INDEX_LETTER then i else i - 1
  }

  lemma BlocksAreItems(f: seq<Byte>)
    ensures BlocksEnd(f, INDEX_SIZE).Ok? <==> ParseItems(f).Ok?
    ensures ParseItems(f).Ok? ==> BlocksEnd(f, INDEX_SIZE).value == ParseItems(f).value.end
  {
    hide BlocksEnd, CountedBlock, LetterBlock;
    BlockStep(f, 1, CODE_GRUZZLE);
    BlockStep(f, 2, CODE_DRIP);
    BlockStep(f, 3, CODE_SLIME);
    BlockStep(f, 4, CODE_BOOK);
    BlockStep(f, 5, 0);
    BlockStep(f, 6, CODE_ANIM);
    BlockStep(f, 7, CODE_FG);
  }

  lemma BlockStep(f: seq<Byte>, i: nat, code: int)
    requires 0 < i <= INDEX_SIZE
    ensures BlocksEnd(f, 0) == Ok(BLOCKS_AT)
    ensures BlocksEnd(f, i).Ok? ==> BlocksEnd(f, i - 1).Ok?
    ensures BlocksEnd(f, i - 1).Ok? ==>
      var at := BlocksEnd(f, i - 1).value;
      var b := if i - 1 == INDEX_LETTER then LetterBlock(f, at)
               else CountedBlock(f, at, if i - 1 == INDEX_DRIP then 6 else 4, code);
      (BlocksEnd(f, i).Ok? <==> b.Ok?) && (b.Ok? ==> BlocksEnd(f, i).value == b.value.end)
  {
    hide PointsIn, LettersIn;
  }

  /** Later blocks take at least the room of their counts. */
  lemma {:induction false} BlocksGrow(f: seq<Byte>, i: nat, j: nat)
    requires i <= j <= INDEX_SIZE && BlocksEnd(f, j).Ok?
    ensures BlocksEnd(f, i).Ok?
    ensures BlocksEnd(f, i).value + 2 * (Counted(j) - Counted(i)) <= BlocksEnd(f, j).value
    ensures i < j ==> BlocksEnd(f, j).value <= |f|
  {
    if i < j {
      BlocksGrow(f, i, j - 1);
    }
  }

  predicate ValidCode(code: Byte) {
    code as int == DEFAULT_BGTILE || code as int <= MAX_VALID_TILECODE
  }

  /** Every pair between the two offsets has a valid code. */
  ghost predicate ValidCodes(f: seq<Byte>, from: nat, to: nat) {
    to <= |f| && forall j: nat :: from + 2 * j + 2 <= to ==> ValidCode(f[from + 2 * j + 1])
  }

  /** The bytes by which the detector's idea of the smallest size is too large: it counts the letters twice. */
  const SLACK := 4 * NUM_LETTERS

  /** What the detector accepts. */
  ghost predicate Recognised(f: seq<Byte>) {
    && |f| >= MIN_HEADER_SIZE && WordAt(f, 0) * WordAt(f, 2) != 0
    && ParseItems(f).Ok?
    && var at := ParseItems(f).value.end;
    var layer := ReadLayer(f, at, WordAt(f, 0) * WordAt(f, 2));
    !layer.cut && layer.end + SLACK <= |f| && ValidCodes(f, at, layer.end)
  }

  lemma {:induction false} LayerMovesOn(f: seq<Byte>, pos: nat, n: int)
    ensures ReadLayer(f, pos, n).end >= pos
    ensures pos <= |f| ==> ReadLayer(f, pos, n).end <= |f|
    decreases |f| - pos
  {
    if n > 0 && pos + 2 <= |f| {
      LayerMovesOn(f, pos + 2, n - f[pos] as int);
    }
  }

  /** Checks the item blocks; the size counted so far is always ahead of the stream position. */
  method CheckBlocks(f: seq<Byte>) returns (ok: bool, pos: nat, minSize: nat)
    requires |f| >= MIN_HEADER_SIZE
    ensures ok <==> ParseItems(f).Ok? && ParseItems(f).value.end + SLACK <= |f|
    ensures ok ==> pos == ParseItems(f).value.end && minSize == pos + SLACK
  {
    hide ParseItems, BlocksEnd;
    BlocksAreItems(f);
    pos, minSize := BLOCKS_AT, MIN_HEADER_SIZE;
    assert BlocksEnd(f, 0) == Ok(BLOCKS_AT) by {
      BlockStep(f, 1, 0);
    }
    for i := 0 to INDEX_SIZE
      invariant BlocksEnd(f, i) == Ok(pos)
      invariant minSize == pos + 40 - 2 * Counted(i) <= |f|
    {
      var lenBlock;
      if i == INDEX_LETTER {
        lenBlock := NUM_LETTERS * 4;
      } else {
        var count := WordAt(f, pos);
        pos := pos + 2;
        lenBlock := count * 4;
        if i == INDEX_DRIP {
          lenBlock := lenBlock + count * 2;
        }
      }
      minSize := minSize + lenBlock;
      NextBlock(f, i, pos, lenBlock);
      if |f| < minSize {
        TooShort(f, i + 1);
        return false, pos, minSize;
      }
      pos := pos + lenBlock;
    }
    ok := true;
  }

  lemma NextBlock(f: seq<Byte>, i: nat, pos: nat, len: nat)
    requires i < INDEX_SIZE
    requires if i == INDEX_LETTER then BlocksEnd(f, i) == Ok(pos) && len == 4 * NUM_LETTERS
             else pos >= 2 && pos <= |f| && BlocksEnd(f, i) == Ok((pos - 2) as nat)
                  && len == (if i == INDEX_DRIP then 6 else 4) * WordAt(f, pos - 2)
    ensures BlocksEnd(f, i + 1) == if pos + len > |f| then Err(Truncated) else Ok(pos + len)
  {
  }

  /** If the blocks so far leave too little room, so do all of them. */
  lemma TooShort(f: seq<Byte>, i: nat)
    requires 0 < i <= INDEX_SIZE
    requires BlocksEnd(f, i).Ok? ==> BlocksEnd(f, i).value + 40 - 2 * Counted(i) > |f|
    ensures ParseItems(f).Ok? ==> ParseItems(f).value.end + SLACK > |f|
  {
    BlocksAreItems(f);
    if ParseItems(f).Ok? {
      BlocksGrow(f, i, INDEX_SIZE);
    }
  }

  /** Checks the background pairs; a pair that counts no cells still uses up the file. */
  method CheckTiles(f: seq<Byte>, at: nat, numCells: nat, size: nat) returns (ok: bool)
    requires at <= |f| && size == at + SLACK <= |f|
    ensures var layer := ReadLayer(f, at, numCells);
            ok <==> !layer.cut && layer.end + SLACK <= |f| && ValidCodes(f, at, layer.end)
  {
    var i, pos, minSize := 0, at, size;
    while i < numCells
      invariant at <= pos && minSize == pos + SLACK <= |f|
      invariant ValidCodes(f, at, pos) && (pos - at) % 2 == 0
      invariant var layer, rest := ReadLayer(f, at, numCells), ReadLayer(f, pos, numCells - i);
                layer.end == rest.end && layer.cut == rest.cut
      decreases |f| - minSize
    {
      minSize := minSize + 2;
      if |f| < minSize {
        if pos + 2 <= |f| {
          LayerMovesOn(f, pos + 2, numCells - i - f[pos] as int);
        }
        return false;
      }
      var num, code := f[pos], f[pos + 1];
      LayerMovesOn(f, pos + 2, numCells - i - num as int);
      i := i + num as int;
      if code as int > MAX_VALID_TILECODE && code as int != DEFAULT_BGTILE {
        BadPair(f, at, pos, ReadLayer(f, at, numCells).end);
        return false;
      }
      pos := pos + 2;
      OneMorePair(f, at, pos);
    }
    ok := true;
  }

  lemma BadPair(f: seq<Byte>, at: nat, pos: nat, end: nat)
    requires at <= pos && (pos - at) % 2 == 0 && pos + 2 <= end && pos + 2 <= |f| && !ValidCode(f[pos + 1])
    ensures !ValidCodes(f, at, end)
  {
    var j: nat := (pos - at) / 2;
    assert at + 2 * j == pos;
    assert at + 2 * j + 2 <= end && !ValidCode(f[at + 2 * j + 1]);
  }

  lemma OneMorePair(f: seq<Byte>, at: nat, pos: nat)
    requires at + 2 <= pos <= |f| && (pos - at) % 2 == 0
    requires ValidCodes(f, at, pos - 2) && ValidCode(f[pos - 1])
    ensures ValidCodes(f, at, pos)
  {
    forall j: nat | at + 2 * j + 2 <= pos ensures ValidCode(f[at + 2 * j + 1]) {
      if at + 2 * j + 2 > pos - 2 {
        assert at + 2 * j + 2 == pos;
      }
    }
  }

  method IsInstance(f: seq<Byte>) returns (c: Certainty)
    ensures c == if Recognised(f) then DefinitelyYes else DefinitelyNo
  {
    hide ParseItems, ReadLayer, ValidCodes;
    if |f| < MIN_HEADER_SIZE {
      return DefinitelyNo;
    }
    var mapWidth, mapHeight := WordAt(f, 0), WordAt(f, 2);
    if mapWidth * mapHeight == 0 {
      return DefinitelyNo;
    }
    var ok, pos, minSize := CheckBlocks(f);
    if !ok {
      if ParseItems(f).Ok? {
        LayerMovesOn(f, ParseItems(f).value.end, mapWidth * mapHeight);
      }
      return DefinitelyNo;
    }
    ok := CheckTiles(f, pos, mapWidth * mapHeight, minSize);
    c := if ok then DefinitelyYes else DefinitelyNo;
  }

  /** Whatever the detector accepts can be opened: no read runs past the end of the file. */
  lemma RecognisedCanBeOpened(f: seq<Byte>)
    requires Recognised(f)
    ensures Parse(f).Ok?
  {
  }

  /**
   * A written level is recognised exactly when its tiles have valid codes and its attribute
   * layer takes at least fourteen pairs: the letters, counted twice, use up the rest.
   */
  lemma WrittenIsRecognised(m: Map, tiles: seq<Pair>, attrs: seq<Pair>, tileBytes: seq<Byte>)
    requires Writable(m) && AreWords(FileWords(m)) && m.width * m.height != 0
    requires Cells(tiles) == tileBytes && Positive(tiles) && |tileBytes| == m.width * m.height
    ensures Recognised(FileOf(m, tiles, attrs)) <==>
            (forall k :: 0 <= k < |tiles| ==> tiles[k].code as int <= 240 || tiles[k].code == 0xFF) && |attrs| >= 14
  {
    hide FileWords, FileOf, WordsAt, Cells, Positive, ParseItems, ReadLayer;
    var f := FileOf(m, tiles, attrs);
    PartsOfFile(m, tiles, attrs);
    HeaderReadBack(f, m);
    ItemsReadBack(f, m);
    LayerAt(f, LayersAt(m), tiles);
    FileLongEnough(m);
    CodesInFile(f, LayersAt(m), tiles);
  }

  lemma FileLongEnough(m: Map)
    ensures LayersAt(m) >= MIN_HEADER_SIZE
  {
    hide PointsWords, Last, All, Letters;
    assert |BlockWords(All(m.fine, CODE_GRUZZLE), false)| >= 1;
    assert |BlockWords(All(m.fine, CODE_DRIP), true)| >= 1;
    assert |BlockWords(All(m.coarse, CODE_SLIME), false)| >= 1;
    assert |BlockWords(All(m.coarse, CODE_BOOK), false)| >= 1;
    assert |BlockWords(All(m.coarse, CODE_ANIM), false)| >= 1;
    assert |BlockWords(All(m.coarse, CODE_FG), false)| >= 1;
  }

  lemma CodesInFile(f: seq<Byte>, at: nat, ps: seq<Pair>)
    requires PairsAt(f, at, ps)
    ensures ValidCodes(f, at, at + 2 * |ps|) <==> forall k :: 0 <= k < |ps| ==> ValidCode(ps[k].code)
  {
    if ValidCodes(f, at, at + 2 * |ps|) {
      forall k | 0 <= k < |ps| ensures ValidCode(ps[k].code) {
        assert at + 2 * k + 2 <= at + 2 * |ps|;
        assert f[at + 2 * k + 1] == ps[k].code;
      }
    }
    if forall k :: 0 <= k < |ps| ==> ValidCode(ps[k].code) {
      forall j: nat | at + 2 * j + 2 <= at + 2 * |ps| ensures ValidCode(f[at + 2 * j + 1]) {
        assert f[at + 2 * j + 1] == ps[j].code;
      }
    }
  }

  /** Equal cells take one pair for every 255 of them. */
  lemma {:induction false} BlankPairs(data: seq<Byte>, i: nat)
    requires i <= |data| && forall k :: 0 <= k < |data| ==> data[k] == data[0]
    ensures 255 * GreedyCount(data, i) < |data| - i + 255
    decreases |data| - i
  {
    if i < |data| {
      var e := RunEnd(data, i, i + 1);
      BlankPairs(data, e);
    }
  }

  /** A small level without attributes is written but not recognised. */
  lemma SmallPlainLevelNotRecognised(m: Map, tiles: seq<Pair>, attrs: seq<Pair>, tileBytes: seq<Byte>, attrBytes: seq<Byte>)
    requires Writable(m) && AreWords(FileWords(m)) && m.attrs == []
    requires LayerBytes(m, tileBytes, attrBytes) && CodeFor(tiles, tileBytes) && CodeFor(attrs, attrBytes)
    requires 0 < m.width * m.height <= 828
    ensures !Recognised(FileOf(m, tiles, attrs))
  {
    WrittenIsRecognised(m, tiles, attrs, tileBytes);
    PlainAttributes(m, tileBytes, attrBytes);
    BlankPairs(attrBytes, 0);
  }

  lemma PlainAttributes(m: Map, tileBytes: seq<Byte>, attrBytes: seq<Byte>)
    requires m.attrs == [] && LayerBytes(m, tileBytes, attrBytes)
    ensures |attrBytes| == 4 * (m.width * m.height)
    ensures forall k :: 0 <= k < |attrBytes| ==> attrBytes[k] == attrBytes[0]
  {
    assert (2 * m.width) * (2 * m.height) == 4 * (m.width * m.height);
    assert AttrItems(m.attrs) == [];
    assert Narrow(AttrItems(m.attrs)) == [];
    forall k | 0 <= k < |attrBytes| ensures attrBytes[k] as int == DEFAULT_ATTILE {
      assert Ints(attrBytes)[k] == DEFAULT_ATTILE;
    }
  }

  /** A level without columns or rows is not recognised, whatever else is in the file. */
  lemma NoCellsNotRecognised(f: seq<Byte>)
    requires Recognised(f)
    ensures WordAt(f, 0) > 0 && WordAt(f, 2) > 0
  {
    hide WordAt, ParseItems, ReadLayer;
  }
}
