/** Zone 66 levels: codes coded as places in a dictionary built in order of first appearance. */
module Zone66 {
  import opened Bytes
  import opened Grid

  const MAP_WIDTH := 256
  const MAP_HEIGHT := 256
  const BG_LEN := 65536
  const MAX_MAPPINGS := 256
  const DEFAULT_BGTILE := 0x00

  datatype Map = Map(width: nat, height: nat, bg: seq<Item>)

  // The dictionary

  /** The place of a code in the dictionary; its length if the code is not there. */
  function Index(dict: seq<int>, code: int): (i: nat)
    ensures i <= |dict|
    ensures i < |dict| ==> dict[i] == code
    ensures forall k :: 0 <= k < i ==> dict[k] != code
  {
    if dict == [] then 0 else if dict[0] == code then 0 else 1 + Index(dict[1..], code)
  }

  /** The codes of the first `n` items, each once, in order of first appearance. */
  function Dict(items: seq<Item>, n: nat): (dict: seq<int>)
    requires n <= |items|
    ensures |dict| <= n
  {
    if n == 0 then []
    else
      var before := Dict(items, n - 1);
      if Index(before, items[n - 1].code) < |before| then before else before + [items[n - 1].code]
  }

  predicate Distinct(dict: seq<int>) {
    forall i, j :: 0 <= i < j < |dict| ==> dict[i] != dict[j]
  }

  lemma {:induction false} DictDistinct(items: seq<Item>, n: nat)
    requires n <= |items|
    ensures Distinct(Dict(items, n))
  {
    if n > 0 {
      DictDistinct(items, n - 1);
    }
  }

  /** The dictionary only grows at the end. */
  lemma {:induction false} DictGrows(items: seq<Item>, m: nat, n: nat)
    requires m <= n <= |items|
    ensures Dict(items, m) <= Dict(items, n)
    decreases n
  {
    if m < n {
      DictGrows(items, m, n - 1);
    }
  }

  lemma IndexInPrefix(a: seq<int>, b: seq<int>, code: int)
    requires a <= b && Index(a, code) < |a|
    ensures Index(b, code) == Index(a, code)
  {
    hide Index;
    assert forall k :: 0 <= k < |a| ==> a[k] == b[k];
  }

  lemma IndexAtEnd(a: seq<int>, code: int)
    requires Index(a, code) == |a|
    ensures Index(a + [code], code) == |a|
  {
    hide Index;
    assert (a + [code])[|a|] == code && forall k :: 0 <= k < |a| ==> (a + [code])[k] == a[k];
  }

  /** Every item's code is in the dictionary. */
  lemma {:induction false} InDict(items: seq<Item>, k: nat, n: nat)
    requires k < n <= |items|
    ensures Index(Dict(items, n), items[k].code) < |Dict(items, n)|
    decreases n
  {
    var before := Dict(items, n - 1);
    if k < n - 1 {
      InDict(items, k, n - 1);
      IndexInPrefix(before, Dict(items, n), items[k].code);
    } else if Index(before, items[k].code) == |before| {
      IndexAtEnd(before, items[k].code);
    }
  }

  function CodesOf(items: seq<Item>, n: nat): set<int>
    requires n <= |items|
  {
    set k | 0 <= k < n :: items[k].code
  }

  /** The dictionary has as many entries as there are different codes. */
  lemma {:induction false} DictCounts(items: seq<Item>, n: nat)
    requires n <= |items|
    ensures |Dict(items, n)| == |CodesOf(items, n)|
    ensures forall i :: 0 <= i < |Dict(items, n)| ==> Dict(items, n)[i] in CodesOf(items, n)
  {
    hide Index, CodesOf;
    NoCodes(items);
    if n > 0 {
      DictCounts(items, n - 1);
      OneMoreCode(items, n - 1);
    }
  }

  lemma NoCodes(items: seq<Item>)
    ensures CodesOf(items, 0) == {}
  {
  }

  lemma OneMoreCode(items: seq<Item>, n: nat)
    requires n < |items|
    requires forall i :: 0 <= i < |Dict(items, n)| ==> Dict(items, n)[i] in CodesOf(items, n)
    ensures CodesOf(items, n + 1) == CodesOf(items, n) + {items[n].code}
    ensures items[n].code in CodesOf(items, n) <==> Index(Dict(items, n), items[n].code) < |Dict(items, n)|
  {
    hide Dict, Index;
    if items[n].code in CodesOf(items, n) {
      var k :| 0 <= k < n && items[k].code == items[n].code;
      InDict(items, k, n);
    }
  }

  // Writing

  /** Why the first `n` items cannot be written, if so: the first one that fails counts. */
  function Fault(items: seq<Item>, n: nat): Result<bool>
    requires n <= |items|
  {
    if n == 0 then Ok(true)
    else if Fault(items, n - 1).Err? then Fault(items, n - 1)
    else if items[n - 1].x > MAP_WIDTH || items[n - 1].y > MAP_HEIGHT then Err(OutsideMap)
    else if 2 * |Dict(items, n)| > MAX_MAPPINGS then Err(TooMany)
    else Ok(true)
  }

  lemma {:induction false} FaultStays(items: seq<Item>, m: nat, n: nat)
    requires m <= n <= |items| && Fault(items, m).Err?
    ensures Fault(items, n) == Fault(items, m)
  {
    if m < n {
      FaultStays(items, m, n - 1);
    }
  }

  /** The bounds check; it lets the cells just past the edges pass. */
  predicate Outside(items: seq<Item>) {
    exists k :: 0 <= k < |items| && (items[k].x > MAP_WIDTH || items[k].y > MAP_HEIGHT)
  }

  /** A map whose items all pass the bounds check fails to be written exactly if it has more than 128 different codes. */
  lemma {:induction false} FaultIffTooMany(items: seq<Item>, n: nat)
    requires n <= |items| && !Outside(items)
    ensures Fault(items, n) == if |CodesOf(items, n)| > 128 then Err(TooMany) else Ok(true)
  {
    hide CodesOf, Dict;
    DictCounts(items, n);
    if n > 0 {
      FaultIffTooMany(items, n - 1);
      DictCounts(items, n - 1);
      MoreCodes(items, n - 1);
    }
  }

  lemma MoreCodes(items: seq<Item>, n: nat)
    requires n < |items|
    ensures |CodesOf(items, n)| <= |CodesOf(items, n + 1)|
  {
    hide Dict, Index;
    DictCounts(items, n);
    DictCounts(items, n + 1);
    DictGrows(items, n, n + 1);
  }

  /** The items with the dictionary's places for codes; every code takes up two places. */
  function Indexed(items: seq<Item>, dict: seq<int>): (r: seq<Item>)
    ensures |r| == |items|
  {
    seq(|items|, k requires 0 <= k < |items| => items[k].(code := 2 * Index(dict, items[k].code)))
  }

  /** The table of mappings in memory: every entry of the dictionary twice. */
  predicate Doubles(mapBG: seq<int>, dict: seq<int>) {
    2 * |dict| <= |mapBG| && forall i :: 0 <= i < |dict| ==> mapBG[2 * i] == dict[i] && mapBG[2 * i + 1] == dict[i]
  }

  method FindMapping(mapBG: array<int>, numTileMappings: nat, code: int, ghost dict: seq<int>) returns (m: nat)
    requires Doubles(mapBG[..], dict) && numTileMappings == 2 * |dict|
    ensures m == 2 * Index(dict, code)
  {
    m := 0;
    while m < numTileMappings
      invariant 0 <= m <= numTileMappings
      invariant forall k :: 0 <= k < m ==> mapBG[k] != code
    {
      if mapBG[m] == code {
        ghost var i := m / 2;
        assert mapBG[..][2 * i] == dict[i];
        FirstPlace(mapBG[..], dict, code, i);
        return;
      }
      m := m + 1;
    }
    FirstPlace(mapBG[..], dict, code, |dict|);
  }

  lemma FirstPlace(mapBG: seq<int>, dict: seq<int>, code: int, i: nat)
    requires Doubles(mapBG, dict) && i <= |dict| && (i < |dict| ==> dict[i] == code)
    requires forall k :: 0 <= k < 2 * i ==> mapBG[k] != code
    ensures Index(dict, code) == i
  {
    forall k | 0 <= k < i ensures dict[k] != code {
      assert mapBG[2 * k] == dict[k];
    }
  }

  method LayOut(items: seq<Item>) returns (r: Result<seq<Byte>>, mapBG: array<int>, numTileMappings: nat)
    requires Lands(items, MAP_WIDTH, MAP_HEIGHT, BG_LEN)
    ensures mapBG.Length == MAX_MAPPINGS
    ensures if Fault(items, |items|).Err? then r.Err? && r.error == Fault(items, |items|).error
            else
              var dict := Dict(items, |items|);
              && r.Ok? && |r.value| == BG_LEN && numTileMappings == 2 * |dict| <= MAX_MAPPINGS && Doubles(mapBG[..], dict)
              && Fits(Indexed(items, dict), MAP_WIDTH, BG_LEN)
              && Ints(r.value) == Paint(Repeat(DEFAULT_BGTILE, BG_LEN), Indexed(items, dict), MAP_WIDTH)
  {
    hide Index, Paint, Ints, Fits, Doubles, Dict;
    mapBG := new int[MAX_MAPPINGS](_ => 0);
    numTileMappings := 0;
    var bg := new Byte[BG_LEN](_ => 0);
    BlankBytes(bg[..]);
    ghost var blank := Repeat(DEFAULT_BGTILE, BG_LEN);
    ghost var full := Dict(items, |items|);
    ghost var all := Indexed(items, full);
    assert all[..0] == [];
    NothingPainted(blank, MAP_WIDTH);
    assert Doubles(mapBG[..], []) by { NoDoubles(mapBG[..]); }
    for k := 0 to |items|
      invariant Fault(items, k).Ok? && numTileMappings == 2 * |Dict(items, k)| <= MAX_MAPPINGS
      invariant Doubles(mapBG[..], Dict(items, k))
      invariant Fits(all[..k], MAP_WIDTH, BG_LEN) && Ints(bg[..]) == Paint(blank, all[..k], MAP_WIDTH)
    {
      var i := items[k];
      if i.x > MAP_WIDTH || i.y > MAP_HEIGHT {
        FaultStays(items, k + 1, |items|);
        return Err(OutsideMap), mapBG, numTileMappings;
      }
      var m := FindMapping(mapBG, numTileMappings, i.code, Dict(items, k));
      DictNext(items, k);
      if m == numTileMappings && numTileMappings >= MAX_MAPPINGS {
        FaultStays(items, k + 1, |items|);
        return Err(TooMany), mapBG, numTileMappings;
      }
      var cell := i.y * MAP_WIDTH + i.x;
      assert m < MAX_MAPPINGS && m % 2 == 0;
      SetByte(bg[..], cell, m as Byte);
      IndexedNext(blank, items, k);
      bg[cell] := m as Byte;
      if m == numTileMappings {
        AddDouble(mapBG[..], Dict(items, k), i.code);
        mapBG[numTileMappings] := i.code;
        mapBG[numTileMappings + 1] := i.code;
        numTileMappings := numTileMappings + 2;
      }
    }
    assert all[..|items|] == all;
    r := Ok(bg[..]);
  }

  lemma NoDoubles(mapBG: seq<int>)
    ensures Doubles(mapBG, [])
  {
  }

  lemma AddDouble(mapBG: seq<int>, dict: seq<int>, code: int)
    requires Doubles(mapBG, dict) && 2 * |dict| + 2 <= |mapBG|
    ensures Doubles(mapBG[2 * |dict| := code][2 * |dict| + 1 := code], dict + [code])
  {
  }

  /** The dictionary after item `k`, and the item's place in it. */
  lemma DictNext(items: seq<Item>, k: nat)
    requires k < |items|
    ensures var i := Index(Dict(items, k), items[k].code);
            && i <= |Dict(items, k)|
            && Dict(items, k + 1) == (if i == |Dict(items, k)| then Dict(items, k) + [items[k].code] else Dict(items, k))
            && Index(Dict(items, |items|), items[k].code) == i
  {
    var before, after := Dict(items, k), Dict(items, k + 1);
    DictGrows(items, k + 1, |items|);
    if Index(before, items[k].code) == |before| {
      IndexAtEnd(before, items[k].code);
    }
    IndexInPrefix(after, Dict(items, |items|), items[k].code);
  }

  lemma IndexedNext(blank: seq<int>, items: seq<Item>, k: nat)
    requires k < |items| && CellOf(items[k], MAP_WIDTH) < |blank|
    requires Fits(Indexed(items, Dict(items, |items|))[..k], MAP_WIDTH, |blank|)
    ensures var all := Indexed(items, Dict(items, |items|));
            && Fits(all[..k + 1], MAP_WIDTH, |blank|)
            && Paint(blank, all[..k + 1], MAP_WIDTH) ==
               Paint(blank, all[..k], MAP_WIDTH)[CellOf(items[k], MAP_WIDTH) := 2 * Index(Dict(items, |items|), items[k].code)]
  {
    hide Index, Dict, Paint;
    PaintOne(blank, Indexed(items, Dict(items, |items|)), k, MAP_WIDTH);
  }

  /**
   * The words of the table file: the number of mappings, an unknown, the mappings, and as
   * many words again from memory past the mappings, for the writer takes pairs for single ones.
   */
  function TableWords(dict: seq<int>, past: seq<int>): (r: seq<int>)
    requires 2 * |dict| <= MAX_MAPPINGS && |past| == MAX_MAPPINGS && AreWords(past)
    ensures AreWords(r) && |r| == 2 + 4 * |dict|
  {
    [2 * |dict|, 0]
    + seq(2 * |dict|, i requires 0 <= i < 2 * |dict| => dict[i / 2] % 0x1_0000)
    + seq(2 * |dict|, i requires 0 <= i < 2 * |dict| => past[i])
  }

  method WriteTable(mapBG: array<int>, numTileMappings: nat, past: seq<int>, ghost dict: seq<int>) returns (f: seq<Byte>)
    requires mapBG.Length == MAX_MAPPINGS && |past| == MAX_MAPPINGS && AreWords(past)
    requires numTileMappings == 2 * |dict| <= MAX_MAPPINGS && Doubles(mapBG[..], dict)
    ensures f == PrintWords(TableWords(dict, past)) + Repeat(0 as Byte, 4 * |dict|)
  {
    hide PrintWords, PrintWord;
    ghost var words := TableWords(dict, past);
    f := PrintWord(numTileMappings) + PrintWord(0);
    TwoWords(words[0], words[1]);
    assert words[..2] == [words[0], words[1]];
    for i := 0 to 2 * numTileMappings
      invariant AreWords(words[..2 + i]) && f == PrintWords(words[..2 + i])
    {
      var w := if i < numTileMappings then mapBG[i] % 0x1_0000 else past[i - numTileMappings];
      DoubleAt(mapBG[..], dict, past, i);
      TakeNext(words, 2 + i);
      PrintWordsAppend(words[..2 + i], w);
      f := f + PrintWord(w);
    }
    assert words[..2 + 2 * numTileMappings] == words;
    f := f + Repeat(0 as Byte, 2 * numTileMappings);
  }

  lemma TwoWords(a: int, b: int)
    requires IsWord(a) && IsWord(b)
    ensures PrintWord(a) + PrintWord(b) == PrintWords([a, b])
  {
  }

  lemma DoubleAt(mapBG: seq<int>, dict: seq<int>, past: seq<int>, i: nat)
    requires Doubles(mapBG, dict) && i < 4 * |dict| && 2 * |dict| <= MAX_MAPPINGS == |past| && AreWords(past)
    ensures TableWords(dict, past)[2 + i] == if i < 2 * |dict| then mapBG[i] % 0x1_0000 else past[i - 2 * |dict|]
  {
    if i < 2 * |dict| {
      assert mapBG[2 * (i / 2)] == dict[i / 2] && mapBG[2 * (i / 2) + 1] == dict[i / 2];
    }
  }

  /** The level file and the table file; `past` is what memory holds past the mappings. */
  method Write(m: Map, past: seq<int>) returns (r: Result<(seq<Byte>, seq<Byte>)>)
    requires Lands(m.bg, MAP_WIDTH, MAP_HEIGHT, BG_LEN) && |past| == MAX_MAPPINGS && AreWords(past)
    ensures m.width != MAP_WIDTH || m.height != MAP_HEIGHT ==> r == Err(BadLayout)
    ensures m.width == MAP_WIDTH && m.height == MAP_HEIGHT ==>
      if Fault(m.bg, |m.bg|).Err? then r.Err? && r.error == Fault(m.bg, |m.bg|).error
      else
        var dict := Dict(m.bg, |m.bg|);
        && 2 * |dict| <= MAX_MAPPINGS && r.Ok? && IsBgOf(r.value.0, m.bg)
        && r.value.1 == PrintWords(TableWords(dict, past)) + Repeat(0 as Byte, 4 * |dict|)
  {
    if m.width != MAP_WIDTH || m.height != MAP_HEIGHT {
      return Err(BadLayout);
    }
    hide Index, Paint, Ints, Fits, Doubles, PrintWords, TableWords, Fault, Dict;
    var bg, mapBG, numTileMappings := LayOut(m.bg);
    if bg.Err? {
      return Err(bg.error);
    }
    var table := WriteTable(mapBG, numTileMappings, past, Dict(m.bg, |m.bg|));
    return Ok((bg.value, table));
  }

  /** The level file of a map. */
  ghost predicate IsBgOf(f: seq<Byte>, items: seq<Item>) {
    var dict := Dict(items, |items|);
    && |f| == BG_LEN && Fits(Indexed(items, dict), MAP_WIDTH, BG_LEN)
    && Ints(f) == Paint(Repeat(DEFAULT_BGTILE, BG_LEN), Indexed(items, dict), MAP_WIDTH)
  }

  // Reading

  /** The code for a byte: the mapping there, if the table has it. */
  function Lookup(table: seq<Byte>, b: int): int
    requires |table| >= 2
  {
    if 0 <= b < WordAt(table, 0) && 4 + 2 * b + 2 <= |table| then WordAt(table, 4 + 2 * b) else DEFAULT_BGTILE
  }

  function TableSize(table: seq<Byte>): nat
    requires |table| >= 2
  {
    var n := WordAt(table, 0);
    if n > MAX_MAPPINGS then MAX_MAPPINGS else n
  }

  /** The items for the first `n` cells; a level file that is too short is filled up. */
  function Items(f: seq<Byte>, table: seq<Byte>, n: nat): (r: seq<Item>)
    requires |table| >= 2
    ensures |r| == n
  {
    seq(n, c requires 0 <= c < n =>
      ItemAt(c, MAP_WIDTH, Lookup(table, if c < |f| then f[c] as int else DEFAULT_BGTILE)))
  }

  method Open(f: seq<Byte>, table: seq<Byte>) returns (r: Result<Map>)
    ensures r == if |table| < 4 || |table| < 4 + 2 * TableSize(table) then Err(Truncated)
                 else Ok(Map(MAP_WIDTH, MAP_HEIGHT, Items(f, table, BG_LEN)))
  {
    hide ItemAt;
    if |table| < 4 {
      return Err(Truncated);
    }
    var lenTilemap := WordAt(table, 0);
    if lenTilemap > MAX_MAPPINGS {
      lenTilemap := MAX_MAPPINGS;
    }
    var tilemap := new int[MAX_MAPPINGS](_ => DEFAULT_BGTILE);
    for i := 0 to lenTilemap
      invariant 4 + 2 * i <= |table|
      invariant forall k :: 0 <= k < i ==> tilemap[k] == WordAt(table, 4 + 2 * k)
      invariant forall k :: i <= k < MAX_MAPPINGS ==> tilemap[k] == DEFAULT_BGTILE
    {
      if |table| < 4 + 2 * i + 2 {
        return Err(Truncated);
      }
      tilemap[i] := WordAt(table, 4 + 2 * i);
    }
    var tiles := [];
    for c := 0 to BG_LEN
      invariant tiles == Items(f, table, c)
    {
      var b := if c < |f| then f[c] as int else DEFAULT_BGTILE;
      assert tilemap[b] == Lookup(table, b);
      tiles := tiles + [ItemAt(c, MAP_WIDTH, tilemap[b])];
    }
    return Ok(Map(MAP_WIDTH, MAP_HEIGHT, tiles));
  }

  // What comes back

  lemma {:induction false} LastIndexed(items: seq<Item>, dict: seq<int>, c: nat, first: int)
    requires Index(dict, first) == 0
    ensures LastOn(Indexed(items, dict), MAP_WIDTH, c, 0) == 2 * Index(dict, LastOn(items, MAP_WIDTH, c, first))
  {
    hide Index;
    if items != [] {
      LastIndexed(items[..|items| - 1], dict, c, first);
      assert Indexed(items, dict)[..|items| - 1] == Indexed(items[..|items| - 1], dict);
    }
  }

  lemma {:induction false} LastInDict(items: seq<Item>, dict: seq<int>, c: nat, first: int)
    requires Index(dict, first) < |dict| && forall k :: 0 <= k < |items| ==> Index(dict, items[k].code) < |dict|
    ensures Index(dict, LastOn(items, MAP_WIDTH, c, first)) < |dict|
  {
    hide Index;
    if items != [] {
      LastInDict(items[..|items| - 1], dict, c, first);
    }
  }

  lemma FirstCode(items: seq<Item>)
    requires items != []
    ensures Index(Dict(items, |items|), items[0].code) == 0 < |Dict(items, |items|)|
  {
    DictGrows(items, 1, |items|);
    assert Dict(items, 0) == [] && Dict(items, 1) == [items[0].code];
  }

  /** The reader finds the code of every entry of the dictionary at its first place. */
  lemma TableReadBack(dict: seq<int>, past: seq<int>, i: nat)
    requires 2 * |dict| <= MAX_MAPPINGS && |past| == MAX_MAPPINGS && AreWords(past)
    ensures var table := PrintWords(TableWords(dict, past)) + Repeat(0 as Byte, 4 * |dict|);
            && WordAt(table, 0) == 2 * |dict| && 4 + 2 * TableSize(table) <= |table|
            && (i < |dict| ==> Lookup(table, 2 * i) == dict[i] % 0x1_0000)
  {
    hide PrintWords;
    var words, tail := TableWords(dict, past), Repeat(0 as Byte, 4 * |dict|);
    assert [] + PrintWords(words) + tail == PrintWords(words) + tail;
    WordInFile([], words, tail, 0);
    if i < |dict| {
      WordInFile([], words, tail, 2 + 2 * i);
    }
  }

  /** The table file of a layer; `past` is what memory holds past the mappings. */
  function TableOf(items: seq<Item>, past: seq<int>): seq<Byte>
    requires 2 * |Dict(items, |items|)| <= MAX_MAPPINGS && |past| == MAX_MAPPINGS && AreWords(past)
  {
    var dict := Dict(items, |items|);
    PrintWords(TableWords(dict, past)) + Repeat(0 as Byte, 4 * |dict|)
  }

  /** The code that a cell comes back with: without an item of its own it takes the first item's. */
  function Expected(items: seq<Item>, c: nat): int {
    if items == [] then DEFAULT_BGTILE else LastOn(items, MAP_WIDTH, c, items[0].code) % 0x1_0000
  }

  /**
   * Every cell comes back with the code of the last item there, cut to 16 bits. A cell
   * without an item comes back with the code of the first item of all, if there is one.
   */
  lemma RoundTrip(f: seq<Byte>, items: seq<Item>, past: seq<int>, c: nat)
    requires IsBgOf(f, items) && c < BG_LEN && |past| == MAX_MAPPINGS && AreWords(past)
    requires 2 * |Dict(items, |items|)| <= MAX_MAPPINGS
    ensures var table := TableOf(items, past);
            |table| >= 4 + 2 * TableSize(table) && Items(f, table, BG_LEN)[c] == ItemAt(c, MAP_WIDTH, Expected(items, c))
  {
    hide Index, Dict, Paint, TableWords, PrintWords, LastOn, Lookup, Indexed, WordAt;
    var dict := Dict(items, |items|);
    PaintedCell(Repeat(DEFAULT_BGTILE, BG_LEN), Indexed(items, dict), MAP_WIDTH, c);
    assert Ints(f)[c] == f[c] as int;
    if items == [] {
      NothingMapped(past);
      EmptyTable(past);
      assert LastOn([], MAP_WIDTH, c, 0) == 0 by { NothingLast(c); }
    } else {
      var code := LastOn(items, MAP_WIDTH, c, items[0].code);
      FirstCode(items);
      forall k | 0 <= k < |items| ensures Index(dict, items[k].code) < |dict| {
        InDict(items, k, |items|);
      }
      LastIndexed(items, dict, c, items[0].code);
      LastInDict(items, dict, c, items[0].code);
      TableReadBack(dict, past, Index(dict, code));
    }
  }

  lemma NothingLast(c: nat)
    ensures LastOn([], MAP_WIDTH, c, 0) == 0
  {
  }

  lemma NothingMapped(past: seq<int>)
    requires |past| == MAX_MAPPINGS && AreWords(past)
    ensures Dict([], 0) == [] && Indexed([], []) == []
    ensures var table := PrintWords(TableWords([], past)) + Repeat(0 as Byte, 0);
            WordAt(table, 0) == 0 && 4 <= |table| && TableSize(table) == 0
  {
    TableReadBack([], past, 0);
  }

  lemma EmptyTable(past: seq<int>)
    requires |past| == MAX_MAPPINGS && AreWords(past)
    ensures var table := PrintWords(TableWords([], past)) + Repeat(0 as Byte, 0);
            forall b :: Lookup(table, b) == DEFAULT_BGTILE
  {
    hide TableWords, PrintWords;
    NothingMapped(past);
  }

  /** The items that the reader makes of a saved layer. */
  function Reopened(items: seq<Item>): (r: seq<Item>)
    ensures |r| == BG_LEN
  {
    seq(BG_LEN, c requires 0 <= c < BG_LEN => ItemAt(c, MAP_WIDTH, Expected(items, c)))
  }

  /** A layer comes back as it was if and only if it has one item for every cell, in reading order, with 16-bit codes. */
  lemma LayerExact(items: seq<Item>)
    ensures Reopened(items) == items <==>
            |items| == BG_LEN
            && forall c :: 0 <= c < BG_LEN ==> items[c] == ItemAt(c, MAP_WIDTH, items[c].code) && IsWord(items[c].code)
  {
    hide Expected, ItemAt, LastOn, IsWord;
    var r := Reopened(items);
    if r == items {
      forall c | 0 <= c < BG_LEN ensures items[c] == ItemAt(c, MAP_WIDTH, items[c].code) && IsWord(items[c].code) {
        assert items[c] == r[c];
        OneCell(items, c);
      }
    }
    if |items| == BG_LEN && forall c :: 0 <= c < BG_LEN ==> items[c] == ItemAt(c, MAP_WIDTH, items[c].code) && IsWord(items[c].code) {
      forall c | 0 <= c < BG_LEN ensures r[c] == items[c] {
        forall k | 0 <= k < BG_LEN ensures CellOf(items[k], MAP_WIDTH) == k {
          assert items[k] == ItemAt(k, MAP_WIDTH, items[k].code);
          CellOfItemAt(k, items[k].code);
        }
        LastIs(items, MAP_WIDTH, c, c, items[0].code);
        OneCell(items, c);
      }
    }
  }

  lemma CellOfItemAt(c: nat, code: int)
    ensures CellOf(ItemAt(c, MAP_WIDTH, code), MAP_WIDTH) == c
  {
    CellInverse(c, MAP_WIDTH);
  }

  lemma OneCell(items: seq<Item>, c: nat)
    ensures IsWord(Expected(items, c)) && ItemAt(c, MAP_WIDTH, Expected(items, c)).code == Expected(items, c)
    ensures items != [] && IsWord(LastOn(items, MAP_WIDTH, c, items[0].code)) ==>
            Expected(items, c) == LastOn(items, MAP_WIDTH, c, items[0].code)
  {
  }

  /** A cell without an item comes back empty if and only if there are no items, or the first one has the default code. */
  lemma EmptyCell(items: seq<Item>, c: nat)
    requires forall k :: 0 <= k < |items| ==> CellOf(items[k], MAP_WIDTH) != c
    ensures Expected(items, c) == DEFAULT_BGTILE <==> items == [] || items[0].code % 0x1_0000 == DEFAULT_BGTILE
  {
    if items != [] {
      NotOn(items, MAP_WIDTH, c, items[0].code);
    }
  }

  /** With one item on the map, every other cell comes back from the two files with that item's code. */
  lemma EmptyCellsFilled(f: seq<Byte>, it: Item, past: seq<int>, c: nat)
    requires IsBgOf(f, [it]) && c < BG_LEN && c != CellOf(it, MAP_WIDTH)
    requires |past| == MAX_MAPPINGS && AreWords(past)
    ensures 2 * |Dict([it], 1)| <= MAX_MAPPINGS
    ensures var table := TableOf([it], past);
            |table| >= 4 && Items(f, table, BG_LEN)[c] == ItemAt(c, MAP_WIDTH, it.code % 0x1_0000)
  {
    hide PrintWords, TableWords, Index, Items;
    RoundTrip(f, [it], past, c);
    NotOn([it], MAP_WIDTH, c, it.code);
  }

  /** Saving a map whose items all pass the bounds check, and opening the two files. */
  method SaveAndReopen(m: Map, past: seq<int>) returns (r: Result<Map>)
    requires m.width == MAP_WIDTH && m.height == MAP_HEIGHT && !Outside(m.bg) && Lands(m.bg, MAP_WIDTH, MAP_HEIGHT, BG_LEN)
    requires |past| == MAX_MAPPINGS && AreWords(past)
    ensures if |CodesOf(m.bg, |m.bg|)| > 128 then r == Err(TooMany)
            else r == Ok(Map(MAP_WIDTH, MAP_HEIGHT, Reopened(m.bg)))
    ensures r.Ok? ==>
            (r.value == m <==>
             |m.bg| == BG_LEN
             && forall c :: 0 <= c < BG_LEN ==> m.bg[c] == ItemAt(c, MAP_WIDTH, m.bg[c].code) && IsWord(m.bg[c].code))
    ensures r.Ok? ==> forall c :: 0 <= c < BG_LEN && (forall k :: 0 <= k < |m.bg| ==> CellOf(m.bg[k], MAP_WIDTH) != c) ==>
              (r.value.bg[c].code == DEFAULT_BGTILE <==> m.bg == [] || m.bg[0].code % 0x1_0000 == DEFAULT_BGTILE)
  {
    hide CodesOf, Dict, IsBgOf, TableWords, PrintWords, Expected, ItemAt, TableSize, WordAt;
    FaultIffTooMany(m.bg, |m.bg|);
    var saved := Write(m, past);
    if saved.Err? {
      return Err(saved.error);
    }
    var (f, table) := saved.value;
    RoundTrip(f, m.bg, past, 0);
    r := Open(f, table);
    forall c | 0 <= c < BG_LEN ensures r.value.bg[c] == Reopened(m.bg)[c] {
      RoundTrip(f, m.bg, past, c);
    }
    assert r.value.bg == Reopened(m.bg);
    LayerExact(m.bg);
    forall c | 0 <= c < BG_LEN && forall k :: 0 <= k < |m.bg| ==> CellOf(m.bg[k], MAP_WIDTH) != c
      ensures Reopened(m.bg)[c].code == DEFAULT_BGTILE <==> m.bg == [] || m.bg[0].code % 0x1_0000 == DEFAULT_BGTILE
    {
      OneCell(m.bg, c);
      EmptyCell(m.bg, c);
    }
  }

  // Other tables and files

  /** Each byte stands for the mapping in its place in the table, if the table has so many; else for the default code. */
  lemma TableLookup(words: seq<int>, unknown: int, more: seq<Byte>, b: nat)
    requires AreWords(words) && |words| <= MAX_MAPPINGS && IsWord(unknown)
    ensures AreWords([|words|, unknown] + words)
    ensures Lookup(PrintWords([|words|, unknown] + words) + more, b) == if b < |words| then words[b] else DEFAULT_BGTILE
  {
    hide WordAt, PrintWords;
    var all := [|words|, unknown] + words;
    var table := PrintWords(all) + more;
    assert [] + PrintWords(all) + more == table;
    WordInFile([], all, more, 0);
    if b < |words| {
      WordInFile([], all, more, 2 + b);
    }
  }

  /** A level file cut short reads like one filled up with zero bytes; bytes past its end do not count. */
  lemma CutLevel(f: seq<Byte>, table: seq<Byte>, n: nat)
    requires |table| >= 2 && |f| == BG_LEN && n <= BG_LEN
    ensures Items(f[..n], table, BG_LEN) == Items(f[..n] + Repeat(0 as Byte, BG_LEN - n), table, BG_LEN)
    ensures forall more :: Items(f + more, table, BG_LEN) == Items(f, table, BG_LEN)
  {
    hide Lookup;
    forall more ensures Items(f + more, table, BG_LEN) == Items(f, table, BG_LEN) {
    }
  }

  /** Of the two errors, that for a tile outside counts if it comes before the 129th code, the other one if not. */
  lemma {:induction false} FaultFirst(items: seq<Item>, k: nat, n: nat)
    requires k < n <= |items| && (items[k].x > 256 || items[k].y > 256)
    requires forall j :: 0 <= j < k ==> items[j].x <= 256 && items[j].y <= 256
    ensures Fault(items, n) == if |CodesOf(items, k)| > 128 then Err(TooMany) else Err(OutsideMap)
  {
    if n == k + 1 {
      SameFault(items, k);
      assert !Outside(items[..k]);
      FaultIffTooMany(items[..k], k);
      assert CodesOf(items[..k], k) == CodesOf(items, k);
    } else {
      FaultFirst(items, k, n - 1);
    }
  }

  lemma {:induction false} SameDict(items: seq<Item>, m: nat, n: nat)
    requires n <= m <= |items|
    ensures Dict(items[..m], n) == Dict(items, n)
  {
    if n > 0 {
      SameDict(items, m, n - 1);
    }
  }

  lemma SameFault(items: seq<Item>, m: nat)
    requires m <= |items|
    ensures Fault(items[..m], m) == Fault(items, m)
  {
    SameFaultUpTo(items, m, m);
  }

  lemma {:induction false} SameFaultUpTo(items: seq<Item>, m: nat, n: nat)
    requires n <= m <= |items|
    ensures Fault(items[..m], n) == Fault(items, n)
  {
    hide Dict;
    if n > 0 {
      SameFaultUpTo(items, m, n - 1);
      SameDict(items, m, n);
    }
  }

  /** A table that claims more than 256 mappings is read as one of 256. */
  lemma TableSizeExactly(table: seq<Byte>)
    requires |table| >= 2
    ensures TableSize(table) <= 256 && TableSize(table) <= WordAt(table, 0)
    ensures TableSize(table) == 256 || TableSize(table) == WordAt(table, 0)
  {
  }
}
