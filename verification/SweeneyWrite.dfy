/** Writing Xargon and Jill of the Jungle levels, and what is read of them again. */
module SweeneyWrite {
  import opened Bytes
  import opened Grid
  import opened Sweeney

  const MAP_WIDTH := 128
  const MAP_HEIGHT := 64
  const CELLS := 8192
  const RECORD_WORDS := 15
  const MAX_TEXT := 255

  datatype Map = Map(bg: seq<Item>, objects: seq<Object>)

  // The background: column by column

  /** The items as the file orders them, with codes cut to sixteen bits. */
  function Turned(items: seq<Item>): (r: seq<Item>)
    ensures |r| == |items|
  {
    seq(|items|, k requires 0 <= k < |items| => Item(items[k].y, items[k].x, items[k].code % 0x1_0000))
  }

  lemma TurnedFits(items: seq<Item>)
    requires Inside(items, MAP_WIDTH, MAP_HEIGHT)
    ensures Inside(Turned(items), MAP_HEIGHT, MAP_WIDTH) && Fits(Turned(items), MAP_HEIGHT, CELLS)
  {
    InsideFits(Turned(items), MAP_HEIGHT, MAP_WIDTH, CELLS);
  }

  function BgWords(items: seq<Item>): (ws: seq<int>)
    requires Inside(items, MAP_WIDTH, MAP_HEIGHT)
    ensures |ws| == CELLS && AreWords(ws)
  {
    TurnedFits(items);
    PaintedRange(Repeat(0, CELLS), Turned(items), MAP_HEIGHT, 0, 0x1_0000);
    Paint(Repeat(0, CELLS), Turned(items), MAP_HEIGHT)
  }

  /** A cell with nothing in the low ten bits is an empty spot. */
  predicate Empty(word: int) {
    word % 0x400 == 0
  }

  /** The background tiles in the first `n` cells of a file. */
  function BgIn(f: seq<Byte>, n: nat): seq<Item>
    requires 2 * n <= |f|
  {
    if n == 0 then []
    else
      var c, word := n - 1, WordAt(f, 2 * (n - 1));
      if Empty(word) then BgIn(f, c) else BgIn(f, c) + [Item(c / MAP_HEIGHT, c % MAP_HEIGHT, word)]
  }

  // Objects

  /** The words of an object's record after its first byte. */
  function RecordWords(o: Object): (ws: seq<int>)
    ensures |ws| == RECORD_WORDS && AreWords(ws)
  {
    var dx, dy := if o.speed.Some? then o.speed.value.dx % 0x1_0000 else 0, if o.speed.Some? then o.speed.value.dy % 0x1_0000 else 0;
    [o.x % 0x1_0000, o.y % 0x1_0000, dx, dy, 16, 16, o.code / 0x100 % 0x1_0000, 0, 0, 0, 0,
     if o.text.Some? then 1 else 0, 0, 0, 0]
  }

  function Record(o: Object): (s: seq<Byte>)
    ensures |s| == OBJ_ENTRY_LEN
  {
    [(o.code % 0x100) as Byte] + PrintWords(RecordWords(o))
  }

  function Records(objects: seq<Object>, n: nat): (s: seq<Byte>)
    requires n <= |objects|
    ensures |s| == n * OBJ_ENTRY_LEN
  {
    if n == 0 then [] else Records(objects, n - 1) + Record(objects[n - 1])
  }

  /** The texts of the first `n` objects, in order. */
  function TextsOf(objects: seq<Object>, n: nat): (ts: seq<seq<Byte>>)
    requires n <= |objects|
    ensures |ts| <= n
  {
    if n == 0 then []
    else if objects[n - 1].text.Some? then TextsOf(objects, n - 1) + [objects[n - 1].text.value]
    else TextsOf(objects, n - 1)
  }

  predicate TextsFit(ts: seq<seq<Byte>>) {
    forall k :: 0 <= k < |ts| ==> |ts[k]| <= MAX_TEXT
  }

  /** The texts as they are written: a byte for the length, and no terminator. */
  function TextBytes(ts: seq<seq<Byte>>): (s: seq<Byte>)
    requires TextsFit(ts)
  {
    if ts == [] then []
    else
      var last := ts[|ts| - 1];
      TextBytes(ts[..|ts| - 1]) + ([|last| as Byte] + last)
  }

  // The file

  function Head(m: Map): (s: seq<Byte>)
    requires Inside(m.bg, MAP_WIDTH, MAP_HEIGHT)
    ensures |s| == OFFSET_OBJLAYER + 2
  {
    PrintWords(BgWords(m.bg)) + PrintWord(|m.objects| % 0x1_0000)
  }

  function FileOf(m: Map, lenSavedata: nat): seq<Byte>
    requires Inside(m.bg, MAP_WIDTH, MAP_HEIGHT) && TextsFit(TextsOf(m.objects, |m.objects|))
  {
    Head(m) + Records(m.objects, |m.objects|) + Repeat(0 as Byte, lenSavedata) + TextBytes(TextsOf(m.objects, |m.objects|))
  }

  method WriteBackground(items: seq<Item>) returns (f: seq<Byte>)
    requires Inside(items, MAP_WIDTH, MAP_HEIGHT)
    ensures f == PrintWords(BgWords(items))
  {
    hide Paint, PrintWords, PrintWord;
    var bg := new int[CELLS](_ => 0);
    ghost var all := Turned(items);
    TurnedFits(items);
    assert bg[..] == Repeat(0, CELLS) && all[..0] == [];
    NothingPainted(Repeat(0, CELLS), MAP_HEIGHT);
    for k := 0 to |items|
      invariant Fits(all[..k], MAP_HEIGHT, CELLS) && bg[..] == Paint(Repeat(0, CELLS), all[..k], MAP_HEIGHT)
    {
      PaintOne(Repeat(0, CELLS), all, k, MAP_HEIGHT);
      bg[items[k].x * MAP_HEIGHT + items[k].y] := items[k].code % 0x1_0000;
    }
    assert all[..|items|] == all;
    ghost var ws := BgWords(items);
    assert bg[..] == ws;
    f := [];
    NoWords();
    for i := 0 to CELLS
      invariant bg[..] == ws && f == PrintWords(ws[..i])
    {
      TakeNext(ws, i);
      PrintWordsAppend(ws[..i], ws[i]);
      assert bg[..][i] == ws[i];
      f := f + PrintWord(bg[i]);
    }
    assert ws[..CELLS] == ws;
  }

  lemma NoWords()
    ensures PrintWords([]) == []
  {
  }

  method WriteObjects(objects: seq<Object>) returns (f: seq<Byte>)
    ensures f == Records(objects, |objects|)
  {
    hide PrintWords;
    f := [];
    for k := 0 to |objects|
      invariant f == Records(objects, k)
    {
      var obj := objects[k];
      var code := (obj.code % 0x100) as Byte;
      var spdHoriz, spdVert := 0, 0;
      if obj.speed.Some? {
        spdHoriz, spdVert := obj.speed.value.dx % 0x1_0000, obj.speed.value.dy % 0x1_0000;
      }
      var subType := obj.code / 0x100 % 0x1_0000;
      var pointer := if obj.text.Some? then 1 else 0;
      var words := [obj.x % 0x1_0000, obj.y % 0x1_0000, spdHoriz, spdVert, 16, 16, subType, 0, 0, 0, 0, pointer, 0, 0, 0];
      f := f + ([code] + PrintWords(words));
    }
  }

  method WriteTexts(objects: seq<Object>) returns (r: Result<seq<Byte>>)
    ensures r == if TextsFit(TextsOf(objects, |objects|)) then Ok(TextBytes(TextsOf(objects, |objects|))) else Err(OutOfRange)
  {
    var f: seq<Byte> := [];
    for k := 0 to |objects|
      invariant TextsFit(TextsOf(objects, k)) && f == TextBytes(TextsOf(objects, k))
    {
      if objects[k].text.Some? {
        var text := objects[k].text.value;
        ghost var before := TextsOf(objects, k);
        assert TextsOf(objects, k + 1) == before + [text] && (before + [text])[..|before|] == before;
        if |text| > MAX_TEXT {
          TooLong(objects, k, |objects|);
          return Err(OutOfRange);
        }
        f := f + ([|text| as Byte] + text);
      }
    }
    return Ok(f);
  }

  /** One text that is too long makes all of them unfit. */
  lemma {:induction false} TooLong(objects: seq<Object>, k: nat, n: nat)
    requires k < n <= |objects| && objects[k].text.Some? && |objects[k].text.value| > MAX_TEXT
    ensures !TextsFit(TextsOf(objects, n))
  {
    if k < n - 1 {
      TooLong(objects, k, n - 1);
      var before := TextsOf(objects, n - 1);
      assert forall i :: 0 <= i < |before| ==> TextsOf(objects, n)[i] == before[i];
    } else {
      assert TextsOf(objects, n)[|TextsOf(objects, k)|] == objects[k].text.value;
    }
  }

  /** The error is for any text of more than 255 characters. */
  lemma TooLongExactly(objects: seq<Object>)
    ensures TextsFit(TextsOf(objects, |objects|)) <==>
            forall o :: o in objects && o.text.Some? ==> |o.text.value| <= 255
  {
    if o: Object :| o in objects && o.text.Some? && |o.text.value| > 255 {
      var k :| 0 <= k < |objects| && objects[k] == o;
      TooLong(objects, k, |objects|);
    } else {
      ShortTexts(objects, |objects|);
    }
  }

  lemma {:induction false} ShortTexts(objects: seq<Object>, n: nat)
    requires n <= |objects| && forall o :: o in objects && o.text.Some? ==> |o.text.value| <= 255
    ensures TextsFit(TextsOf(objects, n))
  {
    if n > 0 {
      ShortTexts(objects, n - 1);
      assert objects[n - 1] in objects;
    }
  }

  method Write(m: Map, lenSavedata: nat) returns (r: Result<seq<Byte>>)
    requires Inside(m.bg, MAP_WIDTH, MAP_HEIGHT)
    ensures r == if TextsFit(TextsOf(m.objects, |m.objects|)) then Ok(FileOf(m, lenSavedata)) else Err(OutOfRange)
  {
    hide PrintWords, PrintWord, BgWords, TextsOf, TextBytes, TextsFit, Records;
    var bg := WriteBackground(m.bg);
    var objects := WriteObjects(m.objects);
    var f := bg + PrintWord(|m.objects| % 0x1_0000) + objects + Repeat(0 as Byte, lenSavedata);
    var texts := WriteTexts(m.objects);
    if texts.Err? {
      return Err(texts.error);
    }
    return Ok(f + texts.value);
  }

  method ReadBackground(f: seq<Byte>) returns (tiles: seq<Item>)
    requires OFFSET_OBJLAYER <= |f|
    ensures tiles == BgIn(f, CELLS)
  {
    hide WordAt;
    tiles := [];
    for x := 0 to MAP_WIDTH
      invariant tiles == BgIn(f, x * MAP_HEIGHT)
    {
      for y := 0 to MAP_HEIGHT
        invariant tiles == BgIn(f, x * MAP_HEIGHT + y)
      {
        var c := x * MAP_HEIGHT + y;
        var code := WordAt(f, 2 * c);
        assert (c + 1) - 1 == c && c / MAP_HEIGHT == x && c % MAP_HEIGHT == y;
        if code % 0x400 != 0 {
          tiles := tiles + [Item(x, y, code)];
        }
      }
    }
  }

  method OpenLevel(f: seq<Byte>, lenSavedata: nat) returns (r: Result<Map>)
    ensures r == LevelIn(f, lenSavedata)
  {
    hide Meaning, BgIn;
    if |f| < OFFSET_OBJLAYER + 2 {
      return Err(Truncated);
    }
    var tiles := ReadBackground(f);
    var objects := Open(f, lenSavedata);
    if objects.Err? {
      return Err(objects.error);
    }
    return Ok(Map(tiles, objects.value));
  }

  /** The level in a file: its background and its objects. */
  function LevelIn(f: seq<Byte>, lenSavedata: nat): Result<Map> {
    if |f| < OFFSET_OBJLAYER + 2 then Err(Truncated)
    else
      var objects :- Meaning(f, lenSavedata);
      Ok(Map(BgIn(f, CELLS), objects))
  }

  /** A level opens exactly if its objects do; a file without a count of objects does not. */
  lemma OpensExactly(f: seq<Byte>, lenSavedata: nat)
    ensures LevelIn(f, lenSavedata).Ok? <==> Meaning(f, lenSavedata).Ok?
    ensures |f| < 16386 ==> LevelIn(f, lenSavedata) == Err(Truncated)
    ensures LevelIn(f, lenSavedata).Ok? ==> LevelIn(f, lenSavedata).value.objects == Meaning(f, lenSavedata).value
  {
    hide Strings, WordAt;
  }

  // What comes back: objects

  /** The record of object `k` stands where the reader looks for it. */
  predicate RecordsAt(f: seq<Byte>, objects: seq<Object>) {
    && ObjectAt(|objects|) <= |f|
    && forall k :: 0 <= k < |objects| ==> f[ObjectAt(k)..ObjectAt(k) + OBJ_ENTRY_LEN] == Record(objects[k])
  }

  /** The fields that the reader finds in a record. */
  lemma RecordFields(f: seq<Byte>, at: nat, o: Object)
    requires at + OBJ_ENTRY_LEN <= |f| && f[at..at + OBJ_ENTRY_LEN] == Record(o)
    ensures f[at] as int == o.code % 0x100
    ensures forall j :: 0 <= j < RECORD_WORDS ==> WordAt(f, at + 1 + 2 * j) == RecordWords(o)[j]
  {
    hide PrintWords, RecordWords;
    var s, ws := f[at..at + OBJ_ENTRY_LEN], PrintWords(RecordWords(o));
    assert s[0] == f[at];
    forall j | 0 <= j < RECORD_WORDS ensures WordAt(f, at + 1 + 2 * j) == RecordWords(o)[j] {
      WordsReadBack(RecordWords(o), j);
      assert s[1 + 2 * j] == ws[2 * j] && s[2 + 2 * j] == ws[2 * j + 1];
    }
  }

  /** An object as it is read from its record, with the string `text` if it wants one. */
  function Reread(o: Object, text: seq<Byte>): Object {
    Object(o.x % 0x1_0000, o.y % 0x1_0000, o.code % 0x100_0000, if o.text.Some? then Some(text) else None,
           if o.speed.Some? then SpeedOf(o.speed.value.dx % 0x1_0000, o.speed.value.dy % 0x1_0000) else None)
  }

  lemma {:induction false} OwnersAreTexts(f: seq<Byte>, objects: seq<Object>, n: nat)
    requires RecordsAt(f, objects) && n <= |objects|
    ensures ObjectAt(n) <= |f| && Owners(f, n) == |TextsOf(objects, n)|
    ensures forall k :: 0 <= k < n ==> (HasText(f, k) <==> objects[k].text.Some?)
  {
    hide WordAt;
    if n > 0 {
      OwnersAreTexts(f, objects, n - 1);
      PointerKept(f, objects, n - 1);
    }
  }

  lemma PointerKept(f: seq<Byte>, objects: seq<Object>, k: nat)
    requires RecordsAt(f, objects) && k < |objects|
    ensures ObjectAt(k + 1) <= |f| && (HasText(f, k) <==> objects[k].text.Some?)
  {
    hide WordAt, Record;
    var at, o := ObjectAt(k), objects[k];
    RecordFields(f, at, o);
    assert WordAt(f, at + 1 + 2 * 11) == RecordWords(o)[11] && WordAt(f, at + 1 + 2 * 12) == RecordWords(o)[12];
  }

  lemma CodeParts(code: int)
    ensures code % 0x100 + 0x100 * (code / 0x100 % 0x1_0000) == code % 0x100_0000
  {
  }

  /**
   * From any file that holds the records of these objects each of them is read in its place, with
   * its code and its speed; the objects with a text get the file's strings one after the other.
   */
  lemma RecordsReadBack(f: seq<Byte>, objects: seq<Object>, strings: seq<seq<Byte>>, k: nat)
    requires RecordsAt(f, objects) && k < |objects|
    ensures var j := |TextsOf(objects, k)|;
            Objects(f, strings, |objects|)[k] == Reread(objects[k], if j < |strings| then strings[j] else [])
  {
    hide WordAt, Record, TextsOf, SpeedOf, Owners;
    var at, o := ObjectAt(k), objects[k];
    OwnersAreTexts(f, objects, k);
    PointerKept(f, objects, k);
    RecordFields(f, at, o);
    CodeParts(o.code);
    var ws := RecordWords(o);
    assert WordAt(f, at + 1 + 2 * 0) == ws[0] && WordAt(f, at + 1 + 2 * 1) == ws[1] && WordAt(f, at + 1 + 2 * 2) == ws[2];
    assert WordAt(f, at + 1 + 2 * 3) == ws[3] && WordAt(f, at + 1 + 2 * 6) == ws[6];
    assert SpeedOf(0, 0) == None by { NoSpeed(); }
  }

  lemma NoSpeed()
    ensures SpeedOf(0, 0) == None
  {
  }

  // Where the parts of the file are

  lemma {:induction false} RecordInRecords(objects: seq<Object>, k: nat, n: nat)
    requires k < n <= |objects|
    ensures Records(objects, n)[k * OBJ_ENTRY_LEN..(k + 1) * OBJ_ENTRY_LEN] == Record(objects[k])
    decreases n
  {
    hide Record;
    if k < n - 1 {
      RecordInRecords(objects, k, n - 1);
      SliceKept(Records(objects, n - 1), Record(objects[n - 1]), k * OBJ_ENTRY_LEN, (k + 1) * OBJ_ENTRY_LEN);
    } else {
      SliceAdded(Records(objects, n - 1), Record(objects[n - 1]));
    }
  }

  /** The parts of the file of a map with as many objects as the count can say. */
  lemma PartsOfFile(m: Map, lenSavedata: nat)
    requires Inside(m.bg, MAP_WIDTH, MAP_HEIGHT) && TextsFit(TextsOf(m.objects, |m.objects|)) && |m.objects| < 0x1_0000
    ensures var f := FileOf(m, lenSavedata);
            && |f| >= OFFSET_OBJLAYER + 2 && WordAt(f, OFFSET_OBJLAYER) == |m.objects|
            && (forall c :: 0 <= c < CELLS ==> WordAt(f, 2 * c) == BgWords(m.bg)[c])
            && RecordsAt(f, m.objects)
            && StringsAt(f, lenSavedata) <= |f| && f[StringsAt(f, lenSavedata)..] == TextBytes(TextsOf(m.objects, |m.objects|))
  {
    hide BgWords, Records, TextBytes, TextsOf, Record, PrintWords, WordAt, TextsFit;
    var f, head, n := FileOf(m, lenSavedata), Head(m), |m.objects|;
    var records, zeros, texts := Records(m.objects, n), Repeat(0 as Byte, lenSavedata), TextBytes(TextsOf(m.objects, n));
    var rest := PrintWord(n % 0x1_0000) + records + zeros + texts;
    FourParts(PrintWords(BgWords(m.bg)), PrintWord(n % 0x1_0000), records, zeros, texts);
    forall c | 0 <= c < CELLS ensures WordAt(f, 2 * c) == BgWords(m.bg)[c] {
      WordInFile([], BgWords(m.bg), rest, c);
      assert [] + PrintWords(BgWords(m.bg)) + rest == f;
    }
    CountInFile(PrintWords(BgWords(m.bg)), n % 0x1_0000, records + zeros + texts);
    forall k | 0 <= k < n ensures f[ObjectAt(k)..ObjectAt(k) + OBJ_ENTRY_LEN] == Record(m.objects[k]) {
      RecordInRecords(m.objects, k, n);
      RecordPlace(k);
      SliceInside(head, records, zeros + texts, k * OBJ_ENTRY_LEN, (k + 1) * OBJ_ENTRY_LEN);
    }
    RecordPlace(n);
  }

  lemma FourParts(a: seq<Byte>, b: seq<Byte>, c: seq<Byte>, d: seq<Byte>, e: seq<Byte>)
    ensures a + b + c + d + e == a + (b + c + d + e)
    ensures a + b + c + d + e == a + b + (c + d + e)
    ensures a + b + c + d + e == (a + b) + c + (d + e)
    ensures (a + b + c + d + e)[|a + b + c + d|..] == e
  {
  }

  lemma CountInFile(a: seq<Byte>, n: int, c: seq<Byte>)
    requires IsWord(n)
    ensures WordAt(a + PrintWord(n) + c, |a|) == n
  {
  }

  lemma RecordPlace(k: nat)
    ensures ObjectAt(k) == OFFSET_OBJLAYER + 2 + k * OBJ_ENTRY_LEN && ObjectAt(k) + OBJ_ENTRY_LEN == ObjectAt(k + 1)
  {
  }

  // What comes back: texts

  lemma {:induction false} FirstByte(ts: seq<seq<Byte>>)
    requires TextsFit(ts) && ts != []
    ensures TextBytes(ts) != [] && TextBytes(ts)[0] as int == |ts[0]|
    ensures |TextBytes(ts)| == 1 <==> ts == [[]]
  {
    if |ts| > 1 {
      FirstByte(ts[..|ts| - 1]);
    } else {
      assert ts == [ts[0]];
    }
  }

  /** Whatever is read of written texts, the first string is not the first text: their lengths differ. */
  lemma FirstStringDiffers(f: seq<Byte>, at: nat, ts: seq<seq<Byte>>)
    requires TextsFit(ts) && ts != [] && at <= |f| && f[at..] == TextBytes(ts) && Strings(f, at).Ok?
    ensures Strings(f, at).value == [] <==> ts == [[]]
    ensures ts != [[]] ==> Strings(f, at).value != [] && Strings(f, at).value[0] != ts[0]
  {
    hide TextBytes;
    FirstByte(ts);
    assert f[at..][0] == f[at];
    if ts != [[]] {
      var len := (WordAt(f, at) + 1) % 0x1_0000;
      assert len != |ts[0]| by { NotTheLength(f[at] as int, f[at + 1] as int); }
    }
  }

  lemma NotTheLength(a: int, b: int)
    requires 0 <= a < 0x100 && 0 <= b < 0x100
    ensures (a + 0x100 * b + 1) % 0x1_0000 != a
  {
  }

  /** The first object with a text. */
  lemma {:induction false} FirstOwner(objects: seq<Object>, n: nat) returns (k: nat)
    requires n <= |objects| && TextsOf(objects, n) != []
    ensures k < n && objects[k].text == Some(TextsOf(objects, n)[0]) && TextsOf(objects, k) == []
  {
    if TextsOf(objects, n - 1) != [] {
      k := FirstOwner(objects, n - 1);
    } else {
      k := n - 1;
    }
  }

  // What comes back: the level

  /** The object has a representation in a record: its fields fit, and it moves if it is said to. */
  predicate ObjectFits(o: Object) {
    && IsWord(o.x) && IsWord(o.y) && 0 <= o.code < 0x100_0000
    && (o.speed.Some? ==> var s := o.speed.value; IsWord(s.dx) && IsWord(s.dy) && !(s.dx == 0 && s.dy == 0))
  }

  lemma RereadExact(o: Object, text: seq<Byte>)
    ensures Reread(o, text) == o <==> ObjectFits(o) && (o.text.Some? ==> o.text.value == text)
  {
  }

  /** No object has a text, or a single one has an empty one. */
  predicate NoTextLost(objects: seq<Object>) {
    TextsOf(objects, |objects|) == [] || TextsOf(objects, |objects|) == [[]]
  }

  /**
   * The objects of a written level come back if and only if their fields fit the records and no
   * text is there but a single empty one: texts are written with one byte for the length and
   * without the terminator that the reader takes them to have.
   */
  lemma ObjectsExact(m: Map, lenSavedata: nat)
    requires Inside(m.bg, MAP_WIDTH, MAP_HEIGHT) && TextsFit(TextsOf(m.objects, |m.objects|)) && |m.objects| < 0x1_0000
    ensures Meaning(FileOf(m, lenSavedata), lenSavedata) == Ok(m.objects) <==>
            NoTextLost(m.objects) && forall k :: 0 <= k < |m.objects| ==> ObjectFits(m.objects[k])
  {
    hide Strings, Objects, Record, TextBytes, TextsOf, FileOf, RecordsAt, ObjectFits, Reread, WordAt, TextsFit;
    var f, n := FileOf(m, lenSavedata), |m.objects|;
    PartsOfFile(m, lenSavedata);
    var at, ts := StringsAt(f, lenSavedata), TextsOf(m.objects, n);
    if ts == [] {
      assert TextBytes(ts) == [] by { NoTexts(); }
      assert |f[at..]| == |f| - at;
      NoStringsLeft(f, at);
      ObjectsAgree(f, m.objects, []);
    } else if Strings(f, at).Ok? {
      var strings := Strings(f, at).value;
      FirstStringDiffers(f, at, ts);
      var first := FirstOwner(m.objects, n);
      RecordsReadBack(f, m.objects, strings, first);
      RereadExact(m.objects[first], if 0 < |strings| then strings[0] else []);
      ObjectsAgree(f, m.objects, strings);
    } else {
      SingleEmpty(f, at, ts);
    }
  }

  lemma NoTexts()
    ensures TextBytes([]) == []
  {
  }

  lemma NoStringsLeft(f: seq<Byte>, at: nat)
    requires at <= |f| < at + 2
    ensures Strings(f, at) == Ok([])
  {
  }

  lemma SingleEmpty(f: seq<Byte>, at: nat, ts: seq<seq<Byte>>)
    requires TextsFit(ts) && ts != [] && at <= |f| && f[at..] == TextBytes(ts) && Strings(f, at).Err?
    ensures ts != [[]]
  {
    FirstByte(ts);
  }

  /** All objects come back if they fit and their texts, if they are empty or none, come back. */
  lemma ObjectsAgree(f: seq<Byte>, objects: seq<Object>, strings: seq<seq<Byte>>)
    requires RecordsAt(f, objects)
    ensures ObjectAt(|objects|) <= |f|
    ensures Objects(f, strings, |objects|) == objects ==> forall k :: 0 <= k < |objects| ==> ObjectFits(objects[k])
    ensures NoTextLost(objects) && strings == [] && (forall k :: 0 <= k < |objects| ==> ObjectFits(objects[k])) ==>
              Objects(f, strings, |objects|) == objects
  {
    hide Objects, Record, TextsOf, ObjectFits, Reread, WordAt;
    var n := |objects|;
    var r := Objects(f, strings, n);
    forall k | 0 <= k < n
      ensures r[k] == objects[k] ==> ObjectFits(objects[k])
      ensures NoTextLost(objects) && strings == [] && ObjectFits(objects[k]) ==> r[k] == objects[k]
    {
      RecordsReadBack(f, objects, strings, k);
      var j := |TextsOf(objects, k)|;
      RereadExact(objects[k], if j < |strings| then strings[j] else []);
      if NoTextLost(objects) && objects[k].text.Some? {
        TextIn(objects, k, n);
      }
    }
  }

  lemma {:induction false} TextIn(objects: seq<Object>, k: nat, n: nat)
    requires k < n <= |objects| && objects[k].text.Some?
    ensures objects[k].text.value in TextsOf(objects, n)
  {
    if k < n - 1 {
      TextIn(objects, k, n - 1);
    }
  }

  // What comes back: the background

  /** The words without those that are empty spots. */
  function Visible(ws: seq<int>): (r: seq<int>)
    ensures |r| == |ws|
  {
    seq(|ws|, c requires 0 <= c < |ws| => if Empty(ws[c]) then 0 else ws[c])
  }

  lemma {:induction false} BgIsScan(f: seq<Byte>, ws: seq<int>, n: nat)
    requires |ws| == CELLS && AreWords(ws) && n <= CELLS && 2 * CELLS <= |f|
    requires forall c :: 0 <= c < CELLS ==> WordAt(f, 2 * c) == ws[c]
    ensures BgIn(f, n) == Turned(Scan(Visible(ws), MAP_HEIGHT, 0, n))
  {
    hide WordAt;
    if n > 0 {
      BgIsScan(f, ws, n - 1);
      assert WordAt(f, 2 * (n - 1)) == ws[n - 1];
    }
  }

  /** In order, column by column, each with a 16-bit code that is not an empty spot. */
  predicate BgFits(items: seq<Item>) {
    && (forall k :: 0 <= k < |items| ==> 0 <= items[k].code < 0x1_0000 && items[k].code % 0x400 != 0)
    && (forall j, k :: 0 <= j < k < |items| ==>
          items[j].x < items[k].x || (items[j].x == items[k].x && items[j].y < items[k].y))
  }

  lemma InOrder(items: seq<Item>)
    requires Inside(items, MAP_WIDTH, MAP_HEIGHT)
    ensures BgFits(items) <==> Turned(Turned(items)) == items && Canonical(Turned(items), MAP_HEIGHT, 0)
                               && forall k :: 0 <= k < |items| ==> !Empty(Turned(items)[k].code)
  {
    var t := Turned(items);
    forall j, k | 0 <= j < k < |items|
      ensures CellOf(t[j], MAP_HEIGHT) < CellOf(t[k], MAP_HEIGHT) <==>
              items[j].x < items[k].x || (items[j].x == items[k].x && items[j].y < items[k].y)
    {
    }
    forall k | 0 <= k < |items| ensures Turned(t)[k] == items[k] <==> IsWord(items[k].code) {
    }
  }

  /** Cells painted with visible codes, or with nothing, are all visible or empty. */
  lemma AllVisible(items: seq<Item>)
    requires Inside(items, MAP_WIDTH, MAP_HEIGHT) && forall k :: 0 <= k < |items| ==> !Empty(Turned(items)[k].code)
    ensures Visible(BgWords(items)) == BgWords(items)
  {
    hide Paint;
    TurnedFits(items);
    forall c | 0 <= c < CELLS && Empty(BgWords(items)[c]) ensures BgWords(items)[c] == 0 {
      PaintedCell(Repeat(0, CELLS), Turned(items), MAP_HEIGHT, c);
      LastVisible(Turned(items), c);
    }
  }

  lemma {:induction false} LastVisible(items: seq<Item>, c: nat)
    requires forall k :: 0 <= k < |items| ==> !Empty(items[k].code)
    ensures LastOn(items, MAP_HEIGHT, c, 0) == 0 || !Empty(LastOn(items, MAP_HEIGHT, c, 0))
  {
    if items != [] {
      LastVisible(items[..|items| - 1], c);
    }
  }

  predicate VisibleTurned(it: Item) {
    !Empty(it.code) && IsWord(it.code) && it.x < MAP_HEIGHT && it.y < MAP_WIDTH
  }

  lemma {:induction false} ScanVisible(ws: seq<int>, n: nat)
    requires |ws| == CELLS && AreWords(ws) && n <= CELLS
    ensures forall k :: 0 <= k < |Scan(Visible(ws), MAP_HEIGHT, 0, n)| ==> VisibleTurned(Scan(Visible(ws), MAP_HEIGHT, 0, n)[k])
  {
    hide VisibleTurned;
    if n > 0 {
      ScanVisible(ws, n - 1);
      if Visible(ws)[n - 1] != 0 {
        assert VisibleTurned(ItemAt(n - 1, MAP_HEIGHT, ws[n - 1])) by { CellVisible(ws, n - 1); }
      }
    }
  }

  lemma CellVisible(ws: seq<int>, c: nat)
    requires |ws| == CELLS && AreWords(ws) && c < CELLS && Visible(ws)[c] != 0
    ensures VisibleTurned(ItemAt(c, MAP_HEIGHT, ws[c]))
  {
  }

  /** The background comes back if and only if its tiles are in the file's order, with codes that are no empty spots. */
  lemma BackgroundExact(f: seq<Byte>, items: seq<Item>)
    requires Inside(items, MAP_WIDTH, MAP_HEIGHT) && 2 * CELLS <= |f|
    requires forall c :: 0 <= c < CELLS ==> WordAt(f, 2 * c) == BgWords(items)[c]
    ensures BgIn(f, CELLS) == items <==> BgFits(items)
  {
    hide WordAt, Scan, Paint, BgFits, BgIn, Canonical, Empty, Visible;
    var ws := BgWords(items);
    BgIsScan(f, ws, CELLS);
    ScanVisible(ws, CELLS);
    ScanCanonical(Visible(ws), MAP_HEIGHT, 0, CELLS);
    InOrder(items);
    var found := Scan(Visible(ws), MAP_HEIGHT, 0, CELLS);
    TurnedTwice(found);
    TurnedFits(items);
    if BgFits(items) {
      AllVisible(items);
      ScanPaint(Turned(items), MAP_HEIGHT, 0, CELLS);
    }
  }

  lemma TurnedTwice(items: seq<Item>)
    requires forall k :: 0 <= k < |items| ==> IsWord(items[k].code)
    ensures Turned(Turned(items)) == items
  {
  }

  /** Saving a level and opening it: exactly when background and objects come back. */
  method SaveAndReopen(m: Map, lenSavedata: nat) returns (r: Result<Map>)
    requires Inside(m.bg, MAP_WIDTH, MAP_HEIGHT) && |m.objects| < 0x1_0000
    ensures !TextsFit(TextsOf(m.objects, |m.objects|)) ==> r == Err(OutOfRange)
    ensures r.Ok? ==> (r.value.bg == m.bg <==> BgFits(m.bg))
    ensures r.Ok? && r.value.objects == m.objects <==>
            NoTextLost(m.objects) && forall k :: 0 <= k < |m.objects| ==> ObjectFits(m.objects[k])
  {
    hide BgFits, ObjectFits, Meaning, FileOf, BgIn, TextsOf, TextBytes, WordAt, BgWords;
    var f := Write(m, lenSavedata);
    if f.Err? {
      assert !NoTextLost(m.objects);
      return Err(f.error);
    }
    PartsOfFile(m, lenSavedata);
    BackgroundExact(f.value, m.bg);
    ObjectsExact(m, lenSavedata);
    r := OpenLevel(f.value, lenSavedata);
  }

  /** The words of a record that the reader passes over are constants: the size 16 by 16, and zeros; the pointer is zero or one. */
  lemma RecordConstants(o: Object)
    ensures var ws := RecordWords(o);
            && ws[4] == 16 && ws[5] == 16 && ws[7] == 0 && ws[8] == 0 && ws[9] == 0 && ws[10] == 0
            && ws[11] == (if o.text.Some? then 1 else 0) && ws[12] == 0 && ws[13] == 0 && ws[14] == 0
  {
  }
}
