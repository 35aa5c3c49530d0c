/** Xargon and Jill of the Jungle levels: the table of strings at the end of the file. */
module Sweeney {
  import opened Bytes

  const OBJ_ENTRY_LEN := 31
  const OFFSET_OBJLAYER := 128 * 64 * 2
  const SAFETY_MAX_STRINGS := 512

  /** A length field with this value overflows when the reader adds the terminator to it. */
  const OVERFLOWING := 0xFFFF

  /** One string as the detector sees it: where its text starts, and the length its field gives. */
  datatype Entry = Entry(start: nat, len: nat)

  /** Offset of the string table. */
  function StringsAt(f: seq<Byte>, lenSavedata: nat): nat
    requires |f| >= OFFSET_OBJLAYER + 2
  {
    OFFSET_OBJLAYER + 2 + WordAt(f, OFFSET_OBJLAYER) * OBJ_ENTRY_LEN + lenSavedata
  }

  /** The strings from `at` to the end of the file, if there are at most `limit` and they fit exactly. */
  function Walk(f: seq<Byte>, at: nat, limit: nat): Result<seq<Entry>>
    requires at + 2 <= |f|
    decreases limit
  {
    if limit == 0 then Err(TooMany)
    else
      var next := at + WordAt(f, at) + 3;
      if next == |f| then Ok([Entry(at + 2, WordAt(f, at))])
      else if |f| < next + 2 then Err(BadLayout)
      else
        var rest :- Walk(f, next, limit - 1);
        Ok([Entry(at + 2, WordAt(f, at))] + rest)
  }

  /** The string table of a file, if the detector is content with the file. */
  function Table(f: seq<Byte>, lenSavedata: nat): Result<seq<Entry>> {
    if |f| < OFFSET_OBJLAYER + 2 then Err(Truncated)
    else
      var at := StringsAt(f, lenSavedata);
      if |f| == at then Ok([])
      else if |f| < at + 3 then Err(Truncated)
      else Walk(f, at, SAFETY_MAX_STRINGS)
  }

  method IsInstance(f: seq<Byte>, lenSavedata: nat) returns (c: Certainty)
    ensures c == if Table(f, lenSavedata).Ok? then DefinitelyYes else DefinitelyNo
  {
    if |f| < OFFSET_OBJLAYER + 2 {
      return DefinitelyNo;
    }
    var numObjects := WordAt(f, OFFSET_OBJLAYER);
    var offStrings := OFFSET_OBJLAYER + 2 + numObjects * OBJ_ENTRY_LEN + lenSavedata;
    if |f| == offStrings {
      return DefinitelyYes;
    }
    if |f| < offStrings + 3 {
      return DefinitelyNo;
    }
    ghost var start := offStrings;
    var i := 0;
    while i < SAFETY_MAX_STRINGS
      invariant 0 <= i <= SAFETY_MAX_STRINGS && start <= offStrings && offStrings + 2 <= |f|
      invariant Walk(f, start, SAFETY_MAX_STRINGS).Ok? <==> Walk(f, offStrings, SAFETY_MAX_STRINGS - i).Ok?
    {
      var lenStr := WordAt(f, offStrings);
      offStrings := offStrings + lenStr + 2 + 1;
      if offStrings == |f| {
        break;
      }
      if |f| < offStrings + 2 {
        return DefinitelyNo;
      }
      i := i + 1;
    }
    if i == SAFETY_MAX_STRINGS {
      return DefinitelyNo;
    }
    return DefinitelyYes;
  }

  /** The strings `open` reads from `pos` on; the length and its terminator are added in 16 bits. */
  function Strings(f: seq<Byte>, pos: nat): Result<seq<seq<Byte>>>
    requires pos <= |f|
    decreases |f| - pos
  {
    if |f| - pos < 2 then Ok([])
    else
      var len := (WordAt(f, pos) + 1) % 0x1_0000;
      if |f| - pos - 2 < len then Err(Truncated)
      else
        var rest :- Strings(f, pos + 2 + len);
        Ok([f[pos + 2..pos + 2 + len]] + rest)
  }

  /** Where reading strings stops, when it does not fail. */
  function StringsEnd(f: seq<Byte>, pos: nat): nat
    requires pos <= |f| && Strings(f, pos).Ok?
    decreases |f| - pos
  {
    if |f| - pos < 2 then pos else StringsEnd(f, pos + 2 + (WordAt(f, pos) + 1) % 0x1_0000)
  }

  method ReadStrings(f: seq<Byte>, start: nat) returns (r: Result<seq<seq<Byte>>>)
    requires start <= |f|
    ensures r == Strings(f, start)
  {
    hide Strings;
    var mapStrings := [];
    var pos, offStrings := start, |f| - start;
    NoStringsYet(f, start);
    while offStrings >= 2
      invariant 0 <= pos && 0 <= offStrings && pos + offStrings == |f|
      invariant Strings(f, start) == After(mapStrings, Strings(f, pos))
    {
      NextString(f, pos, mapStrings);
      var lenStr := (WordAt(f, pos) + 1) % 0x1_0000;
      pos := pos + 2;
      offStrings := offStrings - 2;
      if offStrings < lenStr {
        return Err(Truncated);
      }
      mapStrings := mapStrings + [f[pos..pos + lenStr]];
      pos := pos + lenStr;
      offStrings := offStrings - lenStr;
    }
    NoMoreStrings(f, pos, mapStrings);
    return Ok(mapStrings);
  }

  /** What is read in all, given what has been read already. */
  function After(done: seq<seq<Byte>>, rest: Result<seq<seq<Byte>>>): Result<seq<seq<Byte>>> {
    if rest.Err? then rest else Ok(done + rest.value)
  }

  lemma NoStringsYet(f: seq<Byte>, pos: nat)
    requires pos <= |f|
    ensures Strings(f, pos) == After([], Strings(f, pos))
  {
    if Strings(f, pos).Ok? {
      assert [] + Strings(f, pos).value == Strings(f, pos).value;
    }
  }

  lemma NextString(f: seq<Byte>, pos: nat, done: seq<seq<Byte>>)
    requires pos + 2 <= |f|
    ensures var len := (WordAt(f, pos) + 1) % 0x1_0000;
            After(done, Strings(f, pos)) ==
            if |f| - pos - 2 < len then Err(Truncated)
            else After(done + [f[pos + 2..pos + 2 + len]], Strings(f, pos + 2 + len))
  {
    var len := (WordAt(f, pos) + 1) % 0x1_0000;
    if |f| - pos - 2 >= len && Strings(f, pos + 2 + len).Ok? {
      var text, rest := f[pos + 2..pos + 2 + len], Strings(f, pos + 2 + len).value;
      assert done + ([text] + rest) == done + [text] + rest;
    }
  }

  lemma NoMoreStrings(f: seq<Byte>, pos: nat, done: seq<seq<Byte>>)
    requires pos <= |f| < pos + 2
    ensures After(done, Strings(f, pos)) == Ok(done)
  {
    AddNothing(done);
  }

  // Detector and parser

  /** The entries lie inside the file, one right after the other. */
  predicate Located(f: seq<Byte>, at: nat, es: seq<Entry>)
    decreases |es|
  {
    if es == [] then at == |f|
    else at + 2 <= |f| && es[0] == Entry(at + 2, WordAt(f, at)) && at + es[0].len + 3 <= |f|
         && Located(f, at + es[0].len + 3, es[1..])
  }

  lemma {:induction false} WalkLocates(f: seq<Byte>, at: nat, limit: nat)
    requires at + 2 <= |f| && Walk(f, at, limit).Ok?
    ensures Located(f, at, Walk(f, at, limit).value)
    ensures 0 < |Walk(f, at, limit).value| <= limit
    decreases limit
  {
    var es, next := Walk(f, at, limit).value, at + WordAt(f, at) + 3;
    if next == |f| {
      assert es[1..] == [];
    } else {
      WalkLocates(f, next, limit - 1);
      assert es[1..] == Walk(f, next, limit - 1).value;
    }
  }

  /** The texts that the detector's entries delimit, terminators included. */
  function Texts(f: seq<Byte>, es: seq<Entry>): (ts: seq<seq<Byte>>)
    requires forall k :: 0 <= k < |es| ==> es[k].start + es[k].len + 1 <= |f|
    ensures |ts| == |es|
  {
    seq(|es|, k requires 0 <= k < |es| => f[es[k].start..es[k].start + es[k].len + 1])
  }

  lemma {:induction false} LocatedInside(f: seq<Byte>, at: nat, es: seq<Entry>)
    requires Located(f, at, es)
    ensures forall k :: 0 <= k < |es| ==> es[k].start + es[k].len + 1 <= |f|
    decreases |es|
  {
    if es != [] {
      LocatedInside(f, at + es[0].len + 3, es[1..]);
      forall k | 0 <= k < |es| ensures es[k].start + es[k].len + 1 <= |f| {
        assert k > 0 ==> es[k] == es[1..][k - 1];
      }
    }
  }

  predicate NoneOverflows(es: seq<Entry>) {
    forall k :: 0 <= k < |es| ==> es[k].len < OVERFLOWING
  }

  /** What reading one string does to the claim about all of them. */
  lemma FirstString(f: seq<Byte>, at: nat, rest: seq<seq<Byte>>)
    requires at + 2 <= |f| && at + WordAt(f, at) + 3 <= |f|
    ensures var text := f[at + 2..at + WordAt(f, at) + 3];
            Strings(f, at) == Ok([text] + rest) <==>
            WordAt(f, at) < OVERFLOWING && Strings(f, at + WordAt(f, at) + 3) == Ok(rest)
  {
    hide Strings;
    var len := WordAt(f, at);
    var text := f[at + 2..at + len + 3];
    NoStringsYet(f, at);
    NextString(f, at, []);
    WordRange(f, at, len);
    if len == OVERFLOWING {
      assert f[at + 2..at + 2] == [];
      assert |text| > 0;
      assert ([text] + rest)[0] == text;
    } else {
      assert ([] + [text]) == [text];
      if Strings(f, at + len + 3).Ok? {
        var others := Strings(f, at + len + 3).value;
        assert ([text] + others)[1..] == others && ([text] + rest)[1..] == rest;
      }
    }
  }

  lemma {:induction false} StringsFollowEntries(f: seq<Byte>, at: nat, es: seq<Entry>)
    requires Located(f, at, es) && at <= |f| && forall k :: 0 <= k < |es| ==> es[k].start + es[k].len + 1 <= |f|
    ensures Strings(f, at) == Ok(Texts(f, es)) <==> NoneOverflows(es)
    ensures NoneOverflows(es) ==> StringsEnd(f, at) == |f|
    decreases |es|
  {
    if es == [] {
      assert Texts(f, es) == [];
    } else {
      hide Strings, Texts, NoneOverflows, StringsEnd, WordAt;
      var next, rest := at + es[0].len + 3, es[1..];
      EntriesSplit(f, es);
      LocatedInside(f, next, rest);
      StringsFollowEntries(f, next, rest);
      FirstString(f, at, Texts(f, rest));
      if NoneOverflows(es) {
        EndAfter(f, at);
      }
    }
  }

  /** Where reading stops, after one string that does not overflow. */
  lemma EndAfter(f: seq<Byte>, at: nat)
    requires at + 2 <= |f| && at + WordAt(f, at) + 3 <= |f| && WordAt(f, at) < OVERFLOWING
    requires Strings(f, at + WordAt(f, at) + 3).Ok?
    ensures Strings(f, at).Ok? && StringsEnd(f, at) == StringsEnd(f, at + WordAt(f, at) + 3)
  {
    WordRange(f, at, WordAt(f, at));
  }

  lemma WordRange(f: seq<Byte>, at: nat, len: nat)
    requires at + 2 <= |f| && len == WordAt(f, at)
    ensures (len + 1) % 0x1_0000 == if len == OVERFLOWING then 0 else len + 1
  {
  }

  lemma EntriesSplit(f: seq<Byte>, es: seq<Entry>)
    requires es != [] && forall k :: 0 <= k < |es| ==> es[k].start + es[k].len + 1 <= |f|
    ensures forall k :: 0 <= k < |es[1..]| ==> es[1..][k].start + es[1..][k].len + 1 <= |f|
    ensures Texts(f, es) == [f[es[0].start..es[0].start + es[0].len + 1]] + Texts(f, es[1..])
    ensures NoneOverflows(es) <==> es[0].len < OVERFLOWING && NoneOverflows(es[1..])
  {
    var rest := es[1..];
    assert forall k :: 0 <= k < |rest| ==> rest[k] == es[k + 1];
    if es[0].len < OVERFLOWING && NoneOverflows(rest) {
      forall k | 0 <= k < |es| ensures es[k].len < OVERFLOWING {
        assert k > 0 ==> es[k] == rest[k - 1];
      }
    }
    if NoneOverflows(es) {
      forall k | 0 <= k < |rest| ensures rest[k].len < OVERFLOWING {
        assert rest[k] == es[k + 1];
      }
    }
  }

  /**
   * For every file the detector accepts, the reader's strings are the detector's entries,
   * one for one, at most 512, up to the very end of the file: exactly when no length field
   * holds 65535, which the reader takes for an empty text without a terminator.
   */
  lemma DetectorAndReaderAgree(f: seq<Byte>, lenSavedata: nat)
    requires Table(f, lenSavedata).Ok?
    ensures var at, es := StringsAt(f, lenSavedata), Table(f, lenSavedata).value;
            && at <= |f| && |es| <= SAFETY_MAX_STRINGS
            && (forall k :: 0 <= k < |es| ==> es[k].start + es[k].len + 1 <= |f|)
            && (Strings(f, at) == Ok(Texts(f, es)) <==> NoneOverflows(es))
            && (NoneOverflows(es) ==> StringsEnd(f, at) == |f|)
  {
    hide Strings;
    var at, es := StringsAt(f, lenSavedata), Table(f, lenSavedata).value;
    if |f| == at {
      assert Located(f, at, es);
    } else {
      WalkLocates(f, at, SAFETY_MAX_STRINGS);
    }
    LocatedInside(f, at, es);
    StringsFollowEntries(f, at, es);
  }

  lemma {:induction false} WalkFinds(f: seq<Byte>, at: nat, limit: nat, es: seq<Entry>)
    requires at + 2 <= |f| && Located(f, at, es) && 0 < |es| <= limit
    ensures Walk(f, at, limit) == Ok(es)
    decreases limit
  {
    var next := at + WordAt(f, at) + 3;
    if |es| == 1 {
      assert es == [es[0]] && es[1..] == [];
    } else {
      assert es[1..] != [];
      WalkFinds(f, next, limit - 1, es[1..]);
      assert es == [es[0]] + es[1..];
    }
  }

  /** The detector is content with every file whose string table has at most 512 entries, up to the end of the file, and with no other. */
  lemma TableExactly(f: seq<Byte>, lenSavedata: nat, es: seq<Entry>)
    ensures Table(f, lenSavedata) == Ok(es) <==>
            |f| >= OFFSET_OBJLAYER + 2 && Located(f, StringsAt(f, lenSavedata), es) && |es| <= 512
  {
    hide Walk, Located;
    if |f| >= OFFSET_OBJLAYER + 2 {
      var at := StringsAt(f, lenSavedata);
      EntriesThere(f, at, es);
      if |f| >= at + 3 {
        if Located(f, at, es) && |es| <= 512 {
          WalkFinds(f, at, SAFETY_MAX_STRINGS, es);
        }
        if Walk(f, at, SAFETY_MAX_STRINGS).Ok? {
          WalkLocates(f, at, SAFETY_MAX_STRINGS);
        }
      }
    }
  }

  lemma EntriesThere(f: seq<Byte>, at: nat, es: seq<Entry>)
    ensures Located(f, at, []) <==> at == |f|
    ensures Located(f, at, es) && es != [] ==> at + 3 <= |f|
    ensures Located(f, at, es) && at == |f| ==> es == []
  {
  }

  /** The detector accepts a file with one string of 65535 characters; the reader does not find that string. */
  lemma OverflowingString(text: seq<Byte>)
    requires |text| == 0x1_0000
    ensures var f := Repeat(0 as Byte, OFFSET_OBJLAYER + 2) + [0xFF, 0xFF] + text;
            && Table(f, 0) == Ok([Entry(OFFSET_OBJLAYER + 4, OVERFLOWING)])
            && Strings(f, OFFSET_OBJLAYER + 2) != Ok([text])
  {
    hide Strings;
    var f := Repeat(0 as Byte, OFFSET_OBJLAYER + 2) + [0xFF, 0xFF] + text;
    assert WordAt(f, OFFSET_OBJLAYER) == 0 && WordAt(f, OFFSET_OBJLAYER + 2) == OVERFLOWING;
    var es := Table(f, 0).value;
    DetectorAndReaderAgree(f, 0);
    assert !NoneOverflows(es) by { assert es[0].len == OVERFLOWING; }
    assert f[OFFSET_OBJLAYER + 4..OFFSET_OBJLAYER + 4 + OVERFLOWING + 1] == text;
    assert Texts(f, es) == [text];
  }

  // Objects and their texts

  const TEXT_REF := 23   // where an object refers to its text
  const SUBTYPE := 13
  const SPEED := 5

  datatype Option<T> = None | Some(value: T)

  datatype Speed = Speed(dx: int, dy: int)

  datatype Object = Object(x: int, y: int, code: int, text: Option<seq<Byte>>, speed: Option<Speed>)

  function ObjectAt(k: nat): nat {
    OFFSET_OBJLAYER + 2 + k * OBJ_ENTRY_LEN
  }

  /** Object `k` refers to a text: its pointer is not zero. */
  predicate HasText(f: seq<Byte>, k: nat)
    requires ObjectAt(k + 1) <= |f|
  {
    WordAt(f, ObjectAt(k) + TEXT_REF) != 0 || WordAt(f, ObjectAt(k) + TEXT_REF + 2) != 0
  }

  /** How many of the first `n` objects refer to a text. */
  function Owners(f: seq<Byte>, n: nat): (c: nat)
    requires ObjectAt(n) <= |f|
    ensures c <= n
  {
    if n == 0 then 0 else Owners(f, n - 1) + if HasText(f, n - 1) then 1 else 0
  }

  /** The text of object `k`: the strings go to the objects that want one, in order, while there are any. */
  function TextOf(f: seq<Byte>, strings: seq<seq<Byte>>, k: nat): Option<seq<Byte>>
    requires ObjectAt(k + 1) <= |f|
  {
    if !HasText(f, k) then None
    else if Owners(f, k) < |strings| then Some(strings[Owners(f, k)])
    else Some([])
  }

  /** An object moves if one of its two speeds is not zero. */
  function SpeedOf(dx: int, dy: int): Option<Speed> {
    if dx != 0 || dy != 0 then Some(Speed(dx, dy)) else None
  }

  /** The first `n` objects. */
  function Objects(f: seq<Byte>, strings: seq<seq<Byte>>, n: nat): (r: seq<Object>)
    requires ObjectAt(n) <= |f|
    ensures |r| == n
  {
    seq(n, k requires 0 <= k < n =>
      var at := ObjectAt(k);
      Object(WordAt(f, at + 1), WordAt(f, at + 3), f[at] as int + 0x100 * WordAt(f, at + SUBTYPE), TextOf(f, strings, k),
             SpeedOf(WordAt(f, at + SPEED), WordAt(f, at + SPEED + 2))))
  }

  function Meaning(f: seq<Byte>, lenSavedata: nat): Result<seq<Object>> {
    if |f| < OFFSET_OBJLAYER + 2 || |f| < StringsAt(f, lenSavedata) then Err(Truncated)
    else
      var strings :- Strings(f, StringsAt(f, lenSavedata));
      Ok(Objects(f, strings, WordAt(f, OFFSET_OBJLAYER)))
  }

  method ReadObjects(f: seq<Byte>, strings: seq<seq<Byte>>, numObjects: nat) returns (objects: seq<Object>)
    requires ObjectAt(numObjects) <= |f|
    ensures objects == Objects(f, strings, numObjects)
  {
    hide WordAt;
    objects := [];
    var mapStrings := strings;
    for k := 0 to numObjects
      invariant objects == Objects(f, strings, k)
      invariant mapStrings == if Owners(f, k) < |strings| then strings[Owners(f, k)..] else []
    {
      var at := ObjectAt(k);
      var text := None;
      if HasText(f, k) {
        text := Some([]);
        if mapStrings != [] {
          text := Some(mapStrings[0]);
          mapStrings := mapStrings[1..];
        }
      }
      assert text == TextOf(f, strings, k);
      var dx, dy := WordAt(f, at + SPEED), WordAt(f, at + SPEED + 2);
      var speed := None;
      if dx != 0 || dy != 0 {
        speed := Some(Speed(dx, dy));
      }
      objects := objects + [Object(WordAt(f, at + 1), WordAt(f, at + 3), f[at] as int + 0x100 * WordAt(f, at + SUBTYPE), text, speed)];
    }
  }

  method Open(f: seq<Byte>, lenSavedata: nat) returns (r: Result<seq<Object>>)
    ensures r == Meaning(f, lenSavedata)
  {
    hide Strings, Objects, WordAt;
    if |f| < OFFSET_OBJLAYER + 2 {
      return Err(Truncated);
    }
    var numObjects := WordAt(f, OFFSET_OBJLAYER);
    var lenMap := |f| - OFFSET_OBJLAYER - 2;
    if lenMap < numObjects * OBJ_ENTRY_LEN {
      return Err(Truncated);
    }
    var offStrings := numObjects * OBJ_ENTRY_LEN + lenSavedata;
    if offStrings > lenMap {
      return Err(Truncated);
    }
    var mapStrings := ReadStrings(f, OFFSET_OBJLAYER + 2 + offStrings);
    if mapStrings.Err? {
      return Err(mapStrings.error);
    }
    var objects := ReadObjects(f, mapStrings.value, numObjects);
    return Ok(objects);
  }

  /**
   * A file that the detector accepts, none of whose strings overflows, can be opened, and
   * the objects that refer to texts get those that the detector has seen, in order.
   */
  lemma AcceptedFilesOpen(f: seq<Byte>, lenSavedata: nat)
    requires Table(f, lenSavedata).Ok? && NoneOverflows(Table(f, lenSavedata).value)
    ensures var es := Table(f, lenSavedata).value;
            && (forall k :: 0 <= k < |es| ==> es[k].start + es[k].len + 1 <= |f|)
            && ObjectAt(WordAt(f, OFFSET_OBJLAYER)) <= |f|
            && Meaning(f, lenSavedata) == Ok(Objects(f, Texts(f, es), WordAt(f, OFFSET_OBJLAYER)))
  {
    hide Strings, Objects, NoneOverflows, Walk, WordAt;
    DetectorAndReaderAgree(f, lenSavedata);
  }
}
