/** Monster Bash sprite files: records with their own lengths, and names for codes. */
module MonsterBashSprites {
  import opened Bytes
  import opened Grid

  const FIRST_CODE := 1000000
  const FIXED := 44          // bytes of a record besides its name
  const PLACE_END := 22      // bytes up to and including the place
  const DWORD := 0x1_0000_0000

  function PrintDword(n: int): (s: seq<Byte>)
    requires 0 <= n < DWORD
    ensures |s| == 4
  {
    [(n % 0x100) as Byte, (n / 0x100 % 0x100) as Byte, (n / 0x1_0000 % 0x100) as Byte, (n / 0x100_0000) as Byte]
  }

  function DwordAt(f: seq<Byte>, at: nat): (n: int)
    requires at + 4 <= |f|
    ensures 0 <= n < DWORD
  {
    f[at] as int + 0x100 * f[at + 1] as int + 0x1_0000 * f[at + 2] as int + 0x100_0000 * f[at + 3] as int
  }

  lemma DwordReadBack(a: seq<Byte>, n: int, b: seq<Byte>)
    requires 0 <= n < DWORD
    ensures DwordAt(a + PrintDword(n) + b, |a|) == n
  {
    var f := a + PrintDword(n) + b;
    assert f[|a|] == PrintDword(n)[0] && f[|a| + 1] == PrintDword(n)[1];
    assert f[|a| + 2] == PrintDword(n)[2] && f[|a| + 3] == PrintDword(n)[3];
    Digits(n);
  }

  lemma Digits(n: int)
    requires 0 <= n < DWORD
    ensures n % 0x100 + 0x100 * (n / 0x100 % 0x100) + 0x1_0000 * (n / 0x1_0000 % 0x100) + 0x100_0000 * (n / 0x100_0000) == n
  {
  }

  /** The names of the format: all different, and without the byte that ends a name. */
  predicate ValidNames(names: seq<seq<Byte>>) {
    && (forall i :: 0 <= i < |names| ==> |names[i]| < 0x100 && forall k :: 0 <= k < |names[i]| ==> names[i][k] != 0)
    && (forall i, j :: 0 <= i < j < |names| ==> names[i] != names[j])
  }

  // Writing

  predicate HasName(names: seq<seq<Byte>>, code: int) {
    FIRST_CODE <= code < FIRST_CODE + |names|
  }

  function Record(name: seq<Byte>, x: nat, y: nat): (s: seq<Byte>)
    requires |name| < 0x100
    ensures |s| == FIXED + |name| + 2
  {
    PrintDword(FIXED + |name| + 2) + Repeat(0 as Byte, 10) + PrintDword(x % DWORD) + PrintDword(y % DWORD)
    + Repeat(0 as Byte, 22) + (name + [0, 0])
  }

  /** The records of the items; an item whose code is not a sprite's has none. */
  function Records(names: seq<seq<Byte>>, items: seq<Item>): seq<Byte>
    requires ValidNames(names)
  {
    if items == [] then []
    else if HasName(names, items[0].code)
    then Record(names[items[0].code - FIRST_CODE], items[0].x, items[0].y) + Records(names, items[1..])
    else Records(names, items[1..])
  }

  method Write(names: seq<seq<Byte>>, items: seq<Item>) returns (f: seq<Byte>)
    requires ValidNames(names)
    ensures f == [0xFE, 0xFF] + Records(names, items)
  {
    hide Record, ValidNames;
    f := [0xFE, 0xFF];
    assert items[0..] == items;
    for k := 0 to |items|
      invariant f + Records(names, items[k..]) == [0xFE, 0xFF] + Records(names, items)
    {
      NextRecord(names, items, k, f);
      if items[k].code < FIRST_CODE {
        continue;
      }
      var code := items[k].code - FIRST_CODE;
      if code >= |names| {
        continue;
      }
      ShortName(names, code);
      f := f + Record(names[code], items[k].x, items[k].y);
    }
    AddNothing(f);
  }

  lemma ShortName(names: seq<seq<Byte>>, i: nat)
    requires ValidNames(names) && i < |names|
    ensures |names[i]| < 0x100
  {
  }

  lemma NextRecord(names: seq<seq<Byte>>, items: seq<Item>, k: nat, f: seq<Byte>)
    requires ValidNames(names) && k < |items|
    ensures f + Records(names, items[k..]) ==
            (if HasName(names, items[k].code) then f + Record(names[items[k].code - FIRST_CODE], items[k].x, items[k].y) else f)
            + Records(names, items[k + 1..])
  {
    hide Record;
    assert items[k..][1..] == items[k + 1..];
  }

  // Reading

  /** The last of the first `n` names to be this one gives the code; zero if none is. */
  function CodeFor(names: seq<seq<Byte>>, name: seq<Byte>, n: nat): int
    requires n <= |names|
  {
    if n == 0 then 0
    else if names[n - 1] == name then FIRST_CODE + (n - 1)
    else CodeFor(names, name, n - 1)
  }

  /** A name ends before the first zero. */
  function NameIn(s: seq<Byte>): seq<Byte> {
    if s == [] || s[0] == 0 then [] else [s[0]] + NameIn(s[1..])
  }

  function SpriteAt(names: seq<seq<Byte>>, f: seq<Byte>, p: nat, len: nat): Item
    requires FIXED <= len && p + len <= |f|
  {
    Item(DwordAt(f, p + 14), DwordAt(f, p + 18), CodeFor(names, NameIn(f[p + FIXED..p + len]), |names|))
  }

  /** The sprites from `p` on; a record that claims more than there is ends the list. */
  function Sprites(names: seq<seq<Byte>>, f: seq<Byte>, p: nat): Result<seq<Item>>
    requires p <= |f|
    decreases |f| - p
  {
    if |f| - p <= 4 then Ok([])
    else if |f| - p < PLACE_END then Err(Truncated)
    else
      var len := DwordAt(f, p);
      if len > |f| - p then Ok([])
      else if len < FIXED then Err(BadLayout)
      else
        var rest :- Sprites(names, f, p + len);
        Ok([SpriteAt(names, f, p, len)] + rest)
  }

  function Meaning(names: seq<seq<Byte>>, f: seq<Byte>): Result<seq<Item>> {
    if |f| < 2 then Err(Truncated) else Sprites(names, f, 2)
  }

  function Before(done: seq<Item>, rest: Result<seq<Item>>): Result<seq<Item>> {
    if rest.Err? then rest else Ok(done + rest.value)
  }

  lemma SpriteStep(names: seq<seq<Byte>>, f: seq<Byte>, p: nat, done: seq<Item>)
    requires p <= |f|
    ensures Before(done, Sprites(names, f, p)) ==
      if |f| - p <= 4 then Ok(done)
      else if |f| - p < PLACE_END then Err(Truncated)
      else
        var len := DwordAt(f, p);
        if len > |f| - p then Ok(done)
        else if len < FIXED then Err(BadLayout)
        else Before(done + [SpriteAt(names, f, p, len)], Sprites(names, f, p + len))
  {
    hide SpriteAt, DwordAt;
    AddNothing(done);
    if |f| - p >= PLACE_END {
      var len := DwordAt(f, p);
      if FIXED <= len <= |f| - p && Sprites(names, f, p + len).Ok? {
        var rest := Sprites(names, f, p + len).value;
        assert done + ([SpriteAt(names, f, p, len)] + rest) == done + [SpriteAt(names, f, p, len)] + rest;
      }
    }
  }

  method FindCode(names: seq<seq<Byte>>, name: seq<Byte>) returns (code: int)
    ensures code == CodeFor(names, name, |names|)
  {
    code := 0;
    for s := 0 to |names|
      invariant code == CodeFor(names, name, s)
    {
      if name == names[s] {
        code := FIRST_CODE + s;
      }
    }
  }

  method Open(names: seq<seq<Byte>>, f: seq<Byte>) returns (r: Result<seq<Item>>)
    ensures r == Meaning(names, f)
  {
    hide Sprites, DwordAt, NameIn, CodeFor;
    if |f| < 2 {
      return Err(Truncated);
    }
    var sprites := [];
    var p, lenSpr := 2, |f| - 2;
    NothingBefore(Sprites(names, f, 2));
    while lenSpr > 4
      invariant 2 <= p <= |f| && lenSpr == |f| - p
      invariant Before(sprites, Sprites(names, f, p)) == Sprites(names, f, 2)
      decreases lenSpr
    {
      SpriteStep(names, f, p, sprites);
      if lenSpr < PLACE_END {
        return Err(Truncated);
      }
      var lenEntry := DwordAt(f, p);
      if lenEntry > lenSpr {
        return Ok(sprites);
      }
      if lenEntry < FIXED {
        return Err(BadLayout);
      }
      var code := FindCode(names, NameIn(f[p + FIXED..p + lenEntry]));
      sprites := sprites + [Item(DwordAt(f, p + 14), DwordAt(f, p + 18), code)];
      p := p + lenEntry;
      lenSpr := lenSpr - lenEntry;
    }
    SpriteStep(names, f, p, sprites);
    return Ok(sprites);
  }

  lemma NothingBefore(rest: Result<seq<Item>>)
    ensures Before([], rest) == rest
  {
    if rest.Ok? {
      assert [] + rest.value == rest.value;
    }
  }

  // What comes back

  /** Every name stands for its own code. */
  lemma {:induction false} CodeReadBack(names: seq<seq<Byte>>, i: nat, n: nat)
    requires ValidNames(names) && i < n <= |names|
    ensures CodeFor(names, names[i], n) == FIRST_CODE + i
    decreases n
  {
    if i < n - 1 {
      CodeReadBack(names, i, n - 1);
    }
  }

  lemma {:induction false} NameReadBack(name: seq<Byte>, tail: seq<Byte>)
    requires tail != [] && tail[0] == 0 && forall k :: 0 <= k < |name| ==> name[k] != 0
    ensures NameIn(name + tail) == name
  {
    var s := name + tail;
    if name == [] {
      assert s == tail;
    } else {
      NameReadBack(name[1..], tail);
      assert s[1..] == name[1..] + tail && s[0] == name[0];
    }
  }

  /** The parts of a record, wherever it stands. */
  lemma RecordReadBack(before: seq<Byte>, name: seq<Byte>, x: nat, y: nat, after: seq<Byte>)
    requires |name| < 0x100
    ensures var f, p := before + Record(name, x, y) + after, |before|;
            && DwordAt(f, p) == FIXED + |name| + 2 && DwordAt(f, p + 14) == x % DWORD && DwordAt(f, p + 18) == y % DWORD
            && f[p + FIXED..p + FIXED + |name| + 2] == name + [0, 0]
  {
    hide PrintDword, DwordAt;
    var len, gap, place, row := PrintDword(FIXED + |name| + 2), Repeat(0 as Byte, 10), PrintDword(x % DWORD), PrintDword(y % DWORD);
    var pad, tail := Repeat(0 as Byte, 22), name + [0, 0];
    var f := before + Record(name, x, y) + after;
    Regroup(before, len, gap, place, row, pad, tail, after);
    DwordReadBack(before, FIXED + |name| + 2, gap + place + row + pad + tail + after);
    DwordReadBack(before + len + gap, x % DWORD, row + pad + tail + after);
    DwordReadBack(before + len + gap + place, y % DWORD, pad + tail + after);
    SliceInside(before + len + gap + place + row + pad, tail, after, 0, |tail|);
    assert tail[0..|tail|] == tail;
  }

  lemma Regroup<T>(before: seq<T>, a: seq<T>, b: seq<T>, c: seq<T>, d: seq<T>, e: seq<T>, g: seq<T>, after: seq<T>)
    ensures var all := before + (a + b + c + d + e + g) + after;
            && all == before + a + (b + c + d + e + g + after)
            && all == (before + a + b) + c + (d + e + g + after)
            && all == (before + a + b + c) + d + (e + g + after)
            && all == (before + a + b + c + d + e) + g + after
  {
  }

  /** The sprites that a list of items stands for: places are cut to 32 bits, other items are left out. */
  function Kept(names: seq<seq<Byte>>, items: seq<Item>): (r: seq<Item>)
    ensures |r| <= |items|
  {
    if items == [] then []
    else if HasName(names, items[0].code)
    then [Item(items[0].x % DWORD, items[0].y % DWORD, items[0].code)] + Kept(names, items[1..])
    else Kept(names, items[1..])
  }

  lemma {:induction false} KeptExact(names: seq<seq<Byte>>, items: seq<Item>)
    ensures Kept(names, items) == items <==>
            forall k :: 0 <= k < |items| ==> HasName(names, items[k].code) && items[k].x < DWORD && items[k].y < DWORD
  {
    hide HasName;
    if items != [] {
      var rest := items[1..];
      KeptExact(names, rest);
      assert items == [items[0]] + rest;
      if Kept(names, items) == items {
        assert |Kept(names, items)| == |rest| + 1;
        assert Kept(names, items)[0] == items[0] && Kept(names, items)[1..] == Kept(names, rest);
        forall k | 0 <= k < |items| ensures HasName(names, items[k].code) && items[k].x < DWORD && items[k].y < DWORD {
          assert k > 0 ==> items[k] == rest[k - 1];
        }
      }
      if forall k :: 0 <= k < |items| ==> HasName(names, items[k].code) && items[k].x < DWORD && items[k].y < DWORD {
        forall k | 0 <= k < |rest| ensures HasName(names, rest[k].code) && rest[k].x < DWORD && rest[k].y < DWORD {
          assert rest[k] == items[k + 1];
        }
      }
    }
  }

  /** A record whose parts are those of an item is read as that item. */
  lemma OneSprite(names: seq<seq<Byte>>, f: seq<Byte>, p: nat, it: Item)
    requires ValidNames(names) && HasName(names, it.code)
    requires var len := FIXED + |names[it.code - FIRST_CODE]| + 2;
             && p + len <= |f| && DwordAt(f, p + 14) == it.x % DWORD && DwordAt(f, p + 18) == it.y % DWORD
             && f[p + FIXED..p + len] == names[it.code - FIRST_CODE] + [0, 0]
    ensures SpriteAt(names, f, p, FIXED + |names[it.code - FIRST_CODE]| + 2) == Item(it.x % DWORD, it.y % DWORD, it.code)
  {
    hide DwordAt, NameIn, CodeFor;
    NameReadBack(names[it.code - FIRST_CODE], [0, 0]);
    CodeReadBack(names, it.code - FIRST_CODE, |names|);
  }

  lemma {:induction false} SpritesReadBack(names: seq<seq<Byte>>, before: seq<Byte>, items: seq<Item>)
    requires ValidNames(names)
    ensures Sprites(names, before + Records(names, items), |before|) == Ok(Kept(names, items))
    decreases |items|
  {
    hide Record, Sprites, DwordAt, NameIn, CodeFor, SpriteAt, ValidNames;
    var f := before + Records(names, items);
    SpriteStep(names, f, |before|, []);
    NothingBefore(Sprites(names, f, |before|));
    if items != [] {
      var rest, code := items[1..], items[0].code;
      if HasName(names, code) {
        var name := names[code - FIRST_CODE];
        ShortName(names, code - FIRST_CODE);
        var record := Record(name, items[0].x, items[0].y);
        assert f == before + record + Records(names, rest);
        RecordReadBack(before, name, items[0].x, items[0].y, Records(names, rest));
        OneSprite(names, f, |before|, items[0]);
        SpritesReadBack(names, before + record, rest);
        var sprite := SpriteAt(names, f, |before|, FIXED + |name| + 2);
        assert [] + [sprite] == [sprite];
      } else {
        SpritesReadBack(names, before, rest);
      }
    }
  }

  /** Exactly the sprites come back, in order; the whole list does if and only if all items are sprites. */
  method SaveAndReopen(names: seq<seq<Byte>>, items: seq<Item>) returns (r: Result<seq<Item>>)
    requires ValidNames(names)
    ensures r == Ok(Kept(names, items))
    ensures r == Ok(items) <==>
            forall k :: 0 <= k < |items| ==>
              1_000_000 <= items[k].code < 1_000_000 + |names| && items[k].x < DWORD && items[k].y < DWORD
  {
    hide ValidNames, Records, Sprites, Kept;
    var f := Write(names, items);
    SpritesReadBack(names, [0xFE, 0xFF], items);
    KeptExact(names, items);
    r := Open(names, f);
  }

  // Records as they are, and files cut short

  /** All other bytes of a record are zero. */
  lemma RecordZeros(name: seq<Byte>, x: nat, y: nat, i: nat)
    requires |name| < 0x100 && i < |Record(name, x, y)|
    ensures 4 <= i < 14 || PLACE_END <= i < FIXED || i >= FIXED + |name| ==> Record(name, x, y)[i] == 0
  {
    hide PrintDword;
  }

  /** A name that no sprite has is read as code zero. */
  lemma {:induction false} UnknownName(names: seq<seq<Byte>>, name: seq<Byte>, n: nat)
    requires n <= |names|
    ensures CodeFor(names, name, n) == 0 <==> forall k :: 0 <= k < n ==> names[k] != name
  {
    if n > 0 {
      UnknownName(names, name, n - 1);
    }
  }

  /** What the rest of a file holds if it is the beginning of a record: up to four bytes are passed over, a record that is longer than what is left ends the list, and one without its place is an error. */
  lemma CutRecord(names: seq<seq<Byte>>, before: seq<Byte>, name: seq<Byte>, x: nat, y: nat, n: nat)
    requires |name| < 0x100 && n < |Record(name, x, y)|
    ensures Sprites(names, before + Record(name, x, y)[..n], |before|) == if 4 < n < 22 then Err(Truncated) else Ok([])
  {
    hide PrintDword, DwordAt;
    var record, f := Record(name, x, y), before + Record(name, x, y)[..n];
    if n >= PLACE_END {
      RecordReadBack(before, name, x, y, []);
      AddNothing(before + record);
      DwordKept(before + record, f, |before|);
    }
  }

  lemma DwordKept(a: seq<Byte>, b: seq<Byte>, at: nat)
    requires at + 4 <= |b| <= |a| && b == a[..|b|]
    ensures DwordAt(a, at) == DwordAt(b, at)
  {
  }

  /** A file that ends within a record still gives the sprites before it, unless the record's place is missing. */
  lemma {:induction false} CutFile(names: seq<seq<Byte>>, before: seq<Byte>, items: seq<Item>, name: seq<Byte>, x: nat, y: nat, n: nat)
    requires ValidNames(names) && |name| < 0x100 && n < |Record(name, x, y)|
    ensures Sprites(names, before + Records(names, items) + Record(name, x, y)[..n], |before|) ==
            if 4 < n < 22 then Err(Truncated) else Ok(Kept(names, items))
    decreases |items|
  {
    hide Record, Sprites, DwordAt, NameIn, CodeFor, SpriteAt, ValidNames;
    var part := Record(name, x, y)[..n];
    var f := before + Records(names, items) + part;
    SpriteStep(names, f, |before|, []);
    NothingBefore(Sprites(names, f, |before|));
    if items == [] {
      AddNothing(before);
      CutRecord(names, before, name, x, y, n);
    } else {
      var rest, code := items[1..], items[0].code;
      if HasName(names, code) {
        var own := names[code - FIRST_CODE];
        ShortName(names, code - FIRST_CODE);
        var record := Record(own, items[0].x, items[0].y);
        assert f == before + record + (Records(names, rest) + part);
        assert f == before + record + Records(names, rest) + part;
        RecordReadBack(before, own, items[0].x, items[0].y, Records(names, rest) + part);
        OneSprite(names, f, |before|, items[0]);
        CutFile(names, before + record, rest, name, x, y, n);
        var sprite := SpriteAt(names, f, |before|, FIXED + |own| + 2);
        assert [] + [sprite] == [sprite];
      } else {
        CutFile(names, before, rest, name, x, y, n);
      }
    }
  }
}
