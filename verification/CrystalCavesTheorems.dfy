/** Crystal Caves levels: opening what was written. */
module CrystalCavesTheorems {
  import opened Bytes
  import opened Grid
  import opened CrystalCaves
  import opened CrystalCavesScan
  import opened CrystalCavesOpen
  import opened CrystalCavesWrite
  import opened CrystalCavesTidy

  ghost predicate Ready(t: Tables, b: Board, h: nat) {
    Decodable(t) && Square(b, |b.bg|) && b.w > 0 && |b.bg| == b.w * h && Tidy(t, b)
  }

  // Bytes that stay

  /** A part claimed keeps its byte while the later parts are claimed. */
  lemma {:induction false} LaterPartsKeep(s: Cells, w: nat, j: nat, parts: seq<Part>, k: nat, n: nat)
    requires |s.src| == |s.dst| && k < n <= |parts| && Trailing(parts)
    requires Claims(ClaimParts(s, w, j, parts, k), w, j, parts[k])
    ensures var pos := PlaceOf(parts[k], w, j);
            pos < |s.src| && ClaimParts(s, w, j, parts, n).src[pos] == HANDLED && ClaimParts(s, w, j, parts, n).dst[pos] == parts[k].put
    decreases n
  {
    hide ClaimPart, Claims, PlaceOf;
    var before := ClaimParts(s, w, j, parts, n - 1);
    var pos := PlaceOf(parts[k], w, j);
    if n > k + 1 {
      LaterPartsKeep(s, w, j, parts, k, n - 1);
      KeepHandled(before, w, j, parts[n - 1], pos);
    } else {
      TakeFree(before, w, j, parts[k]);
    }
  }

  lemma TakeFree(s: Cells, w: nat, j: nat, part: Part)
    requires |s.src| == |s.dst| && Claims(s, w, j, part)
    ensures var pos := PlaceOf(part, w, j);
            pos < |s.src| && ClaimPart(s, w, j, part).src[pos] == HANDLED && ClaimPart(s, w, j, part).dst[pos] == part.put
  {
  }

  lemma KeepHandled(s: Cells, w: nat, j: nat, part: Part, pos: nat)
    requires |s.src| == |s.dst| && pos < |s.src| && s.src[pos] == HANDLED && part.tile != HANDLED
    ensures ClaimPart(s, w, j, part).src[pos] == HANDLED && ClaimPart(s, w, j, part).dst[pos] == s.dst[pos]
  {
  }

  /** The byte of a part claimed by the entry in cell `c` is the part's to the end. */
  lemma PartByte(t: Tables, b: Board, c: nat, k: nat)
    requires Valid(t) && Square(b, |b.bg|) && b.w > 0 && c < |b.bg|
    requires var a := EntryAt(t, b, c);
             k < |PartsOf(t, a)| && Claims(Claiming(t, b, c, k), b.w, c, PartsOf(t, a)[k])
    ensures var part := PartsOf(t, EntryAt(t, b, c))[k];
            var pos := PlaceOf(part, b.w, c);
            c < pos < |b.bg| && Output(t, b)[pos] == part.put && Scanned(t, b, c + 1).src[pos] == HANDLED
  {
    hide Valid, Choose, PartsOf, CodeOf, ClaimParts;
    var s := Scanned(t, b, c);
    var a := EntryAt(t, b, c);
    var parts := PartsOf(t, a);
    var pos := PlaceOf(parts[k], b.w, c);
    PartsTrail(t, a);
    NothingHasNoParts(t, a);
    var s1 := Cells(s.src, s.dst[c := CodeOf(t, a)]);
    LaterPartsKeep(s1, b.w, c, parts, k, |parts|);
    assert Scanned(t, b, c + 1) == ClaimParts(s1, b.w, c, parts, |parts|);
    Later(parts[k], b.w, c);
    Settled(t, b, c + 1, |b.bg|, pos);
  }

  lemma Later(part: Part, w: nat, j: nat)
    requires w > 0 && 0 < part.dx + part.dy
    ensures j < PlaceOf(part, w, j)
  {
    assert part.dy > 0 ==> part.dy * w > 0;
  }

  lemma NothingHasNoParts(t: Tables, a: Anchor)
    requires Valid(t) && InTables(t, a)
    ensures PartsOf(t, a) != [] ==> Direct(a)
    ensures a.AsVine? ==> PartsOf(t, a) == []
  {
  }

  /** The byte of an anchor is its code to the end. */
  lemma AnchorByte(t: Tables, b: Board, c: nat)
    requires Valid(t) && Square(b, |b.bg|) && b.w > 0 && c < |b.bg|
    requires !EntryAt(t, b, c).Nothing?
    ensures Output(t, b)[c] == CodeOf(t, EntryAt(t, b, c))
  {
    hide Valid, Choose, PartsOf, CodeOf, ClaimParts, Claimed;
    var s := Scanned(t, b, c);
    var a := EntryAt(t, b, c);
    var s1 := Cells(s.src, s.dst[c := CodeOf(t, a)]);
    PartsTrail(t, a);
    ClaimFrame(s1, b.w, c, PartsOf(t, a), |PartsOf(t, a)|);
    assert Scanned(t, b, c + 1) == ClaimParts(s1, b.w, c, PartsOf(t, a), |PartsOf(t, a)|);
    Settled(t, b, c + 1, |b.bg|, c);
  }

  /** A cell that anchors nothing and that no entry has claimed holds the filling to the end. */
  lemma EmptyByte(t: Tables, b: Board, c: nat)
    requires Valid(t) && Square(b, |b.bg|) && b.w > 0 && c < |b.bg|
    requires EntryAt(t, b, c).Nothing? && !Taken(t, b, c)
    ensures Output(t, b)[c] == EMPTY
  {
    hide Valid, Step, AnchorAt;
    if b.bg[c] == HANDLED {
      ForeignByte(t, b, c);
    } else {
      ScanFacts(t, b, c);
      ScannedAfter(t, b, c);
      Settled(t, b, c + 1, |b.bg|, c);
    }
  }

  /** A tile that the writer mistakes for a cell dealt with is left out. */
  lemma ForeignByte(t: Tables, b: Board, c: nat)
    requires Valid(t) && Square(b, |b.bg|) && b.w > 0 && c < |b.bg| && b.bg[c] == HANDLED
    ensures Output(t, b)[c] == EMPTY && EntryAt(t, b, c).Nothing?
  {
    hide Valid, Step, AnchorAt;
    assert Scanned(t, b, 0) == Cells(b.bg, Repeat(EMPTY, |b.bg|));
    Settled(t, b, 0, |b.bg|, c);
    HandledLater(t, b, 0, c);
  }

  // Steps

  /** The reader takes the parts from `lo` on as the writer claims them. */
  lemma {:induction false} PartsStep(t: Tables, b: Board, h: nat, r: Reading, x: nat, y: nat, c: nat, e: nat, lo: nat, n: nat)
    requires Ready(t, b, h) && x < b.w && y < h && c == y * b.w + x && c < |b.bg|
    requires lo <= n <= |PartsOf(t, EntryAt(t, b, c))| && (EntryAt(t, b, c).AsSign? ==> lo > 0)
    requires e <= c + (if EntryAt(t, b, c).AsSign? then 2 else 1)
    requires Agrees(b, h, OutcomeOf(t, b), r, Claiming(t, b, c, lo), e)
    ensures Agrees(b, h, OutcomeOf(t, b), TakeParts(r, b.w, h, x, y, y * (b.w + 1) + x + 1, PartsOf(t, EntryAt(t, b, c)), lo, n),
                   Claiming(t, b, c, n), e)
    decreases n - lo
  {
    hide Valid, Decodable, EntryAt, PartsOf, CodeOf, Agrees, Output, Scanned, Free, FlagsOf, TakePart, ClaimPart, PlaceOf, OutcomeOf, Tidy, TidyPart, Shown, Claims;
    if n > lo {
      ReadyValid(t, b, h);
      var part := PartsOf(t, EntryAt(t, b, c))[n - 1];
      PartsStep(t, b, h, r, x, y, c, e, lo, n - 1);
      CellUnique(x, y, b.w);
      PartsFacts(t, EntryAt(t, b, c), n - 1);
      TidyParts(t, b, c, n - 1);
      if Claims(Claiming(t, b, c, n - 1), b.w, c, part) {
        PartClaimed(t, b, h, TakeParts(r, b.w, h, x, y, y * (b.w + 1) + x + 1, PartsOf(t, EntryAt(t, b, c)), lo, n - 1), x, y, c, e, n - 1);
      }
      PartStep(b, h, OutcomeOf(t, b), TakeParts(r, b.w, h, x, y, y * (b.w + 1) + x + 1, PartsOf(t, EntryAt(t, b, c)), lo, n - 1),
               Claiming(t, b, c, n - 1), e, x, y, part);
    }
  }

  /** What a claim says of the part's cell: its byte in the end, and the tile seen there. */
  lemma PartClaimed(t: Tables, b: Board, h: nat, r: Reading, x: nat, y: nat, c: nat, e: nat, k: nat)
    requires Ready(t, b, h) && x < b.w && c == y * b.w + x && c < |b.bg| && k < |PartsOf(t, EntryAt(t, b, c))|
    requires EntryAt(t, b, c).AsSign? ==> k > 0
    requires e <= c + (if EntryAt(t, b, c).AsSign? then 2 else 1)
    requires Agrees(b, h, OutcomeOf(t, b), r, Claiming(t, b, c, k), e)
    requires Claims(Claiming(t, b, c, k), b.w, c, PartsOf(t, EntryAt(t, b, c))[k])
    ensures var pos, o := PlaceOf(PartsOf(t, EntryAt(t, b, c))[k], b.w, c), OutcomeOf(t, b);
            pos < |b.bg| && o.bytes[pos] == NEXT && e <= pos && !o.ends[pos] && Shown(b.bg[pos]) == o.seen.bg[pos]
  {
    hide Valid, Decodable, EntryAt, PartsOf, CodeOf, Agrees, Output, Scanned, Claims, PlaceOf, Seen, IsBeamEnd, IsLoose, Tidy, Shown;
    ReadyValid(t, b, h);
    var part := PartsOf(t, EntryAt(t, b, c))[k];
    PartsFacts(t, EntryAt(t, b, c), k);
    PartByte(t, b, c, k);
    ClaimedTile(b, h, OutcomeOf(t, b), r, Claiming(t, b, c, k), e, c, part);
    HandledLater(t, b, c + 1, PlaceOf(part, b.w, c));
    TakenTile(t, b, PlaceOf(part, b.w, c));
    if EntryAt(t, b, c).AsSign? {
      SignParts(t, b, x, y, k);
    }
  }

  /** A cell claimed holds the part's tile. */
  lemma ClaimedTile(b: Board, h: nat, o: Outcome, r: Reading, s: Cells, e: nat, c: nat, part: Part)
    requires ForBoard(o, b) && |s.src| == |b.bg| && Agrees(b, h, o, r, s, e)
    requires Claims(s, b.w, c, part) && part.tile != HANDLED
    ensures PlaceOf(part, b.w, c) < |b.bg| && b.bg[PlaceOf(part, b.w, c)] == part.tile
  {
    hide PlaceOf, FileAt, BgAt, AttrAt, FgAt;
    assert CellAgrees(b, o, r, s, e, PlaceOf(part, b.w, c));
  }

  lemma TidyParts(t: Tables, b: Board, c: nat, k: nat)
    requires Valid(t) && Square(b, |b.bg|) && b.w > 0 && c < |b.bg| && Tidy(t, b)
    requires k < |PartsOf(t, EntryAt(t, b, c))|
    ensures TidyPart(b, Output(t, b), Claiming(t, b, c, k), c, PartsOf(t, EntryAt(t, b, c))[k])
  {
    hide Valid, Choose, PartsOf, CodeOf, TidyPart;
    assert TidyAt(t, b, c);
  }

  /** The second tile of a sign is in the same row; its other parts lie beyond it. */
  lemma SignParts(t: Tables, b: Board, x: nat, y: nat, k: nat)
    requires Valid(t) && Square(b, |b.bg|) && x < b.w && y * b.w + x < |b.bg| && Tidy(t, b)
    requires EntryAt(t, b, y * b.w + x).AsSign? && k < |PartsOf(t, EntryAt(t, b, y * b.w + x))|
    ensures x + 1 < b.w
    ensures var part := PartsOf(t, EntryAt(t, b, y * b.w + x))[k];
            k > 0 ==> y * b.w + x + 2 <= PlaceOf(part, b.w, y * b.w + x)
  {
    hide Choose, Claiming, Scanned, PartsOf, Valid, EntryAt, Output;
    var c := y * b.w + x;
    var a := EntryAt(t, b, c);
    SignShape(t, a, 0);
    SignShape(t, a, k);
    TidyParts(t, b, c, 0);
    SecondClaimed(t, b, c);
    CellUnique(x, y, b.w);
    if k > 0 {
      PartFar(PartsOf(t, a)[k], b.w, c);
    }
  }

  /** A sign is only chosen with its second tile there to be claimed. */
  lemma SecondClaimed(t: Tables, b: Board, c: nat)
    requires Valid(t) && Square(b, |b.bg|) && c < |b.bg| && EntryAt(t, b, c).AsSign?
    ensures |PartsOf(t, EntryAt(t, b, c))| > 0 && Claims(Claiming(t, b, c, 0), b.w, c, PartsOf(t, EntryAt(t, b, c))[0])
  {
    hide Choose, Scanned;
    ChosenTiles(t, b, Scanned(t, b, c), c);
    assert ValidSign(t.signs[EntryAt(t, b, c).i]);
  }

  lemma SignShape(t: Tables, a: Anchor, k: nat)
    requires Valid(t) && InTables(t, a) && a.AsSign? && k < SIGN_TILES - 1
    ensures |PartsOf(t, a)| == SIGN_TILES - 1 && ValidSign(t.signs[a.i])
    ensures var part := PartsOf(t, a)[k];
            if k == 0 then part.dx == 1 && part.dy == 0 && part.tile != NO_TILE else part.dx >= 2 || part.dy > 0
  {
    assert ValidSign(t.signs[a.i]);
  }

  lemma PartFar(part: Part, w: nat, c: nat)
    requires w > 1 && (part.dx >= 2 || part.dy > 0)
    ensures c + 2 <= PlaceOf(part, w, c)
  {
    RowsApart(0, part.dy, w);
  }

  lemma ReadyValid(t: Tables, b: Board, h: nat)
    requires Ready(t, b, h)
    ensures Valid(t)
  {
  }

  // What becomes of a cell that is not a block

  /** A cell that is not written as a block is not the end of a beam. */
  lemma NoEnd(t: Tables, b: Board, c: nat)
    requires Valid(t) && Square(b, |b.bg|) && b.w > 0 && c < |b.bg| && !EntryAt(t, b, c).AsBlock?
    ensures !OutcomeOf(t, b).ends[c] && !OutcomeOf(t, b).loose[c]
  {
    hide EntryAt, Output, BeamTile, Seen;
  }

  /** A cell claimed shows the tile of the part, which is the board's. */
  lemma TakenTile(t: Tables, b: Board, c: nat)
    requires Valid(t) && Square(b, |b.bg|) && b.w > 0 && c < |b.bg| && b.bg[c] != HANDLED && Scanned(t, b, c).src[c] == HANDLED
    ensures EntryAt(t, b, c).Nothing? && !OutcomeOf(t, b).ends[c]
    ensures var seen := OutcomeOf(t, b).seen;
            seen.bg[c] == Shown(b.bg[c]) && seen.attr[c] == MV_NONE && seen.fg[c] == NO_TILE
  {
    hide EntryAt, Output, Shown, Scanned, BeamTile;
    HandledLater(t, b, c, c);
  }

  /** What is seen of an entry of the tables. */
  lemma EntrySeen(t: Tables, b: Board, c: nat)
    requires Valid(t) && Square(b, |b.bg|) && b.w > 0 && c < |b.bg|
    ensures var seen, look := OutcomeOf(t, b).seen, LookAt(t, b, c);
            seen.bg[c] == look.tile && seen.attr[c] == look.flags && seen.fg[c] == look.over
  {
    hide LookAt, Output, IsBeamEnd, IsLoose;
  }

  /** After a cell that is not written as a block there is no beam's end. */
  lemma NoEndAfter(t: Tables, b: Board, c: nat)
    requires Valid(t) && Square(b, |b.bg|) && b.w > 0 && c + 1 < |b.bg| && !IsBlock(t, b, c)
    ensures !OutcomeOf(t, b).ends[c + 1]
  {
    hide EntryAt, Output, LookAt;
  }

  /** A cell dealt with anchors nothing when the scan comes to it. */
  lemma HandledLater(t: Tables, b: Board, c: nat, q: nat)
    requires Valid(t) && Square(b, |b.bg|) && b.w > 0 && c <= q < |b.bg| && Scanned(t, b, c).src[q] == HANDLED
    ensures EntryAt(t, b, q).Nothing? && Scanned(t, b, q).src[q] == HANDLED
  {
    hide Valid, Choose, Scanned;
    Settled(t, b, c, q, q);
    HandledAnchorsNothing(t, b, Scanned(t, b, q), q);
  }

  /** What the choice of an entry says of the tiles there. */
  lemma ChosenTiles(t: Tables, b: Board, s: Cells, c: nat)
    requires Valid(t) && Square(b, |s.src|) && |s.src| == |s.dst| && c < |s.src|
    ensures var a := AnchorAt(t, b, s, c);
            && (a.AsSign? ==> ValidSign(t.signs[a.i]) && s.src[c] == t.signs[a.i].tiles[0] &&
                              c + 1 < |s.src| && s.src[c + 1] == t.signs[a.i].tiles[1])
            && (a.AsSmall? ==> ValidStamp(t.smalls[a.i]) && s.src[c] == t.smalls[a.i].tiles[0])
            && (a.AsWide? ==> ValidStamp(t.wides[a.i]) && s.src[c] == t.wides[a.i].tiles[0])
            && (!a.Nothing? ==> Free(s.src[c]))
  {
    var a := AnchorAt(t, b, s, c);
    if !Free(s.src[c]) {
      HandledAnchorsNothing(t, b, s, c);
    }
    if a.AsSign? {
      BestSignIsFirstBest(t.signs, s.src, b.w, c, b.attr[c], |t.signs|);
      assert ValidSign(t.signs[a.i]);
    }
  }

  /** Passing a cell that the reader finds blank. */
  lemma Advance(b: Board, h: nat, o: Outcome, r: Reading, s: Cells, s1: Cells, c: nat, e: nat)
    requires ForBoard(o, b) && |s.src| == |b.bg| && c < |b.bg| && e == c + 1 && s1.src == s.src
    requires Agrees(b, h, o, r, s, c)
    requires o.seen.attr[c] == MV_NONE && o.seen.fg[c] == NO_TILE
    requires Gone(o, s, c, c) || (o.seen.bg[c] == NO_TILE && (o.bytes[c] != NEXT || o.loose[c]))
    requires e < |b.bg| ==> !o.ends[e]
    ensures Agrees(b, h, o, r, s1, e)
  {
    hide BgAt, AttrAt, FgAt, FileAt, View;
    forall q | 0 <= q < |b.bg| ensures CellAgrees(b, o, r, s1, e, q) {
      assert CellAgrees(b, o, r, s, c, q);
    }
  }

  /** A cell that anchors nothing, or the end of a beam, for the reader as for the writer. */
  lemma QuietStep(t: Tables, b: Board, h: nat, r: Reading, x: nat, y: nat, c: nat)
    requires Ready(t, b, h) && x < b.w && y < h && c == y * b.w + x && c < |b.bg|
    requires Agrees(b, h, OutcomeOf(t, b), r, Scanned(t, b, c), c)
    requires EntryAt(t, b, c).Nothing? || IsEnd(t, b, c)
    ensures var p := y * (b.w + 1) + x + 1;
            ByteAt(r.f, p) == EMPTY as int || AnchorIn(t, r.f, p) == Nothing
    ensures Agrees(b, h, OutcomeOf(t, b), r, Scanned(t, b, c + 1), c + 1)
  {
    hide Ready, FileAt, Output, Scanned, CellAgrees, Seen, BeamTile, AnchorIn, EntryAt, CodeOf, LookAt, Valid;
    ReadyValid(t, b, h);
    var s, o, p := Scanned(t, b, c), OutcomeOf(t, b), y * (b.w + 1) + x + 1;
    FilePos(b.w, x, y);
    assert CellAgrees(b, o, r, s, c, c);
    CellByte(b, o, r, s, c, c);
    if EntryAt(t, b, c).Nothing? {
      NothingSeen(t, b, c);
      ScannedAfter(t, b, c);
    } else {
      EndSeen(t, b, c);
      BlockClaimsNothing(t, b, c);
      if r.f[p] == NEXT {
        NoEntryForNext(t, r.f, p) by { assert Ready(t, b, h) ==> Decodable(t) by { ReadyDecodable(t, b, h); } }
      }
    }
    if c + 1 < |b.bg| {
      NoEndAfter(t, b, c);
    }
    Advance(b, h, o, r, s, Scanned(t, b, c + 1), c, c + 1);
  }

  lemma ReadyDecodable(t: Tables, b: Board, h: nat)
    requires Ready(t, b, h)
    ensures Decodable(t)
  {
  }

  lemma NoEntryForNext(t: Tables, f: seq<Byte>, p: nat)
    requires Decodable(t) && p < |f| && f[p] == NEXT
    ensures AnchorIn(t, f, p) == Nothing
  {
    hide Valid;
    var a := AnchorIn(t, f, p);
    assert a.Nothing? || CodeOf(t, a) == NEXT;
  }

  /** A cell that anchors nothing: its byte is the filling, unless an entry has claimed it. */
  lemma NothingSeen(t: Tables, b: Board, c: nat)
    requires Valid(t) && Square(b, |b.bg|) && b.w > 0 && c < |b.bg| && EntryAt(t, b, c).Nothing?
    ensures var o := OutcomeOf(t, b);
            && o.seen.attr[c] == MV_NONE && o.seen.fg[c] == NO_TILE && !o.ends[c] && !o.loose[c]
            && (!Taken(t, b, c) ==> o.seen.bg[c] == NO_TILE && o.bytes[c] == EMPTY)
  {
    hide EntryAt, Output, Taken, OutcomeOf, IsBeamEnd;
    EntrySeen(t, b, c);
    NoEnd(t, b, c);
    if !Taken(t, b, c) {
      EmptyByte(t, b, c);
    }
  }

  /** The end of a beam: put as "next", and seen only with the beam. */
  lemma EndSeen(t: Tables, b: Board, c: nat)
    requires Valid(t) && Square(b, |b.bg|) && b.w > 0 && c < |b.bg| && IsEnd(t, b, c)
    ensures Scanned(t, b, c).src[c] != HANDLED
    ensures var o := OutcomeOf(t, b);
            && o.seen.attr[c] == MV_NONE && o.seen.fg[c] == NO_TILE && o.bytes[c] == NEXT
            && (o.ends[c] || (o.loose[c] && o.seen.bg[c] == NO_TILE))
  {
    hide EntryAt, Output, Scanned, BeamTile, CodeOf, SmallFor;
    AnchorByte(t, b, c);
    BlockIsFree(t, b, c);
  }

  /** Writing a block changes no tile that is still to be dealt with. */
  lemma BlockClaimsNothing(t: Tables, b: Board, c: nat)
    requires Valid(t) && Square(b, |b.bg|) && c < |b.bg| && EntryAt(t, b, c).AsBlock?
    ensures Scanned(t, b, c + 1).src == Scanned(t, b, c).src
  {
    hide Valid, Choose;
    AllClaimed(t, b, c);
  }

  /** The reading after an anchor's own tile, and its overlay tile if it has one, are inserted. */
  function WithAnchor(r: Reading, x: nat, y: nat, tile: int, flags: int, fg: int): Reading {
    var r1 := Insert(r, TileAt(x, y, tile, flags));
    if fg != NO_TILE then r1.(fg := r1.fg + [Item(x, y, fg)]) else r1
  }

  /** What is seen after that. */
  lemma AnchorSeen(r: Reading, x: nat, y: nat, tile: int, flags: int, fg: int, w: nat, q: nat)
    requires MV_NONE <= flags <= MV_DROP
    ensures var c, r' := y * w + x, WithAnchor(r, x, y, tile, flags, fg);
            && r'.f == r.f
            && BgAt(r', w, q) == (if q == c then Shown(tile) else BgAt(r, w, q))
            && AttrAt(r', w, q) == (if q == c then flags else AttrAt(r, w, q))
            && FgAt(r', w, q) == (if q == c && fg != NO_TILE then fg else FgAt(r, w, q))
  {
    hide BgAt, AttrAt, TileAt, Shown;
    var r1, r' := Insert(r, TileAt(x, y, tile, flags)), WithAnchor(r, x, y, tile, flags, fg);
    TileFacts(x, y, tile, flags, w);
    InsertSeen(r, TileAt(x, y, tile, flags), w, q);
    SameTilesSeen(r', r1, w, q);
  }

  lemma SameTilesSeen(r: Reading, r2: Reading, w: nat, q: nat)
    requires r.bg == r2.bg
    ensures BgAt(r, w, q) == BgAt(r2, w, q) && AttrAt(r, w, q) == AttrAt(r2, w, q)
  {
  }

  /** Inserting the anchor's tile where reader and writer agree. */
  lemma AnchorAgrees(b: Board, h: nat, o: Outcome, r: Reading, s: Cells, s1: Cells, x: nat, y: nat, c: nat, e: nat, tile: int)
    requires ForBoard(o, b) && |s.src| == |b.bg| && x < b.w && y < h && c == y * b.w + x && c < |b.bg| && e == c + 1
    requires Agrees(b, h, o, r, s, c) && s1.src == s.src
    requires Shown(tile) == o.seen.bg[c] && MV_NONE <= o.seen.attr[c] <= MV_DROP && o.bytes[c] != NEXT
    requires e < |b.bg| ==> !o.ends[e]
    ensures Agrees(b, h, o, WithAnchor(r, x, y, tile, o.seen.attr[c], o.seen.fg[c]), s1, e)
  {
    hide BgAt, AttrAt, FgAt, FileAt, View, WithAnchor, Shown;
    var r' := WithAnchor(r, x, y, tile, o.seen.attr[c], o.seen.fg[c]);
    forall q | 0 <= q < |b.bg| ensures CellAgrees(b, o, r', s1, e, q) {
      assert CellAgrees(b, o, r, s, c, q);
      AnchorSeen(r, x, y, tile, o.seen.attr[c], o.seen.fg[c], b.w, q);
    }
    AnchorInside(r, x, y, tile, o.seen.attr[c], o.seen.fg[c], b.w, h);
  }

  lemma AnchorInside(r: Reading, x: nat, y: nat, tile: int, flags: int, fg: int, w: nat, h: nat)
    requires TilesInside(r.bg, w, h) && Inside(r.fg, w, h) && x < w && y < h
    ensures var r' := WithAnchor(r, x, y, tile, flags, fg);
            TilesInside(r'.bg, w, h) && Inside(r'.fg, w, h) && r'.f == r.f
  {
  }

  /** What the reader finds at an anchor. */
  lemma AnchorFacts(t: Tables, b: Board, h: nat, r: Reading, x: nat, y: nat, c: nat)
    requires Ready(t, b, h) && x < b.w && y < h && c == y * b.w + x && c < |b.bg|
    requires Agrees(b, h, OutcomeOf(t, b), r, Scanned(t, b, c), c) && Direct(EntryAt(t, b, c))
    ensures c + 1 < |b.bg| ==> !OutcomeOf(t, b).ends[c + 1]
    ensures var s, a, p := Scanned(t, b, c), EntryAt(t, b, c), y * (b.w + 1) + x + 1;
            && Free(s.src[c]) && s.src[c] == b.bg[c] && MV_NONE <= FlagsOf(t, a) <= MV_DROP
            && p < |r.f| && ByteAt(r.f, p) != EMPTY as int && AnchorIn(t, r.f, p) == a
            && Output(t, b)[c] == CodeOf(t, a) && Output(t, b)[c] != NEXT
            && (a.AsSign? ==> x + 1 < b.w && c + 1 < |b.bg| && Output(t, b)[c + 1] == t.signs[a.i].code2
                              && Claims(Claiming(t, b, c, 0), b.w, c, PartsOf(t, a)[0]))
  {
    hide Valid, AnchorAt, CodeOf, PartsOf, FileAt, Output, ClaimParts, CellAgrees, Tidy, TidyAt, Scanned, PlaceOf, Seen, IsBeamEnd, FlagsOf;
    ReadyValid(t, b, h);
    NoEnd(t, b, c);
    if c + 1 < |b.bg| {
      NoEndAfter(t, b, c);
    }
    var s, a, p := Scanned(t, b, c), EntryAt(t, b, c), y * (b.w + 1) + x + 1;
    FilePos(b.w, x, y);
    ChosenTiles(t, b, s, c);
    AnchorByte(t, b, c);
    assert CellAgrees(b, OutcomeOf(t, b), r, s, c, c);
    CellByte(b, OutcomeOf(t, b), r, s, c, c);
    if a.AsSign? {
      SignSecond(t, b, h, r, x, y, c);
    }
    Decodes(t, a, r.f, p);
  }

  /** The second cell of a sign. */
  lemma SignSecond(t: Tables, b: Board, h: nat, r: Reading, x: nat, y: nat, c: nat)
    requires Ready(t, b, h) && x < b.w && y < h && c == y * b.w + x && c < |b.bg|
    requires Agrees(b, h, OutcomeOf(t, b), r, Scanned(t, b, c), c) && EntryAt(t, b, c).AsSign?
    ensures var a, p := EntryAt(t, b, c), y * (b.w + 1) + x + 1;
            && x + 1 < b.w && c + 1 < |b.bg| && Output(t, b)[c + 1] == t.signs[a.i].code2
            && p + 1 < |r.f| && r.f[p + 1] == t.signs[a.i].code2
            && |PartsOf(t, a)| > 0 && Claims(Claiming(t, b, c, 0), b.w, c, PartsOf(t, a)[0])
  {
    hide AnchorAt, CodeOf, FileAt, Output, CellAgrees, Tidy, TidyAt, Scanned, Seen, IsBeamEnd;
    var s, a := Scanned(t, b, c), EntryAt(t, b, c);
    ChosenTiles(t, b, s, c);
    assert ValidSign(t.signs[a.i]);
    SignParts(t, b, x, y, 0);
    PartByte(t, b, c, 0);
    FilePos(b.w, x + 1, y);
    NoEndAfter(t, b, c);
    assert CellAgrees(b, OutcomeOf(t, b), r, s, c, c + 1);
    CellByte(b, OutcomeOf(t, b), r, s, c, c + 1);
  }

  lemma AllClaimed(t: Tables, b: Board, c: nat)
    requires Valid(t) && Square(b, |b.bg|) && c < |b.bg| && !EntryAt(t, b, c).Nothing?
    ensures Scanned(t, b, c + 1) == Claiming(t, b, c, |PartsOf(t, EntryAt(t, b, c))|)
    ensures Claiming(t, b, c, 0).src == Scanned(t, b, c).src
  {
    hide Valid, Choose, PartsOf, CodeOf;
  }

  lemma NextRow(w: nat, y: nat)
    ensures (y + 1) * w == y * w + w
  {
  }

  lemma NoMarkLeft(b: Board, h: nat, o: Outcome, r: Reading, s: Cells, c: nat, q: nat)
    requires ForBoard(o, b) && |s.src| == |b.bg| && q < c <= |b.bg|
    requires Agrees(b, h, o, r, s, c) && !o.loose[q]
    ensures FileAt(b.w, q) < |r.f| && r.f[FileAt(b.w, q)] != NEXT
  {
    assert CellAgrees(b, o, r, s, c, q);
  }

  /** No vine runs on above: every cell marked as belonging to an earlier one has been taken. */
  lemma NothingAbove(b: Board, h: nat, o: Outcome, r: Reading, s: Cells, x: nat, y: nat, c: nat, mid: int)
    requires ForBoard(o, b) && |s.src| == |b.bg| && x < b.w && y < h && c == y * b.w + x && c < |b.bg|
    requires Agrees(b, h, o, r, s, c) && (b.w <= c ==> !o.loose[c - b.w])
    ensures VineAbove(r.f, b.w, x, y, y * (b.w + 1) + x + 1, 1, mid) == []
  {
    hide CellAgrees, FileAt;
    if y > 0 {
      var q, above := (y - 1) * b.w + x, (y - 1) * (b.w + 1) + x + 1;
      NextRow(b.w, y - 1);
      NextRow(b.w + 1, y - 1);
      FilePos(b.w, x, y - 1);
      NoMarkLeft(b, h, o, r, s, c, q);
    }
  }

  /** The byte below a vine, for the reader and in the writer's output. */
  lemma VineBelow(b: Board, h: nat, o: Outcome, r: Reading, s: Cells, x: nat, y: nat, c: nat, code: Byte)
    requires ForBoard(o, b) && |s.src| == |b.bg| && x < b.w && y < h && c == y * b.w + x && c < |b.bg|
    requires Agrees(b, h, o, r, s, c) && code != NEXT && code != EMPTY
    ensures ByteAt(r.f, y * (b.w + 1) + x + 1 + (b.w + 1)) == code as int <==> c + b.w < |o.bytes| && o.bytes[c + b.w] == code
  {
    hide CellAgrees, FileAt;
    PartPlace(b.w, h, x, y, 0, 1);
    if c + b.w < |b.bg| {
      CellByte(b, o, r, s, c, c + b.w) by { assert CellAgrees(b, o, r, s, c, c + b.w); }
    }
  }

  lemma VineAgrees(t: Tables, b: Board, h: nat, r: Reading, x: nat, y: nat, c: nat)
    requires Ready(t, b, h) && x < b.w && y < h && c == y * b.w + x && c < |b.bg|
    requires Agrees(b, h, OutcomeOf(t, b), r, Scanned(t, b, c), c) && EntryAt(t, b, c).AsVine?
    ensures Agrees(b, h, OutcomeOf(t, b), Anchored(t, b.w, h, r, x, y, y * (b.w + 1) + x + 1, EntryAt(t, b, c)), Scanned(t, b, c + 1), c + 1)
  {
    hide Valid, AnchorAt, Agrees, Output, ClaimParts, Scanned, TileAt, VineAbove, Free, Seen, IsBeamEnd, IsLoose, Shown;
    ReadyValid(t, b, h);
    var s, a, p := Scanned(t, b, c), EntryAt(t, b, c), y * (b.w + 1) + x + 1;
    var m := t.vines[a.i];
    EntrySeen(t, b, c);
    var tile := VineTile(b, Output(t, b), m, c);
    AnchorFacts(t, b, h, r, x, y, c);
    assert TidyAt(t, b, c);
    NothingAbove(b, h, OutcomeOf(t, b), r, s, x, y, c, m.mid);
    VineBelow(b, h, OutcomeOf(t, b), r, s, x, y, c, m.code);
    AllClaimed(t, b, c);
    NothingHasNoParts(t, a);
    AnchorAgrees(b, h, OutcomeOf(t, b), r, s, Claiming(t, b, c, 0), x, y, c, c + 1, tile);
    AddNothing(r.bg + [TileAt(x, y, tile, m.flags)]);
  }

  /** Taking parts leaves the overlay alone. */
  lemma {:induction false} OverlayApart(r: Reading, g: seq<Item>, w: nat, h: nat, x: nat, y: nat, p: nat, parts: seq<Part>, n: nat)
    requires n <= |parts|
    ensures TakeParts(r, w, h, x, y, p, parts, 0, n).fg == r.fg
    ensures TakeParts(r.(fg := g), w, h, x, y, p, parts, 0, n) == TakeParts(r, w, h, x, y, p, parts, 0, n).(fg := g)
  {
    if n > 0 {
      OverlayApart(r, g, w, h, x, y, p, parts, n - 1);
    }
  }

  lemma StampAgrees(t: Tables, b: Board, h: nat, r: Reading, x: nat, y: nat, c: nat)
    requires Ready(t, b, h) && x < b.w && y < h && c == y * b.w + x && c < |b.bg|
    requires Agrees(b, h, OutcomeOf(t, b), r, Scanned(t, b, c), c)
    requires EntryAt(t, b, c).AsSmall? || EntryAt(t, b, c).AsWide?
    ensures Agrees(b, h, OutcomeOf(t, b), Anchored(t, b.w, h, r, x, y, y * (b.w + 1) + x + 1, EntryAt(t, b, c)), Scanned(t, b, c + 1), c + 1)
  {
    hide Valid, AnchorAt, Agrees, Output, ClaimParts, Scanned, TileAt, Free, PartsOf, TakeParts, Seen, IsBeamEnd, IsLoose, Shown;
    ReadyValid(t, b, h);
    var s, a, p := Scanned(t, b, c), EntryAt(t, b, c), y * (b.w + 1) + x + 1;
    AnchorFacts(t, b, h, r, x, y, c);
    ChosenTiles(t, b, s, c);
    ValidEntry(t, a);
    EntrySeen(t, b, c);
    AllClaimed(t, b, c);
    var m := if a.AsSmall? then t.smalls[a.i] else t.wides[a.i];
    AnchorAgrees(b, h, OutcomeOf(t, b), r, s, Claiming(t, b, c, 0), x, y, c, c + 1, b.bg[c]);
    var r1 := Insert(r, TileAt(x, y, b.bg[c], m.flags));
    var r2 := WithAnchor(r, x, y, b.bg[c], m.flags, OverlayOf(t, a));
    OverlayApart(r1, r2.fg, b.w, h, x, y, p, PartsOf(t, a), STAMP_TILES - 1);
    PartsStep(t, b, h, r2, x, y, c, c + 1, 0, STAMP_TILES - 1);
  }

  /** Inserting a sign's second tile, where the writer put the sign's second code. */
  lemma SecondAgrees(b: Board, h: nat, o: Outcome, r: Reading, s: Cells, s1: Cells, x: nat, y: nat, c: nat, e: nat, e1: nat)
    requires ForBoard(o, b) && |s.src| == |b.bg| && x < b.w && y < h && c == y * b.w + x && c < |b.bg| && e == c && e1 == c + 1
    requires Agrees(b, h, o, r, s, e) && Free(s.src[c]) && s1.src == s.src[c := HANDLED]
    requires Shown(b.bg[c]) == o.seen.bg[c] && o.seen.attr[c] == MV_NONE && o.seen.fg[c] == NO_TILE && o.bytes[c] != NEXT
    requires !o.ends[c] && (e1 < |b.bg| ==> !o.ends[e1])
    ensures Agrees(b, h, o, WithAnchor(r, x, y, b.bg[c], MV_NONE, NO_TILE), s1, e1)
  {
    hide BgAt, AttrAt, FgAt, FileAt, WithAnchor, Shown;
    var r' := WithAnchor(r, x, y, b.bg[c], MV_NONE, NO_TILE);
    forall q | 0 <= q < |b.bg| ensures CellAgrees(b, o, r', s1, e1, q) {
      assert CellAgrees(b, o, r, s, e, q);
      AnchorSeen(r, x, y, b.bg[c], MV_NONE, NO_TILE, b.w, q);
    }
    AnchorInside(r, x, y, b.bg[c], MV_NONE, NO_TILE, b.w, h);
  }

  /** The cell after a sign's first one has been dealt with when the scan comes to it. */
  lemma SecondIsQuiet(t: Tables, b: Board, h: nat, c: nat)
    requires Ready(t, b, h) && c + 1 < |b.bg| && Scanned(t, b, c + 1).src[c + 1] == HANDLED
    ensures EntryAt(t, b, c + 1).Nothing? && Scanned(t, b, c + 2) == Scanned(t, b, c + 1)
  {
    hide Valid, Choose, Scanned;
    ReadyValid(t, b, h);
    HandledAnchorsNothing(t, b, Scanned(t, b, c + 1), c + 1);
    ScannedAfter(t, b, c + 1);
  }

  lemma ScannedAfter(t: Tables, b: Board, c: nat)
    requires Valid(t) && Square(b, |b.bg|) && c < |b.bg|
    ensures EntryAt(t, b, c).Nothing? ==> Scanned(t, b, c + 1) == Scanned(t, b, c)
  {
    hide Valid, Choose, ClaimParts;
  }

  lemma SignAgrees(t: Tables, b: Board, h: nat, r: Reading, x: nat, y: nat, c: nat)
    requires Ready(t, b, h) && x < b.w && y < h && c == y * b.w + x && c < |b.bg|
    requires Agrees(b, h, OutcomeOf(t, b), r, Scanned(t, b, c), c) && EntryAt(t, b, c).AsSign?
    ensures x + 1 < b.w && c + 2 <= |b.bg|
    ensures Agrees(b, h, OutcomeOf(t, b), Anchored(t, b.w, h, r, x, y, y * (b.w + 1) + x + 1, EntryAt(t, b, c)), Scanned(t, b, c + 2), c + 2)
  {
    hide Valid, AnchorAt, Agrees, Output, ClaimParts, Scanned, TileAt, PartsOf, TakeParts, Seen, IsBeamEnd, IsLoose, Shown;
    ReadyValid(t, b, h);
    var s, a := Scanned(t, b, c), EntryAt(t, b, c);
    AnchorFacts(t, b, h, r, x, y, c);
    ChosenTiles(t, b, s, c);
    ValidEntry(t, a);
    EntrySeen(t, b, c);
    AllClaimed(t, b, c);
    FirstPart(t, b, c);
    PartByte(t, b, c, 0);
    SecondIsQuiet(t, b, h, c);
    ScanFacts(t, b, c);
    TakenTile(t, b, c + 1);
    if c + 2 < |b.bg| {
      NoEndAfter(t, b, c + 1);
    }
    AnchorAgrees(b, h, OutcomeOf(t, b), r, s, Claiming(t, b, c, 0), x, y, c, c + 1, b.bg[c]);
    var r1 := WithAnchor(r, x, y, b.bg[c], t.signs[a.i].flags, NO_TILE);
    SecondAgrees(b, h, OutcomeOf(t, b), r1, Claiming(t, b, c, 0), Claiming(t, b, c, 1), x + 1, y, c + 1, c + 1, c + 2);
    var r2 := WithAnchor(r1, x + 1, y, b.bg[c + 1], MV_NONE, NO_TILE);
    PartsStep(t, b, h, r2, x, y, c, c + 2, 1, SIGN_TILES - 1);
  }

  /** Claiming the second cell of a sign. */
  lemma FirstPart(t: Tables, b: Board, c: nat)
    requires Valid(t) && Square(b, |b.bg|) && c < |b.bg| && EntryAt(t, b, c).AsSign?
    ensures |PartsOf(t, EntryAt(t, b, c))| > 0 && PlaceOf(PartsOf(t, EntryAt(t, b, c))[0], b.w, c) == c + 1
    ensures PartsOf(t, EntryAt(t, b, c))[0].put == t.signs[EntryAt(t, b, c).i].code2
    ensures Claims(Claiming(t, b, c, 0), b.w, c, PartsOf(t, EntryAt(t, b, c))[0]) ==>
            c + 1 < |b.bg| && Claiming(t, b, c, 1).src == Scanned(t, b, c).src[c + 1 := HANDLED]
  {
    hide Choose, Scanned;
    var a := EntryAt(t, b, c);
    assert ValidSign(t.signs[a.i]);
    assert Claiming(t, b, c, 1) == ClaimPart(Claiming(t, b, c, 0), b.w, c, PartsOf(t, a)[0]);
  }

  /** What the reader finds at a block. */
  lemma BlockFacts(t: Tables, b: Board, h: nat, r: Reading, x: nat, y: nat, c: nat)
    requires Ready(t, b, h) && x < b.w && y < h && c == y * b.w + x && c < |b.bg|
    requires Agrees(b, h, OutcomeOf(t, b), r, Scanned(t, b, c), c) && IsBlock(t, b, c)
    ensures TidyBlock(t, b, c)
    ensures var i, p := SmallFor(t, b, c), y * (b.w + 1) + x + 1;
            && p < |r.f| && ByteAt(r.f, p) != EMPTY as int && AnchorIn(t, r.f, p) == AsSmall(i)
            && MV_NONE <= t.smalls[i].flags <= MV_DROP && Output(t, b)[c] != NEXT
            && OutcomeOf(t, b).seen.bg[c] == Shown(t.smalls[i].tiles[0])
            && OutcomeOf(t, b).seen.attr[c] == t.smalls[i].flags && OutcomeOf(t, b).seen.fg[c] == t.smalls[i].fg
  {
    hide Valid, EntryAt, CodeOf, FileAt, Output, CellAgrees, TidyBlock, Scanned, LookAt, BeamTile, Shown;
    ReadyValid(t, b, h);
    var s, p := Scanned(t, b, c), y * (b.w + 1) + x + 1;
    assert TidyAt(t, b, c);
    BlockEntry(t, b, c);
    EntrySeen(t, b, c);
    FilePos(b.w, x, y);
    AnchorByte(t, b, c);
    ChosenTiles(t, b, s, c) by { hide Ready; }
    BlockIsFree(t, b, c);
    assert CellAgrees(b, OutcomeOf(t, b), r, s, c, c);
    CellByte(b, OutcomeOf(t, b), r, s, c, c);
    Decodes(t, AsSmall(SmallFor(t, b, c)), r.f, p);
  }

  lemma BlockIsFree(t: Tables, b: Board, c: nat)
    requires Valid(t) && Square(b, |b.bg|) && c < |b.bg| && !EntryAt(t, b, c).Nothing?
    ensures Scanned(t, b, c).src[c] != HANDLED
  {
    hide Valid, Choose, Scanned;
    if Scanned(t, b, c).src[c] == HANDLED {
      HandledAnchorsNothing(t, b, Scanned(t, b, c), c);
    }
  }

  /** The reader's entry for a block: its code is the block's, and its first tile is what is shown. */
  lemma BlockEntry(t: Tables, b: Board, c: nat)
    requires Decodable(t) && Valid(t) && Square(b, |b.bg|) && b.w > 0 && c < |b.bg| && IsBlock(t, b, c) && TidyBlock(t, b, c)
    ensures var i := SmallFor(t, b, c);
            && i < |t.smalls| && CodeOf(t, AsSmall(i)) == CodeOf(t, EntryAt(t, b, c)) != EMPTY
            && LookAt(t, b, c) == Look(Shown(t.smalls[i].tiles[0]), t.smalls[i].flags, t.smalls[i].fg)
            && MV_NONE <= t.smalls[i].flags <= MV_DROP
  {
    hide EntryAt, Output, Valid, BeamTile, Scanned;
    var i := SmallFor(t, b, c);
    assert InTables(t, AsSmall(i)) && Direct(AsSmall(i));
    assert FlagsOf(t, AsSmall(i)) == t.smalls[i].flags;
  }

  /** Passing a beam's end on to the block on its left: the relation without and with that end. */
  function WithoutEnd(o: Outcome, e: nat): (r: Outcome)
    requires e < |o.ends|
    ensures |r.ends| == |o.ends|
  {
    o.(ends := o.ends[e := false])
  }

  lemma EndNotYet(b: Board, h: nat, o: Outcome, r: Reading, s: Cells, c: nat, e: nat)
    requires ForBoard(o, b) && |s.src| == |b.bg| && e == c + 1 && e < |b.bg| && Agrees(b, h, o, r, s, c)
    ensures Agrees(b, h, WithoutEnd(o, e), r, s, c)
  {
    hide BgAt, AttrAt, FgAt, FileAt, View;
    forall q | 0 <= q < |b.bg| ensures CellAgrees(b, WithoutEnd(o, e), r, s, c, q) {
      assert CellAgrees(b, o, r, s, c, q);
    }
  }

  /** Taking the end of a beam. */
  lemma EndTaken(b: Board, h: nat, o: Outcome, r: Reading, s: Cells, e: nat, it: Tile)
    requires ForBoard(o, b) && |s.src| == |b.bg| && e < |b.bg| && Agrees(b, h, WithoutEnd(o, e), r, s, e)
    requires o.ends[e] && o.bytes[e] == NEXT && s.src[e] != HANDLED
    requires CellOf(it.at, b.w) == e && it.at.code == o.seen.bg[e] && FlagsFor(it.move) == MV_NONE
    requires it.at.x < b.w && it.at.y < h
    ensures FileAt(b.w, e) < |r.f|
    ensures Agrees(b, h, o, Reading(r.f[FileAt(b.w, e) := EMPTY], r.bg + [it], r.fg), s, e)
  {
    hide BgAt, AttrAt, FgAt, FileAt, RowAt;
    assert CellAgrees(b, WithoutEnd(o, e), r, s, e, e);
    var r' := Reading(r.f[FileAt(b.w, e) := EMPTY], r.bg + [it], r.fg);
    MarksKept(r.f, b.w, h, e, EMPTY);
    forall q | 0 <= q < |b.bg| ensures CellAgrees(b, o, r', s, e, q) {
      assert CellAgrees(b, WithoutEnd(o, e), r, s, e, q);
      InsertSeen(r, it, b.w, q);
      SameSeen(r', Insert(r, it), b.w, q);
      if q != e {
        OtherPlace(b.w, q, e);
      }
    }
  }

  /** The parts of an entry of at most two cells. */
  lemma TwoCells(t: Tables, i: nat, r: Reading, w: nat, h: nat, x: nat, y: nat, p: nat)
    requires Valid(t) && i < |t.smalls| && ValidStamp(t.smalls[i])
    requires t.smalls[i].tiles[2] == NO_TILE && t.smalls[i].tiles[3] == NO_TILE
    ensures |PartsOf(t, AsSmall(i))| == STAMP_TILES - 1
    ensures TakeParts(r, w, h, x, y, p, PartsOf(t, AsSmall(i)), 0, STAMP_TILES - 1) ==
            if t.smalls[i].tiles[1] != NO_TILE && 1 < w && 0 < h && p + 1 < |r.f| && r.f[p + 1] == NEXT
            then Reading(r.f[p + 1 := EMPTY], r.bg + [TileAt(x + 1, y, t.smalls[i].tiles[1], MV_NONE)], r.fg)
            else r
  {
    hide TileAt;
    var parts := PartsOf(t, AsSmall(i));
    assert parts[0] == Part(1, 0, t.smalls[i].tiles[1], NEXT) && parts[1].tile == NO_TILE && parts[2].tile == NO_TILE;
    assert TakeParts(r, w, h, x, y, p, parts, 0, 0) == r;
    assert TakeParts(r, w, h, x, y, p, parts, 0, 1) == TakePart(r, w, h, x, y, p, parts[0]);
    assert TakeParts(r, w, h, x, y, p, parts, 0, 2) == TakeParts(r, w, h, x, y, p, parts, 0, 1);
  }

  /** A block, with the end of a beam if it has one to its right. */
  lemma BlockAgrees(t: Tables, b: Board, h: nat, r: Reading, x: nat, y: nat, c: nat)
    requires Ready(t, b, h) && x < b.w && y < h && c == y * b.w + x && c < |b.bg|
    requires Agrees(b, h, OutcomeOf(t, b), r, Scanned(t, b, c), c) && IsBlock(t, b, c)
    ensures SmallFor(t, b, c) < |t.smalls|
    ensures Agrees(b, h, OutcomeOf(t, b),
                   Anchored(t, b.w, h, r, x, y, y * (b.w + 1) + x + 1, AsSmall(SmallFor(t, b, c))), Scanned(t, b, c + 1), c + 1)
  {
    hide Valid, EntryAt, CodeOf, FileAt, Agrees, Output, Scanned, Shown, TileAt, PartsOf, TakeParts, TidyBlock, SmallFor, Seen;
    ReadyValid(t, b, h);
    ReadySize(t, b, h);
    BlockFacts(t, b, h, r, x, y, c);
    BlockShape(t, b, c);
    BlockClaimsNothing(t, b, c);
    var i, p := SmallFor(t, b, c), y * (b.w + 1) + x + 1;
    var m, o, s1 := t.smalls[i], OutcomeOf(t, b), Scanned(t, b, c + 1);
    var r1, r2 := Insert(r, TileAt(x, y, m.tiles[0], m.flags)), WithAnchor(r, x, y, m.tiles[0], m.flags, m.fg);
    TwoCells(t, i, r2, b.w, h, x, y, p);
    OverlayApart(r1, r2.fg, b.w, h, x, y, p, PartsOf(t, AsSmall(i)), STAMP_TILES - 1);
    AnchorInside(r, x, y, m.tiles[0], m.flags, m.fg, b.w, h) by { AgreesInside(b, h, o, r, Scanned(t, b, c), c); }
    if c + 1 < |b.bg| && o.ends[c + 1] {
      EndFacts(t, b, h, r, x, y, c);
      EndNotYet(b, h, o, r, Scanned(t, b, c), c, c + 1);
      AnchorAgrees(b, h, WithoutEnd(o, c + 1), r, Scanned(t, b, c), s1, x, y, c, c + 1, m.tiles[0]);
      TileFacts(x + 1, y, m.tiles[1], MV_NONE, b.w);
      EndTaken(b, h, o, r2, s1, c + 1, TileAt(x + 1, y, m.tiles[1], MV_NONE));
    } else {
      AnchorAgrees(b, h, o, r, Scanned(t, b, c), s1, x, y, c, c + 1, m.tiles[0]);
      NothingToTake(t, b, h, r, x, y, c);
    }
  }

  lemma BlockShape(t: Tables, b: Board, c: nat)
    requires Valid(t) && Square(b, |b.bg|) && b.w > 0 && c < |b.bg| && TidyBlock(t, b, c)
    ensures var i := SmallFor(t, b, c);
            && i < |t.smalls| && ValidStamp(t.smalls[i])
            && t.smalls[i].tiles[2] == NO_TILE && t.smalls[i].tiles[3] == NO_TILE
  {
    hide EntryAt, Output, Scanned;
  }

  lemma AgreesInside(b: Board, h: nat, o: Outcome, r: Reading, s: Cells, c: nat)
    requires ForBoard(o, b) && |s.src| == |b.bg| && Agrees(b, h, o, r, s, c)
    ensures TilesInside(r.bg, b.w, h) && Inside(r.fg, b.w, h)
  {
  }

  /** The end of a beam, seen from the block on its left. */
  lemma EndFacts(t: Tables, b: Board, h: nat, r: Reading, x: nat, y: nat, c: nat)
    requires Ready(t, b, h) && x < b.w && y < h && c == y * b.w + x && c + 1 < |b.bg| && IsBeamEnd(t, b, c + 1)
    requires Agrees(b, h, OutcomeOf(t, b), r, Scanned(t, b, c), c)
    ensures SmallFor(t, b, c) < |t.smalls| && ValidStamp(t.smalls[SmallFor(t, b, c)])
    ensures t.smalls[SmallFor(t, b, c)].tiles[1] != NO_TILE && x + 1 < b.w
    ensures OutcomeOf(t, b).seen.bg[c + 1] == Shown(t.smalls[SmallFor(t, b, c)].tiles[1])
    ensures Output(t, b)[c + 1] == NEXT && Scanned(t, b, c).src[c + 1] != HANDLED
    ensures var p := y * (b.w + 1) + x + 1;
            p + 1 == FileAt(b.w, c + 1) < |r.f| && r.f[p + 1] == NEXT
  {
    hide Valid, EntryAt, CodeOf, FileAt, Output, CellAgrees, Scanned, Shown, SmallFor;
    ReadyValid(t, b, h);
    if Scanned(t, b, c).src[c + 1] == HANDLED {
      HandledLater(t, b, c, c + 1);
    }
    AnchorByte(t, b, c + 1);
    InRow(b.w, x, y);
    FilePos(b.w, x + 1, y);
    assert CellAgrees(b, OutcomeOf(t, b), r, Scanned(t, b, c), c, c + 1);
    CellByte(b, OutcomeOf(t, b), r, Scanned(t, b, c), c, c + 1);
  }

  /** The next cell starts a row exactly if this one ends one. */
  lemma InRow(w: nat, x: nat, y: nat)
    requires x < w
    ensures (y * w + x) % w == x && ((y * w + x + 1) % w > 0 ==> x + 1 < w)
  {
    CellUnique(x, y, w);
    if x + 1 == w {
      NextRow(w, y);
      CellUnique(0, y + 1, w);
    }
  }

  /** Without a beam's end to its right, a block takes nothing. */
  lemma NothingToTake(t: Tables, b: Board, h: nat, r: Reading, x: nat, y: nat, c: nat)
    requires Ready(t, b, h) && x < b.w && y < h && c == y * b.w + x && c < |b.bg| && TidyBlock(t, b, c)
    requires c + 1 < |b.bg| ==> !IsBeamEnd(t, b, c + 1)
    requires Agrees(b, h, OutcomeOf(t, b), r, Scanned(t, b, c), c)
    ensures var i, p := SmallFor(t, b, c), y * (b.w + 1) + x + 1;
            t.smalls[i].tiles[1] != NO_TILE ==> p + 1 >= |r.f| || r.f[p + 1] != NEXT
  {
    hide Valid, EntryAt, CodeOf, FileAt, Output, CellAgrees, Scanned, SmallFor, IsBeamEnd;
    ReadyValid(t, b, h);
    ReadySize(t, b, h);
    InRow(b.w, x, y);
    if t.smalls[SmallFor(t, b, c)].tiles[1] == NO_TILE {
    } else if x + 1 == b.w {
      RowLength(b, h, OutcomeOf(t, b), r, Scanned(t, b, c), x, y, c);
    } else {
      CellBound(x + 1, y, b.w, h);
      FilePos(b.w, x + 1, y);
      assert CellAgrees(b, OutcomeOf(t, b), r, Scanned(t, b, c), c, c + 1);
      CellByte(b, OutcomeOf(t, b), r, Scanned(t, b, c), c, c + 1);
    }
  }

  /** After the last cell of a row the reader meets the length of the next one. */
  lemma RowLength(b: Board, h: nat, o: Outcome, r: Reading, s: Cells, x: nat, y: nat, c: nat)
    requires ForBoard(o, b) && |s.src| == |b.bg| && Agrees(b, h, o, r, s, c) && x + 1 == b.w && y < h
    ensures var p := y * (b.w + 1) + x + 1;
            p + 1 < |r.f| ==> r.f[p + 1] as int == b.w
  {
    hide CellAgrees;
    var p := y * (b.w + 1) + x + 1;
    assert p + 1 == RowAt(b.w, y + 1);
    assert y + 1 == h ==> p + 1 == |r.f|;
  }

  /** Reading the rest of the file brings the reader to where the writer ended. */
  lemma {:induction false} Simulates(t: Tables, b: Board, h: nat, r: Reading, x: nat, y: nat, c: nat)
    requires Ready(t, b, h) && x <= b.w && y <= h && (y < h || x == 0) && c == y * b.w + x && c <= |b.bg|
    requires Agrees(b, h, OutcomeOf(t, b), r, Scanned(t, b, c), c)
    ensures Agrees(b, h, OutcomeOf(t, b), ReadFrom(t, b.w, h, r, x, y, y * (b.w + 1) + x + 1), Scanned(t, b, |b.bg|), |b.bg|)
    decreases h - y, b.w - x
  {
    hide Ready, Agrees, OutcomeOf, Scanned, EntryAt, Anchored, ByteAt, AnchorIn, ReadFrom, IsEnd, IsBlock;
    var p := y * (b.w + 1) + x + 1;
    ReadyValid(t, b, h);
    RowStep(t, b.w, h, r, x, y, p);
    if y == h {
      assert c == |b.bg| by { ReadySize(t, b, h); }
    } else if x == b.w {
      RowsApart(y, y + 1, b.w);
      assert (y + 1) * b.w == y * b.w + b.w && (y + 1) * (b.w + 1) == y * (b.w + 1) + (b.w + 1);
      Simulates(t, b, h, r, 0, y + 1, c);
    } else {
      ReadySize(t, b, h);
      CellBound(x, y, b.w, h);
      CellStep(t, b.w, h, r, x, y, p);
      var a := EntryAt(t, b, c);
      BlockOrEnd(t, b, c);
      if a.Nothing? || IsEnd(t, b, c) {
        QuietStep(t, b, h, r, x, y, c);
        NothingRead(t, b.w, h, r, x, y, p);
        Simulates(t, b, h, r, x + 1, y, c + 1);
      } else if IsBlock(t, b, c) {
        BlockFacts(t, b, h, r, x, y, c);
        BlockAgrees(t, b, h, r, x, y, c);
        Simulates(t, b, h, Anchored(t, b.w, h, r, x, y, p, AsSmall(SmallFor(t, b, c))), x + 1, y, c + 1);
      } else {
        AnchorFacts(t, b, h, r, x, y, c);
        var r1 := Anchored(t, b.w, h, r, x, y, p, a);
        if a.AsSign? {
          SignAgrees(t, b, h, r, x, y, c);
          Simulates(t, b, h, r1, x + 2, y, c + 2);
        } else {
          if a.AsVine? {
            VineAgrees(t, b, h, r, x, y, c);
          } else {
            StampAgrees(t, b, h, r, x, y, c);
          }
          Simulates(t, b, h, r1, x + 1, y, c + 1);
        }
      }
    }
  }

  lemma BlockOrEnd(t: Tables, b: Board, c: nat)
    requires Valid(t) && Square(b, |b.bg|) && c < |b.bg|
    ensures EntryAt(t, b, c).AsBlock? ==> IsBlock(t, b, c) || IsEnd(t, b, c)
  {
    hide EntryAt;
  }

  lemma NothingRead(t: Tables, w: nat, h: nat, r: Reading, x: nat, y: nat, p: nat)
    requires Valid(t)
    ensures Anchored(t, w, h, r, x, y, p, Nothing) == r
  {
  }

  lemma ReadySize(t: Tables, b: Board, h: nat)
    requires Ready(t, b, h)
    ensures b.w > 0 && |b.bg| == b.w * h && h * b.w == |b.bg| && Square(b, |b.bg|)
  {
  }

  lemma RowStep(t: Tables, w: nat, h: nat, r: Reading, x: nat, y: nat, p: nat)
    requires Valid(t)
    ensures y >= h ==> ReadFrom(t, w, h, r, x, y, p) == r
    ensures y < h && x >= w ==> ReadFrom(t, w, h, r, x, y, p) == ReadFrom(t, w, h, r, 0, y + 1, p + 1)
  {
  }

  /** Before anything is read, reader and writer agree. */
  lemma StartAgrees(t: Tables, b: Board, h: nat)
    requires Ready(t, b, h) && b.w < 0x100
    ensures |b.bg| == b.w * h
    ensures Agrees(b, h, OutcomeOf(t, b), Reading(Rows(Output(t, b), b.w as Byte, h), [], []), Scanned(t, b, 0), 0)
  {
    hide Valid, Output, FileAt, Rows, Seen, IsBeamEnd, EntryAt;
    var r := Reading(Rows(Output(t, b), b.w as Byte, h), [], []);
    NoEndAtStart(t, b);
    RowsAreMarked(Output(t, b), b.w as Byte, h);
    forall q | 0 <= q < |b.bg| ensures CellAgrees(b, OutcomeOf(t, b), r, Scanned(t, b, 0), 0, q) {
      RowsHoldCell(Output(t, b), b.w as Byte, h, q);
      if b.bg[q] == HANDLED {
        ForeignByte(t, b, q);
        NothingSeen(t, b, q);
      }
    }
  }

  lemma NoEndAtStart(t: Tables, b: Board)
    requires Valid(t) && Square(b, |b.bg|) && b.w > 0
    ensures b.bg != [] ==> !OutcomeOf(t, b).ends[0]
  {
    hide EntryAt, Output, LookAt;
  }

  lemma RowsHoldCell(dst: seq<Byte>, w: Byte, h: nat, q: nat)
    requires w > 0 && |dst| == w as nat * h && q < |dst|
    ensures FileAt(w as nat, q) < |Rows(dst, w, h)| == h * (w as nat + 1) && Rows(dst, w, h)[FileAt(w as nat, q)] == dst[q]
  {
    hide Rows;
    var x, y := q % w as nat, q / w as nat;
    CellInverse(q, w as nat);
    FileInside(w as nat, h, q);
    FilePos(w as nat, x, y);
    RowsHold(dst, w, h, x, y, q, FileAt(w as nat, q));
  }

  /**
   * Opening the written file of a tidy board shows what the reader makes of each cell on its
   * own: walls, beams and platforms in the colour that the reader has for them, vines ending
   * where the file has them end, and nothing of what the tables do not know. So the board comes
   * back as it was if and only if every cell does. The reader lists the tiles of one entry
   * together.
   */
  lemma RoundTrip(t: Tables, b: Board, h: nat)
    requires Ready(t, b, h) && b.w < 0x100
    ensures |b.bg| == b.w * h
    ensures var r := Meaning(t, b.w, Rows(Output(t, b), b.w as Byte, h));
            && Writable(Map(b.w, h, r.bg, r.fg))
            && BoardOf(Map(b.w, h, r.bg, r.fg)) == Seen(t, b)
            && (BoardOf(Map(b.w, h, r.bg, r.fg)) == b <==> forall c :: 0 <= c < |b.bg| ==> Kept(t, b, c))
  {
    hide Valid, Output, Rows, Scanned, BoardOf, Agrees, Tidy, Writable, Kept, Seen;
    var f := Rows(Output(t, b), b.w as Byte, h);
    assert |f| / (b.w + 1) == h by { RowCount(b.w, h); }
    StartAgrees(t, b, h);
    Simulates(t, b, h, Reading(f, [], []), 0, 0, 0);
    AgreedBoard(t, b, h, Meaning(t, b.w, f), Scanned(t, b, |b.bg|));
    SameBoard(t, b);
  }

  /** The board is seen as it is if and only if every cell is one that comes back. */
  lemma SameBoard(t: Tables, b: Board)
    requires Valid(t) && Square(b, |b.bg|) && b.w > 0
    ensures Seen(t, b) == b <==> forall c :: 0 <= c < |b.bg| ==> Kept(t, b, c)
  {
    hide Valid, LookAt, Kept, OutcomeOf;
    var r := Seen(t, b);
    forall c | 0 <= c < |b.bg| ensures Kept(t, b, c) <==> r.bg[c] == b.bg[c] && r.attr[c] == b.attr[c] && r.fg[c] == b.fg[c] {
      KeptLook(t, b, c);
    }
    if forall c :: 0 <= c < |b.bg| ==> Kept(t, b, c) {
      forall c | 0 <= c < |b.bg| ensures r.bg[c] == b.bg[c] && r.attr[c] == b.attr[c] && r.fg[c] == b.fg[c] {
        assert Kept(t, b, c);
      }
      assert r.bg == b.bg && r.attr == b.attr && r.fg == b.fg;
    }
  }

  lemma KeptLook(t: Tables, b: Board, c: nat)
    requires Valid(t) && Square(b, |b.bg|) && b.w > 0 && c < |b.bg|
    ensures Kept(t, b, c) <==> LookAt(t, b, c) == Look(b.bg[c], b.attr[c], b.fg[c])
  {
    hide Valid, AnchorAt, Output, BlockLook;
    ChosenFits(t, b, Scanned(t, b, c), c);
    ScanFacts(t, b, c);
  }

  /** What the choice of an entry says of the cell's movement and overlay tile. */
  lemma ChosenFits(t: Tables, b: Board, s: Cells, c: nat)
    requires Valid(t) && Square(b, |s.src|) && |s.src| == |s.dst| && c < |s.src|
    ensures var a := AnchorAt(t, b, s, c);
            && (a.AsVine? ==> b.attr[c] == t.vines[a.i].flags)
            && (a.AsSmall? ==> b.attr[c] == t.smalls[a.i].flags && b.fg[c] == t.smalls[a.i].fg)
            && (a.AsWide? ==> b.attr[c] == t.wides[a.i].flags)
            && (a.AsBlock? ==> s.src[c] != NO_TILE && s.src[c] != HANDLED)
  {
    ChosenTiles(t, b, s, c);
  }

  lemma RowCount(w: nat, h: nat)
    ensures h * (w + 1) / (w + 1) == h
  {
    CellUnique(0, h, w + 1);
  }

  lemma AgreedBoard(t: Tables, b: Board, h: nat, r: Reading, s: Cells)
    requires Ready(t, b, h) && |s.src| == |b.bg|
    requires Agrees(b, h, OutcomeOf(t, b), r, s, |b.bg|)
    ensures Writable(Map(b.w, h, r.bg, r.fg)) && BoardOf(Map(b.w, h, r.bg, r.fg)) == Seen(t, b)
  {
    hide Ready, FileAt, Output, LastOn, Paint, LookAt, IsBeamEnd, IsLoose;
    ReadySize(t, b, h);
    ReadyValid(t, b, h);
    var n := |b.bg|;
    var m := Map(b.w, h, r.bg, r.fg);
    var board, seen := BoardOf(m), Seen(t, b);
    TilesFit(r.bg, b.w, h);
    InsideFits(r.fg, b.w, h, n);
    forall q | 0 <= q < n ensures board.bg[q] == seen.bg[q] && board.attr[q] == seen.attr[q] && board.fg[q] == seen.fg[q] {
      assert CellAgrees(b, OutcomeOf(t, b), r, s, n, q);
      PaintedCell(Repeat(NO_TILE, n), Codes(r.bg), b.w, q);
      PaintedCell(Repeat(MV_NONE, n), Attrs(r.bg), b.w, q);
      PaintedCell(Repeat(NO_TILE, n), r.fg, b.w, q);
    }
  }
}
