/** What the writer's scan of a Crystal Caves level keeps: every byte is put at most once. */
module CrystalCavesScan {
  import opened CrystalCaves

  /** A cell that a table entry can still claim. */
  predicate Free(tile: int) {
    tile != NO_TILE && tile != HANDLED
  }

  /** The parts lie after their anchor. */
  predicate Trailing(parts: seq<Part>) {
    forall k :: 0 <= k < |parts| ==> parts[k].tile != HANDLED && 0 < parts[k].dx + parts[k].dy
  }

  lemma PartsTrail(t: Tables, a: Anchor)
    requires Valid(t) && InTables(t, a)
    ensures Trailing(PartsOf(t, a))
  {
    hide PartsOf, Valid;
    forall k | 0 <= k < |PartsOf(t, a)|
      ensures PartsOf(t, a)[k].tile != HANDLED && 0 < PartsOf(t, a)[k].dx + PartsOf(t, a)[k].dy
    {
      PartsFacts(t, a, k);
    }
  }

  predicate Claims(s: Cells, w: nat, j: nat, part: Part) {
    var pos := PlaceOf(part, w, j);
    part.tile != NO_TILE && pos < |s.src| && s.src[pos] == part.tile
  }

  /** The cells that the first `n` parts of the entry in cell `j` take. */
  function Claimed(s: Cells, w: nat, j: nat, parts: seq<Part>, n: nat): set<nat>
    requires |s.src| == |s.dst| && n <= |parts|
  {
    if n == 0 then {}
    else
      var before := Claimed(s, w, j, parts, n - 1);
      if Claims(ClaimParts(s, w, j, parts, n - 1), w, j, parts[n - 1])
      then before + {PlaceOf(parts[n - 1], w, j)}
      else before
  }

  /** Claimed cells come later, were free, and are dealt with; nothing else changes. */
  lemma {:induction false} ClaimFrame(s: Cells, w: nat, j: nat, parts: seq<Part>, n: nat)
    requires |s.src| == |s.dst| && n <= |parts| && w > 0 && Trailing(parts)
    ensures var r := ClaimParts(s, w, j, parts, n);
            forall q :: 0 <= q < |s.src| ==>
              if q in Claimed(s, w, j, parts, n) then q > j && Free(s.src[q]) && r.src[q] == HANDLED
              else r.src[q] == s.src[q] && r.dst[q] == s.dst[q]
    ensures forall q :: q in Claimed(s, w, j, parts, n) ==> q < |s.src|
  {
    if n > 0 {
      ClaimFrame(s, w, j, parts, n - 1);
      var part := parts[n - 1];
      assert part.dy > 0 ==> part.dy * w > 0;
    }
  }

  /** Within one entry, too, no cell is claimed twice. */
  lemma ClaimedAfresh(s: Cells, w: nat, j: nat, parts: seq<Part>, n: nat)
    requires |s.src| == |s.dst| && n < |parts| && w > 0 && Trailing(parts)
    requires Claims(ClaimParts(s, w, j, parts, n), w, j, parts[n])
    ensures PlaceOf(parts[n], w, j) !in Claimed(s, w, j, parts, n)
  {
    ClaimFrame(s, w, j, parts, n);
  }

  /** The cells whose byte is put in the step at cell `j`. */
  function Touched(t: Tables, b: Board, s: Cells, j: nat): set<nat>
    requires Valid(t) && Square(b, |s.src|) && |s.src| == |s.dst| && j < |s.src|
  {
    var a := AnchorAt(t, b, s, j);
    if a.Nothing? then {}
    else {j} + Claimed(Cells(s.src, s.dst[j := CodeOf(t, a)]), b.w, j, PartsOf(t, a), |PartsOf(t, a)|)
  }

  /** A cell already dealt with anchors nothing. */
  lemma HandledAnchorsNothing(t: Tables, b: Board, s: Cells, j: nat)
    requires Valid(t) && Square(b, |s.src|) && |s.src| == |s.dst| && j < |s.src|
    requires !Free(s.src[j])
    ensures AnchorAt(t, b, s, j).Nothing?
  {
    hide Confidence;
    if s.src[j] == HANDLED {
      BestSignIsFirstBest(t.signs, s.src, b.w, j, b.attr[j], |t.signs|);
      forall k | 0 <= k < |t.signs| ensures Confidence(t.signs[k], s.src, b.w, j, b.attr[j]) == 0 {
        NoConfidence(t.signs[k], s.src, b.w, j, b.attr[j]);
      }
    }
  }

  lemma NoConfidence(m: Sign, src: seq<int>, w: nat, j: nat, flags: int)
    requires ValidSign(m) && j < |src| && src[j] == HANDLED
    ensures Confidence(m, src, w, j, flags) == 0
  {
  }

  /**
   * One step of the scan puts bytes only into free cells from the current one on. Of these
   * the later ones are then dealt with, and every other cell stays as it was.
   */
  lemma StepFrame(t: Tables, b: Board, s: Cells, j: nat)
    requires Valid(t) && Square(b, |s.src|) && |s.src| == |s.dst| && j < |s.src| && b.w > 0
    ensures var r := Step(t, b, s, j);
            forall q :: 0 <= q < |s.src| ==>
              if q in Touched(t, b, s, j)
              then j <= q && Free(s.src[q]) && r.src[q] == (if q == j then s.src[q] else HANDLED)
              else r.src[q] == s.src[q] && r.dst[q] == s.dst[q]
    ensures forall q :: q in Touched(t, b, s, j) ==> q < |s.src|
  {
    hide Choose, PartsOf, CodeOf, Valid, ClaimParts, Claimed;
    var a := AnchorAt(t, b, s, j);
    if !Free(s.src[j]) {
      HandledAnchorsNothing(t, b, s, j);
    }
    if !a.Nothing? {
      PartsTrail(t, a);
      ClaimFrame(Cells(s.src, s.dst[j := CodeOf(t, a)]), b.w, j, PartsOf(t, a), |PartsOf(t, a)|);
    }
  }

  /** A cell is as on the board, or dealt with; bytes ahead of the scan are only put in cells dealt with. */
  lemma {:induction false} ScanFacts(t: Tables, b: Board, n: nat)
    requires Valid(t) && Square(b, |b.bg|) && n <= |b.bg| && b.w > 0
    ensures var s := Scanned(t, b, n);
            forall q :: 0 <= q < |b.bg| ==>
              && (s.src[q] == b.bg[q] || s.src[q] == HANDLED)
              && (q >= n && s.src[q] != HANDLED ==> s.dst[q] == EMPTY)
  {
    hide Step, Touched, Valid;
    if n > 0 {
      ScanFacts(t, b, n - 1);
      StepFrame(t, b, Scanned(t, b, n - 1), n - 1);
    }
  }

  /** A cell behind the scan, or dealt with, keeps its byte to the end. */
  lemma {:induction false} Settled(t: Tables, b: Board, m: nat, n: nat, q: nat)
    requires Valid(t) && Square(b, |b.bg|) && m <= n <= |b.bg| && b.w > 0 && q < |b.bg|
    requires q < m || !Free(Scanned(t, b, m).src[q])
    ensures Scanned(t, b, n).src[q] == Scanned(t, b, m).src[q]
    ensures Scanned(t, b, n).dst[q] == Scanned(t, b, m).dst[q]
    decreases n - m
  {
    hide Step, Touched, Valid;
    if m < n {
      Settled(t, b, m, n - 1, q);
      StepFrame(t, b, Scanned(t, b, n - 1), n - 1);
    }
  }

  /** Every byte is put at most once, into a cell that still holds the filling. */
  lemma PutOnce(t: Tables, b: Board, i: nat, j: nat, q: nat)
    requires Valid(t) && Square(b, |b.bg|) && i < |b.bg| && j <= |b.bg| && b.w > 0
    requires q in Touched(t, b, Scanned(t, b, i), i)
    ensures i <= q < |b.bg|
    ensures Scanned(t, b, i).dst[q] == EMPTY
    ensures i < j ==> Scanned(t, b, j).dst[q] == Scanned(t, b, i + 1).dst[q]
    ensures i < j < |b.bg| ==> q !in Touched(t, b, Scanned(t, b, j), j)
  {
    hide Step, Touched, Valid;
    StepFrame(t, b, Scanned(t, b, i), i);
    ScanFacts(t, b, i);
    if i < j {
      assert Scanned(t, b, i + 1) == Step(t, b, Scanned(t, b, i), i);
      Settled(t, b, i + 1, j, q);
      if j < |b.bg| {
        StepFrame(t, b, Scanned(t, b, j), j);
      }
    }
  }

  /** A cell claimed by an earlier anchor neither anchors anything nor is claimed again. */
  lemma ClaimedStaysClaimed(t: Tables, b: Board, i: nat, j: nat, q: nat)
    requires Valid(t) && Square(b, |b.bg|) && i < j < |b.bg| && b.w > 0
    requires q in Touched(t, b, Scanned(t, b, i), i) && q > i
    ensures q < |b.bg| && Scanned(t, b, j).src[q] == HANDLED
    ensures j == q ==> AnchorAt(t, b, Scanned(t, b, j), j).Nothing?
    ensures q !in Touched(t, b, Scanned(t, b, j), j)
  {
    hide Step, Touched, Valid, Choose;
    StepFrame(t, b, Scanned(t, b, i), i);
    assert Scanned(t, b, i + 1) == Step(t, b, Scanned(t, b, i), i);
    Settled(t, b, i + 1, j, q);
    StepFrame(t, b, Scanned(t, b, j), j);
    if j == q {
      HandledAnchorsNothing(t, b, Scanned(t, b, j), j);
    }
  }
}
