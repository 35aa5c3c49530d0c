/**
 * The run-length code of Word Rescue layers: pairs of a count and a code, with no
 * length field; the reader stops once it has enough cells.
 */
module WordRescueRle {
  import opened Bytes

  const MAX_COUNT := 0xFF

  datatype Pair = Pair(count: Byte, code: Byte)

  /** The cells that the first `n` pairs stand for. */
  function Unroll(ps: seq<Pair>, n: nat): seq<Byte>
    requires n <= |ps|
  {
    if n == 0 then [] else Unroll(ps, n - 1) + Repeat(ps[n - 1].code, ps[n - 1].count as nat)
  }

  function Cells(ps: seq<Pair>): seq<Byte> {
    Unroll(ps, |ps|)
  }

  function PrintPairs(ps: seq<Pair>): (s: seq<Byte>)
    ensures |s| == 2 * |ps|
  {
    seq(2 * |ps|, i requires 0 <= i < 2 * |ps| => if i % 2 == 0 then ps[i / 2].count else ps[i / 2].code)
  }

  lemma {:induction false} UnrollUnchanged(ps: seq<Pair>, p: Pair, n: nat)
    requires n <= |ps|
    ensures Unroll(ps + [p], n) == Unroll(ps, n)
  {
    if n > 0 {
      UnrollUnchanged(ps, p, n - 1);
      assert (ps + [p])[n - 1] == ps[n - 1];
    }
  }

  lemma AddPair(ps: seq<Pair>, p: Pair)
    ensures Cells(ps + [p]) == Cells(ps) + Repeat(p.code, p.count as nat)
    ensures PrintPairs(ps + [p]) == PrintPairs(ps) + [p.count, p.code]
  {
    UnrollUnchanged(ps, p, |ps|);
    var all, parts := PrintPairs(ps + [p]), PrintPairs(ps) + [p.count, p.code];
    forall i | 0 <= i < |all| ensures all[i] == parts[i] {
      if i >= 2 * |ps| {
        assert i / 2 == |ps|;
      }
    }
  }

  // The shortest code

  /** Where the run that starts at `i` ends, if it is no longer than one pair can say. */
  function RunEnd(data: seq<Byte>, i: nat, j: nat): (e: nat)
    requires i < j <= |data| && j - i <= MAX_COUNT
    requires forall k :: i <= k < j ==> data[k] == data[i]
    ensures j <= e <= |data| && e - i <= MAX_COUNT
    ensures forall k :: i <= k < e ==> data[k] == data[i]
    ensures e < |data| && e - i < MAX_COUNT ==> data[e] != data[i]
    decreases |data| - j
  {
    if j == |data| || j - i == MAX_COUNT || data[j] != data[i] then j else RunEnd(data, i, j + 1)
  }

  /** The number of pairs in a greedy code for the data from `i` on. */
  function GreedyCount(data: seq<Byte>, i: nat): nat
    requires i <= |data|
    decreases |data| - i
  {
    if i == |data| then 0 else 1 + GreedyCount(data, RunEnd(data, i, i + 1))
  }

  /** Starting later never takes more pairs. */
  lemma {:induction false} LaterIsShorter(data: seq<Byte>, i: nat, j: nat)
    requires i <= j <= |data|
    ensures GreedyCount(data, j) <= GreedyCount(data, i)
    decreases |data| - i
  {
    if i < j {
      var e := RunEnd(data, i, i + 1);
      if e <= j {
        LaterIsShorter(data, e, j);
      } else {
        var e' := RunEnd(data, j, j + 1);
        RunsOverlap(data, i, j);
        LaterIsShorter(data, e, e');
      }
    }
  }

  /** A run that starts inside another one ends no earlier. */
  lemma RunsOverlap(data: seq<Byte>, i: nat, j: nat)
    requires i < j < |data| && j < RunEnd(data, i, i + 1)
    ensures RunEnd(data, i, i + 1) <= RunEnd(data, j, j + 1)
  {
    var e, e' := RunEnd(data, i, i + 1), RunEnd(data, j, j + 1);
    var next := if e' < |data| then data[e'] else data[i];
    assert e' < |data| && e' - j < MAX_COUNT ==> next != data[j];
  }

  /** The cells of pair `n`, by their position in all the cells. */
  lemma PairCells(data: seq<Byte>, ps: seq<Pair>, n: nat)
    requires n < |ps| && Cells(ps) == data
    ensures |Unroll(ps, n + 1)| == |Unroll(ps, n)| + ps[n].count as int <= |data|
    ensures forall k :: |Unroll(ps, n)| <= k < |Unroll(ps, n + 1)| ==> data[k] == ps[n].code
  {
    UnrollPrefix(ps, n + 1, |ps|);
    var longer := Unroll(ps, n + 1);
    assert forall k :: 0 <= k < |longer| ==> data[k] == longer[k];
  }

  /** No sequence of pairs for the same data is shorter than the greedy one. */
  lemma {:induction false} NoShorterFrom(data: seq<Byte>, ps: seq<Pair>, n: nat)
    requires n <= |ps| && Cells(ps) == data
    ensures |Unroll(ps, n)| <= |data|
    ensures |ps| - n >= GreedyCount(data, |Unroll(ps, n)|)
    decreases |ps| - n
  {
    if n < |ps| {
      NoShorterFrom(data, ps, n + 1);
      PairCells(data, ps, n);
      hide Unroll;
      var i, j := |Unroll(ps, n)|, |Unroll(ps, n + 1)|;
      if i < j {
        OnePairAtMost(data, i, j);
      }
    }
  }

  /** Skipping equal cells saves at most one pair. */
  lemma OnePairAtMost(data: seq<Byte>, i: nat, j: nat)
    requires i < j <= |data| && j - i <= MAX_COUNT && forall k :: i <= k < j ==> data[k] == data[i]
    ensures GreedyCount(data, i) <= 1 + GreedyCount(data, j)
  {
    var e := RunEnd(data, i, i + 1);
    var next := if e < |data| then data[e] else data[i];
    assert e < |data| && e - i < MAX_COUNT ==> next != data[i];
    LaterIsShorter(data, j, e);
  }

  lemma {:induction false} UnrollPrefix(ps: seq<Pair>, m: nat, n: nat)
    requires m <= n <= |ps|
    ensures Unroll(ps, m) <= Unroll(ps, n)
  {
    if m < n {
      UnrollPrefix(ps, m, n - 1);
    }
  }

  lemma Optimal(data: seq<Byte>, ps: seq<Pair>)
    requires Cells(ps) == data
    ensures |ps| >= GreedyCount(data, 0)
  {
    NoShorterFrom(data, ps, 0);
  }

  /** The run from `i` to `e` is the one the greedy code takes. */
  lemma WholeRun(data: seq<Byte>, i: nat, e: nat)
    requires i < e <= |data| && e - i <= MAX_COUNT
    requires forall k :: i <= k < e ==> data[k] == data[i]
    requires e == |data| || e - i == MAX_COUNT || data[e] != data[i]
    ensures GreedyCount(data, i) == 1 + GreedyCount(data, e)
  {
    var r := RunEnd(data, i, i + 1);
    var next := if r < |data| then data[r] else data[i];
    assert r < |data| && r - i < MAX_COUNT ==> next != data[i];
  }

  predicate Positive(ps: seq<Pair>) {
    forall k :: 0 <= k < |ps| ==> ps[k].count > 0
  }

  /** Writes the data after `head`; no shorter pairs could stand for it. */
  method RleWrite(head: seq<Byte>, data: seq<Byte>) returns (out: seq<Byte>, lenWritten: nat, ghost ps: seq<Pair>)
    requires data != []
    ensures out == head + PrintPairs(ps) && lenWritten == |out| - |head|
    ensures Cells(ps) == data && Positive(ps)
    ensures |ps| == GreedyCount(data, 0)
  {
    hide Cells, PrintPairs, RunEnd, GreedyCount;
    out, lenWritten, ps := head, 0, [];
    var lastCount, lastCode := 0, data[0];
    NoPairs(head);
    assert data[..0] == [];
    for i := 0 to |data|
      invariant out == head + PrintPairs(ps) && lenWritten == |out| - |head| && Positive(ps)
      invariant 0 <= lastCount <= i && lastCount <= MAX_COUNT && (lastCount == 0 ==> i == 0)
      invariant i == 0 ==> lastCode == data[0]
      invariant forall k :: i - lastCount <= k < i ==> data[k] == lastCode
      invariant Cells(ps) == data[..i - lastCount]
      invariant |ps| + GreedyCount(data, i - lastCount) == GreedyCount(data, 0)
    {
      ghost var start := i - lastCount;
      if data[i] == lastCode {
        if lastCount == 0xFF {
          out, lenWritten, ps := EmitPair(head, out, lenWritten, lastCount, lastCode, data, start, ps);
          lastCount := 1;
        } else {
          lastCount := lastCount + 1;
        }
      } else {
        out, lenWritten, ps := EmitPair(head, out, lenWritten, lastCount, lastCode, data, start, ps);
        lastCode := data[i];
        lastCount := 1;
      }
    }
    if lastCount > 0 {
      out, lenWritten, ps := EmitPair(head, out, lenWritten, lastCount, lastCode, data, |data| - lastCount, ps);
    }
    assert data[..|data|] == data;
    NothingLeft(data);
  }

  lemma NothingLeft(data: seq<Byte>)
    ensures GreedyCount(data, |data|) == 0
  {
  }

  lemma NoPairs(head: seq<Byte>)
    ensures head + PrintPairs([]) == head && Cells([]) == []
  {
  }

  /** One pair, for the run that starts at `start`. */
  method EmitPair(ghost head: seq<Byte>, out: seq<Byte>, lenWritten: nat, count: nat, code: Byte,
                  ghost data: seq<Byte>, ghost start: nat, ghost ps: seq<Pair>)
    returns (out': seq<Byte>, lenWritten': nat, ghost ps': seq<Pair>)
    requires out == head + PrintPairs(ps) && lenWritten == |out| - |head| && Positive(ps)
    requires 0 < count <= MAX_COUNT && start + count <= |data|
    requires forall k :: start <= k < start + count ==> data[k] == code
    requires start + count == |data| || count == MAX_COUNT || data[start + count] != code
    requires Cells(ps) == data[..start]
    ensures out' == head + PrintPairs(ps') && lenWritten' == |out'| - |head| && Positive(ps')
    ensures Cells(ps') == data[..start + count] && |ps'| == |ps| + 1
    ensures GreedyCount(data, start) == 1 + GreedyCount(data, start + count)
  {
    hide Cells, PrintPairs;
    AddPair(ps, Pair(count as Byte, code));
    ps' := ps + [Pair(count as Byte, code)];
    out' := out + [count as Byte, code];
    lenWritten' := lenWritten + 2;
    WholeRun(data, start, start + count);
    assert data[..start] + Repeat(code, count) == data[..start + count];
  }
}
