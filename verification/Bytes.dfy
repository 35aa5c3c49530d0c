/** Bytes, little-endian words and the result of an operation that can throw. */
module Bytes {

  newtype Byte = n: int | 0 <= n < 0x100

  /** `n` has a 16-bit unsigned representation. */
  predicate IsWord(n: int) {
    0 <= n < 0x1_0000
  }

  predicate AreWords(ws: seq<int>) {
    forall k :: 0 <= k < |ws| ==> IsWord(ws[k])
  }

  /** The ways in which reading or writing a map can throw. */
  datatype Error =
    | Truncated        // the stream ended before a read was complete
    | OutsideMap       // a layer has tiles outside the map boundary
    | OutOfRange       // a code or count has no representation in the format
    | TooMany          // more entries than the format has room for
    | BadLayout        // a section of the file is malformed
    | NotWritten       // a stream of the caller could not be written

  datatype Result<+T> = Ok(value: T) | Err(error: Error) {
    predicate IsFailure() {
      Err?
    }

    function PropagateFailure<U>(): Result<U>
      requires Err?
    {
      Err(error)
    }

    function Extract(): T
      requires Ok?
    {
      value
    }
  }

  /** The answer of a format detector. */
  datatype Certainty = DefinitelyNo | PossiblyYes | DefinitelyYes

  /** A sequence holding `n` copies of `x`. */
  function Repeat<T>(x: T, n: nat): (s: seq<T>)
    ensures |s| == n
    ensures forall i :: 0 <= i < n ==> s[i] == x
  {
    seq(n, i => x)
  }

  lemma TakeNext<T>(s: seq<T>, i: nat)
    requires i < |s|
    ensures s[..i + 1] == s[..i] + [s[i]]
  {
  }

  lemma AddNothing<T>(s: seq<T>)
    ensures s + [] == s
  {
  }

  lemma Reassociate<T>(a: seq<T>, b: seq<T>, c: seq<T>)
    ensures a + (b + c) == a + b + c
  {
  }

  lemma SliceOfSlice<T>(s: seq<T>, a: nat, b: nat, i: nat, j: nat)
    requires a <= b <= |s| && i <= j <= b - a
    ensures s[a..b][i..j] == s[a + i..a + j]
  {
    var part, whole := s[a..b][i..j], s[a + i..a + j];
    forall k | 0 <= k < |part| ensures part[k] == whole[k] {
    }
  }

  lemma SliceKept<T>(a: seq<T>, b: seq<T>, i: nat, j: nat)
    requires i <= j <= |a|
    ensures (a + b)[i..j] == a[i..j]
  {
  }

  lemma SliceAdded<T>(a: seq<T>, b: seq<T>)
    ensures (a + b)[|a|..|a| + |b|] == b
  {
  }

  lemma SliceInside<T>(a: seq<T>, b: seq<T>, c: seq<T>, i: nat, j: nat)
    requires i <= j <= |b|
    ensures (a + b + c)[|a| + i..|a| + j] == b[i..j]
  {
  }

  function PrintWord(w: int): (s: seq<Byte>)
    requires IsWord(w)
    ensures |s| == 2
  {
    [(w % 0x100) as Byte, (w / 0x100) as Byte]
  }

  function WordAt(f: seq<Byte>, at: nat): (w: int)
    requires at + 2 <= |f|
    ensures IsWord(w)
  {
    f[at] as int + 0x100 * f[at + 1] as int
  }

  /** The file image of a run of 16-bit words. */
  function PrintWords(ws: seq<int>): (s: seq<Byte>)
    requires AreWords(ws)
    ensures |s| == 2 * |ws|
  {
    seq(2 * |ws|, i requires 0 <= i < 2 * |ws| =>
      if i % 2 == 0 then (ws[i / 2] % 0x100) as Byte else (ws[i / 2] / 0x100) as Byte)
  }

  lemma WordsReadBack(ws: seq<int>, k: nat)
    requires AreWords(ws) && k < |ws|
    ensures WordAt(PrintWords(ws), 2 * k) == ws[k]
  {
    assert (2 * k) / 2 == k && (2 * k + 1) / 2 == k;
  }

  lemma PrintWordsAppend(ws: seq<int>, w: int)
    requires AreWords(ws) && IsWord(w)
    ensures PrintWords(ws + [w]) == PrintWords(ws) + PrintWord(w)
  {
    var all := PrintWords(ws + [w]);
    var parts := PrintWords(ws) + PrintWord(w);
    forall i | 0 <= i < |all| ensures all[i] == parts[i] {
      if i >= 2 * |ws| {
        assert i / 2 == |ws|;
      }
    }
  }

  lemma PrintWordsConcat(a: seq<int>, b: seq<int>)
    requires AreWords(a) && AreWords(b)
    ensures AreWords(a + b) && PrintWords(a + b) == PrintWords(a) + PrintWords(b)
  {
    var all := PrintWords(a + b);
    var parts := PrintWords(a) + PrintWords(b);
    forall i | 0 <= i < |all| ensures all[i] == parts[i] {
      if i >= 2 * |a| {
        assert i / 2 == |a| + (i - 2 * |a|) / 2;
      }
    }
  }

  /** A read wholly inside the part `b` of `a + b + c` sees only `b`. */
  lemma WordInside(a: seq<Byte>, b: seq<Byte>, c: seq<Byte>, at: nat)
    requires at + 2 <= |b|
    ensures WordAt(a + b + c, |a| + at) == WordAt(b, at)
  {
  }

  /** Writing a word extends the run of words at the end of the output. */
  lemma WriteWord(head: seq<Byte>, ws: seq<int>, w: int)
    requires AreWords(ws) && IsWord(w)
    ensures head + PrintWords(ws) + PrintWord(w) == head + PrintWords(ws + [w])
  {
    PrintWordsAppend(ws, w);
  }

  /** Word `k` of the run printed between `head` and `tail`. */
  lemma WordInFile(head: seq<Byte>, ws: seq<int>, tail: seq<Byte>, k: nat)
    requires AreWords(ws) && k < |ws|
    ensures WordAt(head + PrintWords(ws) + tail, |head| + 2 * k) == ws[k]
  {
    WordInside(head, PrintWords(ws), tail, 2 * k);
    WordsReadBack(ws, k);
  }

  /** The words `ws` stand in `f` from offset `at` on. */
  predicate WordsAt(f: seq<Byte>, at: nat, ws: seq<int>) {
    at + 2 * |ws| <= |f| && forall k :: 0 <= k < |ws| ==> WordAt(f, at + 2 * k) == ws[k]
  }

  lemma PrintedWordsAt(head: seq<Byte>, ws: seq<int>, tail: seq<Byte>)
    requires AreWords(ws)
    ensures WordsAt(head + PrintWords(ws) + tail, |head|, ws)
  {
    var f := head + PrintWords(ws) + tail;
    forall k | 0 <= k < |ws| ensures WordAt(f, |head| + 2 * k) == ws[k] {
      WordInFile(head, ws, tail, k);
    }
  }

  lemma SplitWordsAt(f: seq<Byte>, at: nat, a: seq<int>, b: seq<int>)
    requires WordsAt(f, at, a + b)
    ensures WordsAt(f, at, a) && WordsAt(f, at + 2 * |a|, b)
  {
    assert forall k :: 0 <= k < |a| ==> (a + b)[k] == a[k];
    forall k | 0 <= k < |b| ensures WordAt(f, at + 2 * |a| + 2 * k) == b[k] {
      assert (a + b)[|a| + k] == b[k];
      assert WordAt(f, at + 2 * (|a| + k)) == b[k];
    }
  }
}
