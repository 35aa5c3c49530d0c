/**
 * The run-length code of a Duke Nukem II level: the upper foreground bits, four
 * cells to a byte, are stored as runs and literals.
 *
 * A control byte below 0x80 is the length of a run of the byte that follows; one of
 * 0x80 or more announces `0x100 - control` literal bytes.
 */
module Nukem2Rle {
  import opened Bytes

  const MAX_RUN := 0x7F
  const LITERAL_LIMIT := 0x7F
  const FINAL_LITERAL_LIMIT := 0x80

  type RunLength = n: int | 0 <= n <= 0x7F
  type LiteralBytes = s: seq<Byte> | 1 <= |s| <= 0x80 witness [0]

  datatype Code = Run(count: RunLength, b: Byte) | Literal(bytes: LiteralBytes)

  function PrintCode(c: Code): (s: seq<Byte>)
    ensures |s| >= 2
  {
    match c
    case Run(count, b) => [count as Byte, b]
    case Literal(bytes) => [(0x100 - |bytes|) as Byte] + bytes
  }

  function CodeMeaning(c: Code): seq<Byte> {
    match c
    case Run(count, b) => Repeat(b, count)
    case Literal(bytes) => bytes
  }

  /** The file image of the first `n` codes. */
  function Print(codes: seq<Code>, n: nat): seq<Byte>
    requires n <= |codes|
  {
    if n == 0 then [] else Print(codes, n - 1) + PrintCode(codes[n - 1])
  }

  /** The bytes that the first `n` codes stand for. */
  function Meaning(codes: seq<Code>, n: nat): seq<Byte>
    requires n <= |codes|
  {
    if n == 0 then [] else Meaning(codes, n - 1) + CodeMeaning(codes[n - 1])
  }

  function Coded(codes: seq<Code>): seq<Byte> {
    Print(codes, |codes|)
  }

  function Decoded(codes: seq<Code>): seq<Byte> {
    Meaning(codes, |codes|)
  }

  /** Some literal has the length 0x80, which the game cannot read. */
  predicate FreezesGame(codes: seq<Code>) {
    exists k :: 0 <= k < |codes| && codes[k].Literal? && |codes[k].bytes| == 0x80
  }

  /** No run is empty. */
  predicate RunsCount(codes: seq<Code>) {
    forall k :: 0 <= k < |codes| && codes[k].Run? ==> codes[k].count > 0
  }

  lemma {:induction false} PrintUnchanged(codes: seq<Code>, c: Code, n: nat)
    requires n <= |codes|
    ensures Print(codes + [c], n) == Print(codes, n)
  {
    hide PrintCode;
    if n > 0 {
      PrintUnchanged(codes, c, n - 1);
      assert (codes + [c])[n - 1] == codes[n - 1];
    }
  }

  lemma {:induction false} MeaningUnchanged(codes: seq<Code>, c: Code, n: nat)
    requires n <= |codes|
    ensures Meaning(codes + [c], n) == Meaning(codes, n)
  {
    hide CodeMeaning;
    if n > 0 {
      MeaningUnchanged(codes, c, n - 1);
      assert (codes + [c])[n - 1] == codes[n - 1];
    }
  }

  /** What one more code adds; the methods below reason with this alone. */
  lemma Emit(codes: seq<Code>, c: Code)
    ensures Coded(codes + [c]) == Coded(codes) + PrintCode(c)
    ensures Decoded(codes + [c]) == Decoded(codes) + CodeMeaning(c)
    ensures RunsCount(codes + [c]) <==> RunsCount(codes) && (c.Run? ==> c.count > 0)
    ensures FreezesGame(codes + [c]) <==> FreezesGame(codes) || (c.Literal? && |c.bytes| == 0x80)
  {
    hide PrintCode, CodeMeaning;
    PrintUnchanged(codes, c, |codes|);
    MeaningUnchanged(codes, c, |codes|);
    var longer := codes + [c];
    assert longer[|codes|] == c;
    assert forall k :: 0 <= k < |codes| ==> longer[k] == codes[k];
  }

  lemma EmitLiteral(codes: seq<Code>, chunk: LiteralBytes)
    ensures var codes' := codes + [Literal(chunk)];
            && Coded(codes') == Coded(codes) + ([(0x100 - |chunk|) as Byte] + chunk)
            && Decoded(codes') == Decoded(codes) + chunk
            && (RunsCount(codes') <==> RunsCount(codes))
            && (FreezesGame(codes') <==> FreezesGame(codes) || |chunk| == 0x80)
  {
    hide Coded, Decoded, RunsCount, FreezesGame;
    Emit(codes, Literal(chunk));
  }

  lemma NoCodes()
    ensures Coded([]) == [] && Decoded([]) == [] && RunsCount([]) && !FreezesGame([])
  {
  }

  lemma SplitSum(done: seq<Byte>, pending: seq<Byte>, n: nat)
    requires n <= |pending|
    ensures (done + pending[..n]) + pending[n..] == done + pending
  {
  }

  /** Appends the pending bytes as literals of at most `limit` bytes each. */
  method FlushLiterals(coded: seq<Byte>, pending: seq<Byte>, limit: nat, ghost codes: seq<Code>)
    returns (r: seq<Byte>, ghost codes': seq<Code>)
    requires coded == Coded(codes) && RunsCount(codes)
    requires limit == LITERAL_LIMIT || limit == FINAL_LITERAL_LIMIT
    ensures r == Coded(codes') && RunsCount(codes')
    ensures Decoded(codes') == Decoded(codes) + pending
    ensures 3 * |r| <= 3 * |coded| + 4 * |pending| + (if |pending| == 0 then 0 else 2)
    ensures FreezesGame(codes') <==> FreezesGame(codes) || (limit == 0x80 && |pending| >= 0x80)
  {
    hide Coded, Decoded, RunsCount, FreezesGame;
    r, codes' := coded, codes;
    var diffCount := pending;
    while |diffCount| > 0
      invariant r == Coded(codes') && RunsCount(codes')
      invariant |diffCount| <= |pending|
      invariant Decoded(codes') + diffCount == Decoded(codes) + pending
      invariant 3 * |r| + 4 * |diffCount| <= 3 * |coded| + 4 * |pending| + (if |diffCount| == 0 && |pending| > 0 then 2 else 0)
      invariant FreezesGame(codes') <==>
          FreezesGame(codes) || (limit == 0x80 && |pending| >= 0x80 && |diffCount| < |pending|)
      decreases |diffCount|
    {
      var len := if |diffCount| > limit then limit else |diffCount|;
      var chunk := diffCount[..len];
      SplitSum(Decoded(codes'), diffCount, len);
      r := r + ([(0x100 - len) as Byte] + chunk);
      EmitLiteral(codes', chunk);
      codes' := codes' + [Literal(chunk)];
      diffCount := diffCount[len..];
    }
    AddNothing(Decoded(codes'));
  }

  lemma RepeatMore(done: seq<Byte>, b: Byte, m: nat, n: nat)
    ensures done + Repeat(b, m) + Repeat(b, n) == done + Repeat(b, m + n)
  {
  }

  /** Appends `count` copies of `b` as runs of at most 0x7F. */
  method FlushRun(coded: seq<Byte>, b: Byte, count: nat, ghost codes: seq<Code>)
    returns (r: seq<Byte>, ghost codes': seq<Code>)
    requires coded == Coded(codes) && RunsCount(codes) && count > 0
    ensures r == Coded(codes') && RunsCount(codes')
    ensures Decoded(codes') == Decoded(codes) + Repeat(b, count)
    ensures 3 * |r| <= 3 * |coded| + 4 * count + (if count == 1 then 2 else -2)
    ensures FreezesGame(codes') <==> FreezesGame(codes)
  {
    hide Coded, Decoded, RunsCount, FreezesGame;
    r, codes' := coded, codes;
    var lastByteCount := count;
    while lastByteCount > 0
      invariant 0 <= lastByteCount <= count
      invariant r == Coded(codes') && RunsCount(codes')
      invariant Decoded(codes') == Decoded(codes) + Repeat(b, count - lastByteCount)
      invariant lastByteCount == count ==> |r| == |coded|
      invariant lastByteCount < count ==>
          3 * |r| + 4 * lastByteCount <= 3 * |coded| + 4 * count + (if count == 1 then 2 else -2) - (if lastByteCount > 0 then 4 else 0)
      invariant FreezesGame(codes') <==> FreezesGame(codes)
    {
      var amt := if MAX_RUN <= lastByteCount then MAX_RUN else lastByteCount;
      RepeatMore(Decoded(codes), b, count - lastByteCount, amt);
      r := r + [amt as Byte, b];
      Emit(codes', Run(amt, b));
      codes' := codes' + [Run(amt, b)];
      lastByteCount := lastByteCount - amt;
    }
  }

  /**
   * How many of the first `n` bytes are still waiting to be written as a literal: those since
   * the last pair of equal neighbours, other than the last byte itself.
   */
  function PendingLength(raw: seq<Byte>, n: nat): nat
    requires n <= |raw|
  {
    if n < 2 || raw[n - 1] == raw[n - 2] then 0
    else if n > 2 && raw[n - 2] == raw[n - 3] then 0
    else PendingLength(raw, n - 1) + 1
  }

  lemma PendingStep(raw: seq<Byte>, i: nat)
    requires 1 <= i < |raw|
    ensures raw[i] == raw[i - 1] ==> PendingLength(raw, i + 1) == 0
    ensures i > 1 && raw[i - 1] == raw[i - 2] ==> PendingLength(raw, i + 1) == 0
    ensures raw[i] != raw[i - 1] && !(i > 1 && raw[i - 1] == raw[i - 2]) ==>
      PendingLength(raw, i + 1) == PendingLength(raw, i) + 1
  {
  }

  /** Where no neighbours are equal, every byte but the last is waiting. */
  lemma {:induction false} AllDifferent(raw: seq<Byte>, n: nat)
    requires n <= |raw| && forall k :: 1 <= k < n ==> raw[k] != raw[k - 1]
    ensures PendingLength(raw, n) == if n < 2 then 0 else n - 1
  {
    if n >= 2 {
      AllDifferent(raw, n - 1);
    }
  }

  lemma JoinSlices(s: seq<Byte>, a: nat, b: nat)
    requires a <= b <= |s|
    ensures s[..a] + s[a..b] == s[..b]
  {
  }

  lemma JoinRun(s: seq<Byte>, a: nat, b: nat, x: Byte)
    requires a <= b <= |s| && forall k :: a <= k < b ==> s[k] == x
    ensures s[..a] + Repeat(x, b - a) == s[..b]
  {
  }

  lemma GrowSlice(s: seq<Byte>, a: nat, b: nat)
    requires a <= b < |s|
    ensures s[a..b] + [s[b]] == s[a..b + 1]
  {
  }

  /** The codes stand for `raw` up to some zeros at its end. */
  ghost predicate Lossless(codes: seq<Code>, raw: seq<Byte>) {
    |Decoded(codes)| <= |raw| && Decoded(codes) + Repeat(0, |raw| - |Decoded(codes)|) == raw
  }

  lemma ZerosDropped(raw: seq<Byte>, n: nat, codes: seq<Code>)
    requires n <= |raw| && Decoded(codes) == raw[..n] && forall k :: n <= k < |raw| ==> raw[k] == 0
    ensures Lossless(codes, raw)
  {
  }

  /** What the encoder does after its last input byte; a run of zeros at the end is dropped. */
  method FinishExtra(coded: seq<Byte>, pending: seq<Byte>, lastByte: Byte, lastByteCount: nat,
                     ghost raw: seq<Byte>, ghost codes: seq<Code>)
    returns (r: seq<Byte>, ghost codes': seq<Code>)
    requires coded == Coded(codes) && RunsCount(codes) && !FreezesGame(codes)
    requires lastByteCount > 0 && (lastByteCount > 1 ==> pending == [])
    requires |pending| + lastByteCount <= |raw|
    requires var b := |raw| - lastByteCount;
             && Decoded(codes) + pending == raw[..b]
             && forall k :: b <= k < |raw| ==> raw[k] == lastByte
    requires 3 * |coded| <= 4 * (|raw| - |pending| - lastByteCount) + (if lastByteCount > 1 then 2 else 0)
    ensures r == Coded(codes') + [0, 0]
    ensures Lossless(codes', raw) && RunsCount(codes')
    ensures FreezesGame(codes') <==> |pending| >= 0x80
    ensures 3 * |r| <= 4 * |raw| + 10
  {
    hide Coded, Decoded, RunsCount, FreezesGame;
    r, codes' := FlushLiterals(coded, pending, FINAL_LITERAL_LIMIT, codes);
    if lastByte != 0 {
      JoinRun(raw, |raw| - lastByteCount, |raw|, lastByte);
      r, codes' := FlushRun(r, lastByte, lastByteCount, codes');
      ZerosDropped(raw, |raw|, codes');
    } else {
      ZerosDropped(raw, |raw| - lastByteCount, codes');
    }
    r := r + [0, 0];
  }

  /**
   * The encoder after `i` bytes of `raw`: the codes cover the first `a` bytes, the pending literal
   * the bytes from there to `b`, and the current run the rest.
   */
  ghost predicate Encoding(raw: seq<Byte>, a: nat, b: nat, i: nat, coded: seq<Byte>, pending: seq<Byte>, codes: seq<Code>) {
    && a <= b < i <= |raw| && (i - b > 1 ==> a == b)
    && coded == Coded(codes) && RunsCount(codes) && !FreezesGame(codes)
    && Decoded(codes) == raw[..a] && pending == raw[a..b]
    && (forall k :: b <= k < i ==> raw[k] == raw[b])
    && (b > 0 ==> raw[b - 1] != raw[b])
    && 3 * |coded| <= 4 * a + (if i - b > 1 then 2 else 0)
  }

  /** A byte equal to the last one: what is pending must be written before the run it joins. */
  method SameByte(coded: seq<Byte>, pending: seq<Byte>, ghost raw: seq<Byte>, ghost a: nat, ghost b: nat, ghost i: nat,
                  ghost codes: seq<Code>)
    returns (r: seq<Byte>, ghost codes': seq<Code>)
    requires Encoding(raw, a, b, i, coded, pending, codes) && i < |raw| && raw[i] == raw[b]
    ensures Encoding(raw, b, b, i + 1, r, [], codes')
  {
    hide Coded, Decoded, RunsCount, FreezesGame;
    JoinSlices(raw, a, b);
    r, codes' := FlushLiterals(coded, pending, LITERAL_LIMIT, codes);
  }

  /** A byte different from the last one: the last byte becomes a run, or joins the pending literal. */
  method NewByte(coded: seq<Byte>, pending: seq<Byte>, lastByte: Byte, lastByteCount: nat,
                 ghost raw: seq<Byte>, ghost a: nat, ghost b: nat, ghost i: nat, ghost codes: seq<Code>)
    returns (r: seq<Byte>, pending': seq<Byte>, ghost a': nat, ghost codes': seq<Code>)
    requires Encoding(raw, a, b, i, coded, pending, codes) && i < |raw| && raw[i] != raw[b]
    requires lastByte == raw[b] && lastByteCount == i - b
    ensures Encoding(raw, a', i, i + 1, r, pending', codes')
    ensures a' == if i - b > 1 then i else a
  {
    hide Coded, Decoded, RunsCount, FreezesGame;
    r, pending', codes', a' := coded, pending, codes, a;
    if lastByteCount > 1 {
      JoinRun(raw, b, i, lastByte);
      r, codes' := FlushRun(coded, lastByte, lastByteCount, codes);
      a' := i;
    } else {
      GrowSlice(raw, a, b);
      pending' := pending + [lastByte];
    }
  }

  /** The encoder: one pass over the input with a pending literal and a current run. */
  method EncodeExtra(rawExtra: seq<Byte>) returns (rleExtra: seq<Byte>, ghost codes: seq<Code>)
    requires rawExtra != []
    ensures rleExtra == Coded(codes) + [0, 0]
    ensures Lossless(codes, rawExtra) && RunsCount(codes)
    ensures FreezesGame(codes) <==> PendingLength(rawExtra, |rawExtra|) >= 0x80
    ensures 3 * |rleExtra| <= 4 * |rawExtra| + 10
  {
    hide Coded, Decoded, RunsCount, FreezesGame;
    NoCodes();
    rleExtra, codes := [], [];
    var diffCount: seq<Byte> := [];
    var lastByte := rawExtra[0];
    var lastByteCount := 1;
    var i := 1;
    ghost var a, b := 0, 0;
    while i < |rawExtra|
      invariant Encoding(rawExtra, a, b, i, rleExtra, diffCount, codes)
      invariant lastByte == rawExtra[b] && lastByteCount == i - b
      invariant b - a == PendingLength(rawExtra, i)
    {
      PendingStep(rawExtra, i);
      if lastByte == rawExtra[i] {
        rleExtra, codes := SameByte(rleExtra, diffCount, rawExtra, a, b, i, codes);
        diffCount := [];
        a := b;
        lastByteCount := lastByteCount + 1;
      } else {
        rleExtra, diffCount, a, codes := NewByte(rleExtra, diffCount, lastByte, lastByteCount, rawExtra, a, b, i, codes);
        b := i;
        lastByte := rawExtra[i];
        lastByteCount := 1;
      }
      i := i + 1;
    }
    JoinSlices(rawExtra, a, b);
    rleExtra, codes := FinishExtra(rleExtra, diffCount, lastByte, lastByteCount, rawExtra, codes);
  }

  lemma {:induction false} Prefixes(codes: seq<Code>, k: nat, n: nat)
    requires k <= n <= |codes|
    ensures Print(codes, k) <= Print(codes, n)
    ensures Meaning(codes, k) <= Meaning(codes, n)
  {
    hide PrintCode, CodeMeaning;
    if k < n {
      Prefixes(codes, k, n - 1);
    }
  }

  /** Where the code of index `k` stands in a coded section. */
  lemma CodeInSection(section: seq<Byte>, codes: seq<Code>, k: nat)
    requires section == Coded(codes) && k < |codes|
    ensures Print(codes, k + 1) == Print(codes, k) + PrintCode(codes[k])
    ensures |Print(codes, k + 1)| <= |section|
    ensures section[|Print(codes, k)|..|Print(codes, k + 1)|] == PrintCode(codes[k])
  {
    hide PrintCode;
    Prefixes(codes, k + 1, |codes|);
    MiddlePart(section, Print(codes, k), PrintCode(codes[k]));
  }

  lemma MiddlePart(s: seq<Byte>, a: seq<Byte>, b: seq<Byte>)
    requires a + b <= s
    ensures s[|a|..|a + b|] == b
  {
    var part := s[|a|..|a + b|];
    forall i | 0 <= i < |b| ensures part[i] == b[i] {
      assert (a + b)[|a| + i] == b[i];
    }
  }
}
