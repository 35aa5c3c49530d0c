/** How `open` unpacks the run-length coded extra bits into one value per map cell. */
module Nukem2Decode {
  import opened Bytes
  import opened Nukem2Rle

  /** Number of cells in the main layer. */
  const NUM_TILES := 32750

  /** Number of whole four-cell groups, the length of the packed layer. */
  const NUM_GROUPS := NUM_TILES / 4

  /** A value that only has bits 5 and 6. */
  predicate IsExtra(e: int) {
    e == 0 || e == 0x20 || e == 0x40 || e == 0x60
  }

  /** The two bits that byte `b` holds for cell `k` of its group, in bits 5 and 6. */
  function Field(b: Byte, k: nat): (r: int)
    requires k < 4
    ensures IsExtra(r)
  {
    var n := b as int;
    var bits := if k == 0 then n % 4 else if k == 1 then n / 4 % 4 else if k == 2 then n / 16 % 4 else n / 64;
    bits * 0x20
  }

  /** The upper bits of cell `c` according to the packed bytes. */
  function Upper(bytes: seq<Byte>, c: nat): (r: int)
    ensures IsExtra(r)
  {
    if c / 4 < |bytes| && c < 4 * NUM_GROUPS then Field(bytes[c / 4], c % 4) else 0
  }

  ghost predicate Unpacked(extra: seq<int>, bytes: seq<Byte>) {
    |extra| == NUM_TILES && forall c :: 0 <= c < NUM_TILES ==> extra[c] == Upper(bytes, c)
  }

  /** Once every group is filled, further bytes change nothing. */
  lemma FullIsFinal(extra: seq<int>, bytes: seq<Byte>, more: seq<Byte>)
    requires Unpacked(extra, bytes) && |bytes| >= NUM_GROUPS
    ensures Unpacked(extra, bytes + more)
  {
    forall c | 0 <= c < NUM_TILES ensures Upper(bytes, c) == Upper(bytes + more, c) {
      if c < 4 * NUM_GROUPS {
        assert c / 4 < NUM_GROUPS;
      }
    }
  }

  lemma ZerosAreDefault(extra: seq<int>, bytes: seq<Byte>, n: nat)
    requires Unpacked(extra, bytes)
    ensures Unpacked(extra, bytes + Repeat(0, n))
  {
    forall c | 0 <= c < NUM_TILES ensures Upper(bytes, c) == Upper(bytes + Repeat(0, n), c) {
    }
  }

  /** Stores the four values of one packed byte at `ev`. */
  method StoreGroup(extra: array<int>, ev: nat, code: Byte, ghost bytes: seq<Byte>)
    requires extra.Length == NUM_TILES && ev == 4 * |bytes| && ev + 4 < NUM_TILES
    requires Unpacked(extra[..], bytes)
    modifies extra
    ensures Unpacked(extra[..], bytes + [code])
  {
    extra[ev] := Field(code, 0);
    extra[ev + 1] := Field(code, 1);
    extra[ev + 2] := Field(code, 2);
    extra[ev + 3] := Field(code, 3);
    forall c | 0 <= c < NUM_TILES ensures extra[c] == Upper(bytes + [code], c) {
      if c < ev {
        assert c / 4 < |bytes|;
        assert old(extra[..])[c] == Upper(bytes, c);
      } else if c < ev + 4 {
        assert c / 4 == |bytes| && c % 4 == c - ev;
      } else {
        assert c / 4 > |bytes|;
        assert old(extra[..])[c] == Upper(bytes, c);
      }
    }
  }

  /** A run of `len` copies of a byte other than zero. */
  method StoreRun(extra: array<int>, start: nat, code: Byte, len: nat, ghost bytes: seq<Byte>) returns (ev: nat)
    requires extra.Length == NUM_TILES && start == 4 * |bytes| && start < NUM_TILES
    requires Unpacked(extra[..], bytes)
    modifies extra
    ensures Unpacked(extra[..], bytes + Repeat(code, len))
    ensures ev + 4 <= NUM_TILES ==> ev == 4 * (|bytes| + len)
    ensures ev + 4 > NUM_TILES ==> |bytes| + len >= NUM_GROUPS
  {
    ev := start;
    var n := 0;
    assert bytes + Repeat(code, 0) == bytes;
    while n < len
      invariant n <= len && ev == 4 * (|bytes| + n)
      invariant n < len ==> ev <= NUM_TILES
      invariant ev <= NUM_TILES + 2
      invariant Unpacked(extra[..], bytes + Repeat(code, n))
    {
      if ev + 4 >= NUM_TILES {
        assert bytes + Repeat(code, len) == bytes + Repeat(code, n) + Repeat(code, len - n);
        FullIsFinal(extra[..], bytes + Repeat(code, n), Repeat(code, len - n));
        return;
      }
      assert bytes + Repeat(code, n + 1) == (bytes + Repeat(code, n)) + [code];
      StoreGroup(extra, ev, code, bytes + Repeat(code, n));
      ev := ev + 4;
      n := n + 1;
    }
  }

  /** The bytes of a literal, read from the file until the layer is full. */
  method StoreLiteral(extra: array<int>, start: nat, f: seq<Byte>, at: nat, len: nat, ghost bytes: seq<Byte>)
    returns (ok: bool, ev: nat, taken: nat)
    requires extra.Length == NUM_TILES && start == 4 * |bytes| && start + 4 <= NUM_TILES && len > 0
    requires Unpacked(extra[..], bytes)
    modifies extra
    ensures at + len <= |f| ==> ok
    ensures ok ==> 1 <= taken <= len && at + taken <= |f|
    ensures ok ==> Unpacked(extra[..], bytes + f[at..at + taken])
    ensures ok && ev + 4 <= NUM_TILES ==> taken == len && ev == 4 * (|bytes| + len)
    ensures ok && ev + 4 > NUM_TILES ==> |bytes| + taken >= NUM_GROUPS
  {
    ev, taken := start, 0;
    while taken < len
      invariant taken <= len && (taken > 0 ==> at + taken <= |f|)
      invariant ev == 4 * (|bytes| + taken) && ev <= NUM_TILES
      invariant taken > 0 ==> Unpacked(extra[..], bytes + f[at..at + taken])
      invariant taken == 0 ==> Unpacked(extra[..], bytes)
    {
      if at + taken >= |f| {
        return false, ev, taken;
      }
      var code := f[at + taken];
      ghost var before := bytes + f[at..at + taken];
      assert taken == 0 ==> before == bytes;
      assert bytes + f[at..at + taken + 1] == before + [code];
      taken := taken + 1;
      if ev + 4 >= NUM_TILES {
        FullIsFinal(extra[..], before, [code]);
        return true, ev, taken;
      }
      StoreGroup(extra, ev, code, before);
      ev := ev + 4;
    }
    ok := true;
  }

  lemma FullPrefix(extra: seq<int>, bytes: seq<Byte>, all: seq<Byte>)
    requires Unpacked(extra, bytes) && |bytes| >= NUM_GROUPS && bytes <= all
    ensures Unpacked(extra, all)
  {
    FullIsFinal(extra, bytes, all[|bytes|..]);
    assert bytes + all[|bytes|..] == all;
  }

  /** One literal of `taken` bytes or fewer; `codes` is what the section holds if it is well formed. */
  method DecodeLiteral(extra: array<int>, start: nat, f: seq<Byte>, at: nat, len: nat,
                       ghost bytes: seq<Byte>, ghost code: Code, ghost all: seq<Byte>, ghost good: bool)
    returns (ok: bool, ev: nat, taken: nat)
    requires extra.Length == NUM_TILES && start == 4 * |bytes| && start + 4 <= NUM_TILES && len > 0
    requires Unpacked(extra[..], bytes)
    requires good ==> at + len <= |f| && code.Literal? && code.bytes == f[at..at + len] && bytes + CodeMeaning(code) <= all
    modifies extra
    ensures good ==> ok
    ensures ok ==> at + taken <= |f| && Unpacked(extra[..], bytes + f[at..at + taken])
    ensures ok && ev + 4 <= NUM_TILES ==> taken == len && ev == 4 * (|bytes| + len)
    ensures good && ev + 4 > NUM_TILES ==> Unpacked(extra[..], all)
  {
    ok, ev, taken := StoreLiteral(extra, start, f, at, len, bytes);
    if good && ev + 4 > NUM_TILES {
      PrefixShorter(bytes, f[at..at + len], all, taken);
      SliceOfSlice(f, at, at + len, 0, taken);
      FullPrefix(extra[..], bytes + f[at..at + taken], all);
    }
  }

  lemma PrefixShorter(a: seq<Byte>, b: seq<Byte>, all: seq<Byte>, n: nat)
    requires n <= |b| && a + b <= all
    ensures a + b[..n] <= all
  {
  }

  /** One run; a run of zeros only moves on. */
  method DecodeRun(extra: array<int>, start: nat, code: Byte, len: nat,
                   ghost bytes: seq<Byte>, ghost all: seq<Byte>, ghost good: bool)
    returns (ev: nat)
    requires extra.Length == NUM_TILES && start == 4 * |bytes| && start + 4 <= NUM_TILES
    requires Unpacked(extra[..], bytes)
    requires good ==> bytes + Repeat(code, len) <= all
    modifies extra
    ensures Unpacked(extra[..], bytes + Repeat(code, len))
    ensures ev + 4 <= NUM_TILES ==> ev == 4 * (|bytes| + len)
    ensures good && ev + 4 > NUM_TILES ==> Unpacked(extra[..], all)
  {
    if code == 0 {
      ZerosAreDefault(extra[..], bytes, len);
      ev := start + len * 4;
    } else {
      ev := StoreRun(extra, start, code, len, bytes);
    }
    if good && ev + 4 > NUM_TILES {
      FullPrefix(extra[..], bytes + Repeat(code, len), all);
    }
  }

  /** The file, from the decoder's position on, starts with the code of index `k`. */
  ghost predicate AtCode(f: seq<Byte>, pos: nat, end: nat, c: Code) {
    pos + |PrintCode(c)| <= end <= |f| && f[pos..pos + |PrintCode(c)|] == PrintCode(c)
  }

  lemma ReadRun(f: seq<Byte>, pos: nat, end: nat, c: Code)
    requires AtCode(f, pos, end, c) && f[pos] < 0x80
    ensures c.Run? && pos + 2 <= end && c.count == f[pos] as int && c.b == f[pos + 1] && |PrintCode(c)| == 2
    ensures CodeMeaning(c) == Repeat(f[pos + 1], f[pos] as int)
  {
    assert f[pos] == PrintCode(c)[0] && f[pos + 1] == PrintCode(c)[1];
  }

  lemma ReadLiteral(f: seq<Byte>, pos: nat, end: nat, c: Code)
    requires AtCode(f, pos, end, c) && f[pos] >= 0x80
    ensures var len := 0x100 - f[pos] as int;
            && c.Literal? && pos + 1 + len <= end && c.bytes == f[pos + 1..pos + 1 + len]
            && |PrintCode(c)| == 1 + len && CodeMeaning(c) == f[pos + 1..pos + 1 + len]
  {
    assert f[pos] == PrintCode(c)[0];
    SliceOfSlice(f, pos, pos + |PrintCode(c)|, 1, |PrintCode(c)|);
    assert PrintCode(c)[1..] == c.bytes;
  }

  /** What the decoder finds at the position of code `k`, and what has been decoded after it. */
  lemma NextCode(f: seq<Byte>, start: nat, end: nat, codes: seq<Code>, k: nat)
    requires start <= end <= |f| && f[start..end] == Coded(codes) && k < |codes|
    ensures AtCode(f, start + |Print(codes, k)|, end, codes[k])
    ensures |Print(codes, k + 1)| == |Print(codes, k)| + |PrintCode(codes[k])|
    ensures Meaning(codes, k) + CodeMeaning(codes[k]) == Meaning(codes, k + 1) <= Decoded(codes)
  {
    hide PrintCode, CodeMeaning;
    var section := f[start..end];
    CodeInSection(section, codes, k);
    SliceOfSlice(f, start, end, |Print(codes, k)|, |Print(codes, k + 1)|);
    MeaningPrefix(codes, k + 1);
  }

  lemma MeaningPrefix(codes: seq<Code>, k: nat)
    requires k <= |codes|
    ensures Meaning(codes, k) <= Decoded(codes)
  {
    hide Print;
    Prefixes(codes, k, |codes|);
  }

  /** The decoder is at the end of the section exactly when it has met every code. */
  lemma AtEnd(section: seq<Byte>, codes: seq<Code>, k: nat)
    requires section == Coded(codes) && k <= |codes|
    ensures |Print(codes, k)| <= |section|
    ensures k == |codes| <==> |Print(codes, k)| == |section|
    ensures k == |codes| ==> Meaning(codes, k) == Decoded(codes)
  {
    hide PrintCode;
    if k < |codes| {
      CodeInSection(section, codes, k);
    }
  }

  /**
   * The decoding loop. It stops early when the layer is full, and then skips what is left
   * of the section; a section cut short by the end of the file is reported as not ok.
   */
  method DecodeExtra(f: seq<Byte>, start: nat, lenExtra: nat, extra: array<int>, ghost codes: seq<Code>)
    returns (ok: bool, pos: int, ghost bytes: seq<Byte>)
    requires extra.Length == NUM_TILES && forall c :: 0 <= c < NUM_TILES ==> extra[c] == 0
    modifies extra
    ensures ok ==> Unpacked(extra[..], bytes)
    ensures start + lenExtra <= |f| && f[start..start + lenExtra] == Coded(codes) ==>
      ok && pos == start + lenExtra && bytes == Decoded(codes)
  {
    hide Coded, Print, Meaning, Decoded, PrintCode, AtCode, CodeMeaning;
    ghost var end := start + lenExtra;
    ghost var good := end <= |f| && f[start..end] == Coded(codes);
    bytes := [];
    ghost var k := 0;
    pos := start;
    var i, ev := 0, 0;
    NothingYet(codes);
    while i < lenExtra
      invariant pos == start + i && ev == 4 * |bytes| && ev + 4 <= NUM_TILES
      invariant Unpacked(extra[..], bytes)
      invariant good ==> k <= |codes| && i == |Print(codes, k)| && bytes == Meaning(codes, k)
      decreases lenExtra - i
    {
      if good {
        AtEnd(f[start..end], codes, k);
        NextCode(f, start, end, codes, k);
      }
      if pos >= |f| {
        return false, pos, [];
      }
      var code := f[pos];
      pos := pos + 1;
      if code >= 0x80 {
        if good {
          ReadLiteral(f, pos - 1, end, codes[k]);
        }
        var len := 0x100 - code as int;
        var taken;
        ok, ev, taken := DecodeLiteral(extra, ev, f, pos, len, bytes, if good then codes[k] else Run(0, 0), Decoded(codes), good);
        if !ok {
          return false, pos, [];
        }
        bytes := bytes + f[pos..pos + taken];
        pos := pos + taken;
        i := i + taken;
      } else {
        if good {
          ReadRun(f, pos - 1, end, codes[k]);
        }
        if pos >= |f| {
          return false, pos, [];
        }
        var len := code as int;
        code := f[pos];
        pos := pos + 1;
        i := i + 1;
        ev := DecodeRun(extra, ev, code, len, bytes, Decoded(codes), good);
        bytes := bytes + Repeat(code, len);
      }
      if ev + 4 > NUM_TILES {
        return true, pos + (lenExtra - i - 1), if good then Decoded(codes) else bytes;
      }
      i := i + 1;
      k := k + 1;
    }
    ok := true;
    if good {
      AtEnd(f[start..end], codes, k);
    }
  }

  lemma NothingYet(codes: seq<Code>)
    ensures Print(codes, 0) == [] && Meaning(codes, 0) == []
  {
  }
}
