/** The wrapper around every format's writer: buffer everything, then copy it to the caller's streams. */
module BaseMapType {
  import opened Bytes

  /** The content of a stream and the place where it is read and written. */
  datatype State = State(data: seq<Byte>, pos: nat)

  const EMPTY := State([], 0)

  function Padded(data: seq<Byte>, n: nat): (r: seq<Byte>)
    ensures |r| >= n && |r| >= |data|
  {
    if |data| < n then data + Repeat(0 as Byte, n - |data|) else data
  }

  /** Putting bytes at the current place: over what is there, and past the end if need be. */
  function Put(s: State, bytes: seq<Byte>): (r: State)
    ensures r.pos == s.pos + |bytes| && |r.data| >= r.pos
  {
    var data := Padded(s.data, s.pos);
    var end := s.pos + |bytes|;
    State(data[..s.pos] + bytes + (if end <= |data| then data[end..] else []), end)
  }

  function Cut(s: State, n: nat): (r: State)
    ensures |r.data| == n && r.pos == s.pos
  {
    State(Padded(s.data, n)[..n], s.pos)
  }

  /** A stream, as an object that callers share. */
  class Stream {
    var data: seq<Byte>
    var pos: nat

    constructor ()
      ensures Is() == EMPTY
    {
      data, pos := [], 0;
    }

    function Is(): State
      reads this
    {
      State(data, pos)
    }

    method Truncate(n: nat)
      modifies this
      ensures Is() == Cut(old(Is()), n)
    {
      data := Padded(data, n)[..n];
    }

    method Seek(p: nat)
      modifies this
      ensures Is() == State(old(data), p)
    {
      pos := p;
    }

    method Write(bytes: seq<Byte>)
      modifies this
      ensures Is() == Put(old(Is()), bytes)
    {
      var all := Padded(data, pos);
      var end := pos + |bytes|;
      data := all[..pos] + bytes + if end <= |all| then all[end..] else [];
      pos := end;
    }
  }

  /** What is then at each place: the bytes put, around them what was there, and zeros in between. */
  lemma PutReads(s: State, bytes: seq<Byte>, i: nat)
    requires i < |Put(s, bytes).data|
    ensures |Put(s, bytes).data| == if s.pos + |bytes| > |s.data| then s.pos + |bytes| else |s.data|
    ensures Put(s, bytes).data[i] ==
            if s.pos <= i < s.pos + |bytes| then bytes[i - s.pos] else if i < |s.data| then s.data[i] else 0
  {
  }

  /** Putting bytes twice puts them one after the other. */
  lemma PutTwice(s: State, a: seq<Byte>, b: seq<Byte>)
    ensures Put(Put(s, a), b) == Put(s, a + b)
  {
    hide Put;
    PutPlace(s, a);
    PutPlace(Put(s, a), b);
    PutPlace(s, a + b);
    var twice, once := Put(Put(s, a), b).data, Put(s, a + b).data;
    SameLength(s, a, b);
    forall i | 0 <= i < |twice| ensures twice[i] == once[i] {
      PutReads(Put(s, a), b, i);
      PutReads(s, a + b, i);
      if i < |Put(s, a).data| {
        PutReads(s, a, i);
      }
    }
  }

  lemma PutPlace(s: State, bytes: seq<Byte>)
    ensures Put(s, bytes).pos == s.pos + |bytes|
  {
  }

  lemma SameLength(s: State, a: seq<Byte>, b: seq<Byte>)
    ensures |Put(Put(s, a), b).data| == |Put(s, a + b).data|
  {
  }

  /** Cutting a stream keeps its first bytes, and fills it with zeros if it was shorter. */
  lemma CutReads(s: State, n: nat, i: nat)
    requires i < n
    ensures Cut(s, n).data[i] == if i < |s.data| then s.data[i] else 0
  {
  }

  /** Whatever was in a stream, it then holds exactly the bytes copied to it. */
  lemma Overwritten(s: State, bytes: seq<Byte>)
    ensures Put(State(Cut(s, |bytes|).data, 0), bytes) == State(bytes, |bytes|)
  {
    var data := Cut(s, |bytes|).data;
    assert data[..0] + bytes + data[|bytes|..] == bytes;
  }

  // The format's own writer

  /** What a format's writer can do to stream `k`; it never sees any stream but its buffers. */
  datatype Op = SeekOp(k: nat, to: nat) | PutOp(k: nat, bytes: seq<Byte>) | CutOp(k: nat)

  /** The steps that a format's writer takes for a map, and whether it then throws. */
  datatype Script = Script(ops: seq<Op>, throws: bool)

  predicate Addresses(ops: seq<Op>, n: nat) {
    forall i :: 0 <= i < |ops| ==> ops[i].k < n
  }

  function Apply(op: Op, s: State): State {
    match op
    case SeekOp(_, to) => State(s.data, to)
    case PutOp(_, bytes) => Put(s, bytes)
    case CutOp(_) => Cut(s, s.pos)
  }

  /** Stream `k` after the first `n` steps, if it was empty at first. */
  function After(ops: seq<Op>, k: nat, n: nat): State
    requires n <= |ops|
  {
    if n == 0 then EMPTY
    else if ops[n - 1].k == k then Apply(ops[n - 1], After(ops, k, n - 1))
    else After(ops, k, n - 1)
  }

  predicate AllDistinct(streams: seq<Stream>) {
    forall i, j :: 0 <= i < j < |streams| ==> streams[i] != streams[j]
  }

  /** The format's writer at work on its buffers, of which the first one is for the main stream. */
  method RunFormat(script: Script, buffers: seq<Stream>) returns (thrown: bool)
    requires Addresses(script.ops, |buffers|) && AllDistinct(buffers)
    requires forall i :: 0 <= i < |buffers| ==> buffers[i].Is() == EMPTY
    modifies set i | 0 <= i < |buffers| :: buffers[i]
    ensures thrown == script.throws
    ensures forall i :: 0 <= i < |buffers| ==> buffers[i].Is() == After(script.ops, i, |script.ops|)
  {
    hide Put, Cut;
    for n := 0 to |script.ops|
      invariant forall i :: 0 <= i < |buffers| ==> buffers[i].Is() == After(script.ops, i, n)
    {
      var op := script.ops[n];
      var s := buffers[op.k];
      match op {
        case SeekOp(_, to) => s.Seek(to);
        case PutOp(_, bytes) => s.Write(bytes);
        case CutOp(_) => s.Truncate(s.pos);
      }
    }
    return script.throws;
  }

  /** What the format has written to stream `k` in the end. */
  function Written(script: Script, k: nat): seq<Byte> {
    After(script.ops, k, |script.ops|).data
  }

  /** All the bytes that the first `n` steps put to stream `k`, one after the other. */
  function BytesFor(ops: seq<Op>, k: nat, n: nat): seq<Byte>
    requires n <= |ops|
  {
    if n == 0 then []
    else if ops[n - 1].PutOp? && ops[n - 1].k == k then BytesFor(ops, k, n - 1) + ops[n - 1].bytes
    else BytesFor(ops, k, n - 1)
  }

  /** A format that never seeks or cuts stream `k` leaves in it what it put there, whatever it does to the others. */
  lemma {:induction false} PlainWriter(ops: seq<Op>, k: nat, n: nat)
    requires n <= |ops| && forall i :: 0 <= i < n && ops[i].k == k ==> ops[i].PutOp?
    ensures After(ops, k, n) == State(BytesFor(ops, k, n), |BytesFor(ops, k, n)|)
  {
    hide Put;
    if n > 0 {
      PlainWriter(ops, k, n - 1);
      if ops[n - 1].k == k {
        PutAtEnd(BytesFor(ops, k, n - 1), ops[n - 1].bytes);
      }
    }
  }

  lemma PutAtEnd(data: seq<Byte>, bytes: seq<Byte>)
    ensures Put(State(data, |data|), bytes) == State(data + bytes, |data + bytes|)
  {
    assert (data + bytes)[..] == data + bytes;
  }

  /** A format that seeks back to put a size in its header has the rest as it was. */
  lemma HeaderRewritten(head: seq<Byte>, body: seq<Byte>, size: seq<Byte>, at: nat)
    requires at + |size| <= |head|
    ensures Written(Script([PutOp(0, head), PutOp(0, body), SeekOp(0, at), PutOp(0, size)], false), 0) ==
            head[..at] + size + head[at + |size|..] + body
  {
    hide Put;
    var ops := [PutOp(0, head), PutOp(0, body), SeekOp(0, at), PutOp(0, size)];
    PlainWriter(ops, 0, 2);
    assert BytesFor(ops, 0, 1) == head;
    assert After(ops, 0, 2) == State(head + body, |head + body|);
    assert After(ops, 0, 3) == State(head + body, at);
    PutInside(head, body, size, at);
  }

  lemma PutInside(head: seq<Byte>, body: seq<Byte>, size: seq<Byte>, at: nat)
    requires at + |size| <= |head|
    ensures Put(State(head + body, at), size).data == head[..at] + size + head[at + |size|..] + body
  {
  }

  // The wrapper

  /** Where the copying to one of the caller's streams fails: before it, or after some of the bytes. */
  datatype Step = AtTruncate | AtSeek | AtCopy(n: nat)

  /** Whether writing to the caller's streams fails, and at which stream and step. */
  datatype Fault = NoFault | FaultAt(k: nat, step: Step)

  function Shorter(n: nat, m: nat): (r: nat)
    ensures r <= n && r <= m
  {
    if n <= m then n else m
  }

  /** What a stream is left as when copying `bytes` to it fails. */
  function Torn(s: State, bytes: seq<Byte>, step: Step): State {
    match step
    case AtTruncate => s
    case AtSeek => Cut(s, |bytes|)
    case AtCopy(n) => Put(State(Cut(s, |bytes|).data, 0), bytes[..Shorter(n, |bytes|)])
  }

  /** A failed copy leaves the stream's bytes as they were exactly if what it did changed nothing. */
  lemma TornUnchanged(s: State, bytes: seq<Byte>, step: Step)
    ensures Torn(s, bytes, step).data == s.data <==>
            step.AtTruncate? ||
            (|bytes| == |s.data| && (step.AtCopy? ==> bytes[..Shorter(step.n, |bytes|)] == s.data[..Shorter(step.n, |bytes|)]))
  {
    if step.AtCopy? {
      var j, cut := Shorter(step.n, |bytes|), Cut(s, |bytes|).data;
      assert Torn(s, bytes, step).data == bytes[..j] + cut[j..];
      assert |bytes| == |s.data| ==> cut == s.data && s.data == s.data[..j] + s.data[j..];
      assert (bytes[..j] + cut[j..])[..j] == bytes[..j];
    }
  }

  /** Stream `k` is the last of the caller's streams to be this object. */
  predicate LastUse(streams: seq<Stream>, k: nat) {
    k < |streams| && forall j :: k < j < |streams| ==> streams[j] != streams[k]
  }

  /** Copies a buffer to a stream of the caller; `fails` says whether and where this throws. */
  method CopyBack(source: Stream, target: Stream, fails: bool, step: Step) returns (thrown: bool)
    requires source != target
    modifies source, target
    ensures thrown == fails && source.data == old(source.data)
    ensures !fails ==> target.Is() == State(old(source.data), |old(source.data)|)
    ensures fails ==> target.Is() == Torn(old(target.Is()), old(source.data), step)
  {
    var lenSource := |source.data|;
    source.Seek(0);
    if fails && step.AtTruncate? {
      return true;
    }
    target.Truncate(lenSource);
    if fails && step.AtSeek? {
      return true;
    }
    target.Seek(0);
    if fails {
      target.Write(source.data[..Shorter(step.n, |source.data|)]);
      return true;
    }
    Overwritten(old(target.Is()), source.data);
    target.Write(source.data[source.pos..]);
    return false;
  }

  /**
   * Saves a map: `streams` holds the main stream and then the supplementary ones, in the
   * order of their types. The caller may use one object for several of them.
   *
   * If the format's writer throws, nothing at all has happened to any stream; if not, every
   * one of them holds exactly what the format has written for it, whatever it held before.
   * A failure of one of the caller's own streams leaves those before it written, that one
   * torn, and the others as they were.
   */
  method Write(script: Script, streams: seq<Stream>, fault: Fault) returns (r: Result<bool>)
    requires |streams| > 0 && Addresses(script.ops, |streams|)
    modifies set i | 0 <= i < |streams| :: streams[i]
    ensures r == if script.throws then Err(OutOfRange)
                 else if fault.FaultAt? && fault.k < |streams| then Err(NotWritten)
                 else Ok(true)
    ensures script.throws ==> forall i :: 0 <= i < |streams| ==> streams[i].Is() == old(streams[i].Is())
    ensures r.Ok? ==> forall i :: 0 <= i < |streams| && LastUse(streams, i) ==> streams[i].data == Written(script, i)
    ensures r.Ok? && AllDistinct(streams) ==> forall i :: 0 <= i < |streams| ==> streams[i].data == Written(script, i)
    ensures r == Err(NotWritten) && AllDistinct(streams) ==>
              forall i :: 0 <= i < |streams| ==>
                if i < fault.k then streams[i].data == Written(script, i)
                else if i == fault.k then streams[i].Is() == Torn(old(streams[i].Is()), Written(script, i), fault.step)
                else streams[i].Is() == old(streams[i].Is())
  {
    hide After, Torn;
    var buffers: seq<Stream> := [];
    while |buffers| < |streams|
      invariant |buffers| <= |streams| && AllDistinct(buffers)
      invariant forall i :: 0 <= i < |buffers| ==> fresh(buffers[i]) && allocated(buffers[i]) && buffers[i].Is() == EMPTY
      invariant forall i :: 0 <= i < |streams| ==> streams[i].Is() == old(streams[i].Is())
      decreases |streams| - |buffers|
    {
      var s := new Stream();
      buffers := buffers + [s];
    }
    var thrown := RunFormat(script, buffers);
    if thrown {
      return Err(OutOfRange);
    }
    for i := 0 to |streams|
      invariant fault.FaultAt? ==> i <= fault.k
      invariant forall j :: 0 <= j < |streams| ==> buffers[j].data == Written(script, j)
      invariant forall j :: 0 <= j < i && (forall k :: j < k < i ==> streams[k] != streams[j]) ==> streams[j].data == Written(script, j)
      invariant AllDistinct(streams) ==> forall j :: i <= j < |streams| ==> streams[j].Is() == old(streams[j].Is())
    {
      assert fresh(buffers[i]);
      var fails := fault.FaultAt? && fault.k == i;
      thrown := CopyBack(buffers[i], streams[i], fails, if fails then fault.step else AtTruncate);
      if thrown {
        return Err(NotWritten);
      }
    }
    assert AllDistinct(streams) ==> forall i :: 0 <= i < |streams| ==> LastUse(streams, i);
    return Ok(true);
  }

  /** What distinct streams are left as when the copying fails at stream `k`. */
  function Left(olds: seq<State>, written: seq<seq<Byte>>, k: nat, step: Step, i: nat): seq<Byte>
    requires i < |olds| == |written|
  {
    if i < k then written[i] else if i == k then Torn(olds[i], written[i], step).data else olds[i].data
  }

  /**
   * The promise that a failed save leaves all streams unchanged is kept, for a failing
   * stream, exactly if the streams before it already held what was written to them and it
   * fails at once, or after steps that change none of its bytes.
   */
  lemma PromiseKept(olds: seq<State>, written: seq<seq<Byte>>, k: nat, step: Step)
    requires k < |olds| == |written|
    ensures (forall i :: 0 <= i < |olds| ==> Left(olds, written, k, step, i) == olds[i].data) <==>
            (forall i :: 0 <= i < k ==> written[i] == olds[i].data)
            && (step.AtTruncate? ||
                (|written[k]| == |olds[k].data|
                 && (step.AtCopy? ==>
                       written[k][..Shorter(step.n, |written[k]|)] == olds[k].data[..Shorter(step.n, |written[k]|)])))
  {
    hide Torn;
    TornUnchanged(olds[k], written[k], step);
    if forall i :: 0 <= i < |olds| ==> Left(olds, written, k, step, i) == olds[i].data {
      assert Left(olds, written, k, step, k) == olds[k].data;
      forall i | 0 <= i < k ensures written[i] == olds[i].data {
        assert Left(olds, written, k, step, i) == olds[i].data;
      }
    }
  }
}
