/** `BufferedWriter`: no byte that a write took is lost or repeated, however the raw
    stream answers. */
module BufferedWriter {
  import opened Basics

  /** How the raw stream answers one `write`: it accepts `n` bytes, returns None, or
      raises BlockingIOError. */
  datatype Answer = Accepts(n: int) | WouldBlock | Raises

  /** The bytes on the raw stream, the bytes still buffered, and the raw stream's next
      answers; once they run out it accepts everything. */
  datatype State = State(contents: seq<byte>, buf: seq<byte>, answers: seq<Answer>)

  datatype Flushed = Done | Blocked | RuntimeError | IOError

  /** `_flush_unlocked` */
  function AfterFlush(s: State): (r: (State, Flushed))
    ensures r.0.contents + r.0.buf == s.contents + s.buf
    ensures |r.0.buf| <= |s.buf| && (r.1.Done? ==> r.0.buf == [])
    decreases |s.answers|
  {
    if s.buf == [] then (s, Done)
    else if s.answers == [] then (State(s.contents + s.buf, [], []), Done)
    else
      var left := s.(answers := s.answers[1..]);
      match s.answers[0]
      case Raises => (left, RuntimeError)
      case WouldBlock => (left, Blocked)
      case Accepts(n) =>
        if n < 0 || n > |s.buf| then (left, IOError)
        else
          assert s.buf[..n] + s.buf[n..] == s.buf;
          AfterFlush(State(s.contents + s.buf[..n], s.buf[n..], left.answers))
  }

  /** What `write` returns or raises; BlockingIOError carries the bytes it took. */
  datatype Result = Returned(n: int) | BlockingIOError(written: int) | Failed(error: Flushed)

  /** The end of `write`: the buffer holds `b` at its end. */
  function AfterExtend(s: State, b: seq<byte>, size: nat): (State, Result) {
    if |s.buf| <= size then (s, Returned(|b|))
    else
      var (s1, how) := AfterFlush(s);
      if how.RuntimeError? || how.IOError? then (s1, Failed(how))
      else if how.Blocked? && |s1.buf| > size then
        (s1.(buf := s1.buf[..size]), BlockingIOError(|b| - (|s1.buf| - size)))
      else (s1, Returned(|b|))
  }

  /** `write` */
  function AfterWrite(s: State, b: seq<byte>, size: nat): (State, Result) {
    if |s.buf| > size then
      var (s1, how) := AfterFlush(s);
      if how.Done? then AfterExtend(s1.(buf := s1.buf + b), b, size)
      else (s1, if how.Blocked? then BlockingIOError(0) else Failed(how))
    else AfterExtend(s.(buf := s.buf + b), b, size)
  }

  /** Whether `write` gets as far as adding to the buffer. */
  predicate Extends(s: State, size: nat) {
    |s.buf| <= size || AfterFlush(s).1.Done?
  }

  /** The bytes of `b` that the caller is told were taken. */
  function Reported(b: seq<byte>, r: Result): seq<byte> {
    match r
    case Returned(n) => if 0 <= n <= |b| then b[..n] else []
    case BlockingIOError(n) => if 0 <= n <= |b| then b[..n] else []
    case Failed(_) => []
  }

  /** The bytes of `b` that were taken: a failed flush leaves all of them queued. */
  function Taken(s: State, b: seq<byte>, size: nat): seq<byte> {
    var r := AfterWrite(s, b, size).1;
    if r.Failed? && Extends(s, size) then b else Reported(b, r)
  }

  lemma ExtendConserves(s: State, b: seq<byte>, size: nat)
    requires |s.buf| <= size
    ensures var (s1, r) := AfterExtend(s.(buf := s.buf + b), b, size);
      && s1.contents + s1.buf == s.contents + s.buf + (if r.Failed? then b else Reported(b, r))
      && (r.Returned? ==> r.n == |b|) && (r.BlockingIOError? ==> 0 <= r.written < |b|)
      && (!r.Failed? ==> |s1.buf| <= size)
  {
    var t := s.(buf := s.buf + b);
    var all := s.contents + s.buf + b;
    assert t.contents + t.buf == all && b[..|b|] == b;
    var (t1, how) := AfterFlush(t);
    if |t.buf| > size && how.Blocked? && |t1.buf| > size {
      var over := |t1.buf| - size;
      var n := |b| - over;
      assert t1.contents + t1.buf[..size] == (t1.contents + t1.buf)[..|all| - over];
      assert all[..|all| - over] == s.contents + s.buf + b[..n];
    }
  }

  /** One `write`: nothing is lost, the count it reports is never negative, and unless it
      fails after a raw stream gone wrong the buffer is within its size. */
  lemma WriteConserves(s: State, b: seq<byte>, size: nat)
    ensures var (s1, r) := AfterWrite(s, b, size);
      && s1.contents + s1.buf == s.contents + s.buf + Taken(s, b, size)
      && (r.Returned? ==> r.n == |b|) && (r.BlockingIOError? ==> 0 <= r.written <= |b|)
      && (r.Returned? || (r.BlockingIOError? && Extends(s, size)) ==> |s1.buf| <= size)
  {
    if |s.buf| > size {
      var (s1, how) := AfterFlush(s);
      if how.Done? {
        ExtendConserves(s1, b, size);
      } else {
        assert s.contents + s.buf + [] == s.contents + s.buf;
      }
    } else {
      ExtendConserves(s, b, size);
    }
  }

  // ----- runs -----

  datatype Op = DoWrite(b: seq<byte>) | DoFlush

  function Step(s: State, op: Op, size: nat): State {
    match op
    case DoWrite(b) => AfterWrite(s, b, size).0
    case DoFlush => AfterFlush(s).0
  }

  function Run(s: State, ops: seq<Op>, size: nat): State
    decreases |ops|
  {
    if ops == [] then s else Run(Step(s, ops[0], size), ops[1..], size)
  }

  /** The bytes taken over a run. */
  function AllTaken(s: State, ops: seq<Op>, size: nat): seq<byte>
    decreases |ops|
  {
    if ops == [] then []
    else (if ops[0].DoWrite? then Taken(s, ops[0].b, size) else []) + AllTaken(Step(s, ops[0], size), ops[1..], size)
  }

  /** The bytes that the caller was told were taken. */
  function AllReported(s: State, ops: seq<Op>, size: nat): seq<byte>
    decreases |ops|
  {
    if ops == [] then []
    else
      (if ops[0].DoWrite? then Reported(ops[0].b, AfterWrite(s, ops[0].b, size).1) else [])
      + AllReported(Step(s, ops[0], size), ops[1..], size)
  }

  /** How many bytes the raw stream accepts of `len` before it blocks or errs. */
  function Accepted(len: nat, answers: seq<Answer>): (n: nat)
    ensures n <= len
    decreases |answers|
  {
    if len == 0 then 0
    else if answers == [] then len
    else if answers[0].Accepts? && 0 <= answers[0].n <= len then
      answers[0].n + Accepted(len - answers[0].n, answers[1..])
    else 0
  }

  /** The answer that stops a flush of `len` bytes, with the number of bytes left then. */
  function Trouble(len: nat, answers: seq<Answer>): Option<(Answer, nat)>
    decreases |answers|
  {
    if len == 0 || answers == [] then None
    else if answers[0].Accepts? && 0 <= answers[0].n <= len then Trouble(len - answers[0].n, answers[1..])
    else Some((answers[0], len))
  }

  /** What a flush raises for the answer that stopped it. */
  function RaisedFor(a: Answer): Flushed {
    match a
    case WouldBlock => Blocked
    case Raises => RuntimeError
    case Accepts(_) => IOError
  }

  lemma {:induction false} FlushStops(s: State)
    ensures var stop := Trouble(|s.buf|, s.answers);
      AfterFlush(s).1 == if stop.None? then Done else RaisedFor(stop.value.0)
    ensures Trouble(|s.buf|, s.answers).None? ==> Accepted(|s.buf|, s.answers) == |s.buf|
    decreases |s.answers|
  {
    if s.buf != [] && s.answers != [] && s.answers[0].Accepts? && 0 <= s.answers[0].n <= |s.buf| {
      FlushStops(State(s.contents + s.buf[..s.answers[0].n], s.buf[s.answers[0].n..], s.answers[1..]));
    }
  }

  lemma {:induction false} FlushSends(s: State)
    ensures var (s1, n) := (AfterFlush(s).0, Accepted(|s.buf|, s.answers));
      s1.contents == s.contents + s.buf[..n] && s1.buf == s.buf[n..]
    decreases |s.answers|
  {
    if s.buf != [] && s.answers != [] && s.answers[0].Accepts? && 0 <= s.answers[0].n <= |s.buf| {
      var k := s.answers[0].n;
      var t := State(s.contents + s.buf[..k], s.buf[k..], s.answers[1..]);
      FlushSends(t);
      SentTwice(s.contents, s.buf, k, Accepted(|t.buf|, t.answers));
    }
  }

  lemma SentTwice(c: seq<byte>, b: seq<byte>, k: nat, n: nat)
    requires k + n <= |b|
    ensures c + b[..k] + b[k..][..n] == c + b[..k + n] && b[k..][n..] == b[k + n..]
  {
  }

  /** A flush sends what the raw stream accepts and keeps the rest. It raises what the answer
      that stopped it makes it raise. */
  lemma FlushSendsAccepted(s: State)
    ensures var (s1, how) := AfterFlush(s);
      var n := Accepted(|s.buf|, s.answers);
      && s1.contents == s.contents + s.buf[..n] && s1.buf == s.buf[n..]
      && (var stop := Trouble(|s.buf|, s.answers);
          if stop.None? then how == Done && n == |s.buf| else how == RaisedFor(stop.value.0))
  {
    FlushStops(s);
    FlushSends(s);
  }

  /** Bytes that fit in the buffer go there, and nothing is written. */
  lemma WriteBuffers(s: State, b: seq<byte>, size: nat)
    requires |s.buf| + |b| <= size
    ensures AfterWrite(s, b, size) == (State(s.contents, s.buf + b, s.answers), Returned(|b|))
  {
  }

  /** Bytes that do not fit make a write flush, the old and the new ones together, of which
      the raw stream gets as many as it accepts; if it blocks, as many of the rest stay as
      the buffer is to hold. */
  lemma WriteFlushes(s: State, b: seq<byte>, size: nat)
    requires |s.buf| <= size < |s.buf| + |b|
    ensures var (s1, r) := AfterWrite(s, b, size);
      var all := s.buf + b;
      var n := Accepted(|all|, s.answers);
      var stop := Trouble(|all|, s.answers);
      && s1.contents == s.contents + all[..n]
      && if stop.None? then s1.buf == [] && r == Returned(|b|)
         else if stop.value.0.WouldBlock? then
           if |all| - n <= size then s1.buf == all[n..] && r == Returned(|b|)
           else s1.buf == all[n..n + size] && r == BlockingIOError(n + size - |s.buf|)
         else s1.buf == all[n..] && r == Failed(RaisedFor(stop.value.0))
  {
    var t := s.(buf := s.buf + b);
    FlushSendsAccepted(t);
    var n := Accepted(|t.buf|, t.answers);
    assert |t.buf| - n > size ==> t.buf[n..][..size] == t.buf[n..n + size];
  }

  /** Over a buffer that is too full already a write flushes first, and adds its bytes only
      if that leaves nothing. */
  lemma WritePreFlushes(s: State, b: seq<byte>, size: nat)
    requires |s.buf| > size
    ensures var (s1, r) := AfterWrite(s, b, size);
      var n := Accepted(|s.buf|, s.answers);
      var stop := Trouble(|s.buf|, s.answers);
      if stop.None? then
        exists left: seq<Answer> :: (s1, r) == AfterWrite(State(s.contents + s.buf, [], left), b, size)
                                    && Drained(|s.buf|, s.answers) == Some(left)
      else
        && s1.contents == s.contents + s.buf[..n] && s1.buf == s.buf[n..]
        && r == if stop.value.0.WouldBlock? then BlockingIOError(0) else Failed(RaisedFor(stop.value.0))
  {
    FlushSendsAccepted(s);
    FlushFailsOnError(s);
    var (s1, how) := AfterFlush(s);
    if how.Done? {
      var left := Drained(|s.buf|, s.answers).value;
      assert s1 == State(s.contents + s.buf, [], left);
      assert AfterWrite(s, b, size) == AfterWrite(State(s.contents + s.buf, [], left), b, size);
    }
  }

  /** The raw stream's answers to a flush of `len` bytes come to an error: after counts in
      range, and before the bytes are gone, it raises or gives a count out of range. */
  predicate ErrorAhead(len: nat, answers: seq<Answer>)
    decreases |answers|
  {
    len > 0 && answers != [] &&
    match answers[0]
    case Raises => true
    case WouldBlock => false
    case Accepts(n) => n < 0 || n > len || ErrorAhead(len - n, answers[1..])
  }

  /** The answers left after `len` bytes are gone; None if they block or err before that. */
  function Drained(len: nat, answers: seq<Answer>): Option<seq<Answer>>
    decreases |answers|
  {
    if len == 0 || answers == [] then Some(answers)
    else if answers[0].Accepts? && 0 <= answers[0].n <= len then Drained(len - answers[0].n, answers[1..])
    else None
  }

  /** A write of `b` comes to an error with its bytes in the buffer. */
  predicate ErrorWhileQueued(s: State, b: seq<byte>, size: nat) {
    if |s.buf| <= size then |s.buf| + |b| > size && ErrorAhead(|s.buf| + |b|, s.answers)
    else
      var left := Drained(|s.buf|, s.answers);
      left.Some? && |b| > size && ErrorAhead(|b|, left.value)
  }

  lemma {:induction false} FlushFailsOnError(s: State)
    ensures AfterFlush(s).1.RuntimeError? || AfterFlush(s).1.IOError? <==> ErrorAhead(|s.buf|, s.answers)
    ensures AfterFlush(s).1.Done? <==> Drained(|s.buf|, s.answers).Some?
    ensures AfterFlush(s).1.Done? ==> AfterFlush(s).0.answers == Drained(|s.buf|, s.answers).value
    decreases |s.answers|
  {
    if s.buf != [] && s.answers != [] && s.answers[0].Accepts? && 0 <= s.answers[0].n <= |s.buf| {
      var n := s.answers[0].n;
      FlushFailsOnError(State(s.contents + s.buf[..n], s.buf[n..], s.answers[1..]));
    }
  }

  /** A write fails with its bytes queued exactly if the raw stream's answers make it. */
  lemma WriteFailsOnError(s: State, b: seq<byte>, size: nat)
    ensures AfterWrite(s, b, size).1.Failed? && Extends(s, size) <==> ErrorWhileQueued(s, b, size)
  {
    FlushFailsOnError(s);
    FlushFailsOnError(s.(buf := s.buf + b));
    var s1 := AfterFlush(s).0;
    FlushFailsOnError(s1.(buf := s1.buf + b));
  }

  /** No write of the run comes to an error with its bytes in the buffer. */
  predicate NoneFailsQueued(s: State, ops: seq<Op>, size: nat)
    decreases |ops|
  {
    ops == [] ||
    (&& (ops[0].DoWrite? ==> !ErrorWhileQueued(s, ops[0].b, size))
     && NoneFailsQueued(Step(s, ops[0], size), ops[1..], size))
  }

  /** Over any run, raw stream and buffer together hold what was there and what was taken. */
  lemma {:induction false} RunConserves(s: State, ops: seq<Op>, size: nat)
    ensures var t := Run(s, ops, size);
      t.contents + t.buf == s.contents + s.buf + AllTaken(s, ops, size)
    decreases |ops|
  {
    if ops == [] {
      assert s.contents + s.buf + [] == s.contents + s.buf;
    } else {
      var s1, rest := Step(s, ops[0], size), AllTaken(Step(s, ops[0], size), ops[1..], size);
      RunConserves(s1, ops[1..], size);
      var first := if ops[0].DoWrite? then Taken(s, ops[0].b, size) else [];
      if ops[0].DoWrite? {
        WriteConserves(s, ops[0].b, size);
      } else {
        assert s.contents + s.buf + [] == s.contents + s.buf;
      }
      assert s1.contents + s1.buf == s.contents + s.buf + first;
      assert s.contents + s.buf + first + rest == s.contents + s.buf + (first + rest);
    }
  }

  lemma {:induction false} ReportedIsShorter(s: State, ops: seq<Op>, size: nat)
    ensures |AllReported(s, ops, size)| <= |AllTaken(s, ops, size)|
    ensures AllReported(s, ops, size) == AllTaken(s, ops, size) <==> NoneFailsQueued(s, ops, size)
    decreases |ops|
  {
    if ops != [] {
      ReportedIsShorter(Step(s, ops[0], size), ops[1..], size);
      if ops[0].DoWrite? { WriteFailsOnError(s, ops[0].b, size); }
      var taken := if ops[0].DoWrite? then Taken(s, ops[0].b, size) else [];
      var reported := if ops[0].DoWrite? then Reported(ops[0].b, AfterWrite(s, ops[0].b, size).1) else [];
      var s1 := Step(s, ops[0], size);
      var taken1, reported1 := AllTaken(s1, ops[1..], size), AllReported(s1, ops[1..], size);
      assert |reported| <= |taken| && (|reported| == |taken| ==> reported == taken);
      if reported + reported1 == taken + taken1 {
        assert |reported| == |taken|;
        assert reported1 == (reported + reported1)[|reported|..] == (taken + taken1)[|taken|..] == taken1;
      }
    }
  }

  /** The caller's own account, by the counts it was given, is right exactly if no write
      failed with its bytes already queued. */
  lemma AccountIsRight(s: State, ops: seq<Op>, size: nat)
    ensures var t := Run(s, ops, size);
      t.contents + t.buf == s.contents + s.buf + AllReported(s, ops, size) <==> NoneFailsQueued(s, ops, size)
  {
    RunConserves(s, ops, size);
    ReportedIsShorter(s, ops, size);
    var taken, reported, held := AllTaken(s, ops, size), AllReported(s, ops, size), s.contents + s.buf;
    if held + taken == held + reported {
      assert taken == (held + taken)[|held|..] == (held + reported)[|held|..] == reported;
    }
  }

  /** Two bytes written over a buffer of one to a raw stream that raises: both are queued,
      and the caller was told of none. */
  lemma QueuedBytesAreNotReported()
    ensures var s, ops := State([], [], [Raises]), [DoWrite([1, 2])];
      && Run(s, ops, 1) == State([], [1, 2], []) && AllReported(s, ops, 1) == [] && !NoneFailsQueued(s, ops, 1)
  {
    var s, ops := State([], [], [Raises]), [DoWrite([1, 2])];
    assert [] + [1, 2] == [1, 2] && ops[1..] == [];
    assert Step(s, ops[0], 1) == State([], [1, 2], []);
  }

  // ----- the class -----

  class RawStream {
    var contents: seq<byte>
    var answers: seq<Answer>

    constructor (answers: seq<Answer>)
      ensures this.answers == answers && contents == []
    {
      this.answers, contents := answers, [];
    }

    method Write(b: seq<byte>) returns (a: Answer)
      modifies this
      ensures a == if old(answers) == [] then Accepts(|b|) else old(answers)[0]
      ensures answers == if old(answers) == [] then [] else old(answers)[1..]
      ensures contents == old(contents) + if a.Accepts? && 0 <= a.n <= |b| then b[..a.n] else []
    {
      a := Accepts(|b|);
      if answers != [] {
        a, answers := answers[0], answers[1..];
      }
      if a.Accepts? && 0 <= a.n <= |b| {
        contents := contents + b[..a.n];
      }
    }
  }

  class BufferedWriter {
    const raw: RawStream
    const bufferSize: nat
    var writeBuf: seq<byte>

    constructor (raw: RawStream, bufferSize: nat)
      requires bufferSize > 0
      ensures this.raw == raw && this.bufferSize == bufferSize && writeBuf == []
    {
      this.raw, this.bufferSize, writeBuf := raw, bufferSize, [];
    }

    ghost function Now(): State
      reads this, raw
    {
      State(raw.contents, writeBuf, raw.answers)
    }

    method FlushUnlocked() returns (how: Flushed)
      modifies this`writeBuf, raw
      ensures (Now(), how) == AfterFlush(old(Now()))
    {
      while writeBuf != []
        invariant AfterFlush(Now()) == AfterFlush(old(Now()))
        decreases |raw.answers|, |writeBuf|
      {
        ghost var before := Now();
        var answer := raw.Write(writeBuf);
        assert before.contents + [] == before.contents;
        if answer.Raises? {
          return RuntimeError;
        }
        if answer.WouldBlock? {
          return Blocked;
        }
        var n := answer.n;
        if n < 0 || n > |writeBuf| {
          return IOError;
        }
        writeBuf := writeBuf[n..];
        assert before.answers == [] ==> before.buf[..n] == before.buf && writeBuf == [];
      }
      how := Done;
    }

    method Write(b: seq<byte>) returns (r: Result)
      modifies this`writeBuf, raw
      ensures (Now(), r) == AfterWrite(old(Now()), b, bufferSize)
    {
      if |writeBuf| > bufferSize {
        var how := FlushUnlocked();
        if !how.Done? {
          return if how.Blocked? then BlockingIOError(0) else Failed(how);
        }
      }
      var before := |writeBuf|;
      writeBuf := writeBuf + b;
      var written := |writeBuf| - before;
      if |writeBuf| > bufferSize {
        var how := FlushUnlocked();
        if how.RuntimeError? || how.IOError? {
          return Failed(how);
        }
        if how.Blocked? && |writeBuf| > bufferSize {
          var overage := |writeBuf| - bufferSize;
          written := written - overage;
          writeBuf := writeBuf[..bufferSize];
          return BlockingIOError(written);
        }
      }
      return Returned(written);
    }
  }
}
