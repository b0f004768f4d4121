/** The write session of a memory source: what is written stays apart from what is read until it is committed, and
    the buffer built by resizing and overwriting is a zero-filled sparse file. */
module WriteSessions {
  import opened Bytes
  import opened SharedFiles

  datatype Whence = Set | Cur | End | Other

  // ----- the reference: a sparse file -----

  /** One write: where and what. */
  datatype Extent = Extent(offset: nat, data: bytes)

  /** The length reached: a write extends the file up to its end, even an empty one. */
  function Length(base: bytes, log: seq<Extent>): nat {
    if log == [] then |base|
    else
      var e, n := log[|log| - 1], Length(base, log[..|log| - 1]);
      if e.offset + |e.data| > n then e.offset + |e.data| else n
  }

  /** The byte at `i` is the last one written there, else the one of the base, else zero. */
  function ByteAt(base: bytes, log: seq<Extent>, i: nat): byte {
    if log == [] then if i < |base| then base[i] else 0
    else
      var e := log[|log| - 1];
      if e.offset <= i < e.offset + |e.data| then e.data[i - e.offset] else ByteAt(base, log[..|log| - 1], i)
  }

  function Sparse(base: bytes, log: seq<Extent>): (s: bytes)
    ensures |s| == Length(base, log)
  {
    seq(Length(base, log), i requires 0 <= i < Length(base, log) => ByteAt(base, log, i))
  }

  lemma {:induction false} BeyondIsZero(base: bytes, log: seq<Extent>, i: nat)
    requires i >= Length(base, log)
    ensures ByteAt(base, log, i) == 0
  {
    if log != [] { BeyondIsZero(base, log[..|log| - 1], i); }
  }

  /** Grow with zeros up to `end`, then overwrite. */
  function Overwritten(out: bytes, e: Extent): bytes {
    var end := e.offset + |e.data|;
    var grown := if end > |out| then out + seq(end - |out|, _ => 0) else out;
    grown[..e.offset] + e.data + grown[end..]
  }

  /** Overwriting in place is appending to the log. */
  lemma OverwriteIsAppend(base: bytes, log: seq<Extent>, e: Extent)
    ensures Overwritten(Sparse(base, log), e) == Sparse(base, log + [e])
  {
    var out, now := Sparse(base, log), log + [e];
    assert now[..|now| - 1] == log;
    var over := Overwritten(out, e);
    forall i | 0 <= i < Length(base, now) ensures i < |over| && over[i] == ByteAt(base, now, i) {
      if i >= |out| { BeyondIsZero(base, log, i); }
    }
  }

  lemma NothingWritten(base: bytes)
    ensures Sparse(base, []) == base
  {}

  // ----- the reference machine -----

  datatype Session = Session(base: bytes, log: seq<Extent>, offset: nat)

  datatype State = State(data: bytes, pos: nat, session: Option<Session>)

  datatype Op =
    | Open | Read(n: nat) | Seek(offset: i64, whence: Whence)
    | Begin | BeginCloning(upTo: u64) | Write(data: bytes) | SeekWrite(offset: i64, whence: Whence) | TellWrite
    | Commit | Rollback

  datatype Reply = Count(n: nat) | Got(s: bytes) | Refused

  /** The position a seek asks for, if there is one. */
  function SeekTarget(offset: i64, whence: Whence, at: nat, end: nat): Option<nat>
    requires at <= I64_MAX && end <= I64_MAX
  {
    var t: i64 := match whence
      case Set => offset
      case Cur => WrappingAdd(at, offset)
      case End => WrappingAdd(end, offset)
      case Other => -1;
    if t < 0 then None else Some(t)
  }

  /** A seek lands on the offset from the start, the position or the end, and is refused exactly when that is not a
      signed 64-bit position of at least zero, or the origin is none of the three. */
  lemma SeekLands(offset: i64, whence: Whence, at: nat, end: nat)
    requires at <= I64_MAX && end <= I64_MAX
    ensures var sum := (match whence case Set => 0 case Cur => at case End => end case Other => 0) + offset;
            SeekTarget(offset, whence, at, end) ==
              if whence == Other || sum < 0 || sum > 0x7FFF_FFFF_FFFF_FFFF then None else Some(sum)
  {}

  predicate Bounded(w: Session) { w.offset <= I64_MAX && Length(w.base, w.log) <= I64_MAX }

  predicate IsReading(op: Op) { op.Open? || op.Read? || op.Seek? }

  predicate IsWriting(op: Op) { op.Write? || op.SeekWrite? || op.TellWrite? }

  function SessionStep(w: Session, op: Op): (r: (Session, Reply))
    requires Bounded(w) && IsWriting(op)
    ensures Bounded(r.0) && r.0.base == w.base
  {
    match op
    case Write(data) =>
      if w.offset + |data| > I64_MAX then (w, Refused)
      else
        Appended(w.base, w.log, Extent(w.offset, data));
        (Session(w.base, w.log + [Extent(w.offset, data)], w.offset + |data|), Count(|data|))
    case SeekWrite(offset, whence) =>
      var t := SeekTarget(offset, whence, w.offset, Length(w.base, w.log));
      if t.None? then (w, Refused) else (w.(offset := t.value), Count(0))
    case TellWrite => (w, Count(w.offset))
  }

  function SessionAfter(w: Session, ops: seq<Op>): (r: Session)
    requires Bounded(w) && forall op <- ops :: IsWriting(op)
    ensures Bounded(r) && r.base == w.base
  {
    if ops == [] then w else SessionStep(SessionAfter(w, ops[..|ops| - 1]), ops[|ops| - 1]).0
  }

  predicate Held(s: State) {
    && |s.data| <= I64_MAX && s.pos <= |s.data|
    && (s.session.Some? ==> Bounded(s.session.value))
  }

  function Step(s: State, op: Op): (r: (State, Reply))
    requires Held(s)
    ensures Held(r.0)
  {
    match op
    case Open => (s.(pos := 0), Count(0))
    case Read(n) =>
      var k := if n < |s.data| - s.pos then n else |s.data| - s.pos;
      (s.(pos := s.pos + k), Got(s.data[s.pos..s.pos + k]))
    case Seek(offset, whence) =>
      var t := SeekTarget(offset, whence, s.pos, |s.data|);
      if t.None? then (s, Refused) else (s.(pos := if t.value < |s.data| then t.value else |s.data|), Count(0))
    case Begin => if s.session.Some? then (s, Refused) else (s.(session := Some(Session([], [], 0))), Count(0))
    case BeginCloning(upTo) =>
      if s.session.Some? || upTo > |s.data| then (s, Refused)
      else (s.(session := Some(Session(s.data[..upTo], [], upTo))), Count(0))
    case Commit =>
      if s.session.None? then (s, Refused)
      else (State(Sparse(s.session.value.base, s.session.value.log), 0, None), Count(0))
    case Rollback => (s.(session := None), Count(0))
    case _ =>
      if s.session.None? then (s, Refused)
      else
        var (w, r) := SessionStep(s.session.value, op);
        (s.(session := Some(w)), r)
  }

  lemma Appended(base: bytes, log: seq<Extent>, e: Extent)
    ensures var n := Length(base, log);
            Length(base, log + [e]) == if e.offset + |e.data| > n then e.offset + |e.data| else n
  {
    assert (log + [e])[..|log|] == log;
  }

  function After(s: State, ops: seq<Op>): (r: State)
    requires Held(s)
    ensures Held(r)
  {
    if ops == [] then s else Step(After(s, ops[..|ops| - 1]), ops[|ops| - 1]).0
  }

  function Replies(s: State, ops: seq<Op>): (r: seq<Reply>)
    requires Held(s)
    ensures |r| == |ops|
  {
    if ops == [] then []
    else Replies(s, ops[..|ops| - 1]) + [Step(After(s, ops[..|ops| - 1]), ops[|ops| - 1]).1]
  }

  // ----- what every run keeps -----

  predicate Uncommitted(ops: seq<Op>) { forall i | 0 <= i < |ops| :: !ops[i].Commit? }

  /** Only a commit changes what readers see. */
  lemma {:induction false} OnlyCommitPublishes(s: State, ops: seq<Op>)
    requires Held(s) && Uncommitted(ops)
    ensures After(s, ops).data == s.data
  {
    if ops != [] { OnlyCommitPublishes(s, ops[..|ops| - 1]); }
  }

  /** Readers do not notice a session: dropping every session call but the commits from a commit-free run leaves
      every read result the same. */
  lemma {:induction false} ReadersSeeNoSession(s: State, t: State, ops: seq<Op>)
    requires Held(s) && Held(t) && s.data == t.data && s.pos == t.pos && Uncommitted(ops)
    ensures var readings := ReadingOnly(ops);
            && After(s, ops).pos == After(t, readings).pos && After(t, readings).data == t.data
            && ReadingReplies(s, ops) == Replies(t, readings)
  {
    hide Step, Sparse;
    if ops != [] {
      var n := |ops| - 1;
      ReadersSeeNoSession(s, t, ops[..n]);
      OnlyCommitPublishes(s, ops[..n]);
      ReadingStep(After(s, ops[..n]), After(t, ReadingOnly(ops[..n])), ops[n]);
      var readings := ReadingOnly(ops);
      if IsReading(ops[n]) {
        assert readings[..|readings| - 1] == ReadingOnly(ops[..n]) && readings[|readings| - 1] == ops[n];
      } else {
        assert readings == ReadingOnly(ops[..n]);
      }
    }
  }

  lemma ReadingStep(s: State, t: State, op: Op)
    requires Held(s) && Held(t) && s.data == t.data && s.pos == t.pos && !op.Commit?
    ensures if IsReading(op) then Step(s, op).1 == Step(t, op).1 && Step(s, op).0.pos == Step(t, op).0.pos
                                  && Step(t, op).0.data == t.data
            else Step(s, op).0.pos == s.pos
  {}

  function ReadingOnly(ops: seq<Op>): seq<Op> {
    if ops == [] then []
    else ReadingOnly(ops[..|ops| - 1]) + if IsReading(ops[|ops| - 1]) then [ops[|ops| - 1]] else []
  }

  function ReadingReplies(s: State, ops: seq<Op>): seq<Reply>
    requires Held(s)
  {
    if ops == [] then []
    else
      ReadingReplies(s, ops[..|ops| - 1])
      + if IsReading(ops[|ops| - 1]) then [Step(After(s, ops[..|ops| - 1]), ops[|ops| - 1]).1] else []
  }

  lemma {:induction false} AfterConcat(s: State, a: seq<Op>, b: seq<Op>)
    requires Held(s)
    ensures After(s, a + b) == After(After(s, a), b)
  {
    hide Step;
    if b == [] {
      assert a + b == a;
    } else {
      AfterConcat(s, a, b[..|b| - 1]);
      assert (a + b)[..|a + b| - 1] == a + b[..|b| - 1];
    }
  }

  lemma One(s: State, op: Op)
    requires Held(s)
    ensures After(s, [op]) == Step(s, op).0
  {
    hide Step;
    assert [op][..0] == [];
  }

  function WritingOnly(ops: seq<Op>): (r: seq<Op>)
    ensures forall op <- r :: IsWriting(op)
  {
    if ops == [] then []
    else WritingOnly(ops[..|ops| - 1]) + if IsWriting(ops[|ops| - 1]) then [ops[|ops| - 1]] else []
  }

  /** Neither ends the session: further begins are refused. */
  predicate Inside(ops: seq<Op>) { forall i | 0 <= i < |ops| :: !ops[i].Commit? && !ops[i].Rollback? }

  lemma InsideStep(t: State, w: Session, op: Op)
    requires Held(t) && t.session.None? && Bounded(w) && !op.Commit? && !op.Rollback?
    ensures Step(t.(session := Some(w)), op).0 ==
              if IsReading(op) then Step(t, op).0.(session := Some(w))
              else if IsWriting(op) then t.(session := Some(SessionStep(w, op).0))
              else t.(session := Some(w))
    ensures IsReading(op) ==> Step(t, op).0.session.None?
  {
    hide SessionStep, SeekTarget;
  }

  /** Inside a session reading and writing go on independently of each other. */
  lemma {:induction false} SessionRuns(s: State, ops: seq<Op>)
    requires Held(s) && s.session.Some? && Inside(ops)
    ensures After(s, ops) == After(s.(session := None), ReadingOnly(ops))
                               .(session := Some(SessionAfter(s.session.value, WritingOnly(ops))))
    ensures After(s.(session := None), ReadingOnly(ops)).session.None?
  {
    hide SessionStep, Step;
    if ops != [] {
      var n := |ops| - 1;
      var readings, writings := ReadingOnly(ops[..n]), WritingOnly(ops[..n]);
      SessionRuns(s, ops[..n]);
      InsideStep(After(s.(session := None), readings), SessionAfter(s.session.value, writings), ops[n]);
      if IsReading(ops[n]) {
        assert (readings + [ops[n]])[..|readings|] == readings;
        assert WritingOnly(ops) == writings;
      } else if IsWriting(ops[n]) {
        assert (writings + [ops[n]])[..|writings|] == writings;
        assert ReadingOnly(ops) == readings;
      } else {
        assert ReadingOnly(ops) == readings && WritingOnly(ops) == writings;
      }
    }
  }

  /** A committed session publishes exactly the sparse file its writes describe, over an empty base or over the
      cloned prefix, whatever was read, sought or begun in between; after a rolled-back one everything is as if
      only the reading had happened. */
  lemma SessionOutcome(s: State, begin: Op, ops: seq<Op>, last: Op)
    requires Held(s) && s.session.None? && (last == Commit || last == Rollback)
    requires begin == Begin || (begin.BeginCloning? && begin.upTo <= |s.data|)
    requires Inside(ops)
    ensures var base := if begin == Begin then [] else s.data[..begin.upTo];
            var w := SessionAfter(Session(base, [], |base|), WritingOnly(ops));
            After(s, [begin] + ops + [last]) ==
              if last == Commit then State(Sparse(base, w.log), 0, None) else After(s, ReadingOnly(ops))
  {
    hide SessionAfter, After, Sparse, ReadingOnly, WritingOnly;
    var begun := Step(s, begin).0;
    assert begun.(session := None) == s;
    AfterConcat(s, [begin] + ops, [last]);
    AfterConcat(s, [begin], ops);
    One(s, begin);
    SessionRuns(begun, ops);
    One(After(begun, ops), last);
  }

  // ----- what sessions and readers see, in bytes -----

  function Concat(chunks: seq<bytes>): bytes {
    if chunks == [] then [] else Concat(chunks[..|chunks| - 1]) + chunks[|chunks| - 1]
  }

  function Writes(chunks: seq<bytes>): (ops: seq<Op>)
    ensures |ops| == |chunks| && forall op <- ops :: op.Write?
  {
    seq(|chunks|, i requires 0 <= i < |chunks| => Op.Write(chunks[i]))
  }

  lemma WriteStep(w: Session, data: bytes)
    requires Bounded(w) && w.offset + |data| <= I64_MAX
    ensures SessionStep(w, Op.Write(data)).0 == Session(w.base, w.log + [Extent(w.offset, data)], w.offset + |data|)
  {}

  lemma FreshIsBounded(base: bytes)
    requires |base| <= I64_MAX
    ensures Bounded(Session(base, [], |base|))
  {}

  /** Writes one after the other append: after the empty or cloned base, all that was written, in order. */
  lemma {:induction false} WritesAppend(base: bytes, chunks: seq<bytes>)
    requires |base| + |Concat(chunks)| <= I64_MAX
    ensures Bounded(Session(base, [], |base|))
    ensures var w := SessionAfter(Session(base, [], |base|), Writes(chunks));
            Sparse(base, w.log) == base + Concat(chunks) && w.offset == |base| + |Concat(chunks)|
  {
    hide Sparse, Overwritten, SessionStep, Bounded;
    NothingWritten(base);
    FreshIsBounded(base);
    if chunks == [] {
      assert base + [] == base;
    } else {
      var n := |chunks| - 1;
      var ops := Writes(chunks);
      assert ops[..n] == Writes(chunks[..n]) && ops[n] == Op.Write(chunks[n]);
      WritesAppend(base, chunks[..n]);
      var w := SessionAfter(Session(base, [], |base|), ops[..n]);
      WriteStep(w, chunks[n]);
      OverwriteIsAppend(base, w.log, Extent(w.offset, chunks[n]));
      AtTheEnd(Sparse(base, w.log), chunks[n]);
      assert base + (Concat(chunks[..n]) + chunks[n]) == base + Concat(chunks[..n]) + chunks[n];
    }
  }

  lemma AtTheEnd(out: bytes, data: bytes)
    ensures Overwritten(out, Extent(|out|, data)) == out + data
  {}

  /** A write elsewhere replaces what stands there, over zeros if that is past the end, and the cursor stands after it. */
  lemma WriteElsewhere(w: Session, p: nat, data: bytes)
    requires Bounded(w) && p + |data| <= I64_MAX
    ensures var v := SessionStep(SessionStep(w, SeekWrite(p, Set)).0, Op.Write(data)).0;
            var was, now := Sparse(w.base, w.log), Sparse(v.base, v.log);
            && v.offset == p + |data|
            && |now| == (if p + |data| > |was| then p + |data| else |was|)
            && now[p..p + |data|] == data
            && (forall i | 0 <= i < |now| && !(p <= i < p + |data|) :: now[i] == if i < |was| then was[i] else 0)
  {
    hide Sparse, SessionStep, Overwritten, Bounded;
    SeekStep(w, p);
    WriteStep(w.(offset := p), data);
    OverwriteIsAppend(w.base, w.log, Extent(p, data));
    OverwrittenIs(Sparse(w.base, w.log), p, data);
  }

  lemma SeekStep(w: Session, p: nat)
    requires Bounded(w) && p <= I64_MAX
    ensures Bounded(w.(offset := p)) && SessionStep(w, SeekWrite(p, Set)).0 == w.(offset := p)
  {}

  lemma OverwrittenIs(was: bytes, p: nat, data: bytes)
    ensures var now := Overwritten(was, Extent(p, data));
            && |now| == (if p + |data| > |was| then p + |data| else |was|)
            && now[p..p + |data|] == data
            && (forall i | 0 <= i < |now| && !(p <= i < p + |data|) :: now[i] == if i < |was| then was[i] else 0)
  {}

  /** The bytes delivered by reads of these sizes, one after the other. */
  function Delivered(s: State, sizes: seq<nat>): (r: (bytes, State))
    requires Held(s)
    ensures Held(r.1)
  {
    if sizes == [] then ([], s)
    else
      var (got, t) := Delivered(s, sizes[..|sizes| - 1]);
      var (u, reply) := Step(t, Op.Read(sizes[|sizes| - 1]));
      (got + if reply.Got? then reply.s else [], u)
  }

  function Total(sizes: seq<nat>): nat { if sizes == [] then 0 else Total(sizes[..|sizes| - 1]) + sizes[|sizes| - 1] }

  /** Reads one after the other deliver the data from the position on, in order, up to the end. */
  lemma {:induction false} ReadsInOrder(s: State, sizes: seq<nat>)
    requires Held(s)
    ensures var (got, t) := Delivered(s, sizes);
            && t == s.(pos := if s.pos + Total(sizes) < |s.data| then s.pos + Total(sizes) else |s.data|)
            && got == s.data[s.pos..t.pos]
  {
    if sizes != [] {
      var n := |sizes| - 1;
      ReadsInOrder(s, sizes[..n]);
      var t := Delivered(s, sizes[..n]).1;
      Join(s.data, s.pos, t.pos, Step(t, Op.Read(sizes[n])).0.pos);
    } else {
      assert s.data[s.pos..s.pos] == [];
    }
  }

  // ----- the source as it is -----

  datatype PendingWrite = PendingWrite(out: bytes, offset: nat)

  class MemorySource {
    var data: bytes
    var pos: nat
    var size: nat
    var pending: Option<PendingWrite>
    var writeOpen: bool

    // What the pending buffer was built from.
    ghost var base: bytes
    ghost var log: seq<Extent>

    ghost function Abstract(): State
      reads this
    {
      State(data, pos, if pending.None? then None else Some(Session(base, log, pending.value.offset)))
    }

    /** A session is open exactly when there is a pending buffer, and the buffer is the sparse file of its writes. */
    ghost predicate Valid()
      reads this
    {
      && Held(Abstract()) && size == |data|
      && (writeOpen <==> pending.Some?)
      && (pending.Some? ==> pending.value.out == Sparse(base, log))
    }

    constructor (data: bytes)
      requires |data| <= I64_MAX
      ensures Valid() && Abstract() == State(data, 0, None)
    {
      this.data, pos, size, pending, writeOpen := data, 0, |data|, None, false;
      base, log := [], [];
    }

    method OpenSource() returns (r: Reply)
      requires Valid()
      modifies this
      ensures Valid() && (Abstract(), r) == Step(old(Abstract()), Open)
    {
      pos := 0;
      return Count(0);
    }

    method ReadSource(n: nat) returns (r: Reply)
      requires Valid()
      modifies this
      ensures Valid() && (Abstract(), r) == Step(old(Abstract()), Op.Read(n))
    {
      var remaining := |data| - pos;
      var k := if remaining < n then remaining else n;
      r := Got(data[pos..pos + k]);
      pos := pos + k;
    }

    method SeekSource(offset: i64, whence: Whence) returns (r: Reply)
      requires Valid()
      modifies this
      ensures Valid() && (Abstract(), r) == Step(old(Abstract()), Op.Seek(offset, whence))
    {
      var t := SeekTarget(offset, whence, pos, |data|);
      if t.None? { return Refused; }
      pos := if t.value < |data| then t.value else |data|;
      return Count(0);
    }

    method BeginWrite() returns (r: Reply)
      requires Valid()
      modifies this
      ensures Valid() && (Abstract(), r) == Step(old(Abstract()), Begin)
    {
      if writeOpen { return Refused; }
      pending := Some(PendingWrite([], 0));
      writeOpen := true;
      base, log := [], [];
      NothingWritten(base);
      return Count(0);
    }

    method BeginWriteCloning(upTo: u64) returns (r: Reply)
      requires Valid()
      modifies this
      ensures Valid() && (Abstract(), r) == Step(old(Abstract()), BeginCloning(upTo))
    {
      if writeOpen { return Refused; }
      if upTo > |data| { return Refused; }
      pending := Some(PendingWrite(data[..upTo], upTo));
      writeOpen := true;
      base, log := data[..upTo], [];
      NothingWritten(base);
      return Count(0);
    }

    method WriteBytes(s: bytes) returns (r: Reply)
      requires Valid()
      modifies this
      ensures Valid() && (Abstract(), r) == Step(old(Abstract()), Op.Write(s))
    {
      hide Sparse;
      if !writeOpen { return Refused; }
      var out, offset := pending.value.out, pending.value.offset;
      var end := offset + |s|;
      if end > I64_MAX { return Refused; }
      if end > |out| { out := out + seq(end - |out|, _ => 0); }
      out := out[..offset] + s + out[end..];
      OverwriteIsAppend(base, log, Extent(offset, s));
      Appended(base, log, Extent(offset, s));
      log := log + [Extent(offset, s)];
      pending := Some(PendingWrite(out, end));
      return Count(|s|);
    }

    method SeekWriteTo(offset: i64, whence: Whence) returns (r: Reply)
      requires Valid()
      modifies this
      ensures Valid() && (Abstract(), r) == Step(old(Abstract()), SeekWrite(offset, whence))
    {
      if !writeOpen || whence.Other? { return Refused; }
      var t := SeekTarget(offset, whence, pending.value.offset, |pending.value.out|);
      if t.None? { return Refused; }
      pending := Some(pending.value.(offset := t.value));
      return Count(0);
    }

    method TellWritePos() returns (r: Reply)
      requires Valid()
      ensures (Abstract(), r) == Step(Abstract(), TellWrite)
    {
      if !writeOpen { return Refused; }
      return Count(pending.value.offset);
    }

    method CommitWrite() returns (r: Reply)
      requires Valid()
      modifies this
      ensures Valid() && (Abstract(), r) == Step(old(Abstract()), Commit)
    {
      if !writeOpen { return Refused; }
      data := pending.value.out;
      pos := 0;
      pending := None;
      size := |data|;
      writeOpen := false;
      return Count(0);
    }

    method RollbackWrite() returns (r: Reply)
      requires Valid()
      modifies this
      ensures Valid() && (Abstract(), r) == Step(old(Abstract()), Rollback)
    {
      if writeOpen {
        pending := None;
        writeOpen := false;
      }
      return Count(0);
    }
  }

  /** Any sequence of calls gets the replies of the reference machine. */
  method Drive(data: bytes, ops: seq<Op>) returns (replies: seq<Reply>)
    requires |data| <= I64_MAX
    ensures replies == Replies(State(data, 0, None), ops)
  {
    hide Step, Sparse;
    var src := new MemorySource(data);
    ghost var s0 := State(data, 0, None);
    replies := [];
    for i := 0 to |ops|
      invariant src.Valid() && fresh(src)
      invariant src.Abstract() == After(s0, ops[..i]) && replies == Replies(s0, ops[..i])
    {
      assert ops[..i + 1][..i] == ops[..i];
      var op, r := ops[i], Refused;
      if op.Open? { r := src.OpenSource(); }
      else if op.Read? { r := src.ReadSource(op.n); }
      else if op.Seek? { r := src.SeekSource(op.offset, op.whence); }
      else if op.Begin? { r := src.BeginWrite(); }
      else if op.BeginCloning? { r := src.BeginWriteCloning(op.upTo); }
      else if op.Write? { r := src.WriteBytes(op.data); }
      else if op.SeekWrite? { r := src.SeekWriteTo(op.offset, op.whence); }
      else if op.TellWrite? { r := src.TellWritePos(); }
      else if op.Commit? { r := src.CommitWrite(); }
      else { r := src.RollbackWrite(); }
      replies := replies + [r];
    }
    assert ops[..|ops|] == ops;
  }
}
