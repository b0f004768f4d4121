/** Any number of readers over one operating-system file handle. Each keeps its own position; the handle is moved
    only when it is not already where the next read needs it. */
module SharedFiles {
  import opened Bytes

  const I64_MAX := 0x7FFF_FFFF_FFFF_FFFF
  const TWO_64 := 0x1_0000_0000_0000_0000
  type i64 = n: int | -0x8000_0000_0000_0000 <= n <= 0x7FFF_FFFF_FFFF_FFFF

  /** What the operating system does with one read: fail, or deliver at most so many bytes (at least one). */
  datatype Supply = Fails | Delivers(atMost: nat)

  /** `u64` cast to `i64`. */
  function AsI64(n: u64): i64 { if n <= I64_MAX then n else n - TWO_64 }

  /** A sum of two `i64` that wraps around. */
  function WrappingAdd(a: i64, b: i64): i64 {
    if a + b > I64_MAX then a + b - TWO_64 else if a + b < -0x8000_0000_0000_0000 then a + b + TWO_64 else a + b
  }

  function AtLeastZero(n: i64): u64 { if n < 0 then 0 else n }

  datatype SeekFrom = Start(p: u64) | Current(d: i64) | End(d: i64)

  function Target(from: SeekFrom, pos: u64, len: u64): u64 {
    match from
    case Start(p) => p
    case Current(d) => AtLeastZero(WrappingAdd(AsI64(pos), d))
    case End(d) => AtLeastZero(WrappingAdd(AsI64(len), d))
  }

  /** A relative seek lands on the sum, held at zero, exactly when the sum is a signed 64-bit position;
      past that the wrap-around sends it elsewhere. Likewise from the end. An absolute one lands where it says. */
  lemma RelativeSeek(pos: u64, d: i64, len: u64)
    ensures Target(Current(d), pos, len) == (if pos + d < 0 then 0 else pos + d) <==> pos + d <= I64_MAX
    ensures Target(End(d), pos, len) == (if len + d < 0 then 0 else len + d) <==> len + d <= I64_MAX
    ensures Target(Start(len), pos, 0) == len
  {}

  // ----- the operating system's file -----

  function Chunk(data: bytes, pos: nat, n: nat, atMost: nat): bytes {
    var left := if pos < |data| then |data| - pos else 0;
    var most := if n < left then n else left;
    var k := if most == 0 then 0 else if atMost < 1 then 1 else if atMost < most then atMost else most;
    if k == 0 then [] else data[pos..pos + k]
  }

  class OsFile {
    const data: bytes
    var pos: nat

    ghost predicate Valid() reads this { |data| <= I64_MAX && pos <= I64_MAX }

    constructor (data: bytes, pos: nat)
      ensures this.data == data && this.pos == pos
    {
      this.data := data;
      this.pos := pos;
    }

    // The system takes a signed offset.
    method Seek(p: u64) returns (ok: bool)
      requires Valid()
      modifies this
      ensures Valid() && ok == (p <= I64_MAX) && pos == if ok then p else old(pos)
    {
      ok := p <= I64_MAX;
      if ok { pos := p; }
    }

    method Read(n: nat, supply: Supply) returns (r: Result<bytes>)
      requires Valid()
      modifies this
      ensures Valid()
      ensures r == if supply.Fails? then Err(ZipError.Read) else Ok(Chunk(data, old(pos), n, supply.atMost))
      ensures pos == old(pos) + if r.Ok? then |r.value| else 0
    {
      if supply.Fails? { return Err(ZipError.Read); }
      var s := Chunk(data, pos, n, supply.atMost);
      pos := pos + |s|;
      return Ok(s);
    }
  }

  class Handle {
    const file: OsFile
    var lastPos: u64

    constructor (file: OsFile)
      ensures this.file == file && lastPos == U64_MAX
    {
      this.file := file;
      lastPos := U64_MAX;
    }

    /** The remembered position is the sentinel or the true one. */
    ghost predicate Coherent() reads this, file { lastPos == U64_MAX || lastPos == file.pos }
  }

  // ----- a private handle, for comparison -----

  /** A read through a handle of one's own, at one's own position. */
  function PrivateRead(data: bytes, pos: u64, n: nat, supply: Supply): Result<bytes> {
    if pos > I64_MAX then Err(ZipError.Seek)
    else if supply.Fails? then Err(ZipError.Read)
    else Ok(Chunk(data, pos, n, supply.atMost))
  }

  function Advanced(pos: u64, r: Result<bytes>): u64 {
    if r.Ok? then (pos + |r.value|) % TWO_64 else pos
  }

  // The one state in which the handle is not moved although it has to be.
  predicate Confusing(pos: u64, lastPos: u64) { pos == U64_MAX && lastPos == U64_MAX }

  class SharedFile {
    const inner: Handle
    var pos: u64

    constructor AtOffset(inner: Handle, offset: u64)
      ensures this.inner == inner && pos == offset
    {
      this.inner := inner;
      pos := offset;
    }

    /** From a coherent handle the read is the private one, whatever other readers did, and the handle stays
        coherent; only a reader at `u64::MAX` on a handle still at its sentinel reads wherever the file happens
        to be, where a private handle reports a seek error. */
    method Read(n: nat, supply: Supply) returns (r: Result<bytes>)
      requires inner.file.Valid()
      modifies this`pos, inner, inner.file
      ensures inner.file.Valid()
      ensures old(inner.Coherent()) && !Confusing(old(pos), old(inner.lastPos)) ==>
                && r == PrivateRead(inner.file.data, old(pos), n, supply)
                && pos == Advanced(old(pos), r)
                && inner.Coherent()
                && (inner.lastPos == U64_MAX <==> old(inner.lastPos) == U64_MAX && old(pos) > I64_MAX)
      ensures Confusing(old(pos), old(inner.lastPos)) ==>
                r == PrivateRead(inner.file.data, old(inner.file.pos), n, supply) && r != Err(ZipError.Seek)
    {
      if inner.lastPos != pos {
        var ok := inner.file.Seek(pos);
        if !ok { return Err(ZipError.Seek); }
        inner.lastPos := pos;
      }
      r := inner.file.Read(n, supply);
      if r.Err? { return; }
      pos := (pos + |r.value|) % TWO_64;
      inner.lastPos := pos;
    }

    method Seek(from: SeekFrom) returns (p: u64)
      requires inner.file.Valid()
      modifies this
      ensures p == pos == Target(from, old(pos), |inner.file.data|)
    {
      pos := match from
        case Start(p) => p
        case Current(d) => AtLeastZero(WrappingAdd(AsI64(pos), d))
        case End(d) => AtLeastZero(WrappingAdd(AsI64(|inner.file.data|), d));
      p := pos;
    }

    method DuplicateAt(offset: u64) returns (s: SharedFile)
      ensures fresh(s) && s.inner == inner && s.pos == offset
    {
      s := new SharedFile.AtOffset(inner, offset);
    }
  }

  /** A read of a private reader delivers the bytes that stand at its position, as many as were asked for, are there and
      the system gives, at least one if any can be; the position moves past them, and stays when the read fails. */
  lemma PrivateReadSays(data: bytes, pos: u64, n: nat, supply: Supply)
    requires |data| <= I64_MAX
    ensures var r := PrivateRead(data, pos, n, supply);
            && Advanced(pos, r) == pos + (if r.Ok? then |r.value| else 0)
            && (r.Err? <==> pos > 0x7FFF_FFFF_FFFF_FFFF || supply.Fails?)
            && (r.Err? ==> r.error == if pos > 0x7FFF_FFFF_FFFF_FFFF then ZipError.Seek else ZipError.Read)
            && (r.Ok? ==>
                  && |r.value| <= n && (r.value == [] <==> n == 0 || pos >= |data|)
                  && (r.value != [] ==> pos + |r.value| <= |data| && r.value == data[pos..pos + |r.value|])
                  && (|r.value| <= supply.atMost || |r.value| <= 1)
                  && (|r.value| < n && pos + |r.value| < |data| ==> |r.value| >= supply.atMost))
  {}

  // ----- whole runs -----

  /** One step of any reader. Readers are numbered in the order they were opened. */
  datatype Op =
    | OpenAt(offset: u64)
    | ReadBy(who: nat, n: nat, supply: Supply)
    | SeekBy(who: nat, from: SeekFrom)
    | DuplicateBy(who: nat, offset: u64)

  datatype Event = Delivered(r: Result<bytes>) | Moved(p: u64) | Opened | Nobody

  /** Every reader with a position of its own and nothing shared. */
  datatype Private = Private(cursors: seq<u64>, events: seq<Event>)

  function PrivateStep(data: bytes, s: Private, op: Op): Private
    requires |data| <= I64_MAX
  {
    match op
    case OpenAt(offset) => Private(s.cursors + [offset], s.events + [Opened])
    case ReadBy(who, n, supply) =>
      if who >= |s.cursors| then Private(s.cursors, s.events + [Nobody])
      else
        var r := PrivateRead(data, s.cursors[who], n, supply);
        Private(s.cursors[who := Advanced(s.cursors[who], r)], s.events + [Delivered(r)])
    case SeekBy(who, from) =>
      if who >= |s.cursors| then Private(s.cursors, s.events + [Nobody])
      else
        var p := Target(from, s.cursors[who], |data|);
        Private(s.cursors[who := p], s.events + [Moved(p)])
    case DuplicateBy(who, offset) =>
      if who >= |s.cursors| then Private(s.cursors, s.events + [Nobody])
      else Private(s.cursors + [offset], s.events + [Opened])
  }

  /** A step opens at most one reader, where it is told to, and moves at most the reader it is about. */
  lemma OnlyItsOwn(data: bytes, s: Private, op: Op, j: nat)
    requires |data| <= I64_MAX && j < |s.cursors|
    ensures var t := PrivateStep(data, s, op);
            && |s.cursors| <= |t.cursors| <= |s.cursors| + 1 && |t.events| == |s.events| + 1 && t.events[..|s.events|] == s.events
            && (op.OpenAt? ==> t.cursors == s.cursors + [op.offset])
            && (op.DuplicateBy? && op.who < |s.cursors| ==> t.cursors == s.cursors + [op.offset])
            && (op.OpenAt? || op.DuplicateBy? || op.who != j ==> t.cursors[j] == s.cursors[j])
  {
    hide Chunk, Target;
  }

  function PrivateRun(data: bytes, ops: seq<Op>): (s: Private)
    requires |data| <= I64_MAX
    ensures |s.events| == |ops|
  {
    if ops == [] then Private([], [])
    else PrivateStep(data, PrivateRun(data, ops[..|ops| - 1]), ops[|ops| - 1])
  }

  /** Whether the handle has been placed by a read within the signed range, and whether a read at `u64::MAX`
      came before that. */
  datatype Phase = Unplaced | Placed | Confused

  function PhaseStep(p: Phase, cursors: seq<u64>, op: Op): Phase {
    if p == Unplaced && op.ReadBy? && op.who < |cursors|
    then if cursors[op.who] == U64_MAX then Confused else if cursors[op.who] <= I64_MAX then Placed else Unplaced
    else p
  }

  function PhaseOf(data: bytes, ops: seq<Op>): Phase
    requires |data| <= I64_MAX
  {
    if ops == [] then Unplaced
    else PhaseStep(PhaseOf(data, ops[..|ops| - 1]), PrivateRun(data, ops[..|ops| - 1]).cursors, ops[|ops| - 1])
  }

  /** Without a position of `u64::MAX` nothing can confuse the handle. */
  predicate AvoidsMax(op: Op) {
    match op
    case OpenAt(offset) => offset != U64_MAX
    case ReadBy(_, _, _) => true
    case SeekBy(_, from) => from != Start(U64_MAX)
    case DuplicateBy(_, offset) => offset != U64_MAX
  }

  lemma {:induction false} NeverConfused(data: bytes, ops: seq<Op>)
    requires |data| <= I64_MAX && forall op <- ops :: AvoidsMax(op)
    ensures PhaseOf(data, ops) != Confused
    ensures forall j | 0 <= j < |PrivateRun(data, ops).cursors| :: PrivateRun(data, ops).cursors[j] != U64_MAX
  {
    hide Chunk;
    if ops != [] {
      var n := |ops| - 1;
      NeverConfused(data, ops[..n]);
      var s, op := PrivateRun(data, ops[..n]), ops[n];
      assert op in ops;
      if op.ReadBy? && op.who < |s.cursors| {
        ReadStaysInRange(data, s.cursors[op.who], op.n, op.supply);
      }
    }
  }

  lemma ReadStaysInRange(data: bytes, pos: u64, n: nat, supply: Supply)
    requires |data| <= I64_MAX && pos != U64_MAX
    ensures Advanced(pos, PrivateRead(data, pos, n, supply)) != U64_MAX
  {}

  /** The shortest confused run: open at `u64::MAX`, then read. */
  lemma ConfusedRun(data: bytes, n: nat, supply: Supply)
    requires |data| <= I64_MAX
    ensures PhaseOf(data, [OpenAt(U64_MAX), ReadBy(0, n, supply)]) == Confused
  {
    var open, read := OpenAt(U64_MAX), ReadBy(0, n, supply);
    assert [open, read][..1] == [open] && [open][..0] == [];
    assert PrivateRun(data, [open]).cursors == [U64_MAX] && PhaseOf(data, [open]) == Unplaced;
  }

  lemma NoRun(data: bytes)
    requires |data| <= I64_MAX
    ensures PrivateRun(data, []) == Private([], []) && PhaseOf(data, []) == Unplaced
  {}

  lemma RunStep(data: bytes, ops: seq<Op>, i: nat)
    requires |data| <= I64_MAX && i < |ops|
    ensures var s := PrivateRun(data, ops[..i]);
            && PrivateRun(data, ops[..i + 1]) == PrivateStep(data, s, ops[i])
            && PhaseOf(data, ops[..i + 1]) == PhaseStep(PhaseOf(data, ops[..i]), s.cursors, ops[i])
  {
    hide PrivateStep, PhaseStep;
    assert ops[..i + 1][..i] == ops[..i];
  }

  lemma MaxIsRefused(data: bytes, n: nat, supply: Supply)
    ensures PrivateRead(data, U64_MAX, n, supply) == Err(ZipError.Seek)
  {}

  /** Every reader of a run, in any interleaving, sees exactly what private handles would show it,
      unless the very first effective read is one at `u64::MAX`; then the run differs. */
  method Drive(data: bytes, osPos: nat, ops: seq<Op>) returns (events: seq<Event>)
    requires |data| <= I64_MAX && osPos <= I64_MAX
    ensures events == PrivateRun(data, ops).events <==> PhaseOf(data, ops) != Confused
  {
    hide PrivateRun, PhaseOf, PrivateRead, Target, Chunk, Advanced;
    NoRun(data);
    var file := new OsFile(data, osPos);
    var handle := new Handle(file);
    var readers: seq<SharedFile> := [];
    events := [];
    for i := 0 to |ops|
      invariant fresh(handle) && fresh(file) && handle.file == file && file.data == data && file.Valid()
      invariant forall j | 0 <= j < |readers| :: fresh(readers[j]) && readers[j].inner == handle
      invariant forall j, k | 0 <= j < k < |readers| :: readers[j] != readers[k]
      invariant |readers| == |PrivateRun(data, ops[..i]).cursors| && |events| == i
      invariant (events == PrivateRun(data, ops[..i]).events) == (PhaseOf(data, ops[..i]) != Confused)
      invariant PhaseOf(data, ops[..i]) != Confused ==>
                  && handle.Coherent()
                  && (handle.lastPos == U64_MAX <==> PhaseOf(data, ops[..i]) == Unplaced)
                  && forall j | 0 <= j < |readers| :: readers[j].pos == PrivateRun(data, ops[..i]).cursors[j]
    {
      RunStep(data, ops, i);
      ghost var s := PrivateRun(data, ops[..i]);
      ghost var was := events;
      var op := ops[i];
      if op.OpenAt? {
        var r := new SharedFile.AtOffset(handle, op.offset);
        readers := readers + [r];
        events := events + [Opened];
      } else if op.who >= |readers| {
        events := events + [Nobody];
      } else if op.ReadBy? {
        MaxIsRefused(data, op.n, op.supply);
        var r := readers[op.who].Read(op.n, op.supply);
        events := events + [Delivered(r)];
      } else if op.SeekBy? {
        var p := readers[op.who].Seek(op.from);
        events := events + [Moved(p)];
      } else {
        var r := readers[op.who].DuplicateAt(op.offset);
        readers := readers + [r];
        events := events + [Opened];
      }
      assert events[..i] == was && PrivateRun(data, ops[..i + 1]).events[..i] == s.events;
    }
    assert ops[..|ops|] == ops;
  }
}
