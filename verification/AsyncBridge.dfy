/** The asynchronous reader over a blocking one: polls of any buffer size, and a blocking read that may complete,
    or be dropped, at any time. */
module AsyncBridge {
  import opened Bytes

  const CHUNK := 8192

  // ----- the blocking reader -----

  /** A blocking reader, by the outcome of each of its reads; past the end of the script it stays at its end. */
  datatype SyncReader = SyncReader(script: seq<Result<bytes>>, next: nat)

  /** Reads never overfill the staging buffer they are given. */
  predicate FitsChunks(script: seq<Result<bytes>>) { forall r <- script :: r.Ok? ==> |r.value| <= CHUNK }

  function ReadAt(script: seq<Result<bytes>>, k: nat): Result<bytes> { if k < |script| then script[k] else Ok([]) }

  /** The read ends the stream: nothing more, or an error. */
  predicate Terminal(script: seq<Result<bytes>>, k: nat) { ReadAt(script, k).Err? || ReadAt(script, k).value == [] }

  /** What the first `k` reads have produced. */
  function Produced(script: seq<Result<bytes>>, k: nat): bytes {
    if k == 0 then []
    else Produced(script, k - 1) + if ReadAt(script, k - 1).Ok? then ReadAt(script, k - 1).value else []
  }

  /** What a blocking caller gets by reading from `k` up to the end of the stream or the first error. */
  function Rest(script: seq<Result<bytes>>, k: nat): bytes
    decreases if k < |script| then |script| - k else 0
  {
    if k >= |script| || Terminal(script, k) then [] else ReadAt(script, k).value + Rest(script, k + 1)
  }

  function Whole(script: seq<Result<bytes>>): bytes { Rest(script, 0) }

  lemma {:induction false} ProducedThenRest(script: seq<Result<bytes>>, k: nat)
    requires forall j | 0 <= j < k :: !Terminal(script, j)
    ensures Produced(script, k) + Rest(script, k) == Whole(script)
  {
    if k > 0 {
      ProducedThenRest(script, k - 1);
      var b := ReadAt(script, k - 1).value;
      assert Produced(script, k - 1) + (b + Rest(script, k)) == (Produced(script, k - 1) + b) + Rest(script, k);
    }
  }

  // ----- the blocking task -----

  datatype Task =
    | Running(reader: SyncReader)
    | Done(reader: SyncReader, staging: bytes, res: Result<nat>)
    | Dropped

  function Filled(chunk: bytes): bytes
    requires |chunk| <= CHUNK
  {
    chunk + seq(CHUNK - |chunk|, _ => 0)
  }

  datatype Poll = Pending | Ready(r: Result<bytes>)

  class AsyncEntryReader {
    var inner: Option<SyncReader>
    var pending: Option<Task>
    var staging: bytes
    var stagingPos: nat

    ghost const script: seq<Result<bytes>>
    // What the callers have got, how many blocking reads have completed, and whether an error was reported.
    ghost var delivered: bytes
    ghost var completed: nat
    ghost var failed: bool
    // How many blocking reads were started, and how many were dropped with their reader.
    ghost var launched: nat
    ghost var lost: nat

    /** Decoded bytes not yet handed to a caller. */
    ghost function Unserved(): bytes
      requires stagingPos <= |staging|
      reads this
    {
      staging[stagingPos..]
    }

    /** Bytes of a completed blocking read nobody has collected. */
    ghost function InFlight(): bytes
      reads this
    {
      if pending.Some? && pending.value.Done? && pending.value.res.Ok? && pending.value.res.value <= |pending.value.staging|
      then pending.value.staging[..pending.value.res.value] else []
    }

    /** How many blocking reads are under way: started, and neither completed nor given up. */
    ghost function Outstanding(): int reads this { launched - completed - lost }

    /** Nothing of the reader, of a task, or of the staging buffer is left. */
    ghost predicate Over() reads this { inner.None? && pending.None? && staging == [] }

    ghost predicate TaskValid()
      reads this
    {
      match pending
      case None => true
      case Some(Running(r)) =>
        r == SyncReader(script, completed) && !failed && forall j | 0 <= j < completed :: !Terminal(script, j)
      case Some(Done(r, s, res)) =>
        && r == SyncReader(script, completed) && !failed && completed > 0
        && |s| == CHUNK && (res.Ok? ==> res.value <= CHUNK)
        && ReadAt(script, completed - 1) == (if res.Ok? then Ok(s[..res.value]) else Err(res.error))
        && forall j | 0 <= j < completed - 1 :: !Terminal(script, j)
      case Some(Dropped) => !failed && forall j | 0 <= j < completed :: !Terminal(script, j)
    }

    /** The conservation law of the bridge and the uniqueness of the reader: it is idle here, or owned by the one
        outstanding task, or gone; at most one blocking read is ever under way. */
    ghost predicate Valid()
      reads this
    {
      && FitsChunks(script)
      && Outstanding() == (if pending.Some? && !pending.value.Done? then 1 else 0)
      && stagingPos <= |staging| && (stagingPos == |staging| ==> staging == [])
      && delivered + Unserved() + InFlight() == Produced(script, completed)
      && (pending.Some? ==> inner.None? && staging == [])
      && (inner.Some? ==> inner.value == SyncReader(script, completed) && !failed)
      && (inner.Some? ==> forall j | 0 <= j < completed :: !Terminal(script, j))
      && (staging != [] ==> inner.Some?)
      && TaskValid()
      && (inner.None? && pending.None? && !failed ==>
            && completed > 0 && ReadAt(script, completed - 1) == Ok([])
            && forall j | 0 <= j < completed - 1 :: !Terminal(script, j))
      && (failed ==> inner.None? && pending.None? && forall j | 0 <= j < completed - 1 :: !Terminal(script, j))
    }

    constructor (script: seq<Result<bytes>>)
      requires FitsChunks(script)
      ensures Valid() && this.script == script && delivered == [] && !failed
    {
      inner := Some(SyncReader(script, 0));
      pending := None;
      staging := [];
      stagingPos := 0;
      this.script := script;
      delivered := [];
      completed := 0;
      failed := false;
      launched, lost := 0, 0;
    }

    /** The blocking task runs to its end, whenever the pool lets it. */
    method Complete()
      requires Valid() && pending.Some? && pending.value.Running?
      modifies this
      ensures Valid() && delivered == old(delivered) && failed == old(failed) && launched == old(launched)
      ensures completed == old(completed) + 1 && pending.Some? && pending.value.Done?
    {
      var r := pending.value.reader;
      var outcome := ReadAt(r.script, r.next);
      ghost var was := Produced(script, completed);
      assert outcome.Ok? ==> |outcome.value| <= CHUNK by {
        if r.next < |script| { assert script[r.next] in script; }
      }
      pending := Some(if outcome.Ok? then Done(SyncReader(r.script, r.next + 1), Filled(outcome.value), Ok(|outcome.value|))
                      else Done(SyncReader(r.script, r.next + 1), Filled([]), Err(outcome.error)));
      completed := completed + 1;
      assert InFlight() == if outcome.Ok? then outcome.value else [];
    }

    /** The task is dropped with the reader it owns. */
    method Drop()
      requires Valid() && pending.Some? && pending.value.Running?
      modifies this
      ensures Valid() && delivered == old(delivered) && failed == old(failed) && completed == old(completed)
      ensures pending == Some(Dropped) && launched == old(launched)
    {
      pending := Some(Dropped);
    }

    method ServeBuffered(cap: nat) returns (served: bool, out: bytes)
      requires Valid()
      modifies this`staging, this`stagingPos, this`delivered
      ensures Valid() && served == (old(staging) != [] && cap > 0)
      ensures delivered == old(delivered) + out && |out| <= cap && (served <==> out != [])
      ensures !served ==> staging == old(staging)
    {
      served, out := false, [];
      if stagingPos < |staging| {
        var avail := |staging| - stagingPos;
        var n := if avail < cap then avail else cap;
        if n > 0 {
          out := staging[stagingPos..stagingPos + n];
          assert out + staging[stagingPos + n..] == staging[stagingPos..];
          assert delivered + (out + staging[stagingPos + n..]) == (delivered + out) + staging[stagingPos + n..];
          stagingPos := stagingPos + n;
          delivered := delivered + out;
          if stagingPos == |staging| {
            stagingPos := 0;
            staging := [];
          }
          served := true;
        }
      }
    }

    // A completed read is collected: its bytes become the staging buffer and the reader comes back.
    method FinishRead() returns (r: Result<()>)
      requires Valid() && pending.Some? && pending.value.Done?
      modifies this
      ensures Valid() && delivered == old(delivered) && completed == old(completed) && pending.None?
      ensures failed == r.Err? && launched == old(launched)
      ensures r.Ok? && inner.Some? ==> staging != []
      ensures r.Err? ==> ReadAt(script, completed - 1) == Err(r.error) && Over()
    {
      var task := pending.value;
      pending := None;
      if task.res.Err? {
        inner := None;
        failed := true;
        return Err(task.res.error);
      }
      stagingPos := 0;
      staging := task.staging[..task.res.value];
      if task.res.value == 0 {
        inner := None;
        staging := [];
        return Ok(());
      }
      inner := Some(task.reader);
      return Ok(());
    }

    ghost function Rank(): nat
      reads this
    {
      if staging != [] then 0 else if pending.Some? then 1 else if inner.Some? then 2 else 0
    }

    // The receiver is polled once; the task may have ended by now, one way or the other.
    method PollReceiver() returns (p: Option<Result<()>>)
      requires Valid() && pending.Some?
      modifies this
      ensures Valid() && delivered == old(delivered) && launched == old(launched)
      ensures p.None? ==> pending.Some? && pending.value.Running?
      ensures p.Some? ==> pending.None? && failed == p.value.Err?
      ensures p.Some? && p.value.Ok? && inner.Some? ==> staging != []
      ensures p.Some? && p.value.Err? ==>
                && Over()
                && (p.value.error == TaskCancelled
                    || (completed > 0 && ReadAt(script, completed - 1) == Err(p.value.error)))
    {
      if pending.value.Running? {
        if * { Complete(); } else if * { Drop(); } else { return None; }
      }
      if pending.value.Dropped? {
        lost := lost + 1;
        pending := None;
        inner := None;
        failed := true;
        return Some(Err(TaskCancelled));
      }
      var r := FinishRead();
      return Some(r);
    }

    // The reader moves into a new blocking task.
    method Launch()
      requires Valid() && inner.Some? && staging == []
      modifies this
      ensures Valid() && delivered == old(delivered) && failed == old(failed) && pending.Some? && staging == []
      ensures launched == old(launched) + 1
    {
      var reader := inner.value;
      inner := None;
      staging := [];
      stagingPos := 0;
      pending := Some(Running(reader));
      launched := launched + 1;
    }

    /** One poll with room for `cap` bytes. Bytes come out in order and none is lost or repeated; nothing comes out
        of a non-empty buffer only at the true end of the stream or after an error; an error is reported once.
        A poll starts at most one blocking read. */
    method PollRead(cap: nat) returns (p: Poll)
      requires Valid()
      modifies this
      ensures Valid()
      ensures delivered == old(delivered) + if p.Ready? && p.r.Ok? then p.r.value else []
      ensures p.Ready? && p.r.Ok? ==> |p.r.value| <= cap
      ensures failed == (old(failed) || (p.Ready? && p.r.Err?))
      ensures p.Pending? ==> pending.Some? && pending.value.Running?
      ensures p.Ready? && p.r.Err? ==> !old(failed) && Over()
      ensures p.Ready? && p.r.Err? ==>
                p.r.error == TaskCancelled || (completed > 0 && ReadAt(script, completed - 1) == Err(p.r.error))
      ensures p == Ready(Ok([])) && cap > 0 ==> Over() && (failed || delivered == Whole(script))
      ensures old(Over()) ==> p == Ready(Ok([])) && Over()
      ensures launched <= old(launched) + 1
    {
      hide Whole, Produced, Terminal, ReadAt;
      while true
        invariant Valid() && delivered == old(delivered) && failed == old(failed)
        invariant old(Over()) ==> Over()
        invariant launched == old(launched) || (launched == old(launched) + 1 && Rank() <= 1)
        decreases Rank()
      {
        var served, out := ServeBuffered(cap);
        if served { return Ready(Ok(out)); }
        if pending.Some? {
          var polled := PollReceiver();
          if polled.None? { return Pending; }
          if polled.value.Err? { return Ready(Err(polled.value.error)); }
          continue;
        }
        if cap == 0 { return Ready(Ok([])); }
        if inner.None? {
          if !failed { CleanEnd(); }
          return Ready(Ok([]));
        }
        Launch();
      }
    }

    lemma CleanEnd()
      requires Valid() && Over() && !failed
      ensures delivered == Whole(script)
    {
      ProducedThenRest(script, completed - 1);
      assert Rest(script, completed - 1) == [];
    }

    /** At any moment the callers have a prefix of what a blocking caller would get. */
    lemma DeliveredIsPrefix()
      requires Valid()
      ensures delivered <= Whole(script)
    {
      var k := if completed > 0 && Terminal(script, completed - 1) then completed - 1 else completed;
      ProducedThenRest(script, k);
      assert Produced(script, completed) == Produced(script, k);
      assert delivered <= Produced(script, completed);
    }
  }

  // ----- whole runs -----

  datatype Step = PollWith(cap: nat) | Completes | IsDropped

  /** Any interleaving of polls and task ends: what came out is a prefix of the stream, a clean end means all of it
      came out, and at most one error is reported. */
  method Drive(script: seq<Result<bytes>>, steps: seq<Step>) returns (out: bytes, ended: bool, errors: seq<ZipError>)
    requires FitsChunks(script)
    ensures out <= Whole(script)
    ensures ended && errors == [] ==> out == Whole(script)
    ensures |errors| <= 1
  {
    var r := new AsyncEntryReader(script);
    out, ended, errors := [], false, [];
    for i := 0 to |steps|
      invariant fresh(r) && r.Valid() && r.script == script
      invariant out == r.delivered
      invariant |errors| == if r.failed then 1 else 0
      invariant ended && errors == [] ==> r.Over()
    {
      match steps[i] {
        case PollWith(cap) =>
          var p := r.PollRead(cap);
          if p.Ready? && p.r.Ok? {
            out := out + p.r.value;
            ended := ended || (cap > 0 && p.r.value == []);
          } else if p.Ready? {
            errors := errors + [p.r.error];
          }
        case Completes =>
          if r.pending.Some? && r.pending.value.Running? { r.Complete(); }
        case IsDropped =>
          if r.pending.Some? && r.pending.value.Running? { r.Drop(); }
      }
    }
    r.DeliveredIsPrefix();
    if ended && errors == [] { r.CleanEnd(); }
  }
}
