/** Reading one entry: bytes come from a streaming decoder, a decoded buffer or the archive itself, and the size and
    the CRC are checked when they run out. */
module EntryReaders {
  import opened Bytes
  import Crc

  // ----- what is read and what it is checked against -----

  datatype Ending = Clean | Broken(error: ZipError)

  /** All a decoder has to give: its output and whether the stream then ends or breaks. */
  datatype Decoded = Decoded(out: bytes, ending: Ending)

  /** The recorded size and, unless the entry stores none, the recorded CRC. */
  datatype Check = Check(size: u64, crc: Option<bv32>)

  const ABSOLUTE_LIMIT := 32 * 1024 * 1024
  const SAFETY_MARGIN := 1024 * 1024

  /** How many bytes an entry may deliver; the sum saturates. */
  function Limit(size: u64): nat {
    var most := (if size > ABSOLUTE_LIMIT then size else ABSOLUTE_LIMIT) + SAFETY_MARGIN;
    if most > U64_MAX then U64_MAX else most
  }

  function Verdict(check: Check, s: bytes): Option<ZipError> {
    if |s| != check.size then Some(SizeMismatch)
    else if check.crc.Some? && Crc.Hash(s) != check.crc.value then Some(ZipError.Crc)
    else None
  }

  /** The one outcome of reading an entry to its end, however it is read. */
  function Drained(d: Decoded, check: Check): Result<bytes> {
    if |d.out| > Limit(check.size) then Err(DecompressionLimit)
    else if d.ending.Broken? then Err(d.ending.error)
    else match Verdict(check, d.out) case Some(e) => Err(e) case None => Ok(d.out)
  }

  /** An entry reads successfully exactly when it decodes cleanly to content of the recorded size and CRC:
      the limit never rejects such an entry. */
  lemma DrainedOk(d: Decoded, check: Check, s: bytes)
    requires |d.out| <= U64_MAX || |s| <= U64_MAX
    ensures Drained(d, check) == Ok(s) <==>
              d == Decoded(s, Clean) && |s| == check.size && (check.crc.Some? ==> Crc.Hash(s) == check.crc.value)
  {
    hide Crc.Hash;
  }

  /** Why an entry is not read, the first that applies: output above the recorded size, or 32 MiB if that is more, and
      1 MiB; the error in which the stream breaks off; another size; another CRC than the recorded one. */
  lemma OutputLimit(d: Decoded, check: Check)
    requires |d.out| <= U64_MAX
    ensures var most := (if check.size > 33_554_432 then check.size else 33_554_432) + 1_048_576;
            Drained(d, check) ==
              if |d.out| > most then Err(DecompressionLimit)
              else if d.ending.Broken? then Err(d.ending.error)
              else if |d.out| != check.size then Err(SizeMismatch)
              else if check.crc.Some? && check.crc.value != Crc.Hash(d.out) then Err(ZipError.Crc)
              else Ok(d.out)
  {
    hide Crc.Hash;
  }

  // ----- the reader -----

  datatype Inner =
    | Streaming(rest: Decoded)
    | Buffered(data: bytes, pos: nat)
    | Shared(archive: bytes, start: nat, end: nat, at: nat)

  function Lesser(a: nat, b: nat): nat { if a < b then a else b }

  /** What a reader in this state has yet to give. */
  function RestOf(i: Inner): Decoded {
    match i
    case Streaming(rest) => rest
    case Buffered(data, pos) => Decoded(data[Lesser(pos, |data|)..], Clean)
    case Shared(archive, start, end, at) =>
      var limit := Lesser(end, |archive|);
      Decoded(archive[Lesser(start + at, limit)..limit], Clean)
  }

  /** An in-memory strategy holds the whole entry and stands inside it. */
  predicate Spans(i: Inner, whole: Decoded) {
    match i
    case Streaming(_) => true
    case Buffered(data, pos) => pos <= |data| && whole == Decoded(data, Clean)
    case Shared(archive, start, end, at) => start + at <= end <= |archive| && whole == Decoded(archive[start..end], Clean)
  }

  /** How one read of `n` bytes turns what was left into what is left. */
  predicate Delivers(n: nat, was: Decoded, r: Result<bytes>, now: Decoded) {
    if n == 0 then r == Ok([]) && now == was
    else if was.out != [] then r.Ok? && 0 < |r.value| <= n && was == Decoded(r.value + now.out, now.ending)
    else now == was && r == if was.ending.Broken? then Err(was.ending.error) else Ok([])
  }

  lemma SliceDelivers(n: nat, b: bytes, p: nat, limit: nat)
    requires p <= limit <= |b|
    ensures var take := Lesser(limit - p, n);
            Delivers(n, Decoded(b[p..limit], Clean), Ok(b[p..p + take]), Decoded(b[p + take..limit], Clean))
  {
    Join(b, p, p + Lesser(limit - p, n), limit);
  }

  // An in-memory strategy moved to position `k` of the entry.
  function MovedTo(i: Inner, k: nat): Inner
    requires !i.Streaming?
  {
    if i.Buffered? then i.(pos := k) else i.(at := k)
  }

  lemma MovedSpans(i: Inner, whole: Decoded, k: nat)
    requires Spans(i, whole) && !i.Streaming? && k <= |whole.out|
    ensures var m := MovedTo(i, k); Spans(m, whole) && Decoded(whole.out[..k] + RestOf(m).out, RestOf(m).ending) == whole
    ensures |whole.out| == if i.Buffered? then |i.data| else i.end - i.start
  {
    if i.Shared? { SubSlice(i.archive, i.start, whole.out, k, |whole.out|); }
    assert whole.out == whole.out[..k] + whole.out[k..];
  }

  class EntryReader {
    var inner: Inner
    var crc: bv32
    const check: Check
    var sizeRead: nat
    var finished: bool
    var integrityErr: Option<ZipError>
    var seeked: bool

    ghost const whole: Decoded
    // The decoded bytes taken from the front of the stream so far.
    ghost var taken: bytes

    ghost function Rest(): Decoded reads this { RestOf(inner) }

    /** What was taken and what is left make up the stream; size and checksum so far are those of what was taken. */
    ghost predicate Valid()
      reads this
    {
      && Decoded(taken + Rest().out, Rest().ending) == whole
      && sizeRead == |taken|
      && (!seeked ==> crc == Crc.Update(Crc.INIT, taken))
      && Spans(inner, whole)
    }

    ghost predicate Untouched() reads this { taken == [] && !finished && !seeked && integrityErr.None? }

    constructor OverDecoder(d: Decoded, check: Check)
      ensures Valid() && Untouched() && whole == d && this.check == check && inner.Streaming?
    {
      inner, crc, sizeRead := Streaming(d), Crc.INIT, 0;
      finished, integrityErr, seeked := false, None, false;
      this.check, whole, taken := check, d, [];
    }

    constructor OverBuffer(data: bytes, check: Check)
      ensures Valid() && Untouched() && whole == Decoded(data, Clean) && this.check == check && inner.Buffered?
    {
      inner, crc, sizeRead := Buffered(data, 0), Crc.INIT, 0;
      finished, integrityErr, seeked := false, None, false;
      this.check, whole, taken := check, Decoded(data, Clean), [];
    }

    constructor OverShared(archive: bytes, start: nat, len: nat, check: Check)
      requires start + len <= |archive|
      ensures Valid() && Untouched() && this.check == check && inner.Shared?
      ensures whole == Decoded(archive[start..start + len], Clean)
    {
      inner, crc, sizeRead := Shared(archive, start, start + len, 0), Crc.INIT, 0;
      finished, integrityErr, seeked := false, None, false;
      this.check, whole, taken := check, Decoded(archive[start..start + len], Clean), [];
    }

    // A streaming decoder delivers as little as it likes, the others all they can.
    method ReadStreaming(n: nat, atMost: nat) returns (r: Result<bytes>)
      requires inner.Streaming?
      modifies this`inner
      ensures inner.Streaming? && Delivers(n, old(inner.rest), r, inner.rest)
    {
      var rest := inner.rest;
      if n == 0 { return Ok([]); }
      if rest.out == [] {
        return if rest.ending.Broken? then Err(rest.ending.error) else Ok([]);
      }
      var most := Lesser(n, |rest.out|);
      var k := if atMost < 1 then 1 else Lesser(atMost, most);
      inner := Streaming(Decoded(rest.out[k..], rest.ending));
      return Ok(rest.out[..k]);
    }

    method ReadBuffered(n: nat) returns (r: Result<bytes>)
      requires inner.Buffered? && inner.pos <= |inner.data|
      modifies this`inner
      ensures inner.Buffered? && inner.data == old(inner).data && inner.pos <= |inner.data|
      ensures Delivers(n, RestOf(old(inner)), r, RestOf(inner))
    {
      hide Delivers;
      var data, pos := inner.data, inner.pos;
      SliceDelivers(n, data, pos, |data|);
      assert data[pos..|data|] == data[pos..];
      if pos < |data| {
        var take := Lesser(|data| - pos, n);
        inner := Buffered(data, pos + take);
        assert data[pos + take..|data|] == data[pos + take..];
        return Ok(data[pos..pos + take]);
      }
      return Ok([]);
    }

    method ReadShared(n: nat) returns (r: Result<bytes>)
      requires inner.Shared? && inner.start + inner.at <= inner.end <= |inner.archive|
      modifies this`inner
      ensures inner.Shared? && inner == old(inner).(at := inner.at) && inner.start + inner.at <= inner.end
      ensures Delivers(n, RestOf(old(inner)), r, RestOf(inner))
    {
      hide Delivers;
      var archive, start, at := inner.archive, inner.start, inner.at;
      var begin, limit := Lesser(start + at, |archive|), Lesser(inner.end, |archive|);
      SliceDelivers(n, archive, begin, limit);
      if begin < limit {
        var take := Lesser(limit - begin, n);
        inner := Shared(archive, start, inner.end, at + take);
        return Ok(archive[begin..begin + take]);
      }
      return Ok([]);
    }

    method ReadInner(n: nat, atMost: nat) returns (r: Result<bytes>)
      requires Spans(inner, whole)
      modifies this`inner
      ensures Spans(inner, whole) && Delivers(n, old(Rest()), r, Rest())
    {
      hide Delivers;
      if inner.Streaming? {
        r := ReadStreaming(n, atMost);
      } else if inner.Buffered? {
        r := ReadBuffered(n);
      } else {
        r := ReadShared(n);
      }
    }

    // Runs once, when nothing more comes.
    method Verify() returns (ok: bool)
      requires Valid()
      modifies this`finished, this`integrityErr
      ensures finished
      ensures ok == (seeked || Verdict(check, taken).None?)
      ensures integrityErr == if ok then old(integrityErr) else Verdict(check, taken)
    {
      finished := true;
      if seeked { return true; }
      if sizeRead != check.size {
        integrityErr := Some(SizeMismatch);
        return false;
      }
      var crcOk := check.crc.None? || Crc.Finalize(crc) == check.crc.value;
      if !crcOk { integrityErr := Some(ZipError.Crc); }
      return crcOk;
    }

    /** One read into a buffer of `n` bytes. A stored error comes first, once. New bytes are delivered unless they
        pass the limit. When nothing comes, because the stream is over or because the buffer is empty, what was
        taken so far is checked, once. */
    method Read(n: nat, atMost: nat) returns (r: Result<bytes>)
      requires Valid()
      modifies this
      ensures Valid() && seeked == old(seeked)
      ensures old(integrityErr).Some? ==>
                r == Err(old(integrityErr).value) && integrityErr.None? && taken == old(taken) && finished == old(finished)
      ensures old(integrityErr).None? && n > 0 && old(Rest()).out != [] ==>
                && finished == old(finished) && |old(taken)| < |taken| <= |old(taken)| + n && old(taken) <= taken
                && (if |taken| > Limit(check.size)
                    then r == Err(DecompressionLimit) && integrityErr == Some(DecompressionLimit)
                    else r == Ok(taken[|old(taken)|..]) && integrityErr.None?)
      ensures old(integrityErr).None? && n > 0 && old(Rest()).out == [] && whole.ending.Broken? ==>
                r == Err(whole.ending.error) && integrityErr.None? && taken == old(taken) && finished == old(finished)
      ensures old(integrityErr).None? && (n == 0 || old(Rest()) == Decoded([], Clean)) ==>
                && integrityErr.None? && taken == old(taken) && finished
                && r == if old(finished) || seeked || Verdict(check, taken).None? then Ok([])
                        else Err(Verdict(check, taken).value)
    {
      hide Crc.Update, Crc.Hash, Limit, Verdict, RestOf, Spans;
      if integrityErr.Some? {
        var e := integrityErr.value;
        integrityErr := None;
        return Err(e);
      }
      var got := ReadInner(n, atMost);
      if got.Err? { return got; }
      if |got.value| > 0 {
        assert taken + (got.value + Rest().out) == (taken + got.value) + Rest().out;
        Crc.UpdateConcat(Crc.INIT, taken, got.value);
        crc := Crc.Update(crc, got.value);
        sizeRead := sizeRead + |got.value|;
        taken := taken + got.value;
        if sizeRead > Limit(check.size) {
          integrityErr := Some(DecompressionLimit);
          return Err(DecompressionLimit);
        }
        return got;
      }
      if !finished {
        var ok := Verify();
        if !ok {
          var e := integrityErr.value;
          integrityErr := None;
          return Err(e);
        }
      }
      return Ok([]);
    }

    /** Moves to an absolute position of an in-memory entry; nothing is checked at its end any more. */
    method Seek(p: nat) returns (r: Result<()>)
      requires Valid()
      modifies this
      ensures Valid()
      ensures r.Err? <==> old(inner).Streaming?
      ensures r.Ok? ==> seeked && !finished && integrityErr.None? && taken == whole.out[..Lesser(p, |whole.out|)]
      ensures r.Err? ==> r.error == Opnotsupp && taken == old(taken) && seeked == old(seeked) && finished == old(finished)
                         && integrityErr == old(integrityErr)
    {
      hide RestOf, Spans;
      if inner.Streaming? { return Err(Opnotsupp); }
      MovedSpans(inner, whole, 0);
      MovedSpans(inner, whole, Lesser(p, |whole.out|));
      if inner.Buffered? {
        inner := inner.(pos := Lesser(p, |inner.data|));
        sizeRead := inner.pos;
      } else {
        inner := inner.(at := Lesser(p, inner.end - inner.start));
        sizeRead := inner.at;
      }
      crc := Crc.INIT;
      finished := false;
      integrityErr := None;
      seeked := true;
      taken := whole.out[..sizeRead];
      return Ok(());
    }
  }

  // ----- whole runs -----

  /** The bytes of all successful reads. */
  function Joined(results: seq<Result<bytes>>): bytes {
    if results == [] then []
    else Joined(results[..|results| - 1]) + if results[|results| - 1].Ok? then results[|results| - 1].value else []
  }

  /** No error comes before read `k`. */
  predicate Unbroken(results: seq<Result<bytes>>, k: nat)
    requires k <= |results|
  {
    forall j | 0 <= j < k :: results[j].Ok?
  }

  /** No empty buffer up to read `k`, and no error before it. */
  predicate Steady(sizes: seq<nat>, results: seq<Result<bytes>>, k: nat) {
    k < |sizes| && k < |results| && (forall j | 0 <= j <= k :: sizes[j] > 0) && Unbroken(results, k)
  }

  /** The outcome `r` of a read after `got` tells the truth about the whole entry. */
  predicate Tells(whole: Decoded, check: Check, got: bytes, r: Result<bytes>) {
    && (r == Ok([]) <==> got == whole.out && Drained(whole, check).Ok?)
    && (r.Err? ==> Drained(whole, check) == Err(r.error))
  }

  /** Read `k` tells the truth. */
  predicate Truthful(whole: Decoded, check: Check, results: seq<Result<bytes>>, k: nat)
    requires k < |results|
  {
    Tells(whole, check, Joined(results[..k]), results[k])
  }

  /** Before read `k` a buffer was empty while there was more to come. */
  predicate CheckedEarly(whole: Decoded, sizes: seq<nat>, results: seq<Result<bytes>>, k: nat)
    requires k <= |sizes| && k <= |results|
  {
    exists j | 0 <= j < k :: sizes[j] == 0 && Joined(results[..j]) != whole.out
  }

  lemma EarlySoFar(whole: Decoded, sizes: seq<nat>, was: seq<Result<bytes>>, x: Result<bytes>, k: nat)
    requires k <= |was| < |sizes|
    ensures CheckedEarly(whole, sizes, was + [x], k) == CheckedEarly(whole, sizes, was, k)
    ensures (was + [x])[..k] == was[..k]
    ensures CheckedEarly(whole, sizes, was + [x], |was| + 1) <==>
              CheckedEarly(whole, sizes, was, |was|) || (sizes[|was|] == 0 && Joined(was) != whole.out)
  {
    hide Joined;
    forall j | 0 <= j <= |was| ensures (was + [x])[..j] == was[..j] {}
    assert was[..|was|] == was;
  }

  /** What is known of the state while no error came: an early check passed only because the recorded size is that of
      a shorter prefix; any other check passed because the entry is intact. */
  predicate Consistent(whole: Decoded, check: Check, got: bytes, rest: Decoded, finished: bool, early: bool) {
    && Decoded(got + rest.out, rest.ending) == whole && |got| <= Limit(check.size)
    && (early ==> finished && check.size < |whole.out|)
    && (finished && !early ==> got == whole.out && Verdict(check, got).None?)
  }

  lemma StartsConsistent(whole: Decoded, check: Check, rest: Decoded, sizes: seq<nat>)
    requires Decoded([] + rest.out, rest.ending) == whole
    ensures TrueSoFar(whole, check, sizes, [], 0) && Joined([]) == [] && Unbroken([], 0) && !CheckedEarly(whole, sizes, [], 0)
    ensures Consistent(whole, check, [], rest, false, false)
  {}

  // One read into a non-empty buffer, after reads that delivered `got`.
  lemma FullRead(whole: Decoded, check: Check, got: bytes, rest: Decoded, finished: bool, early: bool, r: Result<bytes>,
                 after: bytes)
    requires Consistent(whole, check, got, rest, finished, early)
    requires rest.out != [] ==> got < after <= whole.out
                                && r == if |after| > Limit(check.size) then Err(DecompressionLimit) else Ok(after[|got|..])
    requires rest.out == [] && rest.ending.Broken? ==> r == Err(whole.ending.error)
    requires rest == Decoded([], Clean) ==>
               r == if finished || Verdict(check, got).None? then Ok([]) else Err(Verdict(check, got).value)
    ensures Tells(whole, check, got, r) <==> !(r == Ok([]) && early)
  {
    hide Limit;
    if rest.out == [] { assert got == whole.out; }
  }

  // One successful read into a buffer of `n` bytes.
  lemma StaysConsistent(whole: Decoded, check: Check, got: bytes, rest: Decoded, finished: bool, early: bool, n: nat,
                        after: bytes, left: Decoded, done: bool)
    requires Consistent(whole, check, got, rest, finished, early)
    requires Decoded(after + left.out, left.ending) == whole
    requires n > 0 && rest.out != [] ==> done == finished && |after| <= Limit(check.size)
    requires n > 0 && rest.out == [] ==> whole.ending.Clean?
    requires n == 0 || rest == Decoded([], Clean) ==> after == got && done && (finished || Verdict(check, got).None?)
    ensures Consistent(whole, check, after, left, done, early || (n == 0 && got != whole.out))
  {
    hide Limit;
    if rest.out == [] { assert got == whole.out; }
  }

  lemma JoinedStep(was: seq<Result<bytes>>, x: Result<bytes>)
    ensures Joined(was + [x]) == Joined(was) + if x.Ok? then x.value else []
    ensures Unbroken(was + [x], |was| + 1) == (Unbroken(was, |was|) && x.Ok?)
    ensures forall k | 0 <= k <= |was| :: Unbroken(was + [x], k) == Unbroken(was, k)
  {
    assert (was + [x])[..|was|] == was;
  }

  lemma TruthfulLast(whole: Decoded, check: Check, was: seq<Result<bytes>>, x: Result<bytes>)
    ensures Truthful(whole, check, was + [x], |was|) <==> Tells(whole, check, Joined(was), x)
  {
    assert (was + [x])[..|was|] == was;
  }

  lemma SamePrefix(whole: Decoded, check: Check, was: seq<Result<bytes>>, now: seq<Result<bytes>>, k: nat)
    requires k < |was| <= |now| && now[..k] == was[..k] && now[k] == was[k]
    ensures Truthful(whole, check, now, k) == Truthful(whole, check, was, k)
  {}

  /** The first `n` reads tell the truth, but for an end after an early check. */
  predicate TrueSoFar(whole: Decoded, check: Check, sizes: seq<nat>, results: seq<Result<bytes>>, n: nat)
    requires n <= |sizes| && n <= |results|
  {
    forall k | 0 <= k < n && sizes[k] > 0 && Unbroken(results, k) ::
      Truthful(whole, check, results, k) <==> !(results[k] == Ok([]) && CheckedEarly(whole, sizes, results, k))
  }

  lemma NeverEarly(whole: Decoded, check: Check, sizes: seq<nat>, results: seq<Result<bytes>>)
    requires |results| == |sizes| && TrueSoFar(whole, check, sizes, results, |sizes|)
    ensures forall k | 0 <= k < |sizes| && Steady(sizes, results, k) :: Truthful(whole, check, results, k)
  {
    hide Truthful;
  }

  lemma OneMoreRead(whole: Decoded, check: Check, sizes: seq<nat>, was: seq<Result<bytes>>, x: Result<bytes>)
    requires |was| < |sizes| && TrueSoFar(whole, check, sizes, was, |was|)
    requires sizes[|was|] > 0 && Unbroken(was, |was|) ==>
               (Tells(whole, check, Joined(was), x) <==> !(x == Ok([]) && CheckedEarly(whole, sizes, was, |was|)))
    ensures TrueSoFar(whole, check, sizes, was + [x], |was| + 1)
  {
    hide Truthful, CheckedEarly, Tells, Joined, Unbroken;
    var results := was + [x];
    JoinedStep(was, x);
    forall k | 0 <= k <= |was| && sizes[k] > 0 && Unbroken(results, k)
      ensures Truthful(whole, check, results, k) <==>
                !(results[k] == Ok([]) && CheckedEarly(whole, sizes, results, k))
    {
      EarlySoFar(whole, sizes, was, x, k);
      if k < |was| { SamePrefix(whole, check, was, results, k); } else { TruthfulLast(whole, check, was, x); }
    }
  }

  /** Any unseeked run of reads. The bytes that come out never pass the limit. Into a non-empty buffer, as long as no
      error came, nothing comes exactly when the entry has been delivered whole and is intact, and the first error
      is the one the entry as a whole deserves, with one exception: the end after a check that ran early. With
      no empty buffer so far there is no exception. */
  method Run(r: EntryReader, sizes: seq<nat>, supply: nat -> nat) returns (results: seq<Result<bytes>>)
    requires r.Valid() && r.Untouched()
    modifies r
    ensures |results| == |sizes|
    ensures |Joined(results)| <= Limit(r.check.size)
    ensures TrueSoFar(r.whole, r.check, sizes, results, |sizes|)
    ensures forall k | 0 <= k < |sizes| && Steady(sizes, results, k) :: Truthful(r.whole, r.check, results, k)
  {
    hide Limit, Verdict, Drained, RestOf, Spans, Crc.Update, CheckedEarly, Consistent, Truthful, Tells, Joined, Unbroken, Steady,
         TrueSoFar;
    results := [];
    ghost var unbroken, early := true, false;
    StartsConsistent(r.whole, r.check, r.Rest(), sizes);
    for i := 0 to |sizes|
      invariant r.Valid() && !r.seeked && |results| == i
      invariant |Joined(results)| <= Limit(r.check.size) && |Joined(results)| <= |r.taken|
      invariant unbroken == Unbroken(results, i) && early == CheckedEarly(r.whole, sizes, results, i)
      invariant unbroken ==> Joined(results) == r.taken && r.integrityErr.None?
                             && Consistent(r.whole, r.check, r.taken, r.Rest(), r.finished, early)
      invariant TrueSoFar(r.whole, r.check, sizes, results, i)
    {
      ghost var was, got, rest, done := results, r.taken, r.Rest(), r.finished;
      var x := r.Read(sizes[i], supply(i));
      results := results + [x];
      JoinedStep(was, x);
      EarlySoFar(r.whole, sizes, was, x, i);
      if unbroken {
        if sizes[i] > 0 { FullRead(r.whole, r.check, got, rest, done, early, x, r.taken); }
        if x.Ok? {
          StaysConsistent(r.whole, r.check, got, rest, done, early, sizes[i], r.taken, r.Rest(), r.finished);
        }
      }
      OneMoreRead(r.whole, r.check, sizes, was, x);
      unbroken, early := unbroken && x.Ok?, CheckedEarly(r.whole, sizes, results, i + 1);
    }
    NeverEarly(r.whole, r.check, sizes, results);
  }

  lemma Peel(was: bytes, left: bytes, now: bytes, rest: bytes)
    requires was + left == now + rest && was <= now
    ensures left == now[|was|..] + rest
  {
    assert left == (was + left)[|was|..];
  }

  /** Reads with one non-empty buffer until nothing comes. */
  method Drain(r: EntryReader, n: nat, supply: nat -> nat) returns (s: Result<bytes>)
    requires r.Valid() && r.integrityErr.None? && n > 0
    modifies r
    ensures var rest := old(r.Rest());
            if rest.out != [] && |r.whole.out| > Limit(r.check.size) then s == Err(DecompressionLimit)
            else if rest.ending.Broken? then s == Err(rest.ending.error)
            else if old(r.finished) || r.seeked || Verdict(r.check, r.whole.out).None? then s == Ok(rest.out)
            else s == Err(Verdict(r.check, r.whole.out).value)
    ensures old(r.Untouched()) ==> s == Drained(r.whole, r.check)
  {
    hide Verdict, RestOf, Spans, Crc.Update;
    var out: bytes := [];
    var k := 0;
    ghost var rest := r.Rest();
    while true
      invariant r.Valid() && r.integrityErr.None? && r.seeked == old(r.seeked) && r.finished == old(r.finished)
      invariant rest == Decoded(out + r.Rest().out, r.Rest().ending)
      invariant out != [] ==> |r.taken| <= Limit(r.check.size)
      decreases |r.Rest().out|
    {
      ghost var left, was := r.Rest(), r.taken;
      if left.out == [] { assert was + [] == was && out + [] == out; }
      var x := r.Read(n, supply(k));
      k := k + 1;
      if x.Err? { return x; }
      if x.value == [] { return Ok(out); }
      Peel(was, left.out, r.taken, r.Rest().out);
      assert out + (x.value + r.Rest().out) == (out + x.value) + r.Rest().out;
      out := out + x.value;
    }
  }

  /** A first read into an empty buffer checks too early: the entry is reported damaged unless nothing was recorded
      for it, and after that it drains without any check. So an entry with content that is recorded as empty is
      never reported, though read as a whole it is damaged. */
  method EmptyReadDisarms(r: EntryReader, n: nat, supply: nat -> nat) returns (first: Result<bytes>, s: Result<bytes>)
    requires r.Valid() && r.Untouched() && n > 0
    modifies r
    ensures first == match Verdict(r.check, []) case Some(e) => Err(e) case None => Ok([])
    ensures s == if |r.whole.out| > Limit(r.check.size) then Err(DecompressionLimit)
                 else if r.whole.ending.Broken? then Err(r.whole.ending.error) else Ok(r.whole.out)
    ensures r.check == Check(0, Some(Crc.Hash([]))) && r.whole.ending.Clean? && 0 < |r.whole.out| <= Limit(0) ==>
              first == Ok([]) && s == Ok(r.whole.out) && Drained(r.whole, r.check) == Err(SizeMismatch)
  {
    hide RestOf, Spans, Crc.Update, Crc.Hash, Limit;
    assert [] + r.Rest().out == r.Rest().out;
    first := r.Read(0, 0);
    assert r.Rest().out == [] + r.Rest().out == r.whole.out;
    s := Drain(r, n, supply);
  }
}
