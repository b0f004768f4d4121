/** The stages before an archive is laid out: compression of a batch, optional encryption, and the progress
    poll that can cancel the write. */
module Compress {
  import opened Bytes
  import opened Dirents
  import opened Writer
  import Crc
  import ZipCryptos
  import AesCtr

  datatype ArchiveFile = ArchiveFile(
    name: bytes, data: bytes, comment: Option<bytes>, extraFields: seq<ExtraField>, lastModTime: u16, lastModDate: u16,
    opsys: u8, externalAttributes: u32, compMethod: Option<Method>, level: Option<nat>)

  datatype Options = Options(compMethod: Method, level: nat, parallel: bool, largeFileThreshold: nat)

  /** The foreign deflate encoder: deterministic in the data and the level. */
  type Deflater = (bytes, nat) -> bytes

  // ----- compressing a batch -----

  function CompressBytes(deflate: Deflater, data: bytes, m: Method, level: nat): Result<bytes> {
    match m
    case Store => Ok(data)
    case Deflate => Ok(deflate(data, if level < 9 then level else 9))
    case _ => Err(Compnotsupp)
  }

  predicate InMemory(files: seq<ArchiveFile>) { forall f <- files :: |f.data| <= U64_MAX }

  function CompressFile(deflate: Deflater, f: ArchiveFile, opts: Options): Result<CompressedFile>
    requires |f.data| <= U64_MAX
  {
    var m := if f.compMethod.Some? then f.compMethod.value else opts.compMethod;
    var level := if f.level.Some? then f.level.value else opts.level;
    match CompressBytes(deflate, f.data, m, level)
    case Err(e) => Err(e)
    case Ok(data) =>
      Ok(CompressedFile(f.name, MethodToU16(m), Crc.Hash(f.data) as int, |f.data|, data, 0, f.comment, f.extraFields,
                        f.lastModTime, f.lastModDate, f.opsys, f.externalAttributes))
  }

  /** The batch in input order, or the first error. */
  function CompressAll(deflate: Deflater, files: seq<ArchiveFile>, opts: Options): Result<seq<CompressedFile>>
    requires InMemory(files)
  {
    if files == [] then Ok([])
    else
      var n := |files| - 1;
      match CompressAll(deflate, files[..n], opts)
      case Err(e) => Err(e)
      case Ok(cs) =>
        match CompressFile(deflate, files[n], opts)
        case Err(e) => Err(e)
        case Ok(c) => Ok(cs + [c])
  }

  lemma {:induction false} CompressPrefix(deflate: Deflater, files: seq<ArchiveFile>, opts: Options, i: nat)
    requires InMemory(files) && i <= |files|
    ensures match CompressAll(deflate, files[..i], opts)
            case Err(e) => CompressAll(deflate, files, opts) == Err(e)
            case Ok(cs) => |cs| == i && (CompressAll(deflate, files, opts).Ok? ==> cs <= CompressAll(deflate, files, opts).value)
    decreases |files|
  {
    hide CompressFile;
    if i == |files| {
      assert files[..i] == files;
      if i > 0 { CompressPrefix(deflate, files[..i - 1], opts, i - 1); assert files[..i - 1][..i - 1] == files[..i - 1]; }
    } else {
      var init := files[..|files| - 1];
      CompressPrefix(deflate, init, opts, i);
      assert init[..i] == files[..i];
    }
  }

  lemma CompressFails(deflate: Deflater, f: ArchiveFile, opts: Options)
    requires |f.data| <= U64_MAX
    ensures CompressFile(deflate, f, opts).Err? ==> CompressFile(deflate, f, opts).error == Compnotsupp
  {
    hide Crc.Hash;
  }

  /** The batch succeeds exactly when every file does, and then each slot holds that file's own result. */
  lemma {:induction false} CompressSlots(deflate: Deflater, files: seq<ArchiveFile>, opts: Options)
    requires InMemory(files)
    ensures CompressAll(deflate, files, opts).Ok? <==> forall f <- files :: CompressFile(deflate, f, opts).Ok?
    ensures CompressAll(deflate, files, opts).Err? ==> CompressAll(deflate, files, opts).error == Compnotsupp
    ensures CompressAll(deflate, files, opts).Ok? ==>
              var cs := CompressAll(deflate, files, opts).value;
              |cs| == |files| && forall i | 0 <= i < |files| :: Ok(cs[i]) == CompressFile(deflate, files[i], opts)
  {
    hide CompressFile;
    if files != [] {
      var n := |files| - 1;
      CompressFails(deflate, files[n], opts);
      CompressSlots(deflate, files[..n], opts);
      assert files == files[..n] + [files[n]];
    }
  }

  method CompressSerial(deflate: Deflater, files: seq<ArchiveFile>, opts: Options) returns (r: Result<seq<CompressedFile>>)
    requires InMemory(files)
    ensures r == CompressAll(deflate, files, opts)
  {
    hide CompressFile;
    var out: seq<CompressedFile> := [];
    for i := 0 to |files|
      invariant CompressAll(deflate, files[..i], opts) == Ok(out)
    {
      NextFile(deflate, files, opts, i);
      var c := CompressFile(deflate, files[i], opts);
      if c.Err? { return Err(c.error); }
      out := out + [c.value];
    }
    assert files[..|files|] == files;
    return Ok(out);
  }

  predicate IsSchedule(order: seq<nat>, n: nat) {
    (forall k <- order :: k < n) && (forall i | 0 <= i < n :: i in order)
  }

  /** Workers fill one slot per file and finish in any order; the slots are collected in input order. */
  method CompressParallel(deflate: Deflater, files: seq<ArchiveFile>, opts: Options, order: seq<nat>)
    returns (r: Result<seq<CompressedFile>>)
    requires InMemory(files) && IsSchedule(order, |files|)
    ensures r == CompressAll(deflate, files, opts)
  {
    hide CompressFile;
    CompressSlots(deflate, files, opts);
    var slots: seq<Option<CompressedFile>> := seq(|files|, _ => None);
    for k := 0 to |order|
      invariant |slots| == |files|
      invariant forall i | 0 <= i < |files| && i in order[..k] ::
                  slots[i].Some? && Ok(slots[i].value) == CompressFile(deflate, files[i], opts)
    {
      var i := order[k];
      assert i in order && order[..k + 1] == order[..k] + [i];
      var c := CompressFile(deflate, files[i], opts);
      if c.Err? {
        assert files[i] in files;
        return Err(Compnotsupp);
      }
      slots := slots[i := Some(c.value)];
    }
    assert order[..|order|] == order;
    forall f | f in files ensures CompressFile(deflate, f, opts).Ok? {
      var i :| 0 <= i < |files| && files[i] == f;
    }
    var out: seq<CompressedFile> := [];
    ghost var all := CompressAll(deflate, files, opts).value;
    for i := 0 to |files|
      invariant out == all[..i]
    {
      out := out + [slots[i].value];
    }
    assert all[..|all|] == all;
    return Ok(out);
  }

  /** The dispatch: parallel only when asked for, worthwhile, and no file is large. The schedule does not matter. */
  method CompressFiles(deflate: Deflater, files: seq<ArchiveFile>, opts: Options, order: seq<nat>)
    returns (r: Result<seq<CompressedFile>>)
    requires InMemory(files) && IsSchedule(order, |files|)
    ensures r == CompressAll(deflate, files, opts)
  {
    var hasLarge := exists f <- files :: |f.data| >= opts.largeFileThreshold;
    if opts.parallel && |files| > 1 && !hasLarge {
      r := CompressParallel(deflate, files, opts, order);
    } else {
      r := CompressSerial(deflate, files, opts);
    }
  }

  // ----- encrypting a batch -----

  /** What encryption needs from outside: the primitives, the password, and the random salt of each entry. */
  datatype Secrets = Secrets(primitives: AesCtr.Primitives, password: bytes, salts: nat -> bytes)

  ghost function EncryptOne(s: Secrets, cf: CompressedFile, enc: u16, i: nat): Result<CompressedFile>
    requires AesCtr.WellSized(s.primitives)
  {
    if enc == ENC_NONE then Ok(cf)
    else if enc == ENC_TRAD_PKWARE then
      Ok(cf.(data := ZipCryptos.EncryptedData(s.password, cf.crc as bv32, cf.data), encryptionMethod := ENC_TRAD_PKWARE))
    else if IsAes(enc) then
      Ok(cf.(data := AesCtr.EncryptedRegion(s.primitives, enc, s.password, s.salts(i), cf.data), encryptionMethod := enc))
    else Err(Encrmethnotsupp)
  }

  ghost function EncryptAll(s: Secrets, cs: seq<CompressedFile>, methods: seq<u16>): Result<seq<CompressedFile>>
    requires AesCtr.WellSized(s.primitives) && |methods| == |cs|
  {
    if cs == [] then Ok([])
    else
      var n := |cs| - 1;
      match EncryptAll(s, cs[..n], methods[..n])
      case Err(e) => Err(e)
      case Ok(es) =>
        match EncryptOne(s, cs[n], methods[n], n)
        case Err(e) => Err(e)
        case Ok(e) => Ok(es + [e])
  }

  /** Without a method list nothing is encrypted; otherwise there must be one method per entry. */
  ghost function EncryptStage(s: Secrets, cs: seq<CompressedFile>, methods: seq<u16>): Result<seq<CompressedFile>>
    requires AesCtr.WellSized(s.primitives)
  {
    if methods == [] then Ok(cs) else if |methods| != |cs| then Err(Inval) else EncryptAll(s, cs, methods)
  }

  lemma {:induction false} EncryptPrefix(s: Secrets, cs: seq<CompressedFile>, methods: seq<u16>, i: nat)
    requires AesCtr.WellSized(s.primitives) && |methods| == |cs| && i <= |cs|
    ensures EncryptAll(s, cs[..i], methods[..i]).Err? ==> EncryptAll(s, cs, methods) == EncryptAll(s, cs[..i], methods[..i])
    decreases |cs|
  {
    hide EncryptOne;
    if i == |cs| {
      assert cs[..i] == cs && methods[..i] == methods;
    } else {
      var n := |cs| - 1;
      EncryptPrefix(s, cs[..n], methods[..n], i);
      assert cs[..n][..i] == cs[..i] && methods[..n][..i] == methods[..i];
    }
  }

  lemma {:induction false} EncryptKeepsCount(s: Secrets, cs: seq<CompressedFile>, methods: seq<u16>)
    requires AesCtr.WellSized(s.primitives) && |methods| == |cs|
    ensures EncryptAll(s, cs, methods).Ok? ==> |EncryptAll(s, cs, methods).value| == |cs|
  {
    hide EncryptOne, AesCtr.WellSized;
    if cs != [] {
      EncryptKeepsCount(s, cs[..|cs| - 1], methods[..|cs| - 1]);
    }
  }

  method EncryptEntry(s: Secrets, cf: CompressedFile, enc: u16, i: nat) returns (r: Result<CompressedFile>)
    requires AesCtr.WellSized(s.primitives)
    ensures r == EncryptOne(s, cf, enc, i)
  {
    hide ZipCryptos.EncryptedData, AesCtr.EncryptedRegion, AesCtr.WellSized;
    if enc == ENC_NONE { return Ok(cf); }
    if enc == ENC_TRAD_PKWARE {
      var data := ZipCryptos.EncryptData(s.password, cf.crc as bv32, cf.data);
      return Ok(cf.(data := data, encryptionMethod := ENC_TRAD_PKWARE));
    } else if IsAes(enc) {
      var data := AesCtr.AesEncryptData(s.primitives, s.password, enc, cf.data, s.salts(i));
      return Ok(cf.(data := data, encryptionMethod := enc));
    }
    return Err(Encrmethnotsupp);
  }

  method EncryptBatch(s: Secrets, cs: seq<CompressedFile>, methods: seq<u16>) returns (r: Result<seq<CompressedFile>>)
    requires AesCtr.WellSized(s.primitives)
    ensures r == EncryptStage(s, cs, methods)
  {
    hide EncryptOne, AesCtr.WellSized;
    if methods == [] { return Ok(cs); }
    if |methods| != |cs| { return Err(Inval); }
    var out: seq<CompressedFile> := [];
    for i := 0 to |cs|
      invariant EncryptAll(s, cs[..i], methods[..i]) == Ok(out)
    {
      EncryptPrefix(s, cs, methods, i + 1);
      assert cs[..i + 1][..i] == cs[..i] && methods[..i + 1][..i] == methods[..i];
      var e := EncryptEntry(s, cs[i], methods[i], i);
      if e.Err? { return Err(e.error); }
      out := out + [e.value];
    }
    assert cs[..|cs|] == cs && methods[..|cs|] == methods;
    return Ok(out);
  }

  // ----- progress -----

  /** The poll answers true to cancel; its answer may depend on every call made so far. */
  datatype Poll = NoPoll | Poll(cancels: seq<(nat, nat)> -> bool)

  predicate Cancels(poll: Poll, calls: seq<(nat, nat)>) { poll.Poll? && calls != [] && poll.cancels(calls) }

  /** The poll has let every call so far through. */
  ghost predicate Settled(poll: Poll, calls: seq<(nat, nat)>) { forall j | 0 <= j <= |calls| :: !Cancels(poll, calls[..j]) }

  /** The poll has let every call but possibly the last one through. */
  ghost predicate Unbroken(poll: Poll, calls: seq<(nat, nat)>) { calls == [] || Settled(poll, calls[..|calls| - 1]) }

  /** A write is cancelled exactly when one of its calls was answered true, and that call was the last. */
  lemma PollDecides(answer: seq<(nat, nat)> -> bool, calls: seq<(nat, nat)>)
    requires Unbroken(Poll(answer), calls)
    ensures Cancels(Poll(answer), calls) <==> exists j | 0 < j <= |calls| :: answer(calls[..j])
    ensures forall j | 0 < j < |calls| :: !answer(calls[..j])
    ensures !Cancels(NoPoll, calls)
  {
    assert calls[..|calls|] == calls;
    forall j | 0 < j < |calls| ensures !answer(calls[..j]) {
      var init := calls[..|calls| - 1];
      assert init[..j] == calls[..j];
      assert !Cancels(Poll(answer), init[..j]);
    }
  }

  lemma OneMoreCall(poll: Poll, calls: seq<(nat, nat)>, c: (nat, nat))
    requires Settled(poll, calls)
    ensures Unbroken(poll, calls + [c]) && (Settled(poll, calls + [c]) <==> !Cancels(poll, calls + [c]))
  {
    var now := calls + [c];
    assert now[..|now| - 1] == calls && now[..|now|] == now;
    forall j | 0 <= j <= |calls| ensures now[..j] == calls[..j] {}
  }

  lemma NoCalls(poll: Poll)
    ensures Unbroken(poll, []) && !Cancels(poll, [])
  {}

  lemma NothingCancelled(poll: Poll)
    ensures Settled(poll, [])
  {}

  lemma UnbrokenIsSettled(poll: Poll, calls: seq<(nat, nat)>)
    requires Unbroken(poll, calls) && !Cancels(poll, calls)
    ensures Settled(poll, calls)
  {
    if calls != [] {
      forall j | 0 <= j < |calls| ensures calls[..|calls| - 1][..j] == calls[..j] {}
      assert calls[..|calls|] == calls;
    }
  }

  lemma SettledIsUnbroken(poll: Poll, calls: seq<(nat, nat)>)
    requires Settled(poll, calls)
    ensures Unbroken(poll, calls) && !Cancels(poll, calls)
  {
    assert calls[..|calls|] == calls;
    if calls != [] {
      var init := calls[..|calls| - 1];
      forall j | 0 <= j <= |init| ensures !Cancels(poll, init[..j]) { assert init[..j] == calls[..j]; }
    }
  }

  class WriteProgress {
    const total: nat
    const poll: Poll
    var completed: nat
    var calls: seq<(nat, nat)>

    constructor (total: nat, poll: Poll)
      ensures this.total == total && this.poll == poll && completed == 0 && calls == []
    {
      this.total := total;
      this.poll := poll;
      completed := 0;
      calls := [];
    }

    method Report() returns (cancelled: bool)
      modifies this`calls
      ensures calls == if poll.Poll? then old(calls) + [(completed, total)] else old(calls)
      ensures cancelled == (poll.Poll? && Cancels(poll, calls))
    {
      cancelled := false;
      if poll.Poll? {
        calls := calls + [(completed, total)];
        cancelled := poll.cancels(calls);
      }
    }

    method Advance(n: nat) returns (cancelled: bool)
      modifies this
      ensures completed == Min(old(completed) + n, total)
      ensures calls == if poll.Poll? then old(calls) + [(completed, total)] else old(calls)
      ensures cancelled == (poll.Poll? && Cancels(poll, calls))
    {
      completed := if completed + n < total then completed + n else total;
      cancelled := Report();
    }
  }

  function Min(a: nat, b: nat): nat { if a < b then a else b }

  function TotalBytes(files: seq<ArchiveFile>): nat {
    if files == [] then 0 else TotalBytes(files[..|files| - 1]) + |files[|files| - 1].data|
  }

  lemma {:induction false} TotalGrows(files: seq<ArchiveFile>, i: nat)
    requires i <= |files|
    ensures TotalBytes(files[..i]) <= TotalBytes(files)
  {
    if i < |files| {
      var init := files[..|files| - 1];
      TotalGrows(init, i);
      assert init[..i] == files[..i];
    } else {
      assert files[..i] == files;
    }
  }

  // One more file of a serial batch.
  lemma NextFile(deflate: Deflater, files: seq<ArchiveFile>, opts: Options, i: nat)
    requires InMemory(files) && i < |files| && CompressAll(deflate, files[..i], opts).Ok?
    ensures match CompressFile(deflate, files[i], opts)
            case Err(e) => CompressAll(deflate, files, opts) == Err(e)
            case Ok(c) => CompressAll(deflate, files[..i + 1], opts) == Ok(CompressAll(deflate, files[..i], opts).value + [c])
    ensures TotalBytes(files[..i + 1]) == TotalBytes(files[..i]) + |files[i].data| <= TotalBytes(files)
  {
    hide CompressFile;
    CompressPrefix(deflate, files, opts, i + 1);
    TotalGrows(files, i + 1);
    assert files[..i + 1][..i] == files[..i];
  }

  lemma NoFile(deflate: Deflater, files: seq<ArchiveFile>, opts: Options)
    requires InMemory(files)
    ensures CompressAll(deflate, files[..0], opts) == Ok([]) && TotalBytes(files[..0]) == 0
  {}

  /** The checkpoints of a whole write: the start, one per file while compressing, one per entry while writing,
      and the end. */
  function Checkpoints(files: seq<ArchiveFile>): (r: seq<(nat, nat)>)
    ensures |r| == 2 * |files| + 2
  {
    seq(2 * |files| + 2, k requires 0 <= k < 2 * |files| + 2 => Checkpoint(files, k))
  }

  function Checkpoint(files: seq<ArchiveFile>, k: nat): (nat, nat) {
    (if k <= |files| then TotalBytes(files[..k]) else TotalBytes(files), TotalBytes(files))
  }

  method SumBytes(files: seq<ArchiveFile>) returns (total: nat)
    ensures total == TotalBytes(files)
  {
    total := 0;
    for i := 0 to |files|
      invariant total == TotalBytes(files[..i])
    {
      assert files[..i + 1][..i] == files[..i];
      total := total + |files[i].data|;
    }
    assert files[..|files|] == files;
  }

  lemma EndCheckpoints(files: seq<ArchiveFile>)
    ensures Checkpoint(files, 0) == Checkpoints(files)[0] == (0, TotalBytes(files))
    ensures forall k | |files| < k < 2 * |files| + 2 :: Checkpoints(files)[k] == (TotalBytes(files), TotalBytes(files))
  {}

  // The next checkpoint extends a run that follows the checkpoints.
  lemma NextCheckpoint(files: seq<ArchiveFile>, calls: seq<(nat, nat)>, c: (nat, nat))
    requires calls <= Checkpoints(files) && |calls| < 2 * |files| + 2 && c == Checkpoint(files, |calls|)
    ensures calls + [c] <= Checkpoints(files)
  {}

  /** The completed counts start at zero, never decrease, never exceed the total and end at it. */
  lemma CheckpointsAreMonotonic(files: seq<ArchiveFile>)
    ensures var c, t := Checkpoints(files), TotalBytes(files);
            && c[0] == (0, t) && c[|c| - 1] == (t, t)
            && (forall k | 0 <= k < |c| :: c[k].0 <= t && c[k].1 == t)
            && (forall j, k | 0 <= j < k < |c| :: c[j].0 <= c[k].0)
  {
    var c := Checkpoints(files);
    forall k | 0 <= k <= |files| ensures TotalBytes(files[..k]) <= TotalBytes(files) {
      TotalGrows(files, k);
    }
    forall j, k | 0 <= j < k < |c| ensures c[j].0 <= c[k].0 {
      if k <= |files| {
        TotalGrows(files[..k], j);
        assert files[..k][..j] == files[..j];
      }
    }
  }

  /** Each call of the first half reports one more file, those of the second half nothing new. */
  lemma CheckpointsStep(files: seq<ArchiveFile>)
    ensures forall k | 0 <= k < |files| :: Checkpoints(files)[k + 1].0 == Checkpoints(files)[k].0 + |files[k].data|
    ensures forall k | |files| <= k < 2 * |files| + 2 :: Checkpoints(files)[k].0 == TotalBytes(files)
  {
    forall k | 0 <= k < |files|
      ensures Checkpoints(files)[k + 1].0 == Checkpoints(files)[k].0 + |files[k].data|
    {
      assert files[..k + 1][..k] == files[..k];
    }
    assert files[..|files|] == files;
  }
}
