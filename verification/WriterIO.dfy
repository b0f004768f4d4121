/** The write path as it runs: the two output vectors of the layout, and a whole write with its progress poll. */
module WriterIO {
  import opened Bytes
  import opened Dirents
  import opened Cdir
  import opened LocalHeaders
  import opened Writer
  import opened Compress
  import AesCtr
  import CdirIO
  import WriterProofs

  // ----- laying out an archive -----

  /** The caller's extra fields, printed without the two the writer manages itself. */
  method BuildUserExtra(cf: CompressedFile) returns (r: Result<bytes>)
    ensures r.Ok? ==> r.value == ExtraBytes(UserExtras(cf))
    ensures r.Err? ==> r.error == Eftoolarge && |ExtraBytes(UserExtras(cf))| > U16_MAX
  {
    hide Le, UserPart, ExtraBytes;
    var extra: bytes := [];
    NoUserFields();
    for i := 0 to |cf.extraFields|
      invariant extra == ExtraBytes(UserPart(cf.extraFields[..i]))
    {
      var f := cf.extraFields[i];
      UserPartStep(cf.extraFields, i);
      if f.id == EF_WINZIP_AES || f.id == EXTRA_FIELD_ZIP64 { continue; }
      if |f.data| > U16_MAX {
        UserExtrasAre(cf);
        return Err(Eftoolarge);
      }
      extra := extra + ExtraFieldBytes(f);
    }
    assert cf.extraFields[..|cf.extraFields|] == cf.extraFields;
    UserExtrasAre(cf);
    return Ok(extra);
  }

  lemma NoUserFields()
    ensures ExtraBytes(UserPart([])) == []
  {}

  lemma UserExtrasAre(cf: CompressedFile)
    ensures UserExtras(cf) == UserPart(cf.extraFields)
  {}

  // The block of an entry in its three parts.
  lemma ExtraParts(cf: CompressedFile, central: bool, offset: u64)
    requires CompSize(cf) <= U64_MAX
    ensures var z := Overflow(WriterSizes(cf, central, offset));
            ExtraBytes(WriterExtras(cf, central, offset)) ==
              ExtraBytes(UserExtras(cf)) + (if Aes(cf) then ExtraFieldBytes(AesExtras(cf)[0]) else [])
              + (if z == [] then [] else ExtraFieldBytes(ExtraField(EXTRA_FIELD_ZIP64, z)))
  {
    hide Le, Overflow, UserExtras, ExtraFieldBytes, ExtraBytes;
    var u, a, z := UserExtras(cf), AesExtras(cf), Overflow(WriterSizes(cf, central, offset));
    var zs := if z == [] then [] else [ExtraField(EXTRA_FIELD_ZIP64, z)];
    ExtraBytesConcat(u + a, zs);
    ExtraBytesConcat(u, a);
    NoFields();
    if Aes(cf) { OneField(a[0]); assert a == [a[0]]; }
    if z != [] { OneField(zs[0]); assert zs == [zs[0]]; }
  }

  method BuildExtra(cf: CompressedFile, zip64: bool, central: bool, offset: u64) returns (r: Result<bytes>)
    requires CompSize(cf) <= U64_MAX
    requires zip64 == (if central then EntryZip64(cf, offset) else NeedsZip64Sizes(cf))
    ensures r.Ok? ==> r.value == ExtraBytes(WriterExtras(cf, central, offset))
    ensures r.Err? ==> r.error == Eftoolarge && |ExtraBytes(WriterExtras(cf, central, offset))| > U16_MAX
  {
    hide Le, Overflow, UserExtras, ExtraFieldBytes, ExtraBytes, WriterExtras, AesExtras;
    ExtraParts(cf, central, offset);
    WriterProofs.OverflowIsEmpty(WriterSizes(cf, central, offset));
    var user := BuildUserExtra(cf);
    if user.Err? { return Err(Eftoolarge); }
    var extra := user.value;
    if Aes(cf) {
      AesHasField(cf);
      extra := extra + ExtraFieldBytes(AesExtras(cf)[0]);
    }
    if zip64 {
      var data := ZipPayload(cf, central, offset);
      if data != [] {
        extra := extra + ExtraFieldBytes(ExtraField(EXTRA_FIELD_ZIP64, data));
      }
    }
    return Ok(extra);
  }

  lemma AesHasField(cf: CompressedFile)
    requires Aes(cf)
    ensures |AesExtras(cf)| == 1
  {}

  function UserPart(fields: seq<ExtraField>): seq<ExtraField> {
    DropField(DropField(fields, EF_WINZIP_AES), EXTRA_FIELD_ZIP64)
  }

  lemma OneField(f: ExtraField)
    ensures ExtraBytes([f]) == ExtraFieldBytes(f)
  {
    hide ExtraFieldBytes;
    assert [f][1..] == [];
  }

  lemma DropSingle(f: ExtraField, id: u16)
    ensures DropField([f], id) == (if f.id == id then [] else [f]) && DropField([], id) == []
  {
    assert [f][1..] == [];
  }

  // One field of the caller: skipped when the writer manages it, otherwise appended to what is printed so far.
  lemma UserPartStep(fields: seq<ExtraField>, i: nat)
    requires i < |fields|
    ensures var was, now := ExtraBytes(UserPart(fields[..i])), ExtraBytes(UserPart(fields[..i + 1]));
            && now == (if fields[i].id == EF_WINZIP_AES || fields[i].id == EXTRA_FIELD_ZIP64 then was
                       else was + ExtraFieldBytes(fields[i]))
            && |now| <= |ExtraBytes(UserPart(fields))|
  {
    hide ExtraFieldBytes;
    var f := fields[i];
    assert fields[..i + 1] == fields[..i] + [f];
    DropConcat(fields[..i], [f], EF_WINZIP_AES);
    var one := DropField([f], EF_WINZIP_AES);
    DropSingle(f, EF_WINZIP_AES);
    DropSingle(f, EXTRA_FIELD_ZIP64);
    DropConcat(DropField(fields[..i], EF_WINZIP_AES), one, EXTRA_FIELD_ZIP64);
    OneField(f);
    ExtraBytesConcat(UserPart(fields[..i]), [f]);
    var kept := DropField(one, EXTRA_FIELD_ZIP64);
    assert kept == if f.id == EF_WINZIP_AES || f.id == EXTRA_FIELD_ZIP64 then [] else [f];
    assert UserPart(fields[..i + 1]) == UserPart(fields[..i]) + kept;
    assert UserPart(fields[..i]) + [] == UserPart(fields[..i]);
    assert fields == fields[..i + 1] + fields[i + 1..];
    DropConcat(fields[..i + 1], fields[i + 1..], EF_WINZIP_AES);
    DropConcat(DropField(fields[..i + 1], EF_WINZIP_AES), DropField(fields[i + 1..], EF_WINZIP_AES), EXTRA_FIELD_ZIP64);
    ExtraBytesConcat(UserPart(fields[..i + 1]), UserPart(fields[i + 1..]));
  }

  /** The values the ZIP64 field carries, in the order of the format. */
  method ZipPayload(cf: CompressedFile, central: bool, offset: u64) returns (data: bytes)
    requires CompSize(cf) <= U64_MAX
    ensures data == Overflow(WriterSizes(cf, central, offset))
  {
    hide Le;
    data := [];
    if cf.uncompSize > U32_MAX { data := data + Le(cf.uncompSize, 8); }
    if CompSize(cf) > U32_MAX { data := data + Le(CompSize(cf), 8); }
    if central && offset > U32_MAX { data := data + Le(offset, 8); }
  }

  method WriteLocalFixed(cf: CompressedFile, extraLen: nat, out: Vec)
    requires CompSize(cf) <= U64_MAX && extraLen == |LocalExtra(cf)|
    modifies out
    ensures out.contents == old(out.contents) + LocalFixed(cf)
  {
    hide Le, LocalExtra, Flags, OnDisk, VersionNeeded, StoredCrc;
    ghost var was := out.contents;
    var zip64 := NeedsZip64Sizes(cf);
    WriteLocalHead(cf, zip64, out);
    out.Extend(Le(StoredCrc(cf), 4));
    out.Extend(Le(if zip64 then U32_MAX else CompSize(cf), 4));
    out.Extend(Le(if zip64 then U32_MAX else cf.uncompSize, 4));
    out.Extend(Le(|cf.name|, 2));
    out.Extend(Le(extraLen, 2));
    assert out.contents == was + LocalFixed(cf);
  }

  method WriteLocalHead(cf: CompressedFile, zip64: bool, out: Vec)
    modifies out
    ensures out.contents == old(out.contents)
                            + (LOCAL_MAGIC + Le(VersionNeeded(cf, zip64), 2) + Le(Flags(cf), 2) + Le(OnDisk(cf), 2)
                               + Le(cf.lastModTime, 2) + Le(cf.lastModDate, 2))
  {
    hide Le, Flags, OnDisk, VersionNeeded;
    out.Extend(LOCAL_MAGIC);
    out.Extend(Le(VersionNeeded(cf, zip64), 2));
    out.Extend(Le(Flags(cf), 2));
    out.Extend(Le(OnDisk(cf), 2));
    out.Extend(Le(cf.lastModTime, 2));
    out.Extend(Le(cf.lastModDate, 2));
  }

  method WriteLocalHeader(cf: CompressedFile, out: Vec) returns (ok: bool)
    requires CompSize(cf) <= U64_MAX
    modifies out
    ensures ok == (|LocalExtra(cf)| <= U16_MAX)
    ensures ok ==> out.contents == old(out.contents) + (LocalFixed(cf) + cf.name + LocalExtra(cf))
  {
    hide LocalFixed, WriterExtras, ExtraBytes;
    ghost var was := out.contents;
    var extra := BuildExtra(cf, NeedsZip64Sizes(cf), false, 0);
    if extra.Err? || |extra.value| > U16_MAX { return false; }
    WriteLocalFixed(cf, |extra.value|, out);
    out.Extend(cf.name);
    out.Extend(extra.value);
    assert out.contents == was + (LocalFixed(cf) + cf.name + LocalExtra(cf));
    return true;
  }

  method WriteDataDescriptor(cf: CompressedFile, zip64: bool, out: Vec)
    requires CompSize(cf) <= U64_MAX && Aes(cf) && zip64 == NeedsZip64Sizes(cf)
    modifies out
    ensures out.contents == old(out.contents) + Descriptor(cf)
  {
    hide Le;
    ghost var was := out.contents;
    out.Extend(DESCRIPTOR_MAGIC);
    out.Extend(Le(0, 4));
    if zip64 {
      out.Extend(Le(CompSize(cf), 8));
      out.Extend(Le(cf.uncompSize, 8));
    } else {
      out.Extend(Le(CompSize(cf), 4));
      out.Extend(Le(cf.uncompSize, 4));
    }
    assert out.contents == was + Descriptor(cf);
  }

  method WriteCentralEntry(cf: CompressedFile, offset: u64, cdir: Vec) returns (ok: bool)
    requires CompSize(cf) <= U64_MAX
    modifies cdir
    ensures ok == (|CentralExtra(cf, offset)| <= U16_MAX && |Comment(cf)| <= U16_MAX)
    ensures ok ==> cdir.contents == old(cdir.contents) + CentralEntry(cf, offset)
  {
    hide CentralHead, CentralTail, WriterExtras, ExtraBytes;
    ghost var was := cdir.contents;
    var extra := BuildExtra(cf, EntryZip64(cf, offset), true, offset);
    if extra.Err? || |extra.value| > U16_MAX { return false; }
    var comment := Comment(cf);
    if |comment| > U16_MAX { return false; }
    WriteCentralHead(cf, offset, cdir);
    WriteCentralTail(cf, offset, extra.value, cdir);
    cdir.Extend(cf.name);
    cdir.Extend(extra.value);
    cdir.Extend(comment);
    assert cdir.contents == was + CentralEntry(cf, offset);
    return true;
  }

  method WriteCentralHead(cf: CompressedFile, offset: u64, cdir: Vec)
    requires CompSize(cf) <= U64_MAX
    modifies cdir
    ensures cdir.contents == old(cdir.contents) + CentralHead(cf, offset)
  {
    hide Le, Flags, OnDisk, VersionNeeded, StoredCrc;
    ghost var was := cdir.contents;
    var v := VersionNeeded(cf, EntryZip64(cf, offset));
    cdir.Extend(CENTRAL_MAGIC);
    cdir.Extend(Le(cf.opsys * 0x100 + v, 2));
    cdir.Extend(Le(v, 2));
    cdir.Extend(Le(Flags(cf), 2));
    cdir.Extend(Le(OnDisk(cf), 2));
    cdir.Extend(Le(cf.lastModTime, 2));
    cdir.Extend(Le(cf.lastModDate, 2));
    cdir.Extend(Le(StoredCrc(cf), 4));
    assert cdir.contents == was + CentralHead(cf, offset);
  }

  method WriteCentralTail(cf: CompressedFile, offset: u64, extra: bytes, cdir: Vec)
    requires CompSize(cf) <= U64_MAX && extra == CentralExtra(cf, offset)
    modifies cdir
    ensures cdir.contents == old(cdir.contents) + CentralTail(cf, offset)
  {
    hide Le, CentralExtra;
    ghost var was := cdir.contents;
    cdir.Extend(Le(Clamp32(CompSize(cf)), 4));
    cdir.Extend(Le(Clamp32(cf.uncompSize), 4));
    cdir.Extend(Le(|cf.name|, 2));
    cdir.Extend(Le(|extra|, 2));
    cdir.Extend(Le(|Comment(cf)|, 2));
    cdir.Extend(Le(0, 2));
    cdir.Extend(Le(0, 2));
    cdir.Extend(Le(cf.externalAttributes, 4));
    cdir.Extend(Le(Clamp32(offset), 4));
    assert cdir.contents == was + CentralTail(cf, offset);
  }

  lemma NothingLaidOut(files: seq<CompressedFile>)
    ensures files[..0] == [] && Fits([]) && Body([]) == [] && CentralEntries([]) == [] && AllWritable([])
  {}

  // One more entry of the layout.
  lemma NextEntry(files: seq<CompressedFile>, i: nat)
    requires Fits(files) && i < |files|
    ensures Fits(files[..i]) && Fits(files[..i + 1])
    ensures var at, cf := |Body(files[..i])|, files[i];
            && CompSize(cf) <= U64_MAX
            && Body(files[..i + 1]) == Body(files[..i]) + Block(cf)
            && CentralEntries(files[..i + 1]) == CentralEntries(files[..i]) + CentralEntry(cf, at)
            && (AllWritable(files[..i + 1]) <==> AllWritable(files[..i]) && Writable(cf, at))
  {
    hide Block, Writable, CentralEntry;
    WritablePrefix(files, i);
    assert files[..i + 1][..i] == files[..i];
  }

  // The first unwritable entry stops the layout.
  lemma {:induction false} WritablePrefix(files: seq<CompressedFile>, i: nat)
    requires Fits(files) && i < |files|
    ensures Fits(files[..i]) && Fits(files[..i + 1])
    ensures AllWritable(files) ==> AllWritable(files[..i]) && Writable(files[i], |Body(files[..i])|)
    decreases |files|
  {
    hide Block, Writable;
    FitsInit(files);
    var init := files[..|files| - 1];
    if i < |init| {
      WritablePrefix(init, i);
      assert init[..i] == files[..i] && init[..i + 1] == files[..i + 1];
    } else {
      assert files[..i] == init && files[..i + 1] == files;
    }
  }

  lemma NoDescriptor(cf: CompressedFile)
    ensures !Aes(cf) ==> Descriptor(cf) == []
  {}

  // One entry: its local header, data and descriptor on one vector, its central record on the other.
  method WriteEntry(cf: CompressedFile, out: Vec, cdir: Vec) returns (ok: bool)
    requires CompSize(cf) <= U64_MAX && |out.contents| <= U64_MAX && out != cdir
    modifies out, cdir
    ensures ok == Writable(cf, old(|out.contents|))
    ensures ok ==> out.contents == old(out.contents) + Block(cf)
    ensures ok ==> cdir.contents == old(cdir.contents) + CentralEntry(cf, old(|out.contents|))
  {
    hide LocalFixed, LocalExtra, CentralExtra, Descriptor, CentralEntry;
    ghost var was := out.contents;
    var offset := |out.contents|;
    ok := WriteLocalHeader(cf, out);
    if !ok { return; }
    out.Extend(cf.data);
    if Aes(cf) {
      WriteDataDescriptor(cf, NeedsZip64Sizes(cf), out);
    }
    NoDescriptor(cf);
    assert out.contents == was + Block(cf);
    ok := WriteCentralEntry(cf, offset, cdir);
  }

  // The archive needs ZIP64 records when some entry did, at the offset it was written to.
  lemma {:induction false} AnyZip64Entry(files: seq<CompressedFile>, offsets: seq<nat>)
    requires Fits(files) && |offsets| == |files| && forall i | 0 <= i < |files| :: offsets[i] == |Body(files[..i])|
    ensures AnyZip64(files) <==> exists i | 0 <= i < |files| :: EntryZip64(files[i], offsets[i])
  {
    hide Block, EntryZip64;
    if files != [] {
      FitsInit(files);
      var n := |files| - 1;
      forall i | 0 <= i < n ensures offsets[..n][i] == |Body(files[..n][..i])| { assert files[..n][..i] == files[..i]; }
      AnyZip64Entry(files[..n], offsets[..n]);
      assert offsets[n] == |Body(files[..n])|;
    }
  }

  // The directory and the end records go after the entries.
  method Finish(files: seq<CompressedFile>, offsets: seq<nat>, comment: bytes, out: Vec, cdir: Vec)
    requires Fits(files) && out != cdir && out.contents == Body(files) && cdir.contents == CentralEntries(files)
    requires |offsets| == |files| && forall i | 0 <= i < |files| :: offsets[i] == |Body(files[..i])|
    modifies out
    ensures out.contents == Archive(files, comment)
  {
    hide Body, CentralEntries, EndRecords, EntryZip64, AnyZip64;
    var offset, size := |out.contents|, |cdir.contents|;
    out.Extend(cdir.contents);
    AnyZip64Entry(files, offsets);
    var zip64 := |files| > U16_MAX || size > U32_MAX || offset > U32_MAX
      || exists i | 0 <= i < |files| :: EntryZip64(files[i], offsets[i]);
    CdirIO.WriteEndRecords(zip64, |files|, size, offset, comment, out);
  }

  /** Lays out the archive: the poll is asked before each entry, and the first cancel or unwritable entry stops it.
      `plan` is what the calls are to be: as many more as there are entries, all at the current count. */
  method WriteCompressed(files: seq<CompressedFile>, comment: bytes, progress: WriteProgress, ghost plan: seq<(nat, nat)>)
    returns (r: Result<bytes>)
    requires Fits(files)
    requires Settled(progress.poll, progress.calls) && progress.calls <= plan && |progress.calls| + |files| <= |plan|
    requires progress.poll.Poll? ==>
               forall k | |progress.calls| <= k < |progress.calls| + |files| :: plan[k] == (progress.completed, progress.total)
    modifies progress`calls
    ensures progress.poll.NoPoll? ==> progress.calls == old(progress.calls)
    ensures progress.calls <= plan && Unbroken(progress.poll, progress.calls)
    ensures r == if Cancels(progress.poll, progress.calls) then Err(Cancelled) else WriteArchive(files, comment)
    ensures r.Ok? && progress.poll.Poll? ==> |progress.calls| == old(|progress.calls|) + |files|
  {
    hide Block, Writable, CentralEntry, Archive, EntryZip64, Settled, Unbroken, Cancels, Body, CentralEntries, AllWritable;
    NothingLaidOut(files);
    var out := new Vec();
    var cdir := new Vec();
    var offsets: seq<nat> := [];
    for i := 0 to |files|
      invariant fresh(out) && fresh(cdir) && out != cdir
      invariant Fits(files[..i]) && AllWritable(files[..i])
      invariant out.contents == Body(files[..i]) && cdir.contents == CentralEntries(files[..i])
      invariant |offsets| == i && forall j | 0 <= j < i :: offsets[j] == |Body(files[..j])|
      invariant Settled(progress.poll, progress.calls) && progress.calls <= plan
      invariant progress.calls == old(progress.calls) + if progress.poll.Poll? then plan[old(|progress.calls|)..][..i] else []
    {
      OneMoreCall(progress.poll, progress.calls, (progress.completed, progress.total));
      var cancelled := progress.Report();
      if cancelled { return Err(Cancelled); }
      SettledIsUnbroken(progress.poll, progress.calls);
      WritablePrefix(files, i);
      NextEntry(files, i);
      offsets := offsets + [|out.contents|];
      var ok := WriteEntry(files[i], out, cdir);
      if !ok { return Err(Eftoolarge); }
    }
    assert files[..|files|] == files;
    SettledIsUnbroken(progress.poll, progress.calls);
    Finish(files, offsets, comment, out, cdir);
    return Ok(out.contents);
  }

  // ----- a whole write -----

  /** The batch that reaches the layout: compressed, then encrypted. */
  ghost function Stages(deflate: Deflater, files: seq<ArchiveFile>, opts: Options, secrets: Secrets, methods: seq<u16>)
    : Result<seq<CompressedFile>>
    requires InMemory(files) && AesCtr.WellSized(secrets.primitives)
  {
    match CompressAll(deflate, files, opts)
    case Err(e) => Err(e)
    case Ok(cs) => EncryptStage(secrets, cs, methods)
  }

  ghost predicate Addressable(batch: Result<seq<CompressedFile>>) { batch.Ok? ==> Fits(batch.value) }

  /** What a write produces when nobody cancels it. */
  ghost function Output(batch: Result<seq<CompressedFile>>, comment: bytes): Result<bytes>
    requires Addressable(batch)
  {
    match batch case Err(e) => Err(e) case Ok(cs) => WriteArchive(cs, comment)
  }

  lemma BatchKeepsCount(s: Secrets, cs: seq<CompressedFile>, methods: seq<u16>)
    requires AesCtr.WellSized(s.primitives)
    ensures EncryptStage(s, cs, methods).Ok? ==> |EncryptStage(s, cs, methods).value| == |cs|
  {
    hide EncryptAll, AesCtr.WellSized;
    if |methods| == |cs| { EncryptKeepsCount(s, cs, methods); }
  }

  // With a progress hook the batch is compressed serially, with one call before each file.
  method CompressHooked(deflate: Deflater, files: seq<ArchiveFile>, opts: Options, progress: WriteProgress)
    returns (r: Result<seq<CompressedFile>>)
    requires InMemory(files) && progress.total == TotalBytes(files) && progress.completed == 0
    requires Settled(progress.poll, progress.calls)
    requires progress.calls == if progress.poll.Poll? then [Checkpoint(files, 0)] else []
    modifies progress
    ensures progress.poll.NoPoll? ==> progress.calls == []
    ensures progress.calls <= Checkpoints(files) && Unbroken(progress.poll, progress.calls)
    ensures r == if Cancels(progress.poll, progress.calls) then Err(Cancelled) else CompressAll(deflate, files, opts)
    ensures r.Ok? ==> progress.completed == progress.total
    ensures r.Ok? && progress.poll.Poll? ==> |progress.calls| == 1 + |files|
  {
    hide CompressFile, Settled, Unbroken, Cancels, CompressAll, TotalBytes;
    var out: seq<CompressedFile> := [];
    NoFile(deflate, files, opts);
    SettledIsUnbroken(progress.poll, progress.calls);
    for i := 0 to |files|
      invariant CompressAll(deflate, files[..i], opts) == Ok(out)
      invariant progress.completed == TotalBytes(files[..i])
      invariant Settled(progress.poll, progress.calls) && progress.calls <= Checkpoints(files)
      invariant |progress.calls| == if progress.poll.Poll? then 1 + i else 0
    {
      NextFile(deflate, files, opts, i);
      var c := Checkpoint(files, i + 1);
      if progress.poll.Poll? { NextCheckpoint(files, progress.calls, c); }
      OneMoreCall(progress.poll, progress.calls, c);
      var cancelled := progress.Advance(|files[i].data|);
      if cancelled { return Err(Cancelled); }
      SettledIsUnbroken(progress.poll, progress.calls);
      var cf := CompressFile(deflate, files[i], opts);
      if cf.Err? { return Err(cf.error); }
      out := out + [cf.value];
    }
    SettledIsUnbroken(progress.poll, progress.calls);
    assert files[..|files|] == files;
    return Ok(out);
  }

  /** A whole write under a poll: the calls follow the checkpoints, the first cancel ends the write with no bytes,
      and otherwise the outcome is the one a write without a poll has. */
  method WriteArchiveFullWithProgress(deflate: Deflater, files: seq<ArchiveFile>, opts: Options, secrets: Secrets,
                                      methods: seq<u16>, comment: bytes, poll: Poll)
    returns (r: Result<bytes>, calls: seq<(nat, nat)>)
    requires InMemory(files) && AesCtr.WellSized(secrets.primitives)
    requires Addressable(Stages(deflate, files, opts, secrets, methods))
    ensures poll.NoPoll? ==> calls == []
    ensures calls <= Checkpoints(files) && Unbroken(poll, calls)
    ensures r == if Cancels(poll, calls) then Err(Cancelled)
                 else Output(Stages(deflate, files, opts, secrets, methods), comment)
    ensures r.Ok? && poll.Poll? ==> calls == Checkpoints(files)
  {
    hide AesCtr.WellSized, Fits, WriteArchive, EncryptStage, CompressAll, Settled, Unbroken, Cancels, Checkpoints,
         TotalBytes;
    var total := SumBytes(files);
    EndCheckpoints(files);
    CompressSlots(deflate, files, opts);
    var progress := new WriteProgress(total, poll);
    NothingCancelled(poll);
    OneMoreCall(poll, [], (0, total));
    var cancelled := progress.Report();
    if cancelled { return Err(Cancelled), progress.calls; }
    var c := CompressHooked(deflate, files, opts, progress);
    if c.Err? { return Err(c.error), progress.calls; }
    UnbrokenIsSettled(poll, progress.calls);
    BatchKeepsCount(secrets, c.value, methods);
    var e := EncryptBatch(secrets, c.value, methods);
    if e.Err? { return Err(e.error), progress.calls; }
    r := WriteCompressed(e.value, comment, progress, Checkpoints(files));
    if r.Err? { return r, progress.calls; }
    UnbrokenIsSettled(poll, progress.calls);
    OneMoreCall(poll, progress.calls, (total, total));
    cancelled := progress.Report();
    if cancelled { return Err(Cancelled), progress.calls; }
    return r, progress.calls;
  }

  /** A write without a poll, compressed serially or in parallel in any order, produces the same output. */
  method WriteArchivePlain(deflate: Deflater, files: seq<ArchiveFile>, opts: Options, secrets: Secrets, order: seq<nat>)
    returns (r: Result<bytes>)
    requires InMemory(files) && IsSchedule(order, |files|) && AesCtr.WellSized(secrets.primitives)
    requires Addressable(Stages(deflate, files, opts, secrets, []))
    ensures r == Output(Stages(deflate, files, opts, secrets, []), [])
  {
    hide AesCtr.WellSized, Fits, WriteArchive;
    var c := CompressFiles(deflate, files, opts, order);
    if c.Err? { return Err(c.error); }
    var progress := new WriteProgress(0, NoPoll);
    r := WriteCompressed(c.value, [], progress, seq(|c.value|, _ => (0, 0)));
  }
}
