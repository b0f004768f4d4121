/** An open archive handle: the edit calls as they change its lists, and what is handed to the writer when it is
    closed. */
module ZipHandles {
  import opened Bytes
  import opened Dirents
  import opened PendingOps
  import opened PendingProofs
  import AesCtr
  import Compress
  import Writer
  import WriterIO

  // ----- loops over the lists -----

  method Retain<T>(l: Keyed<T>, i: nat) returns (r: Keyed<T>)
    ensures r == Retained(l, i)
  {
    r := [];
    for k := 0 to |l|
      invariant r == Retained(l[..k], i)
    {
      assert l[..k + 1][..k] == l[..k];
      if l[k].0 != i { r := r + [l[k]]; }
    }
    assert l[..|l|] == l;
  }

  method Find<T>(l: Keyed<T>, i: nat) returns (r: Option<T>)
    ensures r == FindFirst(l, i)
  {
    for k := 0 to |l|
      invariant FindFirst(l[..k], i).None?
    {
      assert l[..k + 1][..k] == l[..k];
      FirstOfPrefix(l, i, k + 1);
      if l[k].0 == i { return Some(l[k].1); }
    }
    assert l[..|l|] == l;
    return None;
  }

  lemma {:induction false} FirstOfPrefix<T>(l: Keyed<T>, i: nat, k: nat)
    requires k <= |l|
    ensures FindFirst(l[..k], i).Some? ==> FindFirst(l, i) == FindFirst(l[..k], i)
  {
    if k == |l| {
      assert l[..k] == l;
    } else {
      FirstOfPrefix(l[..|l| - 1], i, k);
      assert l[..|l| - 1][..k] == l[..k];
    }
  }

  method FindBack<T>(l: Keyed<T>, i: nat) returns (r: Option<T>)
    ensures r == FindLast(l, i)
  {
    var k := |l|;
    assert l[..k] == l;
    while k > 0
      invariant k <= |l| && FindLast(l, i) == FindLast(l[..k], i)
    {
      assert l[..k][..k - 1] == l[..k - 1];
      k := k - 1;
      if l[k].0 == i { return Some(l[k].1); }
    }
    return None;
  }

  method LocateName(entries: seq<Dirent>, name: bytes) returns (r: Option<nat>)
    ensures r == Locate(entries, name)
  {
    for k := 0 to |entries|
      invariant Locate(entries[..k], name).None?
    {
      assert entries[..k + 1][..k] == entries[..k];
      LocateInPrefix(entries, name, k + 1);
      if entries[k].filename == name { return Some(k); }
    }
    assert entries[..|entries|] == entries;
    return None;
  }

  lemma {:induction false} LocateInPrefix(entries: seq<Dirent>, name: bytes, k: nat)
    requires k <= |entries|
    ensures Locate(entries[..k], name).Some? ==> Locate(entries, name) == Locate(entries[..k], name)
  {
    if k == |entries| {
      assert entries[..k] == entries;
    } else {
      LocateInPrefix(entries[..|entries| - 1], name, k);
      assert entries[..|entries| - 1][..k] == entries[..k];
    }
  }

  method FieldsNow(base: seq<ExtraField>, ops: Keyed<ExtraOp>, i: nat) returns (r: seq<ExtraField>)
    ensures r == EditedFields(base, ops, i)
  {
    hide ApplyExtra;
    r := base;
    for k := 0 to |ops|
      invariant r == EditedFields(base, ops[..k], i)
    {
      assert ops[..k + 1][..k] == ops[..k];
      if ops[k].0 == i { r := ApplyExtra(r, ops[k].1); }
    }
    assert ops[..|ops|] == ops;
  }

  // ----- what an entry is written as -----

  /** How a Unix time is shown in local DOS fields: the host's calendar. */
  type Clock = nat -> (u16, u16)

  function EffectiveTime(d: Disk, m: Meta, i: nat, clock: Clock): (u16, u16) {
    if m.mtime.Some? then clock(if m.mtime.value < 0 then 0 else m.mtime.value)
    else if m.dostime.Some? then m.dostime.value
    else if i < |d.entries| then (d.entries[i].lastModTime, d.entries[i].lastModDate)
    else (0, 0)
  }

  /** A DOS time takes effect only if no Unix time is pending, whichever was set later. */
  lemma DostimeTakesEffect(d: Disk, m: Meta, i: nat, clock: Clock, time: u16, date: u16)
    ensures EffectiveTime(d, MetaStep(m, Dostime(i, time, date), i), i, clock) == (time, date) <==>
              m.mtime.None? || EffectiveTime(d, m, i, clock) == (time, date)
  {}

  /** A DOS time set right after a Unix time is hidden by it. */
  lemma DostimeIsHidden(d: Disk, t: nat, time: u16, date: u16, clock: Clock)
    requires d.writable && |d.entries| > 0 && clock(t) != (time, date)
    ensures var edits := [Mtime(0, t), Dostime(0, time, date)];
            && Step(d, Run(d, [Mtime(0, t)]), Dostime(0, time, date)).1 == Ok(0)
            && EffectiveTime(d, MetaAfter(d, edits, 0), 0, clock) == clock(t) != (time, date)
  {
    hide Run;
    var a, b := Mtime(0, t), Dostime(0, time, date);
    assert [a, b][..1] == [a] && [a][..0] == [];
    assert MetaAfter(d, [a], 0) == NOTHING_SET.(mtime := Some(t));
  }

  function EffectiveComment(d: Disk, m: Meta, i: nat): Option<bytes> {
    if m.comment.Some? then m.comment.value
    else if i < |d.entries| && d.entries[i].comment != [] then Some(d.entries[i].comment) else None
  }

  const ZIP_OPSYS_UNIX: u8 := 3

  function EffectiveAttrs(d: Disk, m: Meta, i: nat): (u8, u32) {
    if m.attrs.Some? then m.attrs.value
    else if i < |d.entries| then (d.entries[i].versionMadeBy / 0x100, d.entries[i].extAttrib)
    else (ZIP_OPSYS_UNIX, 0)
  }

  function CompressionOf(m: Option<(int, nat)>): (Option<Method>, Option<nat>) {
    match m
    case None => (None, None)
    case Some((0, level)) => (Some(Store), Some(level))
    case Some((8, level)) => (Some(Deflate), Some(level))
    case Some(_) => (None, None)
  }

  function FileOf(d: Disk, m: Meta, fields: seq<ExtraField>, i: nat, name: bytes, data: bytes, clock: Clock)
    : Compress.ArchiveFile
  {
    var (time, date) := EffectiveTime(d, m, i, clock);
    var (opsys, attrs) := EffectiveAttrs(d, m, i);
    var (comp, level) := CompressionOf(m.compression);
    Compress.ArchiveFile(name, data, EffectiveComment(d, m, i), fields, time, date, opsys, attrs, comp, level)
  }

  function EncryptionOf(m: Meta): u16 { if m.encryption.Some? then m.encryption.value else ENC_NONE }

  /** What the writer gets: one file and one encryption method per entry, and the archive comment. */
  datatype Materials = Materials(files: seq<Compress.ArchiveFile>, methods: seq<u16>, comment: bytes)

  function OnDiskFile(d: Disk, ops: Ops, read: nat -> Result<bytes>, clock: Clock, i: nat): Result<Compress.ArchiveFile>
    requires i < |d.entries|
  {
    var name, data := FindFirst(ops.renames, i), FindFirst(ops.replacements, i);
    var content := if data.Some? then Ok(data.value) else read(i);
    match content
    case Err(e) => Err(e)
    case Ok(s) =>
      Ok(FileOf(d, MetaOf(ops, i), EditedFields(DiskFields(d, i), ops.extraOps, i), i,
                if name.Some? then name.value else d.entries[i].filename, s, clock))
  }

  /** The entries on disk below `n` that are not deleted, in order, or the first one that cannot be read. */
  function KeptFiles(d: Disk, ops: Ops, read: nat -> Result<bytes>, clock: Clock, n: nat): Result<Materials>
    requires n <= |d.entries|
  {
    if n == 0 then Ok(Materials([], [], []))
    else
      match KeptFiles(d, ops, read, clock, n - 1)
      case Err(e) => Err(e)
      case Ok(m) =>
        if MetaOf(ops, n - 1).deleted then Ok(m)
        else
          match OnDiskFile(d, ops, read, clock, n - 1)
          case Err(e) => Err(e)
          case Ok(f) => Ok(Materials(m.files + [f], m.methods + [EncryptionOf(MetaOf(ops, n - 1))], []))
  }

  function AddedFile(d: Disk, ops: Ops, clock: Clock, k: nat): Compress.ArchiveFile
    requires k < |ops.adds|
  {
    var i := |d.entries| + k;
    FileOf(d, MetaOf(ops, i), EditedFields([], ops.extraOps, i), i, ops.adds[k].0, ops.adds[k].1, clock)
  }

  function AddedFiles(d: Disk, ops: Ops, clock: Clock, n: nat): seq<Compress.ArchiveFile>
    requires n <= |ops.adds|
  {
    if n == 0 then [] else AddedFiles(d, ops, clock, n - 1) + [AddedFile(d, ops, clock, n - 1)]
  }

  function AddedMethods(d: Disk, ops: Ops, n: nat): seq<u16> {
    if n == 0 then [] else AddedMethods(d, ops, n - 1) + [EncryptionOf(MetaOf(ops, |d.entries| + n - 1))]
  }

  function Collected(d: Disk, ops: Ops, read: nat -> Result<bytes>, clock: Clock): Result<Materials> {
    match KeptFiles(d, ops, read, clock, |d.entries|)
    case Err(e) => Err(e)
    case Ok(m) =>
      Ok(Materials(m.files + AddedFiles(d, ops, clock, |ops.adds|), m.methods + AddedMethods(d, ops, |ops.adds|),
                   if ops.archiveComment.Some? then ops.archiveComment.value else d.comment))
  }

  /** What a close needs from outside: the entries on disk, the host's calendar, the encoder, the primitives, salts. */
  datatype Host = Host(
    read: nat -> Result<bytes>, clock: Clock, deflate: Compress.Deflater, primitives: AesCtr.Primitives,
    salts: nat -> bytes)

  const DEFAULT_OPTIONS := Compress.Options(Deflate, 6, true, 8 * 1024 * 1024)

  predicate AnyEncrypted(methods: seq<u16>) { exists m <- methods :: m != ENC_NONE }

  /** The password the writer gets; it is missing only if some entry is to be encrypted. */
  function PasswordFor(m: Materials, password: Option<bytes>): Result<bytes> {
    if !AnyEncrypted(m.methods) then Ok([]) else if password.None? then Err(Nopasswd) else Ok(password.value)
  }

  ghost function Batch(host: Host, m: Materials, password: bytes): Result<seq<Writer.CompressedFile>>
    requires AesCtr.WellSized(host.primitives) && Compress.InMemory(m.files)
  {
    WriterIO.Stages(host.deflate, m.files, DEFAULT_OPTIONS, Compress.Secrets(host.primitives, password, host.salts), m.methods)
  }

  /** The archive is within 64-bit sizes. */
  ghost predicate Writable(d: Disk, ops: Ops, host: Host, password: Option<bytes>)
    requires AesCtr.WellSized(host.primitives)
  {
    var m := Collected(d, ops, host.read, host.clock);
    m.Ok? && PasswordFor(m.value, password).Ok? ==>
      && Compress.InMemory(m.value.files)
      && WriterIO.Addressable(Batch(host, m.value, PasswordFor(m.value, password).value))
  }

  /** What a close that nobody cancels writes. */
  ghost function Materialized(d: Disk, ops: Ops, host: Host, password: Option<bytes>): Result<bytes>
    requires AesCtr.WellSized(host.primitives) && Writable(d, ops, host, password)
  {
    match Collected(d, ops, host.read, host.clock)
    case Err(e) => Err(e)
    case Ok(m) =>
      match PasswordFor(m, password)
      case Err(e) => Err(e)
      case Ok(pw) => WriterIO.Output(Batch(host, m, pw), m.comment)
  }

  /** The written entry, told from the history of calls alone: last settings, first rename, first replacement. */
  lemma WrittenFollowsHistory(d: Disk, edits: seq<Edit>, read: nat -> Result<bytes>, clock: Clock, i: nat)
    requires i < |d.entries|
    ensures var name, data := NameAfter(d, edits, i), DataAfter(d, edits, i);
            var content := if data.Some? then Ok(data.value) else read(i);
            OnDiskFile(d, Run(d, edits).ops, read, clock, i) ==
              if content.Err? then Err(content.error)
              else Ok(FileOf(d, MetaAfter(d, edits, i), EditedFields(DiskFields(d, i), Run(d, edits).ops.extraOps, i), i,
                             if name.Some? then name.value else d.entries[i].filename, content.value, clock))
  {
    hide Run, MetaAfter, NameAfter, DataAfter, FileOf, EditedFields, FindFirst, MetaOf, DiskFields;
    LastSettingWins(d, edits, i);
    FirstRenameWins(d, edits, i);
  }

  /** Closing after an undo writes what closing without the undone edits writes. */
  lemma UndoneIsNotWritten(d: Disk, edits: seq<Edit>, host: Host, password: Option<bytes>, i: nat)
    requires i < |d.entries| && AesCtr.WellSized(host.primitives)
    requires Writable(d, Run(d, Without(d, edits, i)).ops, host, password)
    ensures Writable(d, Run(d, edits + [Unchange(i)]).ops, host, password)
    ensures Materialized(d, Run(d, edits + [Unchange(i)]).ops, host, password) ==
            Materialized(d, Run(d, Without(d, edits, i)).ops, host, password)
  {
    hide Materialized, Writable, AesCtr.WellSized;
    var now := edits + [Unchange(i)];
    assert now[..|now| - 1] == edits;
    UnchangeIsDeletion(d, edits, i);
  }

  // ----- the handle -----

  class Zip {
    const disk: Disk
    var ops: Ops
    var overlay: seq<seq<ExtraField>>

    ghost function State(): Handle reads this { Handle(ops, overlay) }

    constructor (disk: Disk)
      ensures this.disk == disk && State() == Fresh(disk)
    {
      this.disk := disk;
      ops := NO_OPS;
      overlay := seq(|disk.entries|, i requires 0 <= i < |disk.entries| => DiskFields(disk, i));
    }

    // Recomputes the cached fields of one entry from all its edits.
    method RefreshExtraFields(i: nat)
      modifies this`overlay
      ensures overlay == SetSlot(old(overlay), i, EditedFields(DiskFields(disk, i), ops.extraOps, i))
    {
      var fields := FieldsNow(DiskFields(disk, i), ops.extraOps, i);
      overlay := SetSlot(overlay, i, fields);
    }

    method FileAdd(name: bytes, data: bytes, overwrite: bool) returns (r: Result<nat>)
      modifies this
      ensures (State(), r) == Step(disk, old(State()), Add(name, data, overwrite))
    {
      hide Locate;
      if !disk.writable { return Err(Rdonly); }
      var at := LocateName(disk.entries, name);
      if at.Some? {
        if !overwrite { return Err(Exists); }
        ops := ops.(replacements := ops.replacements + [(at.value, data)]);
        return Ok(at.value);
      }
      r := Ok(|disk.entries| + |ops.adds|);
      ops := ops.(adds := ops.adds + [(name, data)]);
    }

    method DirAdd(name: bytes) returns (r: Result<nat>)
      modifies this
      ensures (State(), r) == Step(disk, old(State()), AddDir(name))
    {
      hide Locate;
      if !disk.writable { return Err(Rdonly); }
      var at := LocateName(disk.entries, DirName(name));
      if at.Some? { return Err(Exists); }
      r := Ok(|disk.entries| + |ops.adds|);
      ops := ops.(adds := ops.adds + [(DirName(name), [])]);
    }

    method DeleteAt(i: nat) returns (r: Result<nat>)
      modifies this
      ensures (State(), r) == Step(disk, old(State()), DeleteEntry(i))
    {
      hide FindFirst;
      if !disk.writable { return Err(Rdonly); }
      if i >= |disk.entries| { return Err(Inval); }
      var known := Find(ops.deletes, i);
      if known.None? { ops := ops.(deletes := ops.deletes + [(i, ())]); }
      return Ok(0);
    }

    method RenameAt(i: nat, name: bytes) returns (r: Result<nat>)
      modifies this
      ensures (State(), r) == Step(disk, old(State()), Rename(i, name))
    {
      if !disk.writable { return Err(Rdonly); }
      if i >= |disk.entries| { return Err(Inval); }
      ops := ops.(renames := ops.renames + [(i, name)]);
      return Ok(0);
    }

    method ReplaceAt(i: nat, data: bytes) returns (r: Result<nat>)
      modifies this
      ensures (State(), r) == Step(disk, old(State()), Replace(i, data))
    {
      if !disk.writable { return Err(Rdonly); }
      if i >= |disk.entries| { return Err(Inval); }
      ops := ops.(replacements := ops.replacements + [(i, data)]);
      return Ok(0);
    }

    method SetEncryption(i: nat, m: u16) returns (r: Result<nat>)
      modifies this
      ensures (State(), r) == Step(disk, old(State()), Encrypt(i, m))
    {
      hide Retained;
      if !disk.writable { return Err(Rdonly); }
      if i >= |disk.entries| + |ops.adds| { return Err(Inval); }
      if !KnownEncryption(m) { return Err(Encrmethnotsupp); }
      var others := Retain(ops.encryptions, i);
      ops := ops.(encryptions := others + [(i, m)]);
      return Ok(0);
    }

    method SetArchiveComment(c: bytes) returns (r: Result<nat>)
      modifies this
      ensures (State(), r) == Step(disk, old(State()), ArchiveComment(c))
    {
      if !disk.writable { return Err(Rdonly); }
      ops := ops.(archiveComment := Some(c));
      return Ok(0);
    }

    method SetFileComment(i: nat, text: Option<bytes>) returns (r: Result<nat>)
      modifies this
      ensures (State(), r) == Step(disk, old(State()), EntryComment(i, text))
    {
      hide Retained;
      if !disk.writable { return Err(Rdonly); }
      if i >= |disk.entries| + |ops.adds| { return Err(Inval); }
      var others := Retain(ops.comments, i);
      ops := ops.(comments := others + [(i, text)]);
      return Ok(0);
    }

    /** Sets or deletes an extra field; the index it names is checked against the cached fields. */
    method EditExtraField(i: nat, op: ExtraOp) returns (r: Result<nat>)
      modifies this
      ensures (State(), r) == Step(disk, old(State()), Extra(i, op))
    {
      hide EditedFields, DiskFields, SetSlot, ExtraRefusal;
      if !disk.writable { return Err(Rdonly); }
      if i >= |disk.entries| + |ops.adds| { return Err(Inval); }
      var refusal := ExtraRefusal(Slot(overlay, i), op);
      if refusal.Some? { return Err(refusal.value); }
      ops := ops.(extraOps := ops.extraOps + [(i, op)]);
      RefreshExtraFields(i);
      return Ok(0);
    }

    method SetMtime(i: nat, t: int) returns (r: Result<nat>)
      modifies this
      ensures (State(), r) == Step(disk, old(State()), Mtime(i, t))
    {
      hide Retained;
      if !disk.writable { return Err(Rdonly); }
      if i >= |disk.entries| + |ops.adds| { return Err(Inval); }
      var others := Retain(ops.mtimes, i);
      ops := ops.(mtimes := others + [(i, t)]);
      return Ok(0);
    }

    method SetDostime(i: nat, time: u16, date: u16) returns (r: Result<nat>)
      modifies this
      ensures (State(), r) == Step(disk, old(State()), Dostime(i, time, date))
    {
      hide Retained;
      if !disk.writable { return Err(Rdonly); }
      if i >= |disk.entries| + |ops.adds| { return Err(Inval); }
      var others := Retain(ops.dostimes, i);
      ops := ops.(dostimes := others + [(i, (time, date))]);
      return Ok(0);
    }

    method SetExternalAttributes(i: nat, opsys: u8, attrs: u32) returns (r: Result<nat>)
      modifies this
      ensures (State(), r) == Step(disk, old(State()), Attrs(i, opsys, attrs))
    {
      hide Retained;
      if !disk.writable { return Err(Rdonly); }
      if i >= |disk.entries| + |ops.adds| { return Err(Inval); }
      var others := Retain(ops.attrs, i);
      ops := ops.(attrs := others + [(i, (opsys, attrs))]);
      return Ok(0);
    }

    method SetFileCompression(i: nat, m: int, level: nat) returns (r: Result<nat>)
      modifies this
      ensures (State(), r) == Step(disk, old(State()), Compression(i, m, level))
    {
      hide Retained;
      if !disk.writable { return Err(Rdonly); }
      if i >= |disk.entries| + |ops.adds| { return Err(Inval); }
      if m != -1 && m != 0 && m != 8 { return Err(Compnotsupp); }
      var others := Retain(ops.compressions, i);
      ops := ops.(compressions := others + [(i, (m, level))]);
      return Ok(0);
    }

    method UnchangeAt(i: nat) returns (r: Result<nat>)
      modifies this
      ensures (State(), r) == Step(disk, old(State()), Unchange(i))
    {
      hide Retained;
      if i >= |disk.entries| + |ops.adds| { return Err(Inval); }
      var deletes := Retain(ops.deletes, i);
      var renames := Retain(ops.renames, i);
      var replacements := Retain(ops.replacements, i);
      var encryptions := Retain(ops.encryptions, i);
      var extraOps := Retain(ops.extraOps, i);
      var comments := Retain(ops.comments, i);
      var dostimes := Retain(ops.dostimes, i);
      var mtimes := Retain(ops.mtimes, i);
      var attrs := Retain(ops.attrs, i);
      var compressions := Retain(ops.compressions, i);
      ops := Ops(ops.adds, deletes, renames, replacements, encryptions, extraOps, comments, dostimes, mtimes, attrs,
                 compressions, ops.archiveComment);
      if i >= |disk.entries| {
        var k := i - |disk.entries|;
        ops := ops.(adds := ops.adds[..k] + ops.adds[k + 1..]);
      }
      return Ok(0);
    }

    method UnchangeEverything() returns (r: Result<nat>)
      modifies this
      ensures (State(), r) == Step(disk, old(State()), UnchangeAll)
    {
      ops := NO_OPS;
      return Ok(0);
    }

    method UnchangeArchiveComment() returns (r: Result<nat>)
      modifies this
      ensures (State(), r) == Step(disk, old(State()), UnchangeArchive)
    {
      ops := ops.(archiveComment := None);
      return Ok(0);
    }

    method Call(e: Edit) returns (r: Result<nat>)
      modifies this
      ensures (State(), r) == Step(disk, old(State()), e)
    {
      hide Step;
      match e
      case Add(name, data, overwrite) => r := FileAdd(name, data, overwrite);
      case AddDir(name) => r := DirAdd(name);
      case DeleteEntry(i) => r := DeleteAt(i);
      case Rename(i, name) => r := RenameAt(i, name);
      case Replace(i, data) => r := ReplaceAt(i, data);
      case Encrypt(i, m) => r := SetEncryption(i, m);
      case ArchiveComment(c) => r := SetArchiveComment(c);
      case EntryComment(i, text) => r := SetFileComment(i, text);
      case Extra(i, op) => r := EditExtraField(i, op);
      case Mtime(i, t) => r := SetMtime(i, t);
      case Dostime(i, time, date) => r := SetDostime(i, time, date);
      case Attrs(i, opsys, attrs) => r := SetExternalAttributes(i, opsys, attrs);
      case Compression(i, m, level) => r := SetFileCompression(i, m, level);
      case Unchange(i) => r := UnchangeAt(i);
      case UnchangeAll => r := UnchangeEverything();
      case UnchangeArchive => r := UnchangeArchiveComment();
    }

    // The settings of one index, looked up from the end except for the compression and the encryption.
    method Lookups(i: nat) returns (m: Meta)
      requires Settled(ops)
      ensures m == MetaOf(ops, i)
    {
      hide FindFirst, FindLast, Unique;
      var deleted := Find(ops.deletes, i);
      FoundFromBothEnds(ops.deletes, i);
      var encryption := Find(ops.encryptions, i);
      UniqueFindsAgree(ops.encryptions, i);
      var comment := FindBack(ops.comments, i);
      var dostime := FindBack(ops.dostimes, i);
      var mtime := FindBack(ops.mtimes, i);
      var attrs := FindBack(ops.attrs, i);
      var compression := Find(ops.compressions, i);
      UniqueFindsAgree(ops.compressions, i);
      m := Meta(deleted.Some?, encryption, comment, dostime, mtime, attrs, compression);
    }

    /** Collects what the writer gets on close. Looking up the fields of an entry refreshes their cache. */
    method Collect(read: nat -> Result<bytes>, clock: Clock) returns (r: Result<Materials>)
      requires Settled(ops)
      modifies this`overlay
      ensures r == Collected(disk, ops, read, clock)
    {
      hide FindFirst, MetaOf, EditedFields, DiskFields, FileOf, EncryptionOf, Settled, SetSlot;
      var files: seq<Compress.ArchiveFile>, methods: seq<u16> := [], [];
      for i := 0 to |disk.entries|
        invariant KeptFiles(disk, ops, read, clock, i) == Ok(Materials(files, methods, []))
      {
        var m := Lookups(i);
        if m.deleted { continue; }
        var name := Find(ops.renames, i);
        var data := Find(ops.replacements, i);
        var content := if data.Some? then Ok(data.value) else read(i);
        if content.Err? {
          KeptFails(disk, ops, read, clock, i + 1);
          return Err(content.error);
        }
        var fields := FieldsNow(DiskFields(disk, i), ops.extraOps, i);
        overlay := SetSlot(overlay, i, fields);
        var written := if name.Some? then name.value else disk.entries[i].filename;
        files := files + [FileOf(disk, m, fields, i, written, content.value, clock)];
        methods := methods + [EncryptionOf(m)];
      }
      ghost var kept := Materials(files, methods, []);
      var n := |disk.entries|;
      for k := 0 to |ops.adds|
        invariant files == kept.files + AddedFiles(disk, ops, clock, k)
        invariant methods == kept.methods + AddedMethods(disk, ops, k)
      {
        var m := Lookups(n + k);
        NoDiskFields(disk, n + k);
        var fields := FieldsNow(DiskFields(disk, n + k), ops.extraOps, n + k);
        overlay := SetSlot(overlay, n + k, fields);
        files := files + [FileOf(disk, m, fields, n + k, ops.adds[k].0, ops.adds[k].1, clock)];
        methods := methods + [EncryptionOf(m)];
      }
      return Ok(Materials(files, methods, if ops.archiveComment.Some? then ops.archiveComment.value else disk.comment));
    }

    /** Closes the handle: collects, checks that a password is there if one is needed, and writes under the poll. */
    method Materialize(host: Host, password: Option<bytes>, poll: Compress.Poll)
      returns (r: Result<bytes>, calls: seq<(nat, nat)>)
      requires Settled(ops) && AesCtr.WellSized(host.primitives) && Writable(disk, ops, host, password)
      modifies this`overlay
      ensures r == if Compress.Cancels(poll, calls) then Err(Cancelled) else Materialized(disk, ops, host, password)
      ensures Compress.Unbroken(poll, calls) && (poll.NoPoll? ==> calls == [])
    {
      hide Settled, Collected, AnyEncrypted, AesCtr.WellSized, Compress.Unbroken, WriterIO.Stages, WriterIO.Output,
           WriterIO.Addressable, Compress.Checkpoints, Compress.InMemory;
      Compress.NoCalls(poll);
      var m := Collect(host.read, host.clock);
      if m.Err? { return Err(m.error), []; }
      var encrypted := exists e <- m.value.methods :: e != ENC_NONE;
      EncryptedIs(m.value.methods);
      var pw: bytes := [];
      if encrypted {
        if password.None? { return Err(Nopasswd), []; }
        pw := password.value;
      }
      r, calls := WriterIO.WriteArchiveFullWithProgress(
        host.deflate, m.value.files, DEFAULT_OPTIONS, Compress.Secrets(host.primitives, pw, host.salts), m.value.methods,
        m.value.comment, poll);
    }
  }

  lemma EncryptedIs(methods: seq<u16>)
    ensures AnyEncrypted(methods) <==> exists e <- methods :: e != ENC_NONE
  {}

  lemma NoDiskFields(d: Disk, i: nat)
    ensures i >= |d.entries| ==> DiskFields(d, i) == []
  {}

  // The first entry that cannot be read decides.
  lemma {:induction false} KeptFails(d: Disk, ops: Ops, read: nat -> Result<bytes>, clock: Clock, n: nat)
    requires n <= |d.entries|
    ensures KeptFiles(d, ops, read, clock, n).Err? ==>
              KeptFiles(d, ops, read, clock, |d.entries|) == KeptFiles(d, ops, read, clock, n)
    decreases |d.entries| - n
  {
    if n < |d.entries| { KeptFails(d, ops, read, clock, n + 1); }
  }

  /** Any run of calls followed by a close: what is written is what the run amounts to. */
  method EditAndClose(disk: Disk, edits: seq<Edit>, host: Host, password: Option<bytes>, poll: Compress.Poll)
    returns (r: Result<bytes>, calls: seq<(nat, nat)>)
    requires AesCtr.WellSized(host.primitives) && Writable(disk, Run(disk, edits).ops, host, password)
    ensures r == if Compress.Cancels(poll, calls) then Err(Cancelled)
                 else Materialized(disk, Run(disk, edits).ops, host, password)
  {
    hide Step, Materialized, Settled, Writable, AesCtr.WellSized;
    var zip := new Zip(disk);
    for k := 0 to |edits|
      invariant fresh(zip) && zip.disk == disk && zip.State() == Run(disk, edits[..k])
    {
      assert edits[..k + 1][..k] == edits[..k];
      var answer := zip.Call(edits[k]);
    }
    assert edits[..|edits|] == edits;
    RunIsSettled(disk, edits);
    r, calls := zip.Materialize(host, password, poll);
  }
}
