/** What closing a handle writes, told from the calls that were made: which entries, in which order, as what. */
module ClosedHandles {
  import opened Bytes
  import opened Dirents
  import opened PendingOps
  import opened PendingProofs
  import opened ZipHandles
  import opened OpenEntry
  import AesCtr
  import ArchiveProofs
  import Cdir
  import Compress
  import Extraction
  import Writer
  import WriterIO
  import WriterProofs
  import WrittenMetadata

  // ----- the calls, looked back on -----

  /** Entry `i` on disk was deleted, and neither it nor everything was undone since. */
  predicate Deleted(d: Disk, edits: seq<Edit>, i: nat) {
    d.writable && exists j | 0 <= j < |edits| ::
      edits[j] == DeleteEntry(i) && forall l | j < l < |edits| :: edits[l] != Unchange(i) && edits[l] != UnchangeAll
  }

  lemma {:induction false} DeletedIs(d: Disk, edits: seq<Edit>, i: nat)
    requires i < |d.entries|
    ensures MetaAfter(d, edits, i).deleted <==> Deleted(d, edits, i)
  {
    hide Run, Locate, KnownEncryption, ExtraRefusal;
    if edits != [] {
      var n := |edits| - 1;
      var init, e := edits[..n], edits[n];
      DeletedIs(d, init, i);
      DeletedStep(d, init, e, i);
      assert edits == init + [e];
    }
  }

  lemma DeletedStep(d: Disk, init: seq<Edit>, e: Edit, i: nat)
    ensures Deleted(d, init + [e], i) <==>
              (d.writable && e == DeleteEntry(i)) || (Deleted(d, init, i) && e != Unchange(i) && e != UnchangeAll)
  {
    var edits, n := init + [e], |init|;
    if d.writable && e == DeleteEntry(i) { assert edits[n] == e; }
    if Deleted(d, init, i) && e != Unchange(i) && e != UnchangeAll {
      var j :| 0 <= j < n && init[j] == DeleteEntry(i)
               && forall l | j < l < n :: init[l] != Unchange(i) && init[l] != UnchangeAll;
      assert edits[j] == DeleteEntry(i);
      forall l | j < l < |edits| ensures edits[l] != Unchange(i) && edits[l] != UnchangeAll {
        if l < n { assert edits[l] == init[l]; }
      }
    }
    if Deleted(d, edits, i) && e != DeleteEntry(i) {
      var j :| 0 <= j < |edits| && edits[j] == DeleteEntry(i)
               && forall l | j < l < |edits| :: edits[l] != Unchange(i) && edits[l] != UnchangeAll;
      assert j < n && init[j] == DeleteEntry(i) && edits[n] == e;
      forall l | j < l < n ensures init[l] != Unchange(i) && init[l] != UnchangeAll { assert edits[l] == init[l]; }
    }
  }

  /** The entries on disk below `n` that are not deleted, in increasing order. */
  function KeptAfter(d: Disk, edits: seq<Edit>, n: nat): (kept: seq<nat>)
    ensures forall k | 0 <= k < |kept| :: kept[k] < n
  {
    if n == 0 then [] else KeptAfter(d, edits, n - 1) + if Deleted(d, edits, n - 1) then [] else [n - 1]
  }

  lemma {:induction false} KeptAre(d: Disk, edits: seq<Edit>, n: nat)
    ensures var kept := KeptAfter(d, edits, n);
            && (forall j, k | 0 <= j < k < |kept| :: kept[j] < kept[k])
            && (forall k | 0 <= k < |kept| :: !Deleted(d, edits, kept[k]))
            && (forall i | 0 <= i < n :: i in kept <==> !Deleted(d, edits, i))
  {
    hide Deleted;
    if n > 0 { KeptAre(d, edits, n - 1); }
  }

  /** No entry on disk has this name. */
  predicate IsNew(d: Disk, name: bytes) { forall k | 0 <= k < |d.entries| :: d.entries[k].filename != name }

  lemma {:induction false} LocateFails(entries: seq<Dirent>, name: bytes)
    ensures Locate(entries, name).None? <==> forall k | 0 <= k < |entries| :: entries[k].filename != name
  {
    if entries != [] { LocateFails(entries[..|entries| - 1], name); }
  }

  /** The pending additions: those made under a new name, a directory with its slash, without the ones taken back. */
  function AddsAfter(d: Disk, edits: seq<Edit>): seq<(bytes, bytes)> {
    if edits == [] then []
    else
      var earlier := AddsAfter(d, edits[..|edits| - 1]);
      match edits[|edits| - 1]
      case Add(name, data, _) => if d.writable && IsNew(d, name) then earlier + [(name, data)] else earlier
      case AddDir(name) =>
        var slashed := if name == [] || name[|name| - 1] != 0x2F then name + [0x2F] else name;
        if d.writable && IsNew(d, slashed) then earlier + [(slashed, [])] else earlier
      case Unchange(i) =>
        var k := i - |d.entries|;
        if 0 <= k < |earlier| then earlier[..k] + earlier[k + 1..] else earlier
      case UnchangeAll => []
      case _ => earlier
  }

  lemma AddsStep(d: Disk, h: Handle, e: Edit)
    ensures Step(d, h, e).0.ops.adds ==
              match e
              case Add(name, data, _) => if d.writable && IsNew(d, name) then h.ops.adds + [(name, data)] else h.ops.adds
              case AddDir(name) =>
                if d.writable && IsNew(d, DirName(name)) then h.ops.adds + [(DirName(name), [])] else h.ops.adds
              case Unchange(i) => RemoveAdd(d, h.ops, i).adds
              case UnchangeAll => []
              case _ => h.ops.adds
  {
    hide Locate, Retained, FindFirst, IsNew, Refreshed, KnownEncryption, ExtraRefusal, Put, DirName;
    match e {
      case Add(name, _, _) => NewIs(d, name);
      case AddDir(name) => NewIs(d, DirName(name));
      case _ =>
    }
  }

  lemma {:induction false} AddsAre(d: Disk, edits: seq<Edit>)
    ensures Run(d, edits).ops.adds == AddsAfter(d, edits)
  {
    hide Step, IsNew;
    if edits != [] {
      var n := |edits| - 1;
      AddsAre(d, edits[..n]);
      AddsStep(d, Run(d, edits[..n]), edits[n]);
    }
  }

  lemma NewIs(d: Disk, name: bytes)
    ensures Locate(d.entries, name).None? <==> IsNew(d, name)
  {
    LocateFails(d.entries, name);
  }

  /** The archive comment: the last one set since it was last taken back, or the one on disk. */
  function CommentAfter(d: Disk, edits: seq<Edit>): bytes {
    if edits == [] then d.comment
    else
      match edits[|edits| - 1]
      case ArchiveComment(text) => if d.writable then text else CommentAfter(d, edits[..|edits| - 1])
      case UnchangeAll => d.comment
      case UnchangeArchive => d.comment
      case _ => CommentAfter(d, edits[..|edits| - 1])
  }

  lemma {:induction false} CommentIs(d: Disk, edits: seq<Edit>)
    ensures var c := Run(d, edits).ops.archiveComment; (if c.Some? then c.value else d.comment) == CommentAfter(d, edits)
  {
    hide Locate, Retained, FindFirst, Refreshed, KnownEncryption, ExtraRefusal, Put;
    if edits != [] { CommentIs(d, edits[..|edits| - 1]); }
  }

  /** `k` is the first entry on disk with this name. */
  predicate FirstNamed(d: Disk, name: bytes, k: nat) {
    k < |d.entries| && d.entries[k].filename == name && forall j | 0 <= j < k :: d.entries[j].filename != name
  }

  lemma {:induction false} LocateIsFirst(entries: seq<Dirent>, name: bytes, k: nat)
    requires k < |entries| && entries[k].filename == name && forall j | 0 <= j < k :: entries[j].filename != name
    ensures Locate(entries, name) == Some(k)
  {
    LocateFails(entries[..|entries| - 1], name);
    if k < |entries| - 1 { LocateIsFirst(entries[..|entries| - 1], name, k); }
  }

  /** Why an extra-field edit of an entry with these fields is refused. */
  function FieldRefusal(fields: seq<ExtraField>, op: ExtraOp): Option<ZipError> {
    match op
    case Set(id, n, _) =>
      if id == 0x0001 || id == 0x9901 || (n != 0xFFFF && n > CountId(fields, id)) then Some(Inval) else None
    case Delete(k) => if k != 0xFFFF && k >= |fields| then Some(Noent) else None
    case DeleteById(id, n) =>
      if id != 0xFFFF && n != 0xFFFF && n >= CountId(fields, id) then Some(Noent) else None
  }

  function Valid(ok: bool): Result<nat> { if ok then Ok(0) else Err(Inval) }

  function FieldAnswer(fields: seq<ExtraField>, op: ExtraOp): Result<nat> {
    match FieldRefusal(fields, op) case Some(e) => Err(e) case None => Ok(0)
  }

  /** What a call is answered after these calls: the index an addition gets (`at` is where its name stands on disk), or
      the error. Pending additions are counted, and nothing else that is pending; extra fields are those of the last
      extra-field call on the entry. */
  function Answered(d: Disk, edits: seq<Edit>, e: Edit, at: nat): Result<nat> {
    var disk, all := |d.entries|, |d.entries| + |AddsAfter(d, edits)|;
    if !d.writable && !e.Unchange? && !e.UnchangeAll? && !e.UnchangeArchive? then Err(Rdonly)
    else
      match e
      case Add(name, _, overwrite) => if IsNew(d, name) then Ok(all) else if overwrite then Ok(at) else Err(Exists)
      case AddDir(name) => if IsNew(d, DirName(name)) then Ok(all) else Err(Exists)
      case DeleteEntry(i) => Valid(i < disk)
      case Rename(i, _) => Valid(i < disk)
      case Replace(i, _) => Valid(i < disk)
      case Encrypt(i, m) =>
        if i < all && !(m == 0 || m == 1 || 0x0101 <= m <= 0x0103) then Err(Encrmethnotsupp) else Valid(i < all)
      case Extra(i, op) => if i < all then FieldAnswer(FieldsAtLastEdit(d, edits, i), op) else Err(Inval)
      case Compression(i, m, _) =>
        if i < all && !(m == -1 || m == 0 || m == 8) then Err(Compnotsupp) else Valid(i < all)
      case EntryComment(i, _) => Valid(i < all)
      case Mtime(i, _) => Valid(i < all)
      case Dostime(i, _, _) => Valid(i < all)
      case Attrs(i, _, _) => Valid(i < all)
      case Unchange(i) => Valid(i < all)
      case ArchiveComment(_) => Ok(0)
      case UnchangeAll => Ok(0)
      case UnchangeArchive => Ok(0)
  }

  /** Every call of every run is answered as the calls before it say. */
  lemma AnswersAre(d: Disk, edits: seq<Edit>, e: Edit, at: nat)
    requires e.Add? && !IsNew(d, e.name) ==> FirstNamed(d, e.name, at)
    ensures Step(d, Run(d, edits), e).1 == Answered(d, edits, e, at)
  {
    hide Run, Recorded, Refreshed, Locate, IsNew, DirName, FieldsAtLastEdit, CountId, FirstNamed;
    AddsAre(d, edits);
    match e {
      case Add(name, _, _) => NewIs(d, name); if !IsNew(d, name) { NamedIs(d, name, at); }
      case AddDir(name) => NewIs(d, DirName(name));
      case Extra(i, _) => CacheIsLastEdit(d, edits, i);
      case _ =>
    }
  }

  lemma NamedIs(d: Disk, name: bytes, k: nat)
    requires FirstNamed(d, name, k)
    ensures Locate(d.entries, name) == Some(k)
  {
    LocateIsFirst(d.entries, name, k);
  }

  /** The extra fields an entry starts from are its own, without those of the ZIP64 and the AES field. */
  lemma UntouchedFields(d: Disk, i: nat)
    ensures CurrentFields(d, [], i) == if i < |d.entries| then WrittenMetadata.OwnFields(d.entries[i].extraFields) else []
  {
    if i < |d.entries| {
      var x := d.entries[i].extraFields;
      WrittenMetadata.OwnFieldsAreKept(x);
      WriterProofs.DropCommutes(x, EXTRA_FIELD_ZIP64, EF_WINZIP_AES);
    }
  }

  // ----- what is handed to the writer -----

  /** The file written at logical index `i`, given the settings of the index: each piece of metadata is the pending one,
      else the one on disk, else a default. */
  predicate WrittenAs(d: Disk, m: Meta, i: nat, clock: Clock, f: Compress.ArchiveFile) {
    && f.comment == (match m.comment
                     case Some(text) => text
                     case None =>
                       if i < |d.entries| && d.entries[i].comment != [] then Some(d.entries[i].comment) else None)
    && (f.lastModTime, f.lastModDate) ==
         (if m.mtime.Some? then clock(if m.mtime.value < 0 then 0 else m.mtime.value)
          else if m.dostime.Some? then m.dostime.value
          else if i < |d.entries| then (d.entries[i].lastModTime, d.entries[i].lastModDate) else (0, 0))
    && (f.opsys, f.externalAttributes) ==
         (if m.attrs.Some? then m.attrs.value
          else if i < |d.entries| then (d.entries[i].versionMadeBy / 256, d.entries[i].extAttrib) else (3, 0))
    && (if m.compression.Some? && (m.compression.value.0 == 0 || m.compression.value.0 == 8)
        then f.compMethod == Some(if m.compression.value.0 == 0 then Store else Deflate) && f.level == Some(m.compression.value.1)
        else f.compMethod == None && f.level == None)
  }

  lemma FileIsWrittenAs(d: Disk, m: Meta, fields: seq<ExtraField>, i: nat, name: bytes, data: bytes, clock: Clock)
    ensures var f := FileOf(d, m, fields, i, name, data, clock);
            WrittenAs(d, m, i, clock, f) && f.name == name && f.data == data && f.extraFields == fields
  {}

  /** The content of an entry on disk: its pending data, or what the archive gives. */
  function ContentAfter(d: Disk, edits: seq<Edit>, read: nat -> Result<bytes>, i: nat): Result<bytes> {
    match DataAfter(d, edits, i) case Some(s) => Ok(s) case None => read(i)
  }

  /** Position `k` holds entry `i` on disk. */
  predicate HoldsEntry(d: Disk, edits: seq<Edit>, host: Host, m: Materials, k: nat, i: nat)
    requires k < |m.files| && k < |m.methods| && i < |d.entries|
  {
    var meta, f := MetaAfter(d, edits, i), m.files[k];
    && f.name == (match NameAfter(d, edits, i) case Some(name) => name case None => d.entries[i].filename)
    && Ok(f.data) == ContentAfter(d, edits, host.read, i)
    && f.extraFields == CurrentFields(d, edits, i)
    && WrittenAs(d, meta, i, host.clock, f)
    && m.methods[k] == (match meta.encryption case Some(enc) => enc case None => 0)
  }

  /** Position `first + a` holds pending addition `a`. */
  predicate HoldsAddition(d: Disk, edits: seq<Edit>, host: Host, m: Materials, first: nat, a: nat)
    requires first + a < |m.files| && first + a < |m.methods| && a < |AddsAfter(d, edits)|
  {
    var k, i := first + a, |d.entries| + a;
    var meta, f := MetaAfter(d, edits, i), m.files[k];
    && (f.name, f.data) == AddsAfter(d, edits)[a]
    && f.extraFields == CurrentFields(d, edits, i)
    && WrittenAs(d, meta, i, host.clock, f)
    && m.methods[k] == (match meta.encryption case Some(enc) => enc case None => 0)
  }

  /** Exactly the entries that are not deleted, in order, then exactly the pending additions, in order. */
  predicate HandedOver(d: Disk, edits: seq<Edit>, host: Host, m: Materials) {
    var kept, adds := KeptAfter(d, edits, |d.entries|), AddsAfter(d, edits);
    && |m.files| == |m.methods| == |kept| + |adds|
    && (forall k | 0 <= k < |kept| :: HoldsEntry(d, edits, host, m, k, kept[k]))
    && (forall a | 0 <= a < |adds| :: HoldsAddition(d, edits, host, m, |kept|, a))
    && m.comment == CommentAfter(d, edits)
  }

  lemma EntryIsHeld(d: Disk, edits: seq<Edit>, host: Host, i: nat)
    requires i < |d.entries|
    ensures var r, s := OnDiskFile(d, Run(d, edits).ops, host.read, host.clock, i), ContentAfter(d, edits, host.read, i);
            && (s.Err? ==> r == Err(s.error))
            && (s.Ok? ==>
                  r.Ok? && HoldsEntry(d, edits, host, Materials([r.value], [EncryptionOf(MetaOf(Run(d, edits).ops, i))], []), 0, i))
    ensures MetaOf(Run(d, edits).ops, i).deleted <==> Deleted(d, edits, i)
  {
    hide Run, MetaAfter, NameAfter, DataAfter, EditedFields, MetaOf, DiskFields, CurrentFields, Deleted, FileOf, OnDiskFile,
         WrittenAs;
    WrittenFollowsHistory(d, edits, host.read, host.clock, i);
    CurrentFieldsAre(d, edits, i);
    LastSettingWins(d, edits, i);
    DeletedIs(d, edits, i);
    var s := ContentAfter(d, edits, host.read, i);
    if s.Ok? {
      var name := NameAfter(d, edits, i);
      FileIsWrittenAs(d, MetaAfter(d, edits, i), CurrentFields(d, edits, i), i,
                      if name.Some? then name.value else d.entries[i].filename, s.value, host.clock);
    }
  }

  /** The first of these entries that cannot be read. */
  predicate FirstUnreadable(d: Disk, edits: seq<Edit>, read: nat -> Result<bytes>, kept: seq<nat>, k: nat)
    requires k < |kept|
  {
    ContentAfter(d, edits, read, kept[k]).Err? && forall j | 0 <= j < k :: ContentAfter(d, edits, read, kept[j]).Ok?
  }

  lemma {:induction false} EntriesAreHeld(d: Disk, edits: seq<Edit>, host: Host, n: nat)
    requires n <= |d.entries|
    ensures var r, kept := KeptFiles(d, Run(d, edits).ops, host.read, host.clock, n), KeptAfter(d, edits, n);
            && (r.Ok? ==>
                  && |r.value.files| == |r.value.methods| == |kept|
                  && (forall k | 0 <= k < |kept| :: HoldsEntry(d, edits, host, r.value, k, kept[k]))
                  && (forall k | 0 <= k < |kept| :: ContentAfter(d, edits, host.read, kept[k]).Ok?))
            && (r.Err? ==>
                  exists k | 0 <= k < |kept| ::
                    FirstUnreadable(d, edits, host.read, kept, k) && r == Err(ContentAfter(d, edits, host.read, kept[k]).error))
  {
    hide Run, OnDiskFile, EncryptionOf, MetaOf, Deleted, HoldsEntry, ContentAfter;
    if n > 0 {
      var i, was := n - 1, KeptAfter(d, edits, n - 1);
      EntriesAreHeld(d, edits, host, i);
      EntryIsHeld(d, edits, host, i);
      var before, ops := KeptFiles(d, Run(d, edits).ops, host.read, host.clock, i), Run(d, edits).ops;
      if before.Err? {
        var k :| 0 <= k < |was| && FirstUnreadable(d, edits, host.read, was, k)
                 && before == Err(ContentAfter(d, edits, host.read, was[k]).error);
        assert KeptAfter(d, edits, n)[..|was|] == was;
        assert FirstUnreadable(d, edits, host.read, KeptAfter(d, edits, n), k);
      } else if !Deleted(d, edits, i) {
        var f, enc := OnDiskFile(d, ops, host.read, host.clock, i), EncryptionOf(MetaOf(ops, i));
        assert KeptAfter(d, edits, n) == was + [i];
        if f.Ok? {
          OneMoreHeld(d, edits, host, before.value, f.value, enc, was, i);
        } else {
          assert FirstUnreadable(d, edits, host.read, was + [i], |was|);
        }
      }
    }
  }

  lemma OneMoreHeld(d: Disk, edits: seq<Edit>, host: Host, m: Materials, f: Compress.ArchiveFile, enc: u16, was: seq<nat>, i: nat)
    requires |m.files| == |m.methods| == |was| && i < |d.entries| && forall k | 0 <= k < |was| :: was[k] < |d.entries|
    requires forall k | 0 <= k < |was| :: HoldsEntry(d, edits, host, m, k, was[k])
    requires HoldsEntry(d, edits, host, Materials([f], [enc], []), 0, i)
    ensures var now := Materials(m.files + [f], m.methods + [enc], []);
            forall k | 0 <= k <= |was| :: HoldsEntry(d, edits, host, now, k, (was + [i])[k])
  {
    hide WrittenAs, MetaAfter, CurrentFields, ContentAfter, NameAfter;
  }

  lemma {:induction false} AddedAre(d: Disk, ops: Ops, clock: Clock, n: nat)
    requires n <= |ops.adds|
    ensures |AddedFiles(d, ops, clock, n)| == |AddedMethods(d, ops, n)| == n
    ensures forall a | 0 <= a < n ::
              && AddedFiles(d, ops, clock, n)[a] == AddedFile(d, ops, clock, a)
              && AddedMethods(d, ops, n)[a] == EncryptionOf(MetaOf(ops, |d.entries| + a))
  {
    hide AddedFile, EncryptionOf, MetaOf;
    if n > 0 { AddedAre(d, ops, clock, n - 1); }
  }

  lemma AdditionIsHeld(d: Disk, edits: seq<Edit>, host: Host, a: nat)
    requires a < |AddsAfter(d, edits)|
    ensures a < |Run(d, edits).ops.adds|
    ensures var ops := Run(d, edits).ops;
            var f, enc := AddedFile(d, ops, host.clock, a), EncryptionOf(MetaOf(ops, |d.entries| + a));
            var i, meta := |d.entries| + a, MetaAfter(d, edits, |d.entries| + a);
            && (f.name, f.data) == AddsAfter(d, edits)[a] && f.extraFields == CurrentFields(d, edits, i)
            && WrittenAs(d, meta, i, host.clock, f)
            && enc == (match meta.encryption case Some(m) => m case None => 0)
  {
    hide Run, MetaAfter, EditedFields, MetaOf, CurrentFields, FileOf, WrittenAs, AddsAfter, DiskFields;
    var i := |d.entries| + a;
    AddsAre(d, edits);
    CurrentFieldsAre(d, edits, i);
    NoDiskFields(d, i);
    LastSettingWins(d, edits, i);
    var add := AddsAfter(d, edits)[a];
    FileIsWrittenAs(d, MetaAfter(d, edits, i), CurrentFields(d, edits, i), i, add.0, add.1, host.clock);
  }

  /** All entries that are not deleted can be read, or have pending data. */
  predicate AllReadable(d: Disk, edits: seq<Edit>, read: nat -> Result<bytes>) {
    var kept := KeptAfter(d, edits, |d.entries|);
    forall k | 0 <= k < |kept| :: ContentAfter(d, edits, read, kept[k]).Ok?
  }

  lemma CollectedIs(d: Disk, edits: seq<Edit>, host: Host)
    ensures var r, kept := Collected(d, Run(d, edits).ops, host.read, host.clock), KeptAfter(d, edits, |d.entries|);
            if AllReadable(d, edits, host.read) then r.Ok? && HandedOver(d, edits, host, r.value)
            else exists k | 0 <= k < |kept| ::
                   FirstUnreadable(d, edits, host.read, kept, k) && r == Err(ContentAfter(d, edits, host.read, kept[k]).error)
  {
    hide Run, HoldsEntry, ContentAfter, AddedFile, EncryptionOf, MetaOf, KeptFiles, AddedFiles, AddedMethods, MetaAfter,
         CurrentFields, WrittenAs, KeptAfter, AddsAfter, CommentAfter;
    var ops, n := Run(d, edits).ops, |d.entries|;
    EntriesAreHeld(d, edits, host, n);
    AddsAre(d, edits);
    AddedAre(d, ops, host.clock, |ops.adds|);
    CommentIs(d, edits);
    var r := KeptFiles(d, ops, host.read, host.clock, n);
    if r.Ok? {
      var all, kept := Collected(d, ops, host.read, host.clock).value, KeptAfter(d, edits, n);
      forall k | 0 <= k < |kept| ensures HoldsEntry(d, edits, host, all, k, kept[k]) {
        SameHeld(d, edits, host, r.value, all, k, kept[k]);
      }
      forall a | 0 <= a < |AddsAfter(d, edits)| ensures HoldsAddition(d, edits, host, all, |kept|, a) {
        AdditionIsHeld(d, edits, host, a);
      }
    }
  }

  lemma SameHeld(d: Disk, edits: seq<Edit>, host: Host, a: Materials, b: Materials, k: nat, i: nat)
    requires k < |a.files| && k < |a.methods| && k < |b.files| && k < |b.methods| && i < |d.entries|
    requires a.files[k] == b.files[k] && a.methods[k] == b.methods[k] && HoldsEntry(d, edits, host, a, k, i)
    ensures HoldsEntry(d, edits, host, b, k, i)
  {}

  /** The outcome of writing these files with the default options, or of missing the password they need. */
  ghost predicate Writes(host: Host, m: Materials, password: Option<bytes>, r: Result<bytes>)
    requires AesCtr.WellSized(host.primitives)
  {
    var encrypts := exists k | 0 <= k < |m.methods| :: m.methods[k] != 0;
    if encrypts && password.None? then r == Err(Nopasswd)
    else
      var secrets := Compress.Secrets(host.primitives, if encrypts then password.value else [], host.salts);
      && Compress.InMemory(m.files)
      && var batch :=
           WriterIO.Stages(host.deflate, m.files, Compress.Options(Deflate, 6, true, 8_388_608), secrets, m.methods);
         WriterIO.Addressable(batch) && r == WriterIO.Output(batch, m.comment)
  }

  /** After any run of calls a close that nobody cancels writes exactly the entries that are not deleted and the pending
      additions, in order, each under its name, with its data, its metadata and its encryption, and the archive
      comment last set. If one of these entries cannot be read, the error of the first of them is the outcome. */
  lemma CloseWrites(d: Disk, edits: seq<Edit>, host: Host, password: Option<bytes>)
    requires AesCtr.WellSized(host.primitives) && Writable(d, Run(d, edits).ops, host, password)
    ensures var r, kept := Materialized(d, Run(d, edits).ops, host, password), KeptAfter(d, edits, |d.entries|);
            if AllReadable(d, edits, host.read)
            then exists m :: HandedOver(d, edits, host, m) && Writes(host, m, password, r)
            else exists k | 0 <= k < |kept| ::
                   FirstUnreadable(d, edits, host.read, kept, k) && r == Err(ContentAfter(d, edits, host.read, kept[k]).error)
  {
    hide Run, AesCtr.WellSized, HandedOver, AllReadable, Collected, WriterIO.Stages, WriterIO.Output, WriterIO.Addressable,
         Compress.InMemory, KeptAfter, ContentAfter, FirstUnreadable;
    CollectedIs(d, edits, host);
    if AllReadable(d, edits, host.read) {
      var m := Collected(d, Run(d, edits).ops, host.read, host.clock).value;
      SomeEncrypted(m.methods);
      assert HandedOver(d, edits, host, m) && Writes(host, m, password, Materialized(d, Run(d, edits).ops, host, password));
    }
  }

  lemma SomeEncrypted(methods: seq<u16>)
    ensures AnyEncrypted(methods) <==> exists k | 0 <= k < |methods| :: methods[k] != 0
  {
    forall k | 0 <= k < |methods| && methods[k] != 0 ensures AnyEncrypted(methods) { assert methods[k] in methods; }
  }

  /** And the written archive reads back so: position by position an entry that describes the file that was handed over
      and extracts to its data. */
  lemma ClosedReadsBack(c: Codecs, d: Disk, edits: seq<Edit>, host: Host, password: bytes, m: Materials, k: nat)
    requires AesCtr.WellSized(c.primitives) && c.primitives == host.primitives && Extraction.Inverts(c, host.deflate)
    requires HandedOver(d, edits, host, m) && k < |m.files| && Compress.InMemory(m.files)
    requires Extraction.Salted(Compress.Secrets(host.primitives, password, host.salts), m.methods)
    requires var secrets := Compress.Secrets(host.primitives, password, host.salts);
             var batch := WriterIO.Stages(host.deflate, m.files, DEFAULT_OPTIONS, secrets, m.methods);
             && batch.Ok? && Writer.Fits(batch.value) && Writer.AllWritable(batch.value) && ArchiveProofs.NamesFit(batch.value)
             && |Writer.Archive(batch.value, m.comment)| <= U64_MAX
             && ArchiveProofs.Locatable(batch.value, m.comment) && ArchiveProofs.AllLegal(batch.value)
    ensures var secrets := Compress.Secrets(host.primitives, password, host.salts);
            var batch := WriterIO.Stages(host.deflate, m.files, DEFAULT_OPTIONS, secrets, m.methods);
            var out := WriterIO.Output(batch, m.comment);
            && out.Ok? && Cdir.ReadCentralDir(out.value).Ok?
            && var cd := Cdir.ReadCentralDir(out.value).value;
               && |cd.entries| == |KeptAfter(d, edits, |d.entries|)| + |AddsAfter(d, edits)|
               && cd.comment == CommentAfter(d, edits) && k < |m.methods| && k < |batch.value|
               && WrittenMetadata.Describes(cd.entries[k], m.files[k], DEFAULT_OPTIONS, m.methods[k])
               && Extracted(c, out.value, cd.entries[k], Some(password)) ==
                    if IsAes(m.methods[k]) && |batch.value[k].data| > Cdir.MAX_CD_SIZE
                    then Err(CentralDirTooLarge) else Ok(m.files[k].data)
  {
    hide AesCtr.WellSized, Extracted, WriterIO.Stages, Writer.AllWritable, Cdir.ReadCentralDir, ArchiveProofs.AllLegal,
         ArchiveProofs.Locatable, ArchiveProofs.NamesFit, Extraction.Inverts, Extraction.Salted, WrittenMetadata.Describes,
         Writer.Archive, Writer.Fits, Compress.InMemory, KeptAfter, AddsAfter, CommentAfter, HoldsEntry, HoldsAddition;
    var secrets := Compress.Secrets(host.primitives, password, host.salts);
    Extraction.WriteThenExtract(c, host.deflate, m.files, DEFAULT_OPTIONS, secrets, m.methods, m.comment, k);
    WrittenMetadata.MetadataComesBack(host.deflate, m.files, DEFAULT_OPTIONS, secrets, m.methods, m.comment, k);
  }
}
