/** Editing an archive by rewriting only its tail: what the edit means and what it keeps. */
module Modify {
  import opened Bytes
  import opened Dirents
  import opened Cdir
  import opened Writer
  import opened WriterProofs
  import ArchiveProofs

  datatype Rename = Rename(index: u64, name: bytes)

  /** The name the last rename of index `i` gives it. */
  function LastRename(renames: seq<Rename>, i: nat): Option<bytes> {
    if renames == [] then None
    else if renames[|renames| - 1].index == i then Some(renames[|renames| - 1].name)
    else LastRename(renames[..|renames| - 1], i)
  }

  function RenameOne(d: Dirent, i: nat, renames: seq<Rename>): Dirent {
    match LastRename(renames, i) case None => d case Some(name) => d.(filename := name)
  }

  function Renamed(ds: seq<Dirent>, renames: seq<Rename>): (r: seq<Dirent>)
    ensures |r| == |ds|
  {
    seq(|ds|, i requires 0 <= i < |ds| => RenameOne(ds[i], i, renames))
  }

  /** The entries from index `from` on whose index is not deleted, in order. */
  function Survivors(ds: seq<Dirent>, deletes: seq<u64>, from: nat): seq<Dirent>
    decreases |ds| - from
  {
    if from >= |ds| then []
    else (if from in deletes then [] else [ds[from]]) + Survivors(ds, deletes, from + 1)
  }

  /** Indices always refer to the entries before any edit. */
  function Edited(ds: seq<Dirent>, renames: seq<Rename>, deletes: seq<u64>): seq<Dirent> {
    Survivors(Renamed(ds, renames), deletes, 0)
  }

  function EditedDir(cd: CentralDir, renames: seq<Rename>, deletes: seq<u64>): CentralDir {
    cd.(entries := Edited(cd.entries, renames, deletes))
  }

  /** The directory region lies within an archive of `len` bytes. */
  predicate InBounds(cd: CentralDir, len: nat) { cd.cdirOffset + cd.cdirSize <= len }

  function ModifyArchive(b: bytes, renames: seq<Rename>, deletes: seq<u64>): Result<bytes> {
    match ReadCentralDir(b)
    case Err(e) => Err(e)
    case Ok(cd) =>
      if !InBounds(cd, |b|) then Err(Incons)
      else
        match Serialize(EditedDir(cd, renames, deletes))
        case Err(e) => Err(e)
        case Ok(tail) => Ok(b[..cd.cdirOffset] + tail)
  }

  lemma {:induction false} SurvivorsOfNone(ds: seq<Dirent>, from: nat)
    requires from <= |ds|
    ensures Survivors(ds, [], from) == ds[from..]
    decreases |ds| - from
  {
    if from < |ds| { SurvivorsOfNone(ds, from + 1); }
  }

  lemma NoEdits(ds: seq<Dirent>)
    ensures Edited(ds, [], []) == ds
  {
    SurvivorsOfNone(Renamed(ds, []), 0);
  }

  lemma {:induction false} SurvivorsAreEntries(ds: seq<Dirent>, deletes: seq<u64>, from: nat)
    ensures forall d <- Survivors(ds, deletes, from) ::
              exists i :: from <= i < |ds| && i !in deletes && ds[i] == d
    decreases |ds| - from
  {
    if from < |ds| { SurvivorsAreEntries(ds, deletes, from + 1); }
  }

  lemma RenameKeepsCoherence(d: Dirent, name: bytes)
    requires Coherent(d)
    ensures Coherent(d.(filename := name)) && PrintedExtras(d.(filename := name)) == PrintedExtras(d)
  {}

  /** Every entry an edit keeps can be reread as well as its new name and its sizes allow. */
  lemma EditedIsCoherent(b: bytes, renames: seq<Rename>, deletes: seq<u64>)
    requires ReadCentralDir(b).Ok?
    ensures forall d <- Edited(ReadCentralDir(b).value.entries, renames, deletes) :: Coherent(d)
  {
    hide ReadCentralDir, Coherent, Survivors, LastRename;
    var ds := ReadCentralDir(b).value.entries;
    ReadIsCoherent(b);
    SurvivorsAreEntries(Renamed(ds, renames), deletes, 0);
    forall i | 0 <= i < |ds| ensures Coherent(Renamed(ds, renames)[i]) {
      assert ds[i] in ds;
      var n := LastRename(renames, i);
      if n.Some? { RenameKeepsCoherence(ds[i], n.value); }
    }
  }

  lemma ReadIsCoherent(b: bytes)
    requires ReadCentralDir(b).Ok?
    ensures forall d <- ReadCentralDir(b).value.entries :: Coherent(d)
  {
    ArchiveProofs.ReadIsPrintable(b);
  }

  lemma {:induction false} RecordsOfRegenerated(ds: seq<Dirent>)
    ensures Records(RegeneratedAll(ds)) == Records(ds)
  {
    hide RecordBytes, Regenerated;
    if ds != [] {
      RecordsOfRegenerated(ds[1..]);
      RegeneratedPrintsTheSame(ds[0]);
      assert RegeneratedAll(ds)[1..] == RegeneratedAll(ds[1..]);
    }
  }

  lemma EditedIsSound(b: bytes, renames: seq<Rename>, deletes: seq<u64>)
    requires ModifyArchive(b, renames, deletes).Ok?
    ensures ReadCentralDir(b).Ok?
    ensures var cd := ReadCentralDir(b).value;
            && cd.cdirOffset <= |b| && Serialize(EditedDir(cd, renames, deletes)).Ok?
            && ModifyArchive(b, renames, deletes).value ==
                 b[..cd.cdirOffset] + SerializedBytes(EditedDir(cd, renames, deletes))
            && forall d <- Edited(cd.entries, renames, deletes) :: Sound(d)
  {
    hide ReadCentralDir, SerializedBytes, Edited, Printable, Coherent;
    EditedIsCoherent(b, renames, deletes);
  }

  /** Reopening an edited archive, exactly: it gives exactly the kept entries, in order, with their last names, and the
      bytes before the directory unchanged, if and only if the new directory can be found and every kept entry can
      be reread. Once it can be found, a kept entry that fails to reread, for instance under an unsafe new name,
      fails the archive, and an ambiguous one comes back changed. */
  lemma ReopenModified(b: bytes, renames: seq<Rename>, deletes: seq<u64>)
    requires ModifyArchive(b, renames, deletes).Ok? && |ModifyArchive(b, renames, deletes).value| <= U64_MAX
    ensures ReadCentralDir(b).Ok? && ReadCentralDir(b).value.cdirOffset <= |b|
    ensures var cd, out := ReadCentralDir(b).value, ModifyArchive(b, renames, deletes).value;
            var prefix, edited := b[..cd.cdirOffset], EditedDir(cd, renames, deletes);
            var r := ReadCentralDir(out);
            && prefix <= out && Situated(prefix, edited)
            && (r == Ok(Directory(prefix, edited)) <==> Findable(prefix, edited) && forall d <- edited.entries :: Readable(d))
            && (Findable(prefix, edited) ==>
                  r == if forall d <- edited.entries :: Reread(d).Ok?
                       then Ok(Directory(prefix, edited).(entries := RereadPrefix(edited.entries)))
                       else Err(Incons))
  {
    hide ReadCentralDir, SerializedBytes, Records, NeedsZip64Directory, Sound, Readable, Reread, RereadPrefix, Edited,
         Findable;
    EditedIsSound(b, renames, deletes);
    var cd := ReadCentralDir(b).value;
    ReopenExact(b[..cd.cdirOffset], EditedDir(cd, renames, deletes));
  }

  /** The result of any readable edit is a fixed point of the empty edit; with no edits at all this is idempotence. */
  lemma ModifyIsStable(b: bytes, renames: seq<Rename>, deletes: seq<u64>)
    requires ModifyArchive(b, renames, deletes).Ok? && |ModifyArchive(b, renames, deletes).value| <= U64_MAX
    requires var cd := ReadCentralDir(b).value;
             && Findable(b[..cd.cdirOffset], EditedDir(cd, renames, deletes))
             && forall d <- Edited(cd.entries, renames, deletes) :: Readable(d)
    ensures var out := ModifyArchive(b, renames, deletes).value;
            ModifyArchive(out, [], []) == Ok(out)
  {
    hide ReadCentralDir, SerializedBytes, Records, NeedsZip64Directory, Readable, Edited, Findable, Printable, Coherent,
         RegeneratedAll, Reread, RereadPrefix;
    var cd, out := ReadCentralDir(b).value, ModifyArchive(b, renames, deletes).value;
    var edited := EditedDir(cd, renames, deletes);
    EditedIsSound(b, renames, deletes);
    ReopenModified(b, renames, deletes);
    var again := ReadCentralDir(out).value;
    NoEdits(again.entries);
    SerializesTheSame(edited, again);
    assert out[..cd.cdirOffset] + SerializedBytes(edited) == out;
    SerializedIsLong(edited);
    assert |out| >= cd.cdirOffset + |Records(edited.entries)|;
  }

  lemma SerializedIsLong(cd: CentralDir)
    ensures |SerializedBytes(cd)| >= |Records(cd.entries)|
  {}

  // The directory read back prints the same bytes as the one that was serialized.
  lemma SerializesTheSame(cd: CentralDir, again: CentralDir)
    requires again.entries == RegeneratedAll(cd.entries) && again.comment == cd.comment
    requires again.isZip64 == NeedsZip64Directory(cd) && again.cdirOffset == cd.cdirOffset
    requires forall d <- cd.entries :: Printable(d)
    ensures SerializedBytes(again) == SerializedBytes(cd) && Serialize(again) == Serialize(cd)
  {
    hide Records, EndRecords, Printable, Regenerated, NeedsZip64Directory;
    RecordsOfRegenerated(cd.entries);
    SameSizes(cd, again);
    forall d | d in again.entries ensures Printable(d) {
      var i :| 0 <= i < |again.entries| && again.entries[i] == d;
      assert cd.entries[i] in cd.entries;
      RegeneratedStaysPrintable(cd.entries[i]);
    }
  }

  lemma SameSizes(cd: CentralDir, again: CentralDir)
    requires again.entries == RegeneratedAll(cd.entries) && again.cdirOffset == cd.cdirOffset
    requires again.isZip64 == NeedsZip64Directory(cd) && Records(again.entries) == Records(cd.entries)
    ensures NeedsZip64Directory(again) == NeedsZip64Directory(cd)
  {
    hide Records;
    forall d | d in again.entries ensures exists e <- cd.entries :: e.sizes == d.sizes {
      var i :| 0 <= i < |again.entries| && again.entries[i] == d;
      assert cd.entries[i] in cd.entries;
    }
    forall e | e in cd.entries ensures exists d <- again.entries :: e.sizes == d.sizes {
      var i :| 0 <= i < |cd.entries| && cd.entries[i] == e;
      assert again.entries[i] in again.entries;
    }
  }

  lemma RegeneratedStaysPrintable(d: Dirent)
    requires Printable(d)
    ensures Printable(Regenerated(d))
  {
    hide ExtraBytes, PrintedExtras;
    RegeneratedPrintsTheSame(d);
  }

  /** A modify without edits returns the writer's output byte for byte. */
  lemma NoEditsReproduceTheWriter(files: seq<CompressedFile>, comment: bytes)
    requires Fits(files) && AllWritable(files) && ArchiveProofs.NamesFit(files)
    requires |Archive(files, comment)| <= U64_MAX
    requires ArchiveProofs.Locatable(files, comment) && ArchiveProofs.AllLegal(files)
    ensures ModifyArchive(Archive(files, comment), [], []) == Ok(Archive(files, comment))
  {
    hide ReadCentralDir, SerializedBytes, Records, NeedsZip64Directory, Body, CentralEntries, DirentsOf, Printable, Sound,
         Edited, ArchiveZip64, EndRecords, ArchiveProofs.AllLegal, AllWritable;
    var b := Archive(files, comment);
    ArchiveProofs.WriteThenRead(files, comment);
    ArchiveProofs.ArchiveIsSerialized(files, comment, ArchiveZip64(files));
    ArchiveProofs.EntriesAreSound(files);
    NoEdits(DirentsOf(files));
    SoundArePrintable(DirentsOf(files));
    assert b[..|Body(files)|] == Body(files);
  }

  lemma SoundArePrintable(ds: seq<Dirent>)
    requires forall d <- ds :: Sound(d)
    ensures forall d <- ds :: Printable(d)
  {}
}
