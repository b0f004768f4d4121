/** What a file reads as when an in-place edit wrote its new tail and could not cut off the rest of the old one. */
module Leftovers {
  import opened Bytes
  import opened Dirents
  import opened Cdir
  import opened DirectoryReads
  import opened Modify
  import opened Writer
  import opened Compress
  import opened Extraction
  import ArchiveProofs
  import Crc
  import ModifyIO

  /** The file after an edit whose truncation failed. */
  function Leftover(was: bytes, renames: seq<Rename>, deletes: seq<u64>): bytes
    requires ModifyArchive(was, renames, deletes).Ok?
  {
    EditedIsSound(was, renames, deletes);
    var at := ReadCentralDir(was).value.cdirOffset;
    ModifyIO.Left(was, at, ModifyArchive(was, renames, deletes).value[at..], ModifyIO.TruncateFails)
  }

  /** The new archive and what is left of a longer old one. */
  lemma LeftoverIs(was: bytes, renames: seq<Rename>, deletes: seq<u64>)
    requires ModifyArchive(was, renames, deletes).Ok?
    ensures var out := ModifyArchive(was, renames, deletes).value;
            Leftover(was, renames, deletes) == out + if |out| < |was| then was[|out|..] else []
  {
    hide ReadCentralDir, SerializedBytes, Edited, Serialize, Sound;
    EditedIsSound(was, renames, deletes);
    var out, at := ModifyArchive(was, renames, deletes).value, ReadCentralDir(was).value.cdirOffset;
    assert out[..at] == was[..at];
    assert was[..at] + out[at..] == out;
  }

  /** What a directory reads back as once its end record is found. */
  function Reopened(prefix: bytes, cd: CentralDir): Result<CentralDir>
    requires Situated(prefix, cd)
  {
    if forall d <- cd.entries :: Reread(d).Ok?
    then Ok(Directory(prefix, cd).(entries := RereadPrefix(cd.entries)))
    else Err(Incons)
  }

  /** A serialized directory followed by a few more bytes is found as long as every signature after its end record is
      passed over. */
  lemma FoundBeforeRest(prefix: bytes, cd: CentralDir, rest: bytes)
    requires Situated(prefix, cd) && (forall d <- cd.entries :: Sound(d))
    requires |cd.comment| + |rest| <= U16_MAX && |Records(cd.entries)| <= MAX_CD_SIZE
    requires var b, at := prefix + SerializedBytes(cd) + rest, EocdOffset(prefix, cd);
             LaterPassedOver(b, at) && (NeedsZip64Directory(cd) || NoFalseLocator(b, at))
    ensures ReadCentralDir(prefix + SerializedBytes(cd) + rest) == Reopened(prefix, cd)
  {
    hide Records, SerializedBytes, RereadPrefix, Reread, Sound, ReadEntries, TryParse, PassedOver, ReadCentralDir,
         LaterPassedOver, NoFalseLocator, NeedsZip64Directory, EocdOffset, RegeneratedAll, TailStart;
    TrueRecord(prefix, cd, rest);
    EntriesRead(prefix, cd, rest);
    RereadPrefixExact(cd.entries);
    SearchOutcome(prefix + SerializedBytes(cd) + rest, EocdOffset(prefix, cd));
  }

  // Two archives that agree from `lo` on have the same end records there.
  lemma SameRecord(a: bytes, b: bytes, lo: nat, p: nat)
    requires |a| == |b| && lo <= p && p + EOCD_SIZE <= |b| && a[lo..] == b[lo..]
    ensures EocdAt(a, p) == EocdAt(b, p) && PassedOver(a, p) == PassedOver(b, p)
    ensures U16(a, p + 10) == U16(b, p + 10) && U16(a, p + 20) == U16(b, p + 20)
    ensures U32(a, p + 12) == U32(b, p + 12) && U32(a, p + 16) == U32(b, p + 16)
    ensures p + EOCD_SIZE + U16(b, p + 20) <= |b| ==>
              a[p + EOCD_SIZE..p + EOCD_SIZE + U16(b, p + 20)] == b[p + EOCD_SIZE..p + EOCD_SIZE + U16(b, p + 20)]
  {
    hide FromLe;
    SameSlice(a, b, lo, p, p + 4); SameSlice(a, b, lo, p + 4, p + 6); SameSlice(a, b, lo, p + 6, p + 8);
    SameSlice(a, b, lo, p + 10, p + 12); SameSlice(a, b, lo, p + 12, p + 16); SameSlice(a, b, lo, p + 16, p + 20);
    SameSlice(a, b, lo, p + 20, p + 22);
    if p + EOCD_SIZE + U16(b, p + 20) <= |b| { SameSlice(a, b, lo, p + 22, p + 22 + U16(b, p + 20)); }
  }

  lemma SameSlice(a: bytes, b: bytes, lo: nat, i: nat, j: nat)
    requires |a| == |b| && lo <= i <= j <= |b| && a[lo..] == b[lo..]
    ensures a[i..j] == b[i..j]
  {
    assert a[i..j] == a[lo..][i - lo..j - lo] == b[lo..][i - lo..j - lo] == b[i..j];
  }

  lemma StillDecides(a: bytes, b: bytes, lo: nat, p: nat)
    requires Decides(b, p) && |a| == |b| && lo <= p && a[lo..] == b[lo..]
    ensures Decides(a, p)
  {
    hide PassedOver;
    SameRecord(a, b, lo, p);
    forall q | p < q <= |a| - EOCD_SIZE && EocdAt(a, q) ensures PassedOver(a, q) {
      SameRecord(a, b, lo, q);
    }
  }

  // The records of the new directory stand where the old directory stood, and the end records follow them.
  lemma RecordsThenEnd(prefix: bytes, cd: CentralDir, rest: bytes, size: nat)
    requires Situated(prefix, cd) && (forall d <- cd.entries :: Sound(d))
    requires |prefix + SerializedBytes(cd)| <= |prefix| + size <= |prefix + SerializedBytes(cd) + rest|
    ensures var b := prefix + SerializedBytes(cd) + rest;
            size > |Records(cd.entries)| && ParseEntries(b[|prefix|..|prefix| + size], 0) == RereadPrefix(cd.entries)
  {
    hide Records, Sound, RereadPrefix, ParseEntries, NeedsZip64Directory, EndRecords, Stops;
    var r := Records(cd.entries);
    var e := EndRecords(NeedsZip64Directory(cd), |cd.entries|, |r|, cd.cdirOffset, cd.comment);
    EndRecordsStop(NeedsZip64Directory(cd), |cd.entries|, |r|, cd.cdirOffset, cd.comment, (e + rest)[..size - |r|]);
    FrontSlice(prefix, r, e, rest, size);
    ParseRecords([], cd.entries, (e + rest)[..size - |r|]);
  }

  lemma FrontSlice(p: bytes, r: bytes, e: bytes, q: bytes, size: nat)
    requires |r| <= size <= |r| + |e| + |q|
    ensures (p + (r + e) + q)[|p|..|p| + size] == [] + r + (e + q)[..size - |r|]
  {}

  lemma EndRecordsStop(zip64: bool, n: nat, size: nat, offset: nat, comment: bytes, post: bytes)
    requires var e := EndRecords(zip64, n, size, offset, comment); e <= post
    ensures post != [] && Stops(post)
  {
    hide Le;
    assert post[2] == EndRecords(zip64, n, size, offset, comment)[2] == if zip64 then EOCD64_MAGIC[2] else EOCD_MAGIC[2];
    assert post[..4][2] == post[2];
  }

  lemma CountsAgree(a: nat, b: nat, n: u16)
    requires CountMatches(a, n)
    ensures CountMatches(b, n) <==> b % 0x1_0000 == a % 0x1_0000
  {}

  /** The old end record stands past the new archive, so it decides again: it describes the new records by the old
      size and the old count. */
  lemma FoundByOldRecord(was: bytes, renames: seq<Rename>, deletes: seq<u64>, oldAt: nat)
    requires ModifyArchive(was, renames, deletes).Ok? && |ModifyArchive(was, renames, deletes).value| <= U64_MAX
    requires Decides(was, oldAt) && NoFalseLocator(was, oldAt)
    requires var cd := ReadCentralDir(was).value;
             |ModifyArchive(was, renames, deletes).value| <= cd.cdirOffset + cd.cdirSize <= oldAt
    requires NoFalseLocator(Leftover(was, renames, deletes), oldAt)
    ensures var cd := ReadCentralDir(was).value;
            var es := RereadPrefix(Edited(cd.entries, renames, deletes));
            ReadCentralDir(Leftover(was, renames, deletes)) ==
              if |es| % 0x1_0000 == |cd.entries| % 0x1_0000 then Ok(cd.(entries := es)) else Err(Incons)
    ensures var cd := ReadCentralDir(was).value;
            |Records(Edited(cd.entries, renames, deletes))| < cd.cdirSize
  {
    hide ReadCentralDir, SerializedBytes, Edited, Sound, Decides, Leftover, ModifyArchive, RereadPrefix, ParseEntries, U16, U32,
         NoFalseLocator, CountMatches, Records;
    EditedIsSound(was, renames, deletes);
    LeftoverIs(was, renames, deletes);
    var cd, out, f := ReadCentralDir(was).value, ModifyArchive(was, renames, deletes).value, Leftover(was, renames, deletes);
    var prefix, edited := was[..cd.cdirOffset], EditedDir(cd, renames, deletes);
    PlainRecord(was, oldAt);
    assert f[|out|..] == was[|out|..];
    StillDecides(f, was, |out|, oldAt);
    SameRecord(f, was, |out|, oldAt);
    PlainRecord(f, oldAt);
    RecordsThenEnd(prefix, edited, was[|out|..], cd.cdirSize);
    CountsAgree(|cd.entries|, |RereadPrefix(edited.entries)|, U16(was, oldAt + 10));
  }

  lemma EditIsSituated(was: bytes, renames: seq<Rename>, deletes: seq<u64>)
    requires ModifyArchive(was, renames, deletes).Ok? && |ModifyArchive(was, renames, deletes).value| <= U64_MAX
    ensures ReadCentralDir(was).Ok? && ReadCentralDir(was).value.cdirOffset <= |was|
    ensures var cd := ReadCentralDir(was).value;
            Situated(was[..cd.cdirOffset], EditedDir(cd, renames, deletes))
  {
    hide ReadCentralDir, SerializedBytes, Edited, ModifyArchive, Sound;
    EditedIsSound(was, renames, deletes);
  }

  /** The end record of the new directory can still be found in the file `f`. */
  predicate NewRecordDecides(f: bytes, prefix: bytes, edited: CentralDir) {
    && |edited.comment| + (|f| - |prefix + SerializedBytes(edited)|) <= U16_MAX
    && |Records(edited.entries)| <= MAX_CD_SIZE
    && LaterPassedOver(f, EocdOffset(prefix, edited))
    && (NeedsZip64Directory(edited) || NoFalseLocator(f, EocdOffset(prefix, edited)))
  }

  /** The plain end record at `oldAt` decided what `was` read as, and it stands past the old directory, past the new
      archive and past any locator signature. */
  predicate OldRecordDecides(was: bytes, f: bytes, cd: CentralDir, newLength: nat, oldAt: nat) {
    && Decides(was, oldAt) && NoFalseLocator(was, oldAt) && NoFalseLocator(f, oldAt)
    && newLength <= cd.cdirOffset + cd.cdirSize <= oldAt
  }

  /** What an edit whose truncation failed reads as. With no old bytes left it is the edited archive. As long as the new
      end record decides it reads as the edited archive too. But when the new archive ends within the old directory
      the old end record decides, and then the edit is not what is read: the file is inconsistent, unless the number
      of entries is the same, and otherwise keeps the old directory size. */
  lemma FailedTruncation(was: bytes, renames: seq<Rename>, deletes: seq<u64>, oldAt: nat)
    requires ModifyArchive(was, renames, deletes).Ok? && |ModifyArchive(was, renames, deletes).value| <= U64_MAX
    ensures ReadCentralDir(was).Ok? && ReadCentralDir(was).value.cdirOffset <= |was|
    ensures var cd, out, f := ReadCentralDir(was).value, ModifyArchive(was, renames, deletes).value,
                              Leftover(was, renames, deletes);
            var prefix, edited := was[..cd.cdirOffset], EditedDir(cd, renames, deletes);
            && Situated(prefix, edited)
            && f == out + (if |out| < |was| then was[|out|..] else [])
            && (NewRecordDecides(f, prefix, edited) ==> ReadCentralDir(f) == Reopened(prefix, edited))
            && (OldRecordDecides(was, f, cd, |out|, oldAt) ==>
                  var es := RereadPrefix(edited.entries);
                  && ReadCentralDir(f) == (if |es| % 0x1_0000 == |cd.entries| % 0x1_0000 then Ok(cd.(entries := es)) else Err(Incons))
                  && ReadCentralDir(f) != Ok(Directory(prefix, edited)))
  {
    hide ReadCentralDir, SerializedBytes, Edited, Sound, Decides, Leftover, ModifyArchive, RereadPrefix, ParseEntries,
         NoFalseLocator, Reopened, EocdOffset, Records, LaterPassedOver, NeedsZip64Directory;
    EditIsSituated(was, renames, deletes);
    EditedIsSound(was, renames, deletes);
    LeftoverIs(was, renames, deletes);
    var cd, out, f := ReadCentralDir(was).value, ModifyArchive(was, renames, deletes).value, Leftover(was, renames, deletes);
    var prefix, edited := was[..cd.cdirOffset], EditedDir(cd, renames, deletes);
    if NewRecordDecides(f, prefix, edited) {
      FoundBeforeRest(prefix, edited, if |out| < |was| then was[|out|..] else []);
    }
    if OldRecordDecides(was, f, cd, |out|, oldAt) { FoundByOldRecord(was, renames, deletes, oldAt); }
  }

  // ----- the only file deleted -----

  lemma OnlyEntryDeleted(d: Dirent)
    ensures Edited([d], [], [0]) == []
  {
    var ds := Renamed([d], []);
    assert Survivors(ds, [0], 1) == [];
    assert 0 in [0 as u64];
  }

  lemma DeletedDirectory(f: ArchiveFile)
    requires PlainStored(f)
    ensures var edited := EditedDir(SingleDirectory(f), [], [0]);
            && edited.entries == [] && !NeedsZip64Directory(edited)
            && Serialize(edited) == Ok(EocdFixed(0, 0, SingleDirectory(f).cdirOffset, 0))
  {
    hide StoredEntry, Body, CentralEntries, EocdFixed, ArchiveZip64, Edited;
    StoredLayout(f);
    var cd := SingleDirectory(f);
    OnlyEntryDeleted(cd.entries[0]);
    assert cd.entries == [cd.entries[0]];
    assert [] + (EocdFixed(0, 0, cd.cdirOffset, 0) + []) == EocdFixed(0, 0, cd.cdirOffset, 0);
  }

  lemma ShortNames(f: ArchiveFile)
    requires PlainStored(f) && |f.name| <= U16_MAX
    ensures ArchiveProofs.NamesFit([StoredEntry(f)])
  {}

  lemma OnlyFileReads(f: ArchiveFile)
    requires PlainStored(f) && |f.name| == 1 && !UnsafeName(f.name) && |f.data| < 0x100_0000
    ensures Fits([StoredEntry(f)]) && WriteArchive([StoredEntry(f)], []) == Ok(Archive([StoredEntry(f)], []))
    ensures |Archive([StoredEntry(f)], [])| <= U64_MAX && ArchiveProofs.Locatable([StoredEntry(f)], [])
    ensures ReadCentralDir(Archive([StoredEntry(f)], [])) == Ok(SingleDirectory(f))
  {
    hide Crc.Hash, Body, CentralEntries, ArchiveZip64, ReadCentralDir, AllWritable, EndsLikeLocator, ArchiveProofs.AllLegal,
         StoredEntry, ArchiveProofs.Locatable, Archive, ArchiveProofs.NamesFit, Fits, ArchiveProofs.DirectoryOf;
    StoredLayout(f);
    NoLocatorInTail(f);
    StoredIsLocatable(f);
    StoredIsLegal(f);
    ShortNames(f);
    ArchiveProofs.WriteThenRead([StoredEntry(f)], []);
  }

  lemma PlainLocatable(files: seq<CompressedFile>)
    requires Fits(files) && !ArchiveZip64(files) && ArchiveProofs.Locatable(files, [])
    ensures var out := Archive(files, []);
            |out| >= EOCD_SIZE && LaterPassedOver(out, |out| - EOCD_SIZE) && NoFalseLocator(out, |out| - EOCD_SIZE)
  {
    hide Archive, Body, CentralEntries, ArchiveZip64, LaterPassedOver, NoFalseLocator;
  }

  lemma OnlyFileWritten(f: ArchiveFile)
    requires PlainStored(f) && |f.name| == 1 && !UnsafeName(f.name) && |f.data| < 0x100_0000
    ensures Fits([StoredEntry(f)])
    ensures var was, cd := Archive([StoredEntry(f)], []), SingleDirectory(f);
            && |cd.entries| == 1 && cd.cdirSize == CENTRAL_SIZE + 1
            && |was| == cd.cdirOffset + cd.cdirSize + EOCD_SIZE
            && Decides(was, cd.cdirOffset + cd.cdirSize) && NoFalseLocator(was, cd.cdirOffset + cd.cdirSize)
  {
    hide Crc.Hash, Body, CentralEntries, ArchiveZip64, EndsLikeLocator, PassedOver, StoredEntry, SerializedBytes, EocdAt, Records,
         LaterPassedOver, NoFalseLocator, TailStart, ArchiveProofs.Locatable, TryParse, Archive, Fits, NeedsZip64Directory;
    var files, cd := [StoredEntry(f)], SingleDirectory(f);
    StoredLayout(f);
    OnlyFileReads(f);
    ArchiveProofs.ArchiveIsSerialized(files, [], false);
    var was := Body(files) + SerializedBytes(cd);
    assert was + [] == was;
    TrueRecord(Body(files), cd, []);
    PlainLocatable(files);
  }

  /** Deleting the only file of an archive leaves, if the truncation fails, a file that does not open. */
  lemma OnlyFileDeleted(data: bytes)
    requires |data| < 0x100_0000
    ensures var f := ArchiveFile([0x61], data, None, [], 0, 0, 3, 0, Some(Store), None);
            && Fits([StoredEntry(f)]) && WriteArchive([StoredEntry(f)], []).Ok?
            && var was := WriteArchive([StoredEntry(f)], []).value;
               && ReadCentralDir(was).Ok? && ModifyArchive(was, [], [0]).Ok?
               && ReadCentralDir(Leftover(was, [], [0])) == Err(Incons)
  {
    hide Crc.Hash, Archive, ReadCentralDir, EocdFixed, SingleDirectory, StoredEntry, Edited, Leftover, Decides, RereadPrefix;
    var f := ArchiveFile([0x61], data, None, [], 0, 0, 3, 0, Some(Store), None);
    OnlyFileReads(f);
    OnlyFileWritten(f);
    DeletedDirectory(f);
    var was, cd := Archive([StoredEntry(f)], []), SingleDirectory(f);
    var oldAt := cd.cdirOffset + cd.cdirSize;
    var out := ModifyArchive(was, [], [0]).value;
    LeftoverIs(was, [], [0]);
    assert Leftover(was, [], [0])[|out|..] == was[|out|..];
    SameSlice(Leftover(was, [], [0]), was, |out|, oldAt - 20, oldAt - 16);
    FoundByOldRecord(was, [], [0], oldAt);
  }
}
