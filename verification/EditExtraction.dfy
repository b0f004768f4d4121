/** What is extracted after an edit: which entries keep their data, and what a written and edited archive gives back. */
module EditExtraction {
  import opened Bytes
  import opened Dirents
  import opened LocalHeaders
  import opened Writer
  import opened WriterProofs
  import opened Compress
  import opened EntryReaders
  import opened OpenEntry
  import opened Modify
  import opened Extraction
  import ArchiveProofs
  import AesCtr
  import Cdir
  import Crc
  import WriterIO
  import ZipCryptos

  /** Nothing that decoding depends on differs. */
  predicate SameContent(d: Dirent, e: Dirent) {
    && d.sizes == e.sizes && d.bitflags == e.bitflags && d.compMethod == e.compMethod && d.crc == e.crc
    && d.encryptionMethod == e.encryptionMethod
  }

  /** The local header of the entry says the same in both archives, and the same bytes stand behind it. */
  predicate Survives(b: bytes, out: bytes, d: Dirent) {
    var start := LocalHeaderLen(b, d.sizes.offset);
    && LocalHeaderLen(out, d.sizes.offset) == start
    && (start.Ok? ==> Window(b, start.value, d.sizes.comp) == Window(out, start.value, d.sizes.comp))
  }

  lemma WindowSplit(b: bytes, start: nat, end: nat, at: nat)
    requires start <= at <= end && at <= |b|
    ensures Window(b, start, end - start) == b[start..at] + Window(b, at, end - at)
  {}

  /** An edit keeps everything before the directory, so an entry keeps its bytes if and only if its local header still
      says the same, as it does when it stands there, and they end before the directory too, or the new tail repeats
      those that do not. An entry that keeps its bytes resolves to the same slice. */
  lemma KeptDataResolves(b: bytes, renames: seq<Rename>, deletes: seq<u64>, d: Dirent)
    requires ModifyArchive(b, renames, deletes).Ok?
    ensures var out, at := ModifyArchive(b, renames, deletes).value, Cdir.ReadCentralDir(b).value.cdirOffset;
            && (d.sizes.offset + LOCAL_SIZE <= at ==> LocalHeaderLen(out, d.sizes.offset) == LocalHeaderLen(b, d.sizes.offset))
            && (LocalHeaderLen(b, d.sizes.offset).Ok? ==>
                  var start, end := DataStart(b, d), DataStart(b, d) + d.sizes.comp;
                  var from := if start < at then at else start;
                  Survives(b, out, d) <==>
                    && LocalHeaderLen(out, d.sizes.offset) == LocalHeaderLen(b, d.sizes.offset)
                    && (end <= at || Window(b, from, end - from) == Window(out, from, end - from)))
            && (Survives(b, out, d) && LocalHeaderLen(b, d.sizes.offset).Ok? && d.sizes.comp > 0 ==>
                  var start, end := DataStart(b, d), DataStart(b, d) + d.sizes.comp;
                  end <= |b| ==> end <= |out| && out[start..end] == b[start..end])
  {
    hide Cdir.ReadCentralDir, ModifyArchive, LocalHeaderLen, Window;
    EditKeepsFront(b, renames, deletes);
    var out, at := ModifyArchive(b, renames, deletes).value, Cdir.ReadCentralDir(b).value.cdirOffset;
    if d.sizes.offset + LOCAL_SIZE <= at { HeaderIsLocal(out, b, d.sizes.offset, at); }
    if LocalHeaderLen(b, d.sizes.offset).Ok? {
      var start, end := DataStart(b, d), DataStart(b, d) + d.sizes.comp;
      SameWindowFrom(b, out, at, start, end);
      if d.sizes.comp > 0 && end <= |b| {
        WindowLength(b, start, d.sizes.comp);
        WindowLength(out, start, d.sizes.comp);
        WindowCases(b, start, d.sizes.comp);
        WindowCases(out, start, d.sizes.comp);
      }
    }
  }

  lemma EditKeepsFront(b: bytes, renames: seq<Rename>, deletes: seq<u64>)
    requires ModifyArchive(b, renames, deletes).Ok?
    ensures var out, at := ModifyArchive(b, renames, deletes).value, Cdir.ReadCentralDir(b).value.cdirOffset;
            Cdir.ReadCentralDir(b).Ok? && at <= |b| && at <= |out| && out[..at] == b[..at]
  {
    hide Cdir.ReadCentralDir, Cdir.Serialize, Edited;
  }

  lemma SameWindowFrom(b: bytes, out: bytes, at: nat, start: nat, end: nat)
    requires start <= end && at <= |b| && at <= |out| && out[..at] == b[..at]
    ensures var from := if start < at then at else start;
            Window(b, start, end - start) == Window(out, start, end - start) <==>
              end <= at || Window(b, from, end - from) == Window(out, from, end - from)
  {
    hide Window;
    if end <= at {
      WindowCases(b, start, end - start);
      WindowCases(out, start, end - start);
      assert out[start..end] == out[..at][start..end] == b[..at][start..end] == b[start..end];
    } else if start < at {
      WindowSplit(b, start, end, at);
      WindowSplit(out, start, end, at);
      assert out[start..at] == out[..at][start..at] == b[..at][start..at] == b[start..at];
      SameFront(b[start..at], Window(b, at, end - at), Window(out, at, end - at));
    }
  }

  function DataStart(b: bytes, d: Dirent): nat
    requires LocalHeaderLen(b, d.sizes.offset).Ok?
  {
    LocalHeaderLen(b, d.sizes.offset).value
  }

  lemma SameFront(a: bytes, x: bytes, y: bytes)
    ensures a + x == a + y <==> x == y
  {
    assert (a + x)[|a|..] == x && (a + y)[|a|..] == y;
  }

  /** A kept entry that keeps its bytes extracts to what it did. Only the error for a ZipCrypto region too short for
      its header may be another one. */
  lemma EditKeepsContent(c: Codecs, b: bytes, renames: seq<Rename>, deletes: seq<u64>, d: Dirent, e: Dirent,
                         password: Option<bytes>)
    requires AesCtr.WellSized(c.primitives) && SameContent(d, e)
    requires ModifyArchive(b, renames, deletes).Ok? && Survives(b, ModifyArchive(b, renames, deletes).value, d)
    ensures SameOutcome(c, b, d, ModifyArchive(b, renames, deletes).value, e, password)
  {
    hide AesCtr.WellSized, Cdir.ReadCentralDir, ModifyArchive, LocalHeaderLen, AesContent, ZipCryptoPlain, Drained,
         PlainContent, Window, FromLe, Stored;
    SameStored(d, e);
    var out := ModifyArchive(b, renames, deletes).value;
    if LocalHeaderLen(b, d.sizes.offset).Ok? && password.Some? {
      SameAes(c, b, out, DataStart(b, d), d, e, password.value);
      SamePlain(b, out, DataStart(b, d), d.sizes.comp, Stored(d).crc.value, password.value);
    }
  }

  /** For a stored entry that is not encrypted the condition is exact: it extracts to the same data if and only if it
      keeps its bytes. */
  lemma StoredContentExactly(c: Codecs, b: bytes, renames: seq<Rename>, deletes: seq<u64>, d: Dirent, e: Dirent,
                             password: Option<bytes>)
    requires AesCtr.WellSized(c.primitives) && SameContent(d, e) && ModifyArchive(b, renames, deletes).Ok?
    requires d.compMethod == Store && !IsEncrypted(d) && Extracted(c, b, d, password).Ok?
    requires d.sizes.offset + LOCAL_SIZE <= Cdir.ReadCentralDir(b).value.cdirOffset
    ensures var out := ModifyArchive(b, renames, deletes).value;
            Extracted(c, out, e, password) == Extracted(c, b, d, password) <==> Survives(b, out, d)
  {
    hide AesCtr.WellSized, Cdir.ReadCentralDir, ModifyArchive, LocalHeaderLen, Window, Stored, Limit, Verdict;
    SameStored(d, e);
    EditKeepsFront(b, renames, deletes);
    var out, at := ModifyArchive(b, renames, deletes).value, Cdir.ReadCentralDir(b).value.cdirOffset;
    HeaderIsLocal(out, b, d.sizes.offset, at);
  }

  lemma SameStored(d: Dirent, e: Dirent)
    requires SameContent(d, e)
    ensures Stored(d) == Stored(e)
  {}

  lemma SameAes(c: Codecs, b: bytes, out: bytes, start: nat, d: Dirent, e: Dirent, password: bytes)
    requires AesCtr.WellSized(c.primitives) && SameContent(d, e)
    requires Window(b, start, d.sizes.comp) == Window(out, start, d.sizes.comp)
    ensures AesContent(c, b, start, d, password) == AesContent(c, out, start, e, password)
  {
    hide AesCtr.WellSized, AesCtr.DecryptedRegion;
    WindowLength(b, start, d.sizes.comp);
    WindowLength(out, start, d.sizes.comp);
  }

  lemma WindowLength(b: bytes, start: nat, n: nat)
    ensures |Window(b, start, n)| == n <==> n == 0 || start + n <= |b|
    ensures start + n > |b| ==> |Window(b, start, n)| == if start <= |b| then |b| - start else 0
  {}

  lemma WindowParts(b: bytes, start: nat, n: nat, k: nat)
    requires k <= n && start + k <= |b|
    ensures |Window(b, start, n)| >= k
    ensures Window(b, start, n)[..k] == b[start..start + k] && Window(b, start, n)[k..] == Window(b, start + k, n - k)
  {}

  // A region too short for its header fails whatever stands after it.
  lemma SamePlain(b: bytes, out: bytes, start: nat, n: nat, crc: bv32, password: bytes)
    requires Window(b, start, n) == Window(out, start, n)
    ensures var x, y := ZipCryptoPlain(b, start, n, crc, password), ZipCryptoPlain(out, start, n, crc, password);
            x == y || (x.Err? && y.Err? && n < ZipCryptos.ENCRYPTION_HEADER_LEN)
  {
    hide ZipCryptos.Decrypt, ZipCryptos.KeysFor, ZipCryptos.TopByte, Window;
    if n >= ZipCryptos.ENCRYPTION_HEADER_LEN {
      WindowLength(b, start, n);
      WindowLength(out, start, n);
      if start + 12 <= |b| { WindowParts(b, start, n, 12); }
      if start + 12 <= |out| { WindowParts(out, start, n, 12); }
    }
  }

  /** Edit, reopen, extract: each entry of the edited archive is an entry that was not deleted, under its last name,
      and extracts to what it extracted to before, as far as the kept entries keep their bytes. */
  lemma EditThenExtract(c: Codecs, b: bytes, renames: seq<Rename>, deletes: seq<u64>, k: nat, password: Option<bytes>)
    requires AesCtr.WellSized(c.primitives) && ModifyArchive(b, renames, deletes).Ok?
    requires |ModifyArchive(b, renames, deletes).value| <= U64_MAX
    requires var cd := Cdir.ReadCentralDir(b).value;
             && Cdir.Findable(b[..cd.cdirOffset], EditedDir(cd, renames, deletes))
             && (forall d <- Edited(cd.entries, renames, deletes) :: Cdir.Readable(d))
    requires k < |Edited(Cdir.ReadCentralDir(b).value.entries, renames, deletes)|
    ensures var ds, out := Cdir.ReadCentralDir(b).value.entries, ModifyArchive(b, renames, deletes).value;
            && Cdir.ReadCentralDir(out).Ok?
            && var now := Cdir.ReadCentralDir(out).value.entries;
               && |now| == |Edited(ds, renames, deletes)|
               && exists i | 0 <= i < |ds| && i !in deletes ::
                    && now[k].filename == RenameOne(ds[i], i, renames).filename && SameContent(ds[i], now[k])
                    && (Survives(b, out, ds[i]) ==> SameOutcome(c, b, ds[i], out, now[k], password))
  {
    hide AesCtr.WellSized, Extracted, Cdir.ReadCentralDir, ModifyArchive, Cdir.Readable, Cdir.Findable, Survivors,
         PrintedExtras, LastRename, Survives;
    EditKeepsFront(b, renames, deletes);
    ReopenModified(b, renames, deletes);
    var ds, out := Cdir.ReadCentralDir(b).value.entries, ModifyArchive(b, renames, deletes).value;
    var kept, now := Edited(ds, renames, deletes), Cdir.ReadCentralDir(out).value.entries;
    SurvivorsAreEntries(Renamed(ds, renames), deletes, 0);
    assert kept[k] in kept;
    var i :| 0 <= i < |ds| && i !in deletes && Renamed(ds, renames)[i] == kept[k];
    assert now[k] == Regenerated(kept[k]) && ds[i] in ds;
    assert SameContent(ds[i], now[k]);
    if Survives(b, out, ds[i]) { EditKeepsContent(c, b, renames, deletes, ds[i], now[k], password); }
  }

  /** Both entries extract to the same data or fail with the same error, but for a ZipCrypto region too short for its
      header. */
  ghost predicate SameOutcome(c: Codecs, b: bytes, d: Dirent, out: bytes, e: Dirent, password: Option<bytes>)
    requires AesCtr.WellSized(c.primitives)
  {
    var x, y := Extracted(c, b, d, password), Extracted(c, out, e, password);
    x == y || (x.Err? && y.Err? && d.sizes.comp < ZipCryptos.ENCRYPTION_HEADER_LEN)
  }

  // ----- a directory before the data -----

  /** One empty stored entry whose local header stands at 47. */
  function Listed(): Dirent { Sample(Sizes(0, 0, 47, 0), []) }

  /** Its directory record first, then the local header, then the end record. */
  function DirectoryFirst(): bytes {
    RecordBytes(Listed()) + (LOCAL_MAGIC + Le(0, 26)) + Cdir.EocdFixed(1, 47, 0, 0)
  }

  lemma ListedRecord()
    ensures var d := Listed();
            && PrintedExtras(d) == [] && Cdir.Sound(d) && Cdir.Readable(d) && Regenerated(d) == d && !NeedsZip64(d.sizes)
            && |RecordBytes(d)| == 47 && RecordBytes(d)[27] == 0
  {
    hide Le, RecordHead, Coherent;
    var d := Listed();
    SampleIsSound(d.sizes, []);
    NoFields();
    var t := RecordTail(d);
    TailParts(Le(0, 4), Le(0, 4), Le(1, 2), Le(0, 2), Le(0, 2), Le(0, 2), Le(0, 2), Le(0, 4), Le(47, 4));
    ZeroBytes(4);
    assert t[7] == t[4..8][3] == 0;
  }

  lemma OneRecord(d: Dirent)
    requires Cdir.Sound(d) && Cdir.Readable(d) && Regenerated(d) == d
    ensures Cdir.Records([d]) == RecordBytes(d) && Cdir.ParseEntries(RecordBytes(d), 0) == [d]
  {
    hide RecordBytes, Cdir.Sound, Cdir.Readable, Regenerated, Cdir.ParseEntries, Cdir.Reread;
    assert [d][1..] == [];
    assert RecordBytes(d) + [] == RecordBytes(d);
    Cdir.ParseRecords([], [d], []);
    Cdir.RereadPrefixExact([d]);
    assert [] + Cdir.Records([d]) + [] == RecordBytes(d);
    assert Cdir.RegeneratedAll([d]) == [d];
  }

  lemma DirectoryFirstLayout()
    ensures var b := DirectoryFirst();
            && |b| == 99 && b[..47] == RecordBytes(Listed()) && b[47..77] == LOCAL_MAGIC + Le(0, 26)
            && b[77..99] == Cdir.EocdFixed(1, 47, 0, 0) && Cdir.NoFalseLocator(b, 77)
  {
    hide Le, RecordBytes, Cdir.EocdFixed;
    var b, h := DirectoryFirst(), LOCAL_MAGIC + Le(0, 26);
    ListedRecord();
    ZeroBytes(26);
    assert b[57..61][0] == b[47..77][10] == h[10] == 0;
  }

  /** Reading it finds the entry. */
  lemma DirectoryFirstReads()
    ensures Cdir.ReadCentralDir(DirectoryFirst()) == Ok(Cdir.CentralDir([Listed()], [], false, 47, 0))
  {
    hide Cdir.ReadCentralDir, FromLe, RecordBytes, Cdir.ParseEntries, Cdir.EocdFixed, Cdir.Sound, Cdir.Readable, DirectoryFirst;
    var b := DirectoryFirst();
    DirectoryFirstLayout();
    ListedRecord();
    OneRecord(Listed());
    assert b[0..47] == b[..47];
    Cdir.EocdFields(b, 77, 1, 47, 0, 0);
    assert b[99..99] == [];
    Cdir.SearchIsExact(b, 77, Cdir.CentralDir([Listed()], [], false, 47, 0));
  }

  lemma EmptyHash()
    ensures Crc.Hash([]) == 0
  {}

  lemma ListedExtracts(c: Codecs)
    requires AesCtr.WellSized(c.primitives)
    ensures Extracted(c, DirectoryFirst(), Listed(), None) == Ok([])
  {
    hide AesCtr.WellSized, Le, RecordBytes, Crc.Hash, Cdir.ReadCentralDir, Cdir.EocdFixed;
    var b, h := DirectoryFirst(), LOCAL_MAGIC + Le(0, 26);
    DirectoryFirstLayout();
    EmptyHash();
    ZeroBytes(26);
    assert b[47..51] == b[47..77][..4] == h[..4] == LOCAL_MAGIC;
    assert b[73..77] == b[47..77][26..] == h[26..];
    assert b[73..77][0] == h[26] && b[73..77][1] == h[27] && b[73..77][2] == h[28] && b[73..77][3] == h[29];
    ZeroField(b, 73);
    ZeroField(b, 75);
    assert Window(b, 77, 0) == [];
  }

  // The result of the empty edit: the record and the end record, nothing between.
  lemma ListedPrints()
    ensures var cd := Cdir.CentralDir([Listed()], [], false, 47, 0);
            && Cdir.SerializedBytes(cd) == RecordBytes(Listed()) + Cdir.EocdFixed(1, 47, 0, 0)
            && !Cdir.NeedsZip64Directory(cd) && Cdir.Situated([], cd) && Cdir.Findable([], cd)
  {
    hide RecordBytes, Cdir.EocdFixed, Cdir.EocdAt, Cdir.PassedOver, Cdir.Records, Regenerated, Cdir.ParseEntries;
    var d, cd := Listed(), Cdir.CentralDir([Listed()], [], false, 47, 0);
    ListedRecord();
    OneRecord(d);
    var out, e := Cdir.SerializedBytes(cd), Cdir.EocdFixed(1, 47, 0, 0);
    assert out == RecordBytes(d) + (e + []);
    assert e + [] == e && [] + out == out;
    assert out[27..31][0] == 0;
  }

  lemma ListedAfter()
    ensures var b, cd, e := DirectoryFirst(), Cdir.CentralDir([Listed()], [], false, 47, 0), Cdir.EocdFixed(1, 47, 0, 0);
            && ModifyArchive(b, [], []) == Ok(RecordBytes(Listed()) + e)
            && Cdir.ReadCentralDir(RecordBytes(Listed()) + e) == Ok(cd)
  {
    hide Cdir.ReadCentralDir, RecordBytes, Cdir.Readable, Cdir.EocdFixed, Edited, Regenerated, Cdir.Records, Cdir.Reread,
         Cdir.Findable, Cdir.SerializedBytes, Cdir.NeedsZip64Directory, Coherent, Printable;
    var d, cd := Listed(), Cdir.CentralDir([Listed()], [], false, 47, 0);
    ListedRecord();
    OneRecord(d);
    ListedPrints();
    DirectoryFirstLayout();
    DirectoryFirstReads();
    NoEdits([d]);
    assert [] + Cdir.SerializedBytes(cd) == Cdir.SerializedBytes(cd);
    Cdir.ReopenExact([], cd);
    assert Cdir.RegeneratedAll([d]) == [d];
  }

  /** An archive whose directory stands before the data: its entry extracts, but an edit without any edits writes its
      new tail over the local header. The result reads back with the same entry, and that has no data any more. */
  lemma DirectoryFirstLosesData(c: Codecs)
    requires AesCtr.WellSized(c.primitives)
    ensures var b, cd := DirectoryFirst(), Cdir.CentralDir([Listed()], [], false, 47, 0);
            && Cdir.ReadCentralDir(b) == Ok(cd) && Extracted(c, b, Listed(), None) == Ok([])
            && ModifyArchive(b, [], []).Ok?
            && var out := ModifyArchive(b, [], []).value;
               Cdir.ReadCentralDir(out) == Ok(cd) && Extracted(c, out, Listed(), None) == Err(Eof)
  {
    hide AesCtr.WellSized, Cdir.ReadCentralDir, RecordBytes, ModifyArchive, DirectoryFirst, Cdir.EocdFixed;
    DirectoryFirstReads();
    ListedExtracts(c);
    ListedRecord();
    ListedAfter();
  }

  // ----- written, edited, extracted -----

  /** What a file named `name` is called once the renames of index `i` are done. */
  function NameAfter(name: bytes, renames: seq<Rename>, i: nat): bytes {
    match LastRename(renames, i) case None => name case Some(new_name) => new_name
  }

  lemma EditedIsReadable(ds: seq<Dirent>, renames: seq<Rename>, deletes: seq<u64>)
    requires forall d <- ds :: Cdir.Readable(d)
    requires forall i | 0 <= i < |ds| && i !in deletes :: !UnsafeName(NameAfter(ds[i].filename, renames, i))
    ensures forall d <- Edited(ds, renames, deletes) :: Cdir.Readable(d)
  {
    hide Survivors, LastRename, UnsafeName, PrintedExtras, FindField, Marked;
    SurvivorsAreEntries(Renamed(ds, renames), deletes, 0);
    forall d | d in Edited(ds, renames, deletes) ensures Cdir.Readable(d) {
      var i :| 0 <= i < |ds| && i !in deletes && Renamed(ds, renames)[i] == d;
      assert ds[i] in ds;
      SameNeeds(ds[i], d.filename);
    }
  }

  lemma SameNeeds(d: Dirent, name: bytes)
    ensures Unambiguous(d.(filename := name)) == Unambiguous(d)
  {}

  /** The data of a written entry stands before the directory, so every edit keeps it. */
  lemma WrittenSurvives(files: seq<CompressedFile>, comment: bytes, renames: seq<Rename>, deletes: seq<u64>, i: nat)
    requires Fits(files) && AllWritable(files) && ArchiveProofs.NamesFit(files) && |Archive(files, comment)| <= U64_MAX
    requires ArchiveProofs.Locatable(files, comment) && ArchiveProofs.AllLegal(files) && i < |files|
    requires ModifyArchive(Archive(files, comment), renames, deletes).Ok?
    ensures Survives(Archive(files, comment), ModifyArchive(Archive(files, comment), renames, deletes).value, DirentsOf(files)[i])
    ensures DirentsOf(files)[i].sizes.comp == |files[i].data|
  {
    hide Cdir.ReadCentralDir, ModifyArchive, Window, DirentsOf, Body, Archive, AllWritable, ArchiveProofs.AllLegal, DirentOf,
         ArchiveProofs.Locatable, Survives, FromLe;
    assert files[i] in files;
    ArchiveProofs.WriteThenRead(files, comment);
    ArchiveProofs.DirentAt(files, i);
    EntryMeaning(files[i], ArchiveProofs.OffsetOf(files, i));
    ArchiveProofs.DataIsReachable(files, comment, i);
    KeptDataResolves(Archive(files, comment), renames, deletes, DirentsOf(files)[i]);
  }

  /** Write, edit, reopen, extract: each entry is a file that was not deleted, under its last name, with its own data. */
  lemma WriteEditExtract(c: Codecs, deflate: Deflater, files: seq<ArchiveFile>, opts: Options, secrets: Secrets,
                         methods: seq<u16>, comment: bytes, renames: seq<Rename>, deletes: seq<u64>, k: nat)
    requires InMemory(files) && AesCtr.WellSized(c.primitives) && c.primitives == secrets.primitives
    requires Inverts(c, deflate) && Salted(secrets, methods)
    requires WriterIO.Stages(deflate, files, opts, secrets, methods).Ok?
    requires var batch := WriterIO.Stages(deflate, files, opts, secrets, methods).value;
             && Fits(batch) && AllWritable(batch) && ArchiveProofs.NamesFit(batch) && |Archive(batch, comment)| <= U64_MAX
             && ArchiveProofs.Locatable(batch, comment) && ArchiveProofs.AllLegal(batch)
             && var edit := ModifyArchive(Archive(batch, comment), renames, deletes);
                && edit.Ok? && |edit.value| <= U64_MAX && |CentralEntries(batch)| <= U64_MAX
                && var cd := ArchiveProofs.DirectoryOf(batch, comment, ArchiveZip64(batch));
                   Cdir.Findable(Body(batch), EditedDir(cd, renames, deletes)) && k < |Edited(cd.entries, renames, deletes)|
    requires forall i | 0 <= i < |files| && i !in deletes :: !UnsafeName(NameAfter(files[i].name, renames, i))
    ensures var batch := WriterIO.Stages(deflate, files, opts, secrets, methods).value;
            var out := ModifyArchive(Archive(batch, comment), renames, deletes).value;
            && |batch| == |files| && Cdir.ReadCentralDir(out).Ok?
            && var now := Cdir.ReadCentralDir(out).value.entries;
               && |now| == |Edited(DirentsOf(batch), renames, deletes)|
               && exists i | 0 <= i < |files| && i !in deletes && (methods == [] || i < |methods|) ::
                    && now[k].filename == NameAfter(files[i].name, renames, i)
                    && Extracted(c, out, now[k], Some(secrets.password)) ==
                         if IsAes(Encryption(methods, i)) && |batch[i].data| > Cdir.MAX_CD_SIZE
                         then Err(CentralDirTooLarge) else Ok(files[i].data)
  {
    hide AesCtr.WellSized, Extracted, WriterIO.Stages, DirentsOf, Body, Archive, AllWritable, Cdir.ReadCentralDir,
         ArchiveProofs.AllLegal, Inverts, ArchiveProofs.Locatable, ModifyArchive, Cdir.Findable, Survives, Survivors, LastRename,
         Salted, CentralEntries, ArchiveZip64, UnsafeName, Cdir.Readable, DirentOf;
    var batch := WriterIO.Stages(deflate, files, opts, secrets, methods).value;
    var b, ds := Archive(batch, comment), DirentsOf(batch);
    ArchiveProofs.WriteThenRead(batch, comment);
    ArchiveProofs.EntriesAreSound(batch);
    forall i | 0 <= i < |files| ensures |batch| == |files| && ds[i].filename == files[i].name {
      WriteThenExtract(c, deflate, files, opts, secrets, methods, comment, i);
    }
    BatchCount(deflate, files, opts, secrets, methods);
    EditKeepsFront(b, renames, deletes);
    ArchiveHoldsBody(batch, comment);
    assert b[..|Body(batch)|] == Body(batch);
    EditedIsReadable(ds, renames, deletes);
    EditThenExtract(c, b, renames, deletes, k, Some(secrets.password));
    var now := Cdir.ReadCentralDir(ModifyArchive(b, renames, deletes).value).value.entries;
    var i :| 0 <= i < |ds| && i !in deletes && now[k].filename == RenameOne(ds[i], i, renames).filename
             && SameContent(ds[i], now[k])
             && (Survives(b, ModifyArchive(b, renames, deletes).value, ds[i]) ==>
                   SameOutcome(c, b, ds[i], ModifyArchive(b, renames, deletes).value, now[k], Some(secrets.password)));
    WrittenSurvives(batch, comment, renames, deletes, i);
    WriteThenExtract(c, deflate, files, opts, secrets, methods, comment, i);
  }

  lemma BatchCount(deflate: Deflater, files: seq<ArchiveFile>, opts: Options, secrets: Secrets, methods: seq<u16>)
    requires InMemory(files) && AesCtr.WellSized(secrets.primitives)
    requires WriterIO.Stages(deflate, files, opts, secrets, methods).Ok?
    ensures |WriterIO.Stages(deflate, files, opts, secrets, methods).value| == |files|
  {
    hide CompressAll, AesCtr.WellSized, EncryptStage;
    CompressSlots(deflate, files, opts);
    WriterIO.BatchKeepsCount(secrets, CompressAll(deflate, files, opts).value, methods);
  }
}
