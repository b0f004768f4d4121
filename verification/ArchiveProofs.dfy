/** Whole archives: writing and reading back, the data behind every entry, and the edges of the format. */
module ArchiveProofs {
  import opened Bytes
  import opened Dirents
  import opened Cdir
  import opened LocalHeaders
  import opened Writer
  import opened WriterProofs

  lemma {:induction false} CentralIsRecords(files: seq<CompressedFile>)
    requires Fits(files)
    ensures CentralEntries(files) == Records(DirentsOf(files))
  {
    hide CentralEntry, RecordBytes, DirentOf, Body;
    if files != [] {
      FitsInit(files);
      var init, last := files[..|files| - 1], files[|files| - 1];
      CentralIsRecords(init);
      var d := DirentOf(last, |Body(init)|);
      RecordsConcat(DirentsOf(init), [d]);
      assert [d][1..] == [];
      PrintersAgree(last, |Body(init)|);
    }
  }

  lemma {:induction false} AnyZip64Agrees(files: seq<CompressedFile>)
    requires Fits(files)
    ensures AnyZip64(files) <==> exists d <- DirentsOf(files) :: Dirents.NeedsZip64(d.sizes)
  {
    hide Body, Resolve, WriterExtras;
    if files != [] {
      FitsInit(files);
      var init, last := files[..|files| - 1], files[|files| - 1];
      AnyZip64Agrees(init);
      var ds, d := DirentsOf(init), DirentOf(last, |Body(init)|);
      assert DirentsOf(files) == ds + [d];
      assert forall e :: e in DirentsOf(files) <==> e in ds || e == d;
      assert EntryZip64(last, |Body(init)|) <==> Dirents.NeedsZip64(d.sizes);
    }
  }

  /** The directory the reader should find. */
  function DirectoryOf(files: seq<CompressedFile>, comment: bytes, zip64: bool): CentralDir
    requires Fits(files) && |CentralEntries(files)| <= U64_MAX
  {
    CentralDir(DirentsOf(files), comment, zip64, |CentralEntries(files)|, |Body(files)|)
  }

  /** The writer's archive is its body followed by the serialized directory: both need-ZIP64 tests agree. */
  lemma ArchiveIsSerialized(files: seq<CompressedFile>, comment: bytes, zip64: bool)
    requires Fits(files) && |CentralEntries(files)| <= U64_MAX && (zip64 ==> ArchiveZip64(files))
    ensures var cd := DirectoryOf(files, comment, zip64);
            && Archive(files, comment) == Body(files) + SerializedBytes(cd)
            && NeedsZip64Directory(cd) == ArchiveZip64(files)
            && Records(cd.entries) == CentralEntries(files)
  {
    hide Body, CentralEntries, EndRecords, Records, DirentsOf, AnyZip64;
    CentralIsRecords(files);
    AnyZip64Agrees(files);
    var c := CentralEntries(files);
    var e := EndRecords(ArchiveZip64(files), |files|, |c|, |Body(files)|, comment);
    assert Body(files) + c + e == Body(files) + (c + e);
  }

  function OffsetOf(files: seq<CompressedFile>, i: nat): nat
    requires Sized(files) && i <= |files|
  {
    |Body(files[..i])|
  }

  lemma {:induction false} DirentAt(files: seq<CompressedFile>, i: nat)
    requires Fits(files) && i < |files|
    ensures OffsetOf(files, i) <= |Body(files)| && DirentsOf(files)[i] == DirentOf(files[i], OffsetOf(files, i))
    ensures AllWritable(files) ==> Writable(files[i], OffsetOf(files, i))
  {
    hide DirentOf, Writable, Block;
    FitsInit(files);
    var init := files[..|files| - 1];
    if i < |init| {
      DirentAt(init, i);
      assert init[..i] == files[..i];
    } else {
      assert files[..i] == init;
    }
  }

  /** The name is safe, and no quantity is at its sentinel while another one overflows. */
  predicate Legal(cf: CompressedFile, offset: u64)
    requires CompSize(cf) <= U64_MAX
  {
    !UnsafeName(cf.name) && !(EntryZip64(cf, offset) && AtSentinel(WriterSizes(cf, true, offset)))
  }

  predicate AllLegal(files: seq<CompressedFile>)
    requires Fits(files)
  {
    forall i | 0 <= i < |files| :: (DirentAt(files, i); Legal(files[i], OffsetOf(files, i)))
  }

  /** What finding the directory of a written archive depends on: lengths within the reader's bounds, every end-record
      signature in the comment passed over, and no locator signature before the end record of a plain archive. */
  predicate Locatable(files: seq<CompressedFile>, comment: bytes)
    requires Fits(files)
  {
    var out := Archive(files, comment);
    && |comment| <= U16_MAX && |CentralEntries(files)| <= MAX_CD_SIZE
    && |out| >= EOCD_SIZE + |comment|
    && LaterPassedOver(out, |out| - EOCD_SIZE - |comment|)
    && (ArchiveZip64(files) || NoFalseLocator(out, |out| - EOCD_SIZE - |comment|))
  }

  /** Without a comment the only look-alike left is a locator signature before the end record. */
  lemma UncommentedIsLocatable(files: seq<CompressedFile>)
    requires Fits(files)
    ensures var out := Archive(files, []);
            |out| >= EOCD_SIZE
            && (Locatable(files, []) <==>
                  && |CentralEntries(files)| <= MAX_CD_SIZE
                  && (ArchiveZip64(files) || NoFalseLocator(out, |out| - EOCD_SIZE)))
  {
    hide Body, CentralEntries, EocdFixed, Locator, Eocd64, ArchiveZip64, EocdAt, PassedOver;
  }

  lemma LocatableIsFindable(files: seq<CompressedFile>, comment: bytes)
    requires Fits(files) && |Archive(files, comment)| <= U64_MAX && |CentralEntries(files)| <= U64_MAX
    ensures var cd := DirectoryOf(files, comment, false);
            && Situated(Body(files), cd)
            && (Findable(Body(files), cd) <==> Locatable(files, comment))
  {
    hide Body, CentralEntries, Records, DirentsOf, AnyZip64, NeedsZip64Directory, EocdFixed, Locator, Eocd64, PassedOver,
         EocdAt, ArchiveZip64;
    ArchiveIsSerialized(files, comment, false);
    var cd := DirectoryOf(files, comment, false);
    assert EocdOffset(Body(files), cd) == |Archive(files, comment)| - EOCD_SIZE - |comment|;
  }

  predicate NamesFit(files: seq<CompressedFile>) { forall cf <- files :: |cf.name| <= U16_MAX }

  lemma EntriesAreSound(files: seq<CompressedFile>)
    requires Fits(files) && AllWritable(files)
    ensures NamesFit(files) ==> forall d <- DirentsOf(files) :: Sound(d)
    ensures forall d <- DirentsOf(files) :: Regenerated(d) == d && (Readable(d) || Reread(d) == Err(Incons))
    ensures AllLegal(files) <==> forall d <- DirentsOf(files) :: Readable(d)
  {
    hide Body, CentralEntries, AllWritable, Writable, UnsafeName, WriterExtras, Resolve, Sound, Reread, Readable, DirentsOf;
    var ds := DirentsOf(files);
    forall i | 0 <= i < |files|
      ensures (NamesFit(files) ==> Sound(ds[i])) && Regenerated(ds[i]) == ds[i] && (Readable(ds[i]) || Reread(ds[i]) == Err(Incons))
      ensures OffsetOf(files, i) <= U64_MAX && (Legal(files[i], OffsetOf(files, i)) <==> Readable(ds[i]))
    {
      DirentAt(files, i);
      WrittenRereads(files[i], OffsetOf(files, i));
    }
  }

  lemma ArchiveBounds(files: seq<CompressedFile>, comment: bytes)
    requires Fits(files)
    ensures |CentralEntries(files)| <= |Archive(files, comment)|
  {
    hide Body, CentralEntries, EndRecords, ArchiveZip64;
  }

  // No entry with a longer name is ever read.
  lemma LongNamesAreNotRead(files: seq<CompressedFile>, comment: bytes)
    requires Fits(files) && |CentralEntries(files)| <= U64_MAX && !NamesFit(files)
    ensures ReadCentralDir(Archive(files, comment)) != Ok(DirectoryOf(files, comment, ArchiveZip64(files)))
  {
    hide Body, CentralEntries, DirentsOf, ReadCentralDir, Archive, ArchiveZip64, Coherent, UnsafeName, Serialize;
    var i :| 0 <= i < |files| && |files[i].name| > U16_MAX;
    DirentAt(files, i);
    assert DirentsOf(files)[i] in DirentsOf(files) && !Printable(DirentsOf(files)[i]);
    if ReadCentralDir(Archive(files, comment)).Ok? { ReadIsPrintable(Archive(files, comment)); }
  }

  /** Whole-archive round trip, exactly: reading the writer's output returns every entry in order if and only if the
      directory can be located, all entries are legal and no name is longer than its length field tells. Once the
      directory is located and the names fit, one illegal entry makes the whole archive inconsistent. */
  lemma WriteThenRead(files: seq<CompressedFile>, comment: bytes)
    requires Fits(files) && AllWritable(files)
    requires |Archive(files, comment)| <= U64_MAX
    ensures WriteArchive(files, comment) == Ok(Archive(files, comment)) && |CentralEntries(files)| <= U64_MAX
    ensures var r := ReadCentralDir(Archive(files, comment));
            && (r == Ok(DirectoryOf(files, comment, ArchiveZip64(files))) <==>
                  Locatable(files, comment) && AllLegal(files) && NamesFit(files))
            && (Locatable(files, comment) && NamesFit(files) && !AllLegal(files) ==> r == Err(Incons))
  {
    hide Body, CentralEntries, Records, DirentsOf, AnyZip64, NeedsZip64Directory, Sound, Readable, Reread, AllLegal,
         AllWritable, SerializedBytes, ReadCentralDir, Situated, Findable, Locatable, Archive, Regenerated, RereadPrefix, NamesFit;
    ArchiveBounds(files, comment);
    ArchiveIsSerialized(files, comment, false);
    LocatableIsFindable(files, comment);
    EntriesAreSound(files);
    assert RegeneratedAll(DirentsOf(files)) == DirentsOf(files);
    if NamesFit(files) {
      ReopenExact(Body(files), DirectoryOf(files, comment, false));
    } else {
      LongNamesAreNotRead(files, comment);
    }
    if !AllLegal(files) {
      var d :| d in DirentsOf(files) && !Readable(d);
      assert Reread(d).Err?;
    }
  }

  lemma {:induction false} AllWritableIs(files: seq<CompressedFile>)
    requires Fits(files)
    ensures AllWritable(files) <==>
              forall i | 0 <= i < |files| :: (DirentAt(files, i); Writable(files[i], OffsetOf(files, i)))
  {
    hide Writable, Body;
    if files != [] {
      FitsInit(files);
      var n := |files| - 1;
      var init := files[..n];
      AllWritableIs(init);
      forall i | 0 <= i < n ensures init[..i] == files[..i] && init[i] == files[i] {}
      DirentAt(files, n);
    }
  }

  /** A batch is written unless some extra block, local or central, or some comment is longer than 65535 bytes. */
  lemma WriteSucceeds(files: seq<CompressedFile>, comment: bytes)
    requires Fits(files)
    ensures var r := WriteArchive(files, comment);
            var short := forall i | 0 <= i < |files| ::
                           (DirentAt(files, i);
                            && |LocalExtra(files[i])| <= 65535 && |CentralExtra(files[i], OffsetOf(files, i))| <= 65535
                            && (files[i].comment.Some? ==> |files[i].comment.value| <= 65535));
            (r.Ok? <==> short) && (r.Err? ==> r.error == Eftoolarge)
  {
    hide Body, LocalExtra, CentralExtra, Archive, AllWritable;
    AllWritableIs(files);
  }

  // ----- the data behind the entries -----

  lemma BlockLayout(cf: CompressedFile, pre: bytes, post: bytes)
    requires CompSize(cf) <= U64_MAX && |cf.name| <= U16_MAX && |LocalExtra(cf)| <= U16_MAX
    ensures var b, start := pre + Block(cf) + post, |pre| + LOCAL_SIZE + |cf.name| + |LocalExtra(cf)|;
            && LocalHeaderLen(b, |pre|) == Ok(start)
            && start + |cf.data| <= |pre| + |Block(cf)| && b[start..start + |cf.data|] == cf.data
            && b[start - |LocalExtra(cf)|..start] == LocalExtra(cf)
            && U16(b, |pre| + 28) == |LocalExtra(cf)|
            && U32(b, |pre| + 18) == Clamp32(LocalSize(cf, CompSize(cf)))
            && U32(b, |pre| + 22) == Clamp32(LocalSize(cf, cf.uncompSize))
  {
    hide Le, FromLe, LocalExtra, Descriptor;
    var b, p, h, x := pre + Block(cf) + post, |pre|, LocalFixed(cf), LocalExtra(cf);
    assert b == pre + h + cf.name + x + cf.data + (Descriptor(cf) + post);
    assert b[p..p + 30] == h;
    SubSlice(b, p, h, 0, 4); assert h[0..4] == LOCAL_MAGIC;
    SubSlice(b, p, h, 18, 22); assert h[18..22] == Le(LocalSize(cf, CompSize(cf)), 4);
    SubSlice(b, p, h, 22, 26); assert h[22..26] == Le(LocalSize(cf, cf.uncompSize), 4);
    SubSlice(b, p, h, 26, 28); assert h[26..28] == Le(|cf.name|, 2);
    SubSlice(b, p, h, 28, 30); assert h[28..30] == Le(|x|, 2);
    U32At(b, p + 18, LocalSize(cf, CompSize(cf))); U32At(b, p + 22, LocalSize(cf, cf.uncompSize));
    U16At(b, p + 26, |cf.name|); U16At(b, p + 28, |x|);
  }

  lemma {:induction false} BodySplit(files: seq<CompressedFile>, i: nat)
    requires Sized(files) && i < |files|
    ensures var pre := Body(files[..i]) + Block(files[i]); pre <= Body(files)
  {
    hide Block;
    var init := files[..|files| - 1];
    if i < |init| {
      BodySplit(init, i);
      assert init[..i] == files[..i];
    } else {
      assert files[..i] == init;
    }
  }

  /** Every recorded offset leads through its local header to exactly the entry's stored bytes. */
  lemma DataIsReachable(files: seq<CompressedFile>, comment: bytes, i: nat)
    requires Fits(files) && AllWritable(files) && i < |files| && |files[i].name| <= U16_MAX
    ensures var out := Archive(files, comment);
            var start := LocalHeaderLen(out, DirentsOf(files)[i].sizes.offset);
            && start.Ok? && start.value + |files[i].data| <= |Body(files)|
            && out[start.value..start.value + |files[i].data|] == files[i].data
  {
    hide Body, CentralEntries, EndRecords, Block, DirentsOf, AllWritable, LocalHeaderLen, WriterExtras, ArchiveZip64;
    DirentAt(files, i);
    BodySplit(files, i);
    var out, pre := Archive(files, comment), Body(files[..i]);
    var post := out[|pre| + |Block(files[i])|..];
    assert out[..|Body(files)|] == Body(files);
    assert out[..|pre| + |Block(files[i])|] == pre + Block(files[i]);
    assert out == pre + Block(files[i]) + post;
    BlockLayout(files[i], pre, post);
  }

  // ----- edges of the format -----

  /** A full decode of the writer's own local header succeeds exactly when both sizes overflow or neither does:
      otherwise both size fields hold the sentinel while the ZIP64 field carries a single value. */
  lemma LocalHeaderDecodes(cf: CompressedFile, pre: bytes, post: bytes)
    requires CompSize(cf) <= U64_MAX && |cf.name| <= U16_MAX && |LocalExtra(cf)| <= U16_MAX
    ensures var r := ParseLocal(pre + Block(cf) + post, |pre|);
            if CompSize(cf) > U32_MAX <==> cf.uncompSize > U32_MAX
            then r.Ok? && r.value.0 == Sizes(cf.uncompSize, CompSize(cf), 0, 0)
            else r == Err(Incons)
  {
    hide Le, FromLe, Block, UserExtras, DropField, Overlay, ParseExtra, FindField, LocalHeaderLen;
    BlockLayout(cf, pre, post);
    var x, s := WriterExtras(cf, false, 0), WriterSizes(cf, false, 0);
    ShortBlockIsEncodable(x);
    ExtraRoundTrip(x, []);
    assert ExtraBytes(x) + [] == ExtraBytes(x);
    LocalZip64Field(cf);
    var raw := Sizes(LocalSize(cf, cf.uncompSize), LocalSize(cf, CompSize(cf)), 0, 0);
    if NeedsZip64Sizes(cf) {
      if CompSize(cf) > U32_MAX && cf.uncompSize > U32_MAX {
        assert raw == Printed(s) && Marked(s) == Overflow(s);
        OverlayExact(s, Overflow(s));
      } else {
        var wide := Sizes(U32_MAX, U32_MAX, 0, 0);
        assert raw == Printed(wide) && |Overflow(s)| < |Marked(wide)|;
        OverlayExact(wide, Overflow(s));
      }
    }
  }

  /** Whatever 2^32 bytes deflate to, if it is less than 4 GiB: the local header of the entry does not decode. */
  lemma OneOverflowDoesNotDecode(data: bytes)
    requires |data| <= U32_MAX
    ensures var cf := CompressedFile([0x61], 8, 0, 0x1_0000_0000, data, 0, None, [], 0, 0, 3, 0);
            ParseLocal(Block(cf), 0) == Err(Incons)
  {
    hide Le, FromLe, Block, ParseLocal;
    var cf := CompressedFile([0x61], 8, 0, 0x1_0000_0000, data, 0, None, [], 0, 0, 3, 0);
    OverflowLength(WriterSizes(cf, false, 0));
    assert UserExtras(cf) == [] && AesExtras(cf) == [];
    var z := ExtraField(EXTRA_FIELD_ZIP64, Overflow(WriterSizes(cf, false, 0)));
    OneFieldLength(z);
    NoFields();
    assert WriterExtras(cf, false, 0) == [z];
    LocalHeaderDecodes(cf, [], []);
    assert [] + Block(cf) + [] == Block(cf);
  }

  lemma LocalZip64Field(cf: CompressedFile)
    requires CompSize(cf) <= U64_MAX
    ensures FindField(WriterExtras(cf, false, 0), EXTRA_FIELD_ZIP64) ==
              if NeedsZip64Sizes(cf) then Some(Overflow(WriterSizes(cf, false, 0))) else None
  {
    hide Le, UserExtras, AesExtras, DropField;
    var s := WriterSizes(cf, false, 0);
    BaseExtras(cf);
    OverflowIsEmpty(s);
    var z := if Overflow(s) == [] then [] else [ExtraField(EXTRA_FIELD_ZIP64, Overflow(s))];
    FindConcat(UserExtras(cf) + AesExtras(cf), z, EXTRA_FIELD_ZIP64);
  }

  lemma {:induction false} ParsedEntries(b: bytes, p: nat)
    ensures forall d <- ParseEntries(b, p) :: Printable(d) && Coherent(d) && !UnsafeName(d.filename)
    decreases |b| - p
  {
    hide ParseCentral, Printable, Coherent, UnsafeName;
    if p < |b| && ParseCentral(b, p).Ok? {
      ParsedIsPrintable(b, p);
      ParsedEntries(b, ParseCentral(b, p).value.1);
    }
  }

  lemma {:induction false} TryAllIsParsed(b: bytes, candidates: seq<nat>)
    requires |b| >= EOCD_SIZE && forall c <- candidates :: TailStart(b) <= c && EocdAt(b, c)
    ensures TryAll(b, candidates).Ok? ==>
              var cd := TryAll(b, candidates).value;
              |cd.comment| <= U16_MAX && forall d <- cd.entries :: Printable(d) && Coherent(d) && !UnsafeName(d.filename)
  {
    hide ParseEntries, Printable, Coherent, UnsafeName, ReadEocd64, FromLe;
    if candidates != [] {
      assert candidates[0] in candidates && EocdAt(b, candidates[0]) && forall c <- candidates[1..] :: c in candidates;
      TryAllIsParsed(b, candidates[1..]);
      forall buf: bytes ensures forall d <- ParseEntries(buf, 0) :: Printable(d) && Coherent(d) && !UnsafeName(d.filename) {
        ParsedEntries(buf, 0);
      }
    }
  }

  /** Whatever archive is read, its entries can be printed again and its comment fits its length field: a longer
      comment or name, which the writer truncates, never comes back. */
  lemma ReadIsPrintable(b: bytes)
    requires ReadCentralDir(b).Ok?
    ensures var cd := ReadCentralDir(b).value;
            && |cd.comment| <= U16_MAX && Serialize(cd).Ok?
            && forall d <- cd.entries :: Printable(d) && Coherent(d) && !UnsafeName(d.filename)
  {
    hide TryAll, Candidates, Printable, Coherent, UnsafeName, Records, EndRecords;
    CandidatesAreEocds(b, |b| - EOCD_SIZE);
    TryAllIsParsed(b, Candidates(b, |b| - EOCD_SIZE));
  }

  /** Whatever archive is read, no name it returns has two adjacent dots or starts with a slash or a backslash. */
  lemma NamesAreSafe(b: bytes, k: nat)
    requires ReadCentralDir(b).Ok? && k < |ReadCentralDir(b).value.entries|
    ensures var name := ReadCentralDir(b).value.entries[k].filename;
            && (forall i | 0 <= i < |name| - 1 :: !(name[i] == 0x2E && name[i + 1] == 0x2E))
            && (name != [] ==> name[0] != 0x2F && name[0] != 0x5C)
  {
    hide ReadCentralDir, Printable, Coherent, Serialize;
    ReadIsPrintable(b);
    assert ReadCentralDir(b).value.entries[k] in ReadCentralDir(b).value.entries;
  }

  lemma EmptyEndRecord(b: bytes, at: nat)
    requires at + EOCD_SIZE == |b| && at <= 22 && b[at..] == EocdFixed(0, 0, 0, 0)
    requires at >= LOCATOR_SIZE ==> b[at - 20..at - 16] != LOCATOR_MAGIC
    ensures ReadCentralDir(b) == Ok(CentralDir([], [], false, 0, 0))
  {
    hide Le, FromLe, EocdFixed, ReadCentralDir;
    assert b[at..at + 22] == b[at..];
    EocdFields(b, at, 0, 0, 0, 0);
    assert b[at + 22..at + 22] == [];
    SearchIsExact(b, at, CentralDir([], [], false, 0, 0));
  }

  /** A signature in the comment that is not passed over misleads the reader: an empty archive whose comment is itself
      an end record reads back without its comment. */
  lemma FalseCandidateWins()
    ensures var c := EocdFixed(0, 0, 0, 0);
            WriteArchive([], c).Ok? && ReadCentralDir(WriteArchive([], c).value) == Ok(CentralDir([], [], false, 0, 0))
  {
    hide Le, FromLe, ReadCentralDir;
    var c := EocdFixed(0, 0, 0, 0);
    var b := Archive([], c);
    assert b == EocdFixed(0, 0, 0, 22) + c;
    assert b[22..] == c;
    assert b[2..6] != LOCATOR_MAGIC by { assert b[2] == EOCD_MAGIC[2]; }
    EmptyEndRecord(b, 22);
  }

  lemma NoSignatureInside()
    ensures forall i | 1 <= i < EOCD_SIZE :: EocdFixed(0, 0, 0, 22)[i] != 0x50
  {
    hide Le;
    ZeroBytes(2); ZeroBytes(4);
    SmallLe(22);
  }

  /** A signature followed by other bytes does not: the signature and eighteen zero bytes but for a non-zero disk
      number is passed over, and the comment comes back. */
  lemma HarmlessSignature()
    ensures var c := EOCD_MAGIC + Le(1, 2) + Le(0, 16);
            WriteArchive([], c).Ok? && ReadCentralDir(WriteArchive([], c).value) == Ok(CentralDir([], c, false, 0, 0))
  {
    hide Le, FromLe, ReadCentralDir;
    var c := EOCD_MAGIC + Le(1, 2) + Le(0, 16);
    var b := Archive([], c);
    var e := EocdFixed(0, 0, 0, 22);
    assert b == e + c;
    EocdFields(b, 0, 0, 0, 0, 22);
    assert b[22..44] == c;
    ZeroBytes(16);
    forall p | 0 < p <= |b| - EOCD_SIZE && EocdAt(b, p) ensures PassedOver(b, p) {
      if p == 22 {
        assert b[26..28] == c[4..6] == Le(1, 2);
        U16At(b, 26, 1);
      } else {
        assert b[p] == b[p..p + 4][0] == 0x50 && b[p] == e[p];
        NoSignatureInside();
      }
    }
    SearchIsExact(b, 0, CentralDir([], c, false, 0, 0));
  }
}
