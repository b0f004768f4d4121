/** From a file and its metadata to the directory entry that is read back, field by field. */
module WrittenMetadata {
  import opened Bytes
  import opened Dirents
  import opened Writer
  import opened WriterProofs
  import opened Compress
  import opened DirectoryReads
  import opened Extraction
  import ArchiveProofs
  import AesCtr
  import Cdir
  import Crc
  import WriterIO
  import ZipCryptos

  /** The fields with other ids than those of the ZIP64 and the AES field. */
  function OwnFields(fields: seq<ExtraField>): seq<ExtraField> {
    if fields == [] then []
    else (if fields[0].id == 0x0001 || fields[0].id == 0x9901 then [] else [fields[0]]) + OwnFields(fields[1..])
  }

  lemma {:induction false} OwnFieldsAreKept(fields: seq<ExtraField>)
    ensures DropField(DropField(fields, EF_WINZIP_AES), EXTRA_FIELD_ZIP64) == OwnFields(fields)
  {
    if fields != [] {
      OwnFieldsAreKept(fields[1..]);
      var kept := [fields[0]] + DropField(fields[1..], EF_WINZIP_AES);
      assert kept[1..] == DropField(fields[1..], EF_WINZIP_AES);
    }
  }

  /** The method of the file, or the one of the options when the file names none. */
  function Chosen(f: ArchiveFile, opts: Options): Method {
    match f.compMethod case Some(m) => m case None => opts.compMethod
  }

  /** The AES strength of an encryption method: 1, 2 or 3, or 0 for any other method. */
  function Strength(enc: u16): nat { if 0x0101 <= enc <= 0x0103 then enc - 0x0100 else 0 }

  /** The entry says of the file all that it should, under encryption method `enc`. */
  predicate Describes(d: Dirent, f: ArchiveFile, opts: Options, enc: u16) {
    && d.filename == f.name
    && d.comment == (match f.comment case Some(text) => text case None => [])
    && OwnFields(d.extraFields) == OwnFields(f.extraFields)
    && d.lastModTime == f.lastModTime && d.lastModDate == f.lastModDate
    && d.versionMadeBy / 256 == f.opsys && d.extAttrib == f.externalAttributes && d.intAttrib == 0
    && d.compMethod == Chosen(f, opts) && d.encryptionMethod == enc
    && d.sizes.uncomp == |f.data| && d.sizes.disk == 0
    && d.bitflags == (if enc == 0 then 0 else if Strength(enc) == 0 then 1 else 9)
    && d.versionMadeBy % 256 == d.versionNeeded
    && d.versionNeeded == (if Strength(enc) > 0 then 51
                           else if d.sizes.uncomp > U32_MAX || d.sizes.comp > U32_MAX || d.sizes.offset > U32_MAX then 45
                           else 20)
    && (d.crcValid <==> Strength(enc) == 0) && d.crc == (if Strength(enc) > 0 then 0 else Crc.Hash(f.data) as int)
  }

  /** The AES field of the entry: AE-2, the strength, and the method as a number. */
  predicate DescribesAes(d: Dirent, f: ArchiveFile, opts: Options, enc: u16) {
    exists k | 0 <= k < |d.extraFields| ::
      && d.extraFields[k].id == 0x9901 && (forall j | 0 <= j < k :: d.extraFields[j].id != 0x9901)
      && d.extraFields[k].data ==
           [2, 0, 0x41, 0x45, Strength(enc) as byte, if Chosen(f, opts) == Store then 0 else 8, 0]
  }

  // What compression and encryption do to a file, but for its data.
  lemma SlotFields(deflate: Deflater, f: ArchiveFile, opts: Options, secrets: Secrets, enc: u16, i: nat)
    requires |f.data| <= U64_MAX && AesCtr.WellSized(secrets.primitives)
    requires CompressFile(deflate, f, opts).Ok? && EncryptOne(secrets, CompressFile(deflate, f, opts).value, enc, i).Ok?
    ensures var cf := EncryptOne(secrets, CompressFile(deflate, f, opts).value, enc, i).value;
            && cf.name == f.name && cf.comment == f.comment && cf.extraFields == f.extraFields
            && cf.lastModTime == f.lastModTime && cf.lastModDate == f.lastModDate
            && cf.opsys == f.opsys && cf.externalAttributes == f.externalAttributes
            && (Chosen(f, opts) == Store || Chosen(f, opts) == Deflate)
            && cf.rawMethod == (if Chosen(f, opts) == Store then 0 else 8)
            && cf.crc == Crc.Hash(f.data) as int && cf.uncompSize == |f.data| && cf.encryptionMethod == enc
            && (enc == 0 || enc == 1 || Strength(enc) > 0)
            && (enc == 0 ==> cf.data == StoredForm(deflate, f, opts))
  {
    hide AesCtr.WellSized, AesCtr.EncryptedRegion, ZipCryptos.EncryptedData, Crc.Hash;
  }

  /** The stored bytes of a file that is not encrypted; levels above 9 mean 9. */
  function StoredForm(deflate: Deflater, f: ArchiveFile, opts: Options): bytes {
    var level := match f.level case Some(l) => l case None => opts.level;
    if Chosen(f, opts) == Store then f.data else deflate(f.data, if level > 9 then 9 else level)
  }

  lemma EntryDescribes(cf: CompressedFile, offset: u64, f: ArchiveFile, opts: Options, enc: u16)
    requires CompSize(cf) <= U64_MAX
    requires cf.name == f.name && cf.comment == f.comment && cf.extraFields == f.extraFields
    requires cf.lastModTime == f.lastModTime && cf.lastModDate == f.lastModDate
    requires cf.opsys == f.opsys && cf.externalAttributes == f.externalAttributes
    requires Chosen(f, opts) == Store || Chosen(f, opts) == Deflate
    requires cf.rawMethod == (if Chosen(f, opts) == Store then 0 else 8)
    requires cf.crc == Crc.Hash(f.data) as int && cf.uncompSize == |f.data| && cf.encryptionMethod == enc
    requires enc == 0 || enc == 1 || Strength(enc) > 0
    ensures Describes(DirentOf(cf, offset), f, opts, enc)
    ensures Strength(enc) > 0 ==> DescribesAes(DirentOf(cf, offset), f, opts, enc)
  {
    hide Crc.Hash, WriterExtras, UserExtras, Resolve, OwnFields;
    var d := DirentOf(cf, offset);
    EntryMeaning(cf, offset);
    OwnFieldsAreKept(d.extraFields);
    OwnFieldsAreKept(f.extraFields);
    UserPart(cf);
    if Strength(enc) > 0 { AesFieldStands(cf, offset); }
  }

  lemma UserPart(cf: CompressedFile)
    ensures UserExtras(cf) == DropField(DropField(cf.extraFields, EF_WINZIP_AES), EXTRA_FIELD_ZIP64)
  {}

  // The AES field follows the caller's own fields.
  lemma AesFieldStands(cf: CompressedFile, offset: u64)
    requires CompSize(cf) <= U64_MAX && Strength(cf.encryptionMethod) > 0 && cf.rawMethod < 256
    ensures var x, k := WriterExtras(cf, true, offset), |UserExtras(cf)|;
            && k < |x| && x[k].id == 0x9901 && (forall j | 0 <= j < k :: x[j].id != 0x9901)
            && x[k].data == [2, 0, 0x41, 0x45, Strength(cf.encryptionMethod) as byte, cf.rawMethod as byte, 0]
  {
    hide UserExtras, Overflow;
    UserExtrasAreFiltered(cf);
    NotAmong(UserExtras(cf), EF_WINZIP_AES);
    SmallLe(2);
    SmallLe(cf.rawMethod);
    var x, a := WriterExtras(cf, true, offset), AesExtras(cf);
    assert |a| == 1 && x[|UserExtras(cf)|] == a[0];
    forall j | 0 <= j < |UserExtras(cf)| ensures x[j].id != 0x9901 { assert x[j] == UserExtras(cf)[j]; }
  }

  lemma {:induction false} NotAmong(fields: seq<ExtraField>, id: u16)
    requires FindField(fields, id).None?
    ensures forall j | 0 <= j < |fields| :: fields[j].id != id
  {
    if fields != [] {
      NotAmong(fields[1..], id);
      forall j | 0 <= j < |fields| ensures fields[j].id != id { if j > 0 { assert fields[j] == fields[1..][j - 1]; } }
    }
  }

  /** Every entry of a written archive says of its file all that it should; the stored bytes of a file that is not
      encrypted are its data, or what the encoder makes of them at the chosen level; the archive comment is kept. */
  lemma MetadataComesBack(deflate: Deflater, files: seq<ArchiveFile>, opts: Options, secrets: Secrets, methods: seq<u16>,
                          comment: bytes, i: nat)
    requires InMemory(files) && AesCtr.WellSized(secrets.primitives) && i < |files|
    requires WriterIO.Stages(deflate, files, opts, secrets, methods).Ok?
    requires var batch := WriterIO.Stages(deflate, files, opts, secrets, methods).value;
             && Fits(batch) && AllWritable(batch) && ArchiveProofs.NamesFit(batch)
             && |Archive(batch, comment)| <= U64_MAX
             && ArchiveProofs.Locatable(batch, comment) && ArchiveProofs.AllLegal(batch)
    ensures var batch := WriterIO.Stages(deflate, files, opts, secrets, methods).value;
            var out := WriteArchive(batch, comment);
            && out.Ok? && Cdir.ReadCentralDir(out.value).Ok?
            && var cd := Cdir.ReadCentralDir(out.value).value;
               && cd.comment == comment && |cd.entries| == |files| && (methods == [] || i < |methods|)
               && (cd.isZip64 <==>
                     || |files| > 65535 || cd.cdirSize > 0xFFFF_FFFF || cd.cdirOffset > 0xFFFF_FFFF
                     || exists k | 0 <= k < |cd.entries| :: Wide(cd.entries[k].sizes))
               && var enc := if methods == [] then 0 else methods[i];
                  && Describes(cd.entries[i], files[i], opts, enc)
                  && (Strength(enc) > 0 ==> DescribesAes(cd.entries[i], files[i], opts, enc))
                  && (enc == 0 ==> StoredAt(out.value, cd.entries[i], StoredForm(deflate, files[i], opts)))
  {
    hide AesCtr.WellSized, WriterIO.Stages, CompressFile, EncryptOne, DirentOf, Body, Archive, AllWritable,
         Cdir.ReadCentralDir, ArchiveProofs.AllLegal, ArchiveProofs.Locatable, StoredAt, ArchiveProofs.NamesFit,
         ArchiveProofs.OffsetOf, WriteArchive, Describes, DescribesAes, DirentsOf, StoredForm, CentralEntries, ArchiveZip64,
         Cdir.NeedsZip64Directory, Wide, Cdir.Records, Cdir.SerializedBytes;
    var batch := WriterIO.Stages(deflate, files, opts, secrets, methods).value;
    StageSlot(deflate, files, opts, secrets, methods, i);
    assert batch[i] in batch;
    StoredInArchive(batch, comment, i);
    ArchiveProofs.WriteThenRead(batch, comment);
    ArchiveProofs.ArchiveIsSerialized(batch, comment, false);
    Zip64When(ArchiveProofs.DirectoryOf(batch, comment, false));
    SlotFields(deflate, files[i], opts, secrets, Encryption(methods, i), i);
    EntryDescribes(batch[i], ArchiveProofs.OffsetOf(batch, i), files[i], opts, Encryption(methods, i));
  }

  predicate Known(enc: u16) { enc == 0 || enc == 1 || Strength(enc) > 0 }

  lemma EncryptsOne(s: Secrets, cf: CompressedFile, enc: u16, i: nat)
    requires AesCtr.WellSized(s.primitives)
    ensures EncryptOne(s, cf, enc, i).Ok? <==> Known(enc)
    ensures !Known(enc) ==> EncryptOne(s, cf, enc, i) == Err(Encrmethnotsupp)
  {
    hide AesCtr.WellSized, AesCtr.EncryptedRegion, ZipCryptos.EncryptedData;
  }

  lemma {:induction false} EncryptsAll(s: Secrets, cs: seq<CompressedFile>, methods: seq<u16>)
    requires AesCtr.WellSized(s.primitives) && |methods| == |cs|
    ensures EncryptAll(s, cs, methods).Ok? <==> forall k | 0 <= k < |methods| :: Known(methods[k])
    ensures EncryptAll(s, cs, methods).Err? ==> EncryptAll(s, cs, methods).error == Encrmethnotsupp
  {
    hide AesCtr.WellSized, EncryptOne, Known;
    if cs != [] {
      var n := |cs| - 1;
      EncryptsAll(s, cs[..n], methods[..n]);
      EncryptsOne(s, cs[n], methods[n], n);
      assert forall k | 0 <= k < n :: methods[..n][k] == methods[k];
    }
  }

  /** When a batch can be compressed and encrypted, and the error when it cannot. */
  lemma BatchSucceeds(deflate: Deflater, files: seq<ArchiveFile>, opts: Options, secrets: Secrets, methods: seq<u16>)
    requires InMemory(files) && AesCtr.WellSized(secrets.primitives)
    ensures var r := WriterIO.Stages(deflate, files, opts, secrets, methods);
            if exists f <- files :: Chosen(f, opts) != Store && Chosen(f, opts) != Deflate then r == Err(Compnotsupp)
            else if methods != [] && |methods| != |files| then r == Err(Inval)
            else if exists k | 0 <= k < |methods| :: !Known(methods[k]) then r == Err(Encrmethnotsupp)
            else r.Ok?
  {
    hide AesCtr.WellSized, CompressAll, EncryptAll, Crc.Hash;
    CompressSlots(deflate, files, opts);
    if CompressAll(deflate, files, opts).Ok? && |methods| == |files| {
      EncryptsAll(secrets, CompressAll(deflate, files, opts).value, methods);
    }
  }
}
