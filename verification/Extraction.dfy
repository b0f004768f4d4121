/** From files to an archive and back: what is extracted from a written archive. */
module Extraction {
  import opened Bytes
  import opened Dirents
  import opened LocalHeaders
  import opened Writer
  import opened WriterProofs
  import opened Compress
  import opened EntryReaders
  import opened OpenEntry
  import ArchiveProofs
  import AesCtr
  import Bits
  import Cdir
  import Crc
  import WriterIO
  import ZipCryptos

  /** The foreign decoder undoes the foreign encoder at every level. */
  ghost predicate Inverts(c: Codecs, deflate: Deflater) {
    forall s: bytes, level: nat :: c.inflate(deflate(s, level)) == Decoded(s, Clean)
  }

  /** The encryption asked for file `i`; an empty list asks for none. */
  function Encryption(methods: seq<u16>, i: nat): u16
    requires methods == [] || i < |methods|
  {
    if methods == [] then ENC_NONE else methods[i]
  }

  /** Salts have the length their method takes. */
  ghost predicate Salted(s: Secrets, methods: seq<u16>) {
    forall i | 0 <= i < |methods| :: IsAes(methods[i]) ==> |s.salts(i)| == AesCtr.SaltLength(methods[i])
  }

  // ----- each slot of a batch -----

  lemma {:induction false} EncryptSlots(s: Secrets, cs: seq<CompressedFile>, methods: seq<u16>, i: nat)
    requires AesCtr.WellSized(s.primitives) && |methods| == |cs| && i < |cs| && EncryptAll(s, cs, methods).Ok?
    ensures |EncryptAll(s, cs, methods).value| == |cs|
    ensures EncryptOne(s, cs[i], methods[i], i) == Ok(EncryptAll(s, cs, methods).value[i])
  {
    hide EncryptOne, AesCtr.WellSized;
    var n := |cs| - 1;
    EncryptKeepsCount(s, cs, methods);
    EncryptKeepsCount(s, cs[..n], methods[..n]);
    if i < n { EncryptSlots(s, cs[..n], methods[..n], i); }
  }

  lemma StageSlot(deflate: Deflater, files: seq<ArchiveFile>, opts: Options, secrets: Secrets, methods: seq<u16>, i: nat)
    requires InMemory(files) && AesCtr.WellSized(secrets.primitives) && i < |files|
    requires WriterIO.Stages(deflate, files, opts, secrets, methods).Ok?
    ensures var batch := WriterIO.Stages(deflate, files, opts, secrets, methods).value;
            && |batch| == |files| && (methods == [] || |methods| == |files|)
            && CompressFile(deflate, files[i], opts).Ok?
            && EncryptOne(secrets, CompressFile(deflate, files[i], opts).value, Encryption(methods, i), i) == Ok(batch[i])
  {
    hide CompressFile, AesCtr.WellSized, CompressAll, EncryptAll;
    CompressSlots(deflate, files, opts);
    var cs := CompressAll(deflate, files, opts).value;
    if methods != [] { EncryptSlots(secrets, cs, methods, i); }
  }

  // ----- one stored entry -----

  /** The entry's stored bytes stand at its data offset. */
  predicate StoredAt(b: bytes, d: Dirent, data: bytes) {
    var start := LocalHeaderLen(b, d.sizes.offset);
    start.Ok? && d.sizes.comp == |data| && start.value + |data| <= |b| && b[start.value..start.value + |data|] == data
  }

  lemma ZipCryptoRoundTrip(b: bytes, start: nat, password: bytes, crc: bv32, data: bytes)
    requires var region := ZipCryptos.EncryptedData(password, crc, data);
             start + |region| <= |b| && b[start..start + |region|] == region
    ensures ZipCryptoPlain(b, start, ZipCryptos.ENCRYPTION_HEADER_LEN + |data|, crc, password) == Ok(data)
  {
    hide ZipCryptos.UpdateKeys, ZipCryptos.KeystreamByte, Bits.XorByte, ZipCryptos.Decrypt, ZipCryptos.Encrypt,
         ZipCryptos.TopByte, ZipCryptos.Header;
    var region, plain := ZipCryptos.EncryptedData(password, crc, data), ZipCryptos.Header(password, crc) + data;
    var k := ZipCryptos.KeysFor(password);
    ZipCryptos.HeaderShape(password, crc);
    ZipCryptos.DecryptUndoesEncrypt(k, plain);
    assert region == region[..12] + region[12..];
    ZipCryptos.DecryptConcat(k, region[..12], region[12..]);
    SubSlice(b, start, region, 0, 12);
    SubSlice(b, start, region, 12, |region|);
    assert ZipCryptos.Decrypt(k, region[..12]).0 == plain[..12];
    assert Window(b, start + 12, |data|) == region[12..];
  }

  lemma PlainExtracts(c: Codecs, b: bytes, d: Dirent, password: Option<bytes>, data: bytes, s: bytes)
    requires AesCtr.WellSized(c.primitives) && StoredAt(b, d, data) && !IsEncrypted(d)
    requires !d.compMethod.Unsupported? && Decode(c, d.compMethod, data) == Decoded(s, Clean)
    requires |s| <= U64_MAX && Stored(d) == Check(|s|, Some(Crc.Hash(s)))
    ensures Extracted(c, b, d, password) == Ok(s)
  {
    hide AesCtr.WellSized, LocalHeaderLen, Drained, Decode, Stored, Crc.Hash;
    DrainedOk(Decoded(s, Clean), Stored(d), s);
    assert Window(b, LocalHeaderLen(b, d.sizes.offset).value, |data|) == data;
  }

  lemma ZipCryptoExtracts(c: Codecs, b: bytes, d: Dirent, password: bytes, data: bytes, s: bytes)
    requires AesCtr.WellSized(c.primitives) && StoredAt(b, d, ZipCryptos.EncryptedData(password, Stored(d).crc.value, data))
    requires IsEncrypted(d) && d.encryptionMethod == ENC_TRAD_PKWARE
    requires !d.compMethod.Unsupported? && Decode(c, d.compMethod, data) == Decoded(s, Clean)
    requires |s| <= U64_MAX && Stored(d) == Check(|s|, Some(Crc.Hash(s)))
    ensures Extracted(c, b, d, Some(password)) == Ok(s)
  {
    hide AesCtr.WellSized, LocalHeaderLen, Drained, Decode, Stored, Crc.Hash, ZipCryptoPlain, AesContent,
         ZipCryptos.EncryptedData, StoredAt;
    StoredInside(b, d, ZipCryptos.EncryptedData(password, Stored(d).crc.value, data));
    DrainedOk(Decoded(s, Clean), Stored(d), s);
    ZipCryptoRoundTrip(b, LocalHeaderLen(b, d.sizes.offset).value, password, Stored(d).crc.value, data);
  }

  lemma AesExtracts(c: Codecs, b: bytes, d: Dirent, password: bytes, salt: bytes, data: bytes, s: bytes)
    requires AesCtr.WellSized(c.primitives) && IsEncrypted(d) && IsAes(d.encryptionMethod)
    requires |salt| == AesCtr.SaltLength(d.encryptionMethod)
    requires StoredAt(b, d, AesCtr.EncryptedRegion(c.primitives, d.encryptionMethod, password, salt, data))
    requires !d.compMethod.Unsupported? && Decode(c, d.compMethod, data) == Decoded(s, Clean) && d.sizes.uncomp == |s|
    ensures Extracted(c, b, d, Some(password)) ==
              if d.sizes.comp > Cdir.MAX_CD_SIZE then Err(CentralDirTooLarge) else Ok(s)
  {
    hide AesCtr.WellSized, LocalHeaderLen, Drained, Decode, AesCtr.DecryptedRegion, AesCtr.EncryptedRegion;
    var region := AesCtr.EncryptedRegion(c.primitives, d.encryptionMethod, password, salt, data);
    DrainedOk(Decoded(s, Clean), Check(|s|, None), s);
    AesCtr.RegionRoundTrip(c.primitives, d.encryptionMethod, password, salt, data);
    assert Window(b, LocalHeaderLen(b, d.sizes.offset).value, |region|) == region;
  }

  /** What compressing and encrypting a file stored is, decoded and checked, the file's own data. The one exception
      is an AES region above the reader's bound. */
  lemma SlotExtracts(c: Codecs, deflate: Deflater, f: ArchiveFile, opts: Options, secrets: Secrets, enc: u16, i: nat,
                     b: bytes, offset: u64)
    requires |f.data| <= U64_MAX && AesCtr.WellSized(c.primitives) && c.primitives == secrets.primitives && Inverts(c, deflate)
    requires IsAes(enc) ==> |secrets.salts(i)| == AesCtr.SaltLength(enc)
    requires CompressFile(deflate, f, opts).Ok? && EncryptOne(secrets, CompressFile(deflate, f, opts).value, enc, i).Ok?
    requires var cf := EncryptOne(secrets, CompressFile(deflate, f, opts).value, enc, i).value;
             CompSize(cf) <= U64_MAX && StoredAt(b, DirentOf(cf, offset), cf.data)
    ensures var cf := EncryptOne(secrets, CompressFile(deflate, f, opts).value, enc, i).value;
            Extracted(c, b, DirentOf(cf, offset), Some(secrets.password)) ==
              if IsAes(enc) && |cf.data| > Cdir.MAX_CD_SIZE then Err(CentralDirTooLarge) else Ok(f.data)
  {
    hide AesCtr.WellSized, AesCtr.EncryptedRegion, ZipCryptos.EncryptedData, Crc.Hash, Inverts, DirentOf, Extracted,
         LocalHeaderLen, CompressFile, Decode, StoredAt;
    var base := CompressFile(deflate, f, opts).value;
    var cf := EncryptOne(secrets, base, enc, i).value;
    var d := DirentOf(cf, offset);
    FlagsOf(cf, offset);
    EntryMeaning(cf, offset);
    Recompressed(c, deflate, f, opts);
    StoredInside(b, d, cf.data);
    if enc == ENC_NONE {
      PlainExtracts(c, b, d, Some(secrets.password), base.data, f.data);
    } else if enc == ENC_TRAD_PKWARE {
      ZipCryptoExtracts(c, b, d, secrets.password, base.data, f.data);
    } else {
      AesExtracts(c, b, d, secrets.password, secrets.salts(i), base.data, f.data);
    }
  }

  lemma StoredInside(b: bytes, d: Dirent, data: bytes)
    requires StoredAt(b, d, data)
    ensures var start := LocalHeaderLen(b, d.sizes.offset);
            && start.Ok? && d.sizes.comp == |data| && start.value + |data| <= |b|
            && b[start.value..start.value + |data|] == data
  {}

  lemma FlagsOf(cf: CompressedFile, offset: u64)
    requires CompSize(cf) <= U64_MAX
    ensures DirentOf(cf, offset).bitflags == Flags(cf)
    ensures Flags(cf) % 2 == 0 <==> cf.encryptionMethod == ENC_NONE
  {}

  lemma Recompressed(c: Codecs, deflate: Deflater, f: ArchiveFile, opts: Options)
    requires |f.data| <= U64_MAX && Inverts(c, deflate) && CompressFile(deflate, f, opts).Ok?
    ensures var base := CompressFile(deflate, f, opts).value;
            var m := MethodFromU16(base.rawMethod);
            && !m.Unsupported? && base.rawMethod != ZIP_CM_WINZIP_AES && base.encryptionMethod == ENC_NONE
            && Decode(c, m, base.data) == Decoded(f.data, Clean)
            && base.crc as bv32 == Crc.Hash(f.data) && base.uncompSize == |f.data|
  {
    hide Crc.Hash;
    Crc.WordRoundTrip(Crc.Hash(f.data));
  }

  // ----- whole archives -----

  /** Every entry of a written archive is found with its name and its stored bytes. */
  lemma StoredInArchive(files: seq<CompressedFile>, comment: bytes, i: nat)
    requires Fits(files) && AllWritable(files) && ArchiveProofs.NamesFit(files) && |Archive(files, comment)| <= U64_MAX
    requires ArchiveProofs.Locatable(files, comment) && ArchiveProofs.AllLegal(files) && i < |files|
    ensures WriteArchive(files, comment) == Ok(Archive(files, comment))
    ensures Cdir.ReadCentralDir(Archive(files, comment)).Ok? && ArchiveProofs.OffsetOf(files, i) <= U64_MAX
    ensures var entries, d := Cdir.ReadCentralDir(Archive(files, comment)).value.entries,
                              DirentOf(files[i], ArchiveProofs.OffsetOf(files, i));
            && |entries| == |files| && entries[i] == d && d.filename == files[i].name
            && StoredAt(Archive(files, comment), d, files[i].data)
  {
    hide DirentOf, DirentsOf, Body, Archive, AllWritable, Cdir.ReadCentralDir, ArchiveProofs.AllLegal, LocalHeaderLen,
         ArchiveProofs.Locatable, UserExtras, DropField;
    assert files[i] in files;
    ArchiveProofs.WriteThenRead(files, comment);
    ArchiveProofs.DirentAt(files, i);
    ArchiveProofs.DataIsReachable(files, comment, i);
    EntryMeaning(files[i], ArchiveProofs.OffsetOf(files, i));
    ArchiveHoldsBody(files, comment);
  }

  /** Write, reopen, extract: every file comes back under its name with its own data, whatever its method and
      encryption. */
  lemma WriteThenExtract(c: Codecs, deflate: Deflater, files: seq<ArchiveFile>, opts: Options, secrets: Secrets,
                         methods: seq<u16>, comment: bytes, i: nat)
    requires InMemory(files) && AesCtr.WellSized(c.primitives) && c.primitives == secrets.primitives
    requires Inverts(c, deflate) && Salted(secrets, methods) && i < |files|
    requires WriterIO.Stages(deflate, files, opts, secrets, methods).Ok?
    requires var batch := WriterIO.Stages(deflate, files, opts, secrets, methods).value;
             && Fits(batch) && AllWritable(batch) && ArchiveProofs.NamesFit(batch)
             && |Archive(batch, comment)| <= U64_MAX
             && ArchiveProofs.Locatable(batch, comment) && ArchiveProofs.AllLegal(batch)
    ensures var batch := WriterIO.Stages(deflate, files, opts, secrets, methods).value;
            var out := WriteArchive(batch, comment);
            && out.Ok? && Cdir.ReadCentralDir(out.value).Ok?
            && var entries := Cdir.ReadCentralDir(out.value).value.entries;
               && |entries| == |files| && |batch| == |files| && entries[i].filename == files[i].name
               && (methods == [] || i < |methods|)
               && Extracted(c, out.value, entries[i], Some(secrets.password)) ==
                    if IsAes(Encryption(methods, i)) && |batch[i].data| > Cdir.MAX_CD_SIZE
                    then Err(CentralDirTooLarge) else Ok(files[i].data)
  {
    hide AesCtr.WellSized, Extracted, WriterIO.Stages, CompressFile, EncryptOne, DirentOf, DirentsOf, Body, Archive, AllWritable,
         Cdir.ReadCentralDir, ArchiveProofs.AllLegal, Inverts, ArchiveProofs.Locatable, StoredAt, ArchiveProofs.NamesFit,
         ArchiveProofs.OffsetOf, WriteArchive;
    var batch := WriterIO.Stages(deflate, files, opts, secrets, methods).value;
    StageSlot(deflate, files, opts, secrets, methods, i);
    assert batch[i] in batch;
    StoredInArchive(batch, comment, i);
    NameIsKept(deflate, files[i], opts, secrets, Encryption(methods, i), i);
    SlotExtracts(c, deflate, files[i], opts, secrets, Encryption(methods, i), i, Archive(batch, comment),
                 ArchiveProofs.OffsetOf(batch, i));
  }

  lemma NameIsKept(deflate: Deflater, f: ArchiveFile, opts: Options, secrets: Secrets, enc: u16, i: nat)
    requires |f.data| <= U64_MAX && AesCtr.WellSized(secrets.primitives)
    requires CompressFile(deflate, f, opts).Ok? && EncryptOne(secrets, CompressFile(deflate, f, opts).value, enc, i).Ok?
    ensures EncryptOne(secrets, CompressFile(deflate, f, opts).value, enc, i).value.name == f.name
  {
    hide AesCtr.WellSized, AesCtr.EncryptedRegion, ZipCryptos.EncryptedData, Crc.Hash;
  }

  lemma ArchiveHoldsBody(files: seq<CompressedFile>, comment: bytes)
    requires Fits(files)
    ensures Body(files) <= Archive(files, comment)
  {
    hide Body, CentralEntries, Cdir.EndRecords, ArchiveZip64;
  }

  // ----- a single stored file -----

  /** A file to be stored as it is, without comment or extra fields, under any name and metadata. */
  predicate PlainStored(f: ArchiveFile) {
    && f.compMethod == Some(Store) && f.comment == None && f.extraFields == []
    && |f.name| < 0x2000_0000 && |f.data| < 0x4000_0000
  }

  function StoredEntry(f: ArchiveFile): CompressedFile
    requires PlainStored(f)
  {
    CompressedFile(f.name, 0, Crc.Hash(f.data) as int, |f.data|, f.data, 0, None, [], f.lastModTime, f.lastModDate,
                   f.opsys, f.externalAttributes)
  }

  lemma NoExtras(f: ArchiveFile)
    requires PlainStored(f)
    ensures var cf := StoredEntry(f);
            LocalExtra(cf) == [] && CentralExtra(cf, 0) == [] && Descriptor(cf) == [] && Comment(cf) == []
  {
    hide Crc.Hash;
    var cf := StoredEntry(f);
    assert UserExtras(cf) == [] && AesExtras(cf) == [];
    assert Overflow(WriterSizes(cf, false, 0)) == [] && Overflow(WriterSizes(cf, true, 0)) == [];
    assert WriterExtras(cf, false, 0) == [] && WriterExtras(cf, true, 0) == [];
  }

  lemma StoredLayout(f: ArchiveFile)
    requires PlainStored(f)
    ensures var cf, files := StoredEntry(f), [StoredEntry(f)];
            && Fits(files) && |Body(files)| == LOCAL_SIZE + |f.name| + |f.data|
            && AllWritable(files) && !ArchiveZip64(files)
            && CentralEntries(files) == CentralEntry(cf, 0) && |CentralEntries(files)| == CENTRAL_SIZE + |f.name|
  {
    hide LocalFixed, CentralHead, CentralTail, Crc.Hash;
    var files := [StoredEntry(f)];
    assert files[..0] == [];
    NoExtras(f);
    assert Body(files) == [] + Block(files[0]);
    assert CentralEntries(files) == [] + CentralEntry(files[0], 0);
    assert !AnyZip64(files[..0]) && !EntryZip64(files[0], |Body(files[..0])|);
  }

  /** The record ends in what the reader would take for a locator. */
  predicate EndsLikeLocator(f: ArchiveFile)
    requires PlainStored(f)
  {
    var r := CentralEntry(StoredEntry(f), 0);
    |r| >= 20 && r[|r| - 20..|r| - 16] == Cdir.LOCATOR_MAGIC
  }

  lemma StoredIsLocatable(f: ArchiveFile)
    requires PlainStored(f)
    ensures Fits([StoredEntry(f)]) && |Archive([StoredEntry(f)], [])| <= U64_MAX
    ensures ArchiveProofs.Locatable([StoredEntry(f)], []) <==> !EndsLikeLocator(f)
  {
    hide Body, CentralEntries, CentralEntry, ArchiveZip64, Crc.Hash, Cdir.EocdFixed, AllWritable, ArchiveProofs.Locatable;
    var files := [StoredEntry(f)];
    StoredLayout(f);
    ArchiveProofs.UncommentedIsLocatable(files);
    var out, n, r := Archive(files, []), |Body(files)|, CentralEntries(files);
    assert out[n..n + |r|] == r;
    SubSlice(out, n, r, |r| - 20, |r| - 16);
  }

  lemma StoredIsLegal(f: ArchiveFile)
    requires PlainStored(f) && Fits([StoredEntry(f)])
    ensures ArchiveProofs.AllLegal([StoredEntry(f)]) <==> !UnsafeName(f.name)
  {
    hide Crc.Hash, Block, UnsafeName;
    var files := [StoredEntry(f)];
    assert files[..0] == [];
    assert ArchiveProofs.Legal(files[0], 0) <==> !UnsafeName(f.name);
  }

  lemma StoredBatch(deflate: Deflater, f: ArchiveFile, opts: Options, secrets: Secrets)
    requires PlainStored(f) && AesCtr.WellSized(secrets.primitives)
    ensures InMemory([f])
    ensures WriterIO.Stages(deflate, [f], opts, secrets, []) == Ok([StoredEntry(f)])
  {
    hide Crc.Hash, AesCtr.WellSized;
    var files := [f];
    assert files[..0] == [];
    assert CompressFile(deflate, files[0], opts) == Ok(StoredEntry(f));
    assert CompressAll(deflate, files[..0], opts) == Ok([]);
    assert [] + [StoredEntry(f)] == [StoredEntry(f)];
    assert CompressAll(deflate, files, opts) == Ok([StoredEntry(f)]);
  }

  /** The directory of a one-file archive. */
  function SingleDirectory(f: ArchiveFile): Cdir.CentralDir
    requires PlainStored(f)
  {
    StoredLayout(f);
    ArchiveProofs.DirectoryOf([StoredEntry(f)], [], false)
  }

  /** A single stored file below 1 GiB is written, and comes back under its name with its data, if and only if its
      name is safe and its length fits, and its directory record does not end like a locator. */
  lemma SingleFileComesBack(c: Codecs, deflate: Deflater, f: ArchiveFile, opts: Options, secrets: Secrets)
    requires AesCtr.WellSized(c.primitives) && c.primitives == secrets.primitives && Inverts(c, deflate)
    requires PlainStored(f)
    ensures Fits([StoredEntry(f)]) && WriteArchive([StoredEntry(f)], []).Ok?
    ensures var out := WriteArchive([StoredEntry(f)], []).value;
            && (Cdir.ReadCentralDir(out) == Ok(SingleDirectory(f)) <==>
                  |f.name| <= U16_MAX && !UnsafeName(f.name) && !EndsLikeLocator(f))
            && (|f.name| <= U16_MAX && !UnsafeName(f.name) && !EndsLikeLocator(f) ==>
                  var entries := SingleDirectory(f).entries;
                  && |entries| == 1 && entries[0].filename == f.name
                  && Extracted(c, out, entries[0], Some(secrets.password)) == Ok(f.data))
  {
    hide AesCtr.WellSized, Extracted, WriterIO.Stages, Body, AllWritable, Cdir.ReadCentralDir, ArchiveProofs.AllLegal,
         ArchiveProofs.Locatable, Inverts, Crc.Hash, Fits, UnsafeName, EndsLikeLocator, DirentsOf, CentralEntries, ArchiveZip64,
         Archive;
    StoredLayout(f);
    StoredIsLocatable(f);
    StoredIsLegal(f);
    StoredBatch(deflate, f, opts, secrets);
    ArchiveProofs.WriteThenRead([StoredEntry(f)], []);
    assert ArchiveProofs.NamesFit([StoredEntry(f)]) <==> |f.name| <= U16_MAX;
    if |f.name| <= U16_MAX && !UnsafeName(f.name) && !EndsLikeLocator(f) {
      WriteThenExtract(c, deflate, [f], opts, secrets, [], [], 0);
    }
  }

  /** So a one-letter file without metadata always comes back. */
  lemma OneLetterFileComesBack(c: Codecs, deflate: Deflater, data: bytes, opts: Options, secrets: Secrets)
    requires AesCtr.WellSized(c.primitives) && c.primitives == secrets.primitives && Inverts(c, deflate)
    requires |data| < 0x100_0000
    ensures var f := ArchiveFile([0x61], data, None, [], 0, 0, 3, 0, Some(Store), None);
            Fits([StoredEntry(f)])
            && var out := WriteArchive([StoredEntry(f)], []);
               && out.Ok? && Cdir.ReadCentralDir(out.value).Ok?
               && var entries := Cdir.ReadCentralDir(out.value).value.entries;
                  |entries| == 1 && Extracted(c, out.value, entries[0], Some(secrets.password)) == Ok(data)
  {
    hide AesCtr.WellSized, Extracted, Cdir.ReadCentralDir, Inverts, Crc.Hash, Fits, EndsLikeLocator, StoredEntry;
    var f := ArchiveFile([0x61], data, None, [], 0, 0, 3, 0, Some(Store), None);
    NoLocatorInTail(f);
    SingleFileComesBack(c, deflate, f, opts, secrets);
  }

  // The fourth byte of a size below 2^24 is zero, which no locator signature starts with.
  lemma NoLocatorInTail(f: ArchiveFile)
    requires PlainStored(f) && |f.name| == 1 && |f.data| < 0x100_0000
    ensures !EndsLikeLocator(f)
  {
    hide Crc.Hash, CentralHead, CentralExtra, Le;
    var cf := StoredEntry(f);
    NoExtras(f);
    var t, r := CentralTail(cf, 0), CentralEntry(cf, 0);
    assert t[4..8] == Le(|f.data|, 4);
    TopByteIsZero(|f.data|);
    assert t[7] == t[4..8][3];
    assert r[27] == t[7] && |r| == 47;
    assert r[27..31][0] == 0;
  }

  lemma TopByteIsZero(n: nat)
    requires n < 0x100_0000
    ensures Le(n, 4)[3] == 0
  {
    assert n / 256 / 256 / 256 == 0;
    assert Le(n / 256 / 256 / 256, 1)[0] == 0;
    assert Le(n / 256 / 256, 2)[1] == 0;
    assert Le(n / 256, 3)[2] == 0;
  }

  // The printed length of a name of 65536 bytes is zero.
  lemma TruncatedName(d: Dirent)
    requires |d.filename| == 0x1_0000 && ExtraBytes(PrintedExtras(d)) == [] && d.comment == []
    ensures RecordBytes(d) == RecordBytes(d.(filename := [])) + d.filename
  {
    hide PrintedExtras, Le;
    LowBytesOnly();
    assert PrintedExtras(d.(filename := [])) == PrintedExtras(d) by { SameExtras(d); }
    assert RecordTail(d.(filename := [])) == RecordTail(d);
  }

  lemma LowBytesOnly()
    ensures Le(0x1_0000, 2) == Le(0, 2)
  {}

  lemma SameExtras(d: Dirent)
    ensures PrintedExtras(d.(filename := [])) == PrintedExtras(d)
  {}

  lemma StoredDirent(f: ArchiveFile)
    requires PlainStored(f)
    ensures var d := DirentOf(StoredEntry(f), 0);
            && Fits([StoredEntry(f)]) && DirentsOf([StoredEntry(f)]) == [d]
            && d.filename == f.name && d.comment == [] && PrintedExtras(d) == [] && Coherent(d) && Unambiguous(d)
            && RecordBytes(d) == CentralEntry(StoredEntry(f), 0)
  {
    hide Crc.Hash, RecordBytes, CentralEntry, Coherent, Block;
    var cf := StoredEntry(f);
    assert [cf][..0] == [];
    StoredLayout(f);
    PrintersAgree(cf, 0);
    assert UserExtras(cf) == [] && AesExtras(cf) == [] && Overflow(WriterSizes(cf, true, 0)) == [];
  }

  lemma NamelessReads(d: Dirent, name: bytes)
    requires d.filename == [] && PrintedExtras(d) == [] && d.comment == [] && Coherent(d) && Unambiguous(d)
    requires Cdir.Stops(name)
    ensures Cdir.ParseEntries(RecordBytes(d) + name, 0) == [d]
  {
    hide RecordBytes, Coherent, Cdir.ParseEntries, Unambiguous, PrintedReadsAs, Cdir.Stops;
    NoFields();
    Cdir.ParseRecords([], [d], name);
    Cdir.RereadPrefixExact([d]);
    assert !UnsafeName([]);
    assert Cdir.Records([d]) == RecordBytes(d) by { assert [d][1..] == []; assert RecordBytes(d) + [] == RecordBytes(d); }
    assert [] + Cdir.Records([d]) + name == RecordBytes(d) + name;
    assert Regenerated(d) == d;
  }

  /** A name of 65536 bytes, whose length the writer truncates to zero: the file comes back without a name. */
  lemma LongNameIsLost(data: bytes)
    requires |data| < 0x4000_0000
    ensures var f := ArchiveFile(seq(0x1_0000, _ => 0x61), data, None, [], 0, 0, 3, 0, Some(Store), None);
            && Fits([StoredEntry(f)]) && WriteArchive([StoredEntry(f)], []).Ok?
            && var all := SingleDirectory(f);
               |all.entries| == 1 && all.entries[0].filename == f.name
               && Cdir.ReadCentralDir(WriteArchive([StoredEntry(f)], []).value) ==
                    Ok(all.(entries := [all.entries[0].(filename := [])]))
  {
    var f := ArchiveFile(seq(0x1_0000, _ => 0x61), data, None, [], 0, 0, 3, 0, Some(Store), None);
    LongNameReads(f);
  }

  lemma LongNameReads(f: ArchiveFile)
    requires PlainStored(f) && |f.name| == 0x1_0000 && forall i | 0 <= i < |f.name| :: f.name[i] == 0x61
    ensures Fits([StoredEntry(f)]) && WriteArchive([StoredEntry(f)], []).Ok?
    ensures var all := SingleDirectory(f);
            |all.entries| == 1 && all.entries[0].filename == f.name
            && Cdir.ReadCentralDir(WriteArchive([StoredEntry(f)], []).value) ==
                 Ok(all.(entries := [all.entries[0].(filename := [])]))
  {
    hide Cdir.ReadCentralDir, Crc.Hash, Body, Archive, DirentOf, CentralEntry, Cdir.SerializedBytes, AllWritable,
         CentralEntries, RecordBytes, Cdir.NeedsZip64Directory, Cdir.TryParse, Cdir.PassedOver, EndsLikeLocator,
         Cdir.ParseEntries, Cdir.Records, ArchiveZip64, Fits, Cdir.EocdAt, DirentsOf, Coherent, Unambiguous, PrintedExtras,
         Regenerated;
    var files, d := [StoredEntry(f)], DirentOf(StoredEntry(f), 0);
    StoredLayout(f);
    StoredIsLocatable(f);
    StoredDirent(f);
    NoFields();
    TruncatedName(d);
    SameExtras(d);
    BareIsSound(d);
    assert d.filename[..4][0] == 0x61;
    NamelessReads(d.(filename := []), d.filename);
    ArchiveProofs.ArchiveIsSerialized(files, [], false);
    var cd := SingleDirectory(f);
    var b, at, r := Body(files) + Cdir.SerializedBytes(cd), Cdir.EocdOffset(Body(files), cd), Cdir.Records(cd.entries);
    assert b + [] == b;
    Cdir.TrueRecord(Body(files), cd, []);
    Cdir.RecordsInPlace(Body(files), cd, []);
    assert r == RecordBytes(d.(filename := [])) + d.filename;
    SubSlice(b, |Body(files)|, r, |r| - 20, |r| - 16);
    assert r[|r| - 20..|r| - 16][0] == 0x61;
    assert Cdir.NoFalseLocator(b, at);
    Cdir.SearchOutcome(b, at);
  }

  lemma BareIsSound(d: Dirent)
    requires Coherent(d) && Unambiguous(d)
    ensures Coherent(d.(filename := [])) && Unambiguous(d.(filename := []))
  {}
}
