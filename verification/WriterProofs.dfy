/** What the reader makes of the writer's archives. */
module WriterProofs {
  import opened Bytes
  import opened Dirents
  import opened Cdir
  import opened Writer

  /** The entry the reader is expected to return for `cf` stored at `offset`. */
  function DirentOf(cf: CompressedFile, offset: u64): Dirent
    requires CompSize(cf) <= U64_MAX
  {
    var v := VersionNeeded(cf, EntryZip64(cf, offset));
    var extras := WriterExtras(cf, true, offset);
    var m := Resolve(OnDisk(cf), Flags(cf), extras);
    Dirent(cf.opsys * 0x100 + v, v, Flags(cf), m.0, cf.lastModTime, cf.lastModDate, StoredCrc(cf),
           WriterSizes(cf, true, offset), cf.name, Comment(cf), 0, cf.externalAttributes, m.1, m.2, extras)
  }

  function DirentsOf(files: seq<CompressedFile>): (r: seq<Dirent>)
    requires Fits(files)
    ensures |r| == |files|
  {
    if files == [] then []
    else
      FitsInit(files);
      var init := files[..|files| - 1];
      DirentsOf(init) + [DirentOf(files[|files| - 1], |Body(init)|)]
  }

  // ----- extra fields -----

  lemma UserExtrasAreFiltered(cf: CompressedFile)
    ensures FindField(UserExtras(cf), EXTRA_FIELD_ZIP64).None? && FindField(UserExtras(cf), EF_WINZIP_AES).None?
  {
    var once := DropField(cf.extraFields, EF_WINZIP_AES);
    FindAfterDrop(once, EXTRA_FIELD_ZIP64, EXTRA_FIELD_ZIP64);
    FindAfterDrop(once, EXTRA_FIELD_ZIP64, EF_WINZIP_AES);
    FindAfterDrop(cf.extraFields, EF_WINZIP_AES, EF_WINZIP_AES);
  }

  /** The base block has no ZIP64 field, and its AES field is the writer's own. */
  lemma BaseExtras(cf: CompressedFile)
    ensures var base := UserExtras(cf) + AesExtras(cf);
            && FindField(base, EXTRA_FIELD_ZIP64).None?
            && FindField(base, EF_WINZIP_AES) == (if Aes(cf) then Some(AesExtras(cf)[0].data) else None)
            && DropField(base, EXTRA_FIELD_ZIP64) == base
  {
    UserExtrasAreFiltered(cf);
    var a := AesExtras(cf);
    FindConcat(UserExtras(cf), a, EXTRA_FIELD_ZIP64);
    FindConcat(UserExtras(cf), a, EF_WINZIP_AES);
    assert a != [] ==> a[1..] == [];
    DropAbsent(UserExtras(cf) + a, EXTRA_FIELD_ZIP64);
  }

  lemma OverflowIsEmpty(s: Sizes)
    ensures Overflow(s) == [] <==> !Dirents.NeedsZip64(s)
  {
    hide Le;
  }

  /** The reader finds the writer's ZIP64 field exactly when an entry needs one, and its AES field when it is AES. */
  lemma FoundExtras(cf: CompressedFile, offset: u64)
    requires CompSize(cf) <= U64_MAX
    ensures var x, s := WriterExtras(cf, true, offset), WriterSizes(cf, true, offset);
            && FindField(x, EXTRA_FIELD_ZIP64) == (if Dirents.NeedsZip64(s) then Some(Overflow(s)) else None)
            && ParseAes(x) == (if Aes(cf) then Some((cf.encryptionMethod, MethodFromU16(cf.rawMethod), 2)) else None)
            && (Dirents.NeedsZip64(s) ==> DropField(x, EXTRA_FIELD_ZIP64) == UserExtras(cf) + AesExtras(cf))
  {
    hide Overflow, DropField, UserExtras;
    var s := WriterSizes(cf, true, offset);
    var base := UserExtras(cf) + AesExtras(cf);
    var z := if Overflow(s) == [] then [] else [ExtraField(EXTRA_FIELD_ZIP64, Overflow(s))];
    BaseExtras(cf);
    OverflowIsEmpty(s);
    FindConcat(base, z, EXTRA_FIELD_ZIP64);
    FindConcat(base, z, EF_WINZIP_AES);
    DropConcat(base, z, EXTRA_FIELD_ZIP64);
    if z != [] {
      assert z[1..] == [];
      DropOnly(z[0]);
      assert base + [] == base;
    }
    if Aes(cf) { AesFieldReads(cf); }
  }

  lemma DropOnly(f: ExtraField)
    ensures DropField([f], f.id) == []
  {
    assert [f][1..] == [];
  }

  lemma AesFieldReads(cf: CompressedFile)
    requires Aes(cf)
    ensures var data := AesExtras(cf)[0].data;
            && |data| == EF_WINZIP_AES_SIZE && data[2] == 0x41 && data[3] == 0x45
            && AesFromStrength(data[4]) == cf.encryptionMethod
            && U16(data, 0) == 2 && U16(data, 5) == cf.rawMethod
  {
    hide Le, FromLe;
    var data := AesExtras(cf)[0].data;
    assert data[0..2] == Le(2, 2) && data[5..7] == Le(cf.rawMethod, 2);
    U16At(data, 0, 2);
    U16At(data, 5, cf.rawMethod);
  }

  // ----- one entry -----

  /** What the reader reports: the caller's metadata, the resolved method, and the encryption that was applied. */
  lemma EntryMeaning(cf: CompressedFile, offset: u64)
    requires CompSize(cf) <= U64_MAX
    ensures var d := DirentOf(cf, offset);
            && d.filename == cf.name && d.comment == Comment(cf) && d.sizes == Sizes(cf.uncompSize, |cf.data|, offset, 0)
            && d.extAttrib == cf.externalAttributes && d.lastModTime == cf.lastModTime && d.lastModDate == cf.lastModDate
            && DropField(DropField(d.extraFields, EF_WINZIP_AES), EXTRA_FIELD_ZIP64) == UserExtras(cf)
            && (cf.encryptionMethod == ENC_NONE && cf.rawMethod != ZIP_CM_WINZIP_AES ==>
                  d.compMethod == MethodFromU16(cf.rawMethod) && d.encryptionMethod == ENC_NONE && d.crcValid && d.crc == cf.crc)
            && (cf.encryptionMethod == ENC_TRAD_PKWARE && cf.rawMethod != ZIP_CM_WINZIP_AES ==>
                  d.compMethod == MethodFromU16(cf.rawMethod) && d.encryptionMethod == ENC_TRAD_PKWARE && d.crcValid && d.crc == cf.crc)
            && (Aes(cf) ==>
                  d.compMethod == MethodFromU16(cf.rawMethod) && d.encryptionMethod == cf.encryptionMethod && !d.crcValid)
  {
    hide Overflow, UserExtras, ParseAes;
    FoundExtras(cf, offset);
    UserExtrasSurvive(cf, offset);
  }

  lemma {:induction false} DropCommutes(fields: seq<ExtraField>, i: u16, j: u16)
    ensures DropField(DropField(fields, i), j) == DropField(DropField(fields, j), i)
  {
    if fields != [] {
      DropCommutes(fields[1..], i, j);
      var f := fields[0];
      var r := DropField(fields[1..], i);
      var q := DropField(fields[1..], j);
      assert ([f] + r)[1..] == r && ([f] + q)[1..] == q;
    }
  }

  lemma UserExtrasSurvive(cf: CompressedFile, offset: u64)
    requires CompSize(cf) <= U64_MAX
    ensures DropField(DropField(WriterExtras(cf, true, offset), EF_WINZIP_AES), EXTRA_FIELD_ZIP64) == UserExtras(cf)
  {
    var u, a, z := UserExtras(cf), AesExtras(cf), Overflow(WriterSizes(cf, true, offset));
    var zs := if z == [] then [] else [ExtraField(EXTRA_FIELD_ZIP64, z)];
    hide Overflow, UserExtras, DropField;
    UserExtrasAreFiltered(cf);
    DropAbsent(u, EF_WINZIP_AES);
    DropAbsent(u, EXTRA_FIELD_ZIP64);
    DropConcat(u + a, zs, EF_WINZIP_AES);
    DropConcat(u, a, EF_WINZIP_AES);
    NothingToDrop();
    if a != [] { DropOnly(a[0]); }
    if zs != [] {
      DropOnly(zs[0]);
      assert FindField(zs[1..], EF_WINZIP_AES).None?;
      DropAbsent(zs, EF_WINZIP_AES);
    }
    assert u + [] == u;
    DropConcat(u, zs, EXTRA_FIELD_ZIP64);
  }

  lemma NothingToDrop()
    ensures DropField([], EF_WINZIP_AES) == [] && DropField([], EXTRA_FIELD_ZIP64) == []
  {}

  /** The two printers agree: the writer's record is the one `to_central_record` prints for the entry read back,
      which therefore keeps its extra fields. */
  lemma PrintersAgree(cf: CompressedFile, offset: u64)
    requires CompSize(cf) <= U64_MAX
    ensures var d := DirentOf(cf, offset);
            RecordBytes(d) == CentralEntry(cf, offset) && PrintedExtras(d) == d.extraFields && Coherent(d)
  {
    hide Le, Overflow, UserExtras, ExtraBytes, DropField, ParseAes;
    FoundExtras(cf, offset);
    OverflowIsEmpty(WriterSizes(cf, true, offset));
    ResolvedIsCoherent(OnDisk(cf), Flags(cf), WriterExtras(cf, true, offset));
  }

  /** An entry the writer may print is sound exactly when the length of its name, which the writer truncates, fits. It
      rereads exactly when its name is safe and it is not both in need of a ZIP64 field and at a sentinel; otherwise
      its record is rejected. */
  lemma WrittenRereads(cf: CompressedFile, offset: u64)
    requires CompSize(cf) <= U64_MAX && Writable(cf, offset)
    ensures var d := DirentOf(cf, offset);
            && (Sound(d) <==> |cf.name| <= U16_MAX) && Regenerated(d) == d && (Readable(d) || Reread(d) == Err(Incons))
            && (Readable(d) <==> !UnsafeName(cf.name) && !(Dirents.NeedsZip64(d.sizes) && AtSentinel(d.sizes)))
  {
    hide Le, Overflow, UserExtras, ExtraBytes, DropField, ParseAes, UnsafeName, Overlay, Marked, Resolve;
    var d := DirentOf(cf, offset);
    PrintersAgree(cf, offset);
    FoundExtras(cf, offset);
    PrintedExtrasKeepAes(d);
    FreshOverlay(d.sizes);
    if Dirents.NeedsZip64(d.sizes) { OverlayExact(d.sizes, Overflow(d.sizes)); }
  }
}
