/** The bytes of the format: a small archive written out, and what the two headers of an entry have in common. */
module Formats {
  import opened Bytes
  import opened Dirents
  import opened Cdir
  import opened LocalHeaders
  import opened Writer
  import opened WriterProofs

  lemma Two(a: byte, b: byte)
    ensures Le(a as int + 256 * b as int, 2) == [a, b]
  {
    var n := a as int + 256 * b as int;
    assert n % 256 == a as int && n / 256 == b as int;
    assert Le(b as int, 1) == [b];
  }

  lemma Four(a: byte, b: byte, c: byte, d: byte)
    ensures Le(a as int + 256 * (b as int + 256 * (c as int + 256 * d as int)), 4) == [a, b, c, d]
  {
    hide Le;
    var m := c as int + 256 * d as int;
    Two(c, d);
    OneMore(b, m, 2, [c, d]);
    OneMore(a, b as int + 256 * m, 3, [b, c, d]);
  }

  lemma OneMore(a: byte, n: nat, k: nat, s: bytes)
    requires Le(n, k) == s
    ensures Le(a as int + 256 * n, k + 1) == [a] + s
  {
    assert (a as int + 256 * n) % 256 == a as int && (a as int + 256 * n) / 256 == n;
  }

  /** One stored file `a` of one byte, with a comment, an extra field and metadata. */
  function Example(): CompressedFile {
    CompressedFile([0x61], 0, 0xE8B7_BE43, 1, [0x61], 0, Some([0x63]), [ExtraField(0x4D4B, [7])], 0x6A21, 0x5C31, 3, 0x81A4_0000)
  }

  const FIELD: bytes := [0x4B, 0x4D, 1, 0, 7]

  // A local header: signature, version, flags and method; time, date and CRC; sizes and lengths.
  const LOCAL_FRONT: bytes := [0x50, 0x4B, 3, 4, 20, 0, 0, 0, 0, 0]
  const LOCAL_MIDDLE: bytes := [0x21, 0x6A, 0x31, 0x5C, 0x43, 0xBE, 0xB7, 0xE8]
  const LOCAL_BACK: bytes := [1, 0, 0, 0, 1, 0, 0, 0, 1, 0, 5, 0]

  // A central record: as far as the CRC; sizes, lengths, attributes and offset.
  const CENTRAL_FRONT: bytes :=
    [0x50, 0x4B, 1, 2, 20, 3, 20, 0, 0, 0, 0, 0, 0x21, 0x6A, 0x31, 0x5C, 0x43, 0xBE, 0xB7, 0xE8]
  const CENTRAL_BACK: bytes :=
    [1, 0, 0, 0, 1, 0, 0, 0, 1, 0, 5, 0, 1, 0, 0, 0, 0, 0, 0, 0, 0xA4, 0x81, 0, 0, 0, 0]

  const END: bytes := [0x50, 0x4B, 5, 6, 0, 0, 0, 0, 1, 0, 1, 0, 53, 0, 0, 0, 37, 0, 0, 0, 1, 0]

  lemma Numbers()
    ensures Le(0, 2) == [0, 0] && Le(1, 2) == [1, 0] && Le(5, 2) == [5, 0] && Le(20, 2) == [20, 0] && Le(788, 2) == [20, 3]
    ensures Le(0x6A21, 2) == [0x21, 0x6A] && Le(0x5C31, 2) == [0x31, 0x5C] && Le(0x4D4B, 2) == [0x4B, 0x4D]
    ensures Le(0, 4) == [0, 0, 0, 0] && Le(1, 4) == [1, 0, 0, 0] && Le(53, 4) == [53, 0, 0, 0] && Le(37, 4) == [37, 0, 0, 0]
    ensures Le(0xE8B7_BE43, 4) == [0x43, 0xBE, 0xB7, 0xE8] && Le(0x81A4_0000, 4) == [0, 0, 0xA4, 0x81]
  {
    hide Le;
    Two(0, 0); Two(1, 0); Two(5, 0); Two(20, 0); Two(20, 3); Two(0x21, 0x6A); Two(0x31, 0x5C); Two(0x4B, 0x4D);
    Four(0, 0, 0, 0); Four(1, 0, 0, 0); Four(53, 0, 0, 0); Four(37, 0, 0, 0);
    Four(0x43, 0xBE, 0xB7, 0xE8); Four(0, 0, 0xA4, 0x81);
  }

  lemma ExampleExtras()
    ensures var cf := Example();
            && WriterExtras(cf, false, 0) == cf.extraFields && WriterExtras(cf, true, 0) == cf.extraFields
            && ExtraBytes(cf.extraFields) == FIELD
  {
    hide Le;
    Numbers();
    var cf := Example();
    var f := cf.extraFields[0];
    assert [f][1..] == [];
    assert !Aes(cf) && DropField([], EF_WINZIP_AES) == [];
    assert DropField([f], EF_WINZIP_AES) == [f] + [] && DropField([f], EXTRA_FIELD_ZIP64) == [f] + [];
    assert UserExtras(cf) == [f] && AesExtras(cf) == [];
    assert Overflow(WriterSizes(cf, false, 0)) == [] && Overflow(WriterSizes(cf, true, 0)) == [];
    assert ExtraFieldBytes(f) + [] == FIELD;
  }

  // Fields one after the other, byte by byte.
  lemma HeadBytes(m: bytes, a: bytes, b: bytes, c: bytes, d: bytes, e: bytes, f: bytes, g: bytes)
    requires |m| == |g| == 4 && |a| == |b| == |c| == |d| == |e| == |f| == 2
    ensures m + a + b + c + d + e + f + g ==
              [m[0], m[1], m[2], m[3], a[0], a[1], b[0], b[1], c[0], c[1], d[0], d[1],
               e[0], e[1], f[0], f[1], g[0], g[1], g[2], g[3]]
  {}

  lemma TailBytes(a: bytes, b: bytes, c: bytes, d: bytes, e: bytes, f: bytes, g: bytes, h: bytes, i: bytes)
    requires |a| == |b| == |h| == |i| == 4 && |c| == |d| == |e| == |f| == |g| == 2
    ensures a + b + c + d + e + f + g + h + i ==
              [a[0], a[1], a[2], a[3], b[0], b[1], b[2], b[3], c[0], c[1], d[0], d[1],
               e[0], e[1], f[0], f[1], g[0], g[1], h[0], h[1], h[2], h[3], i[0], i[1],
               i[2], i[3]]
  {}

  lemma LocalIs()
    ensures LocalFixed(Example()) == LOCAL_FRONT + LOCAL_MIDDLE + LOCAL_BACK && Descriptor(Example()) == []
  {
    hide Le, WriterExtras, ExtraBytes;
    Numbers();
    ExampleExtras();
    var m, v, z := LOCAL_MAGIC, Le(20, 2), Le(0, 2);
    assert m + v + z + z == LOCAL_FRONT;
    assert Le(0x6A21, 2) + Le(0x5C31, 2) + Le(0xE8B7_BE43, 4) == LOCAL_MIDDLE;
    assert Le(1, 4) + Le(1, 4) + Le(1, 2) + Le(5, 2) == LOCAL_BACK;
    Regroup(m + v + z + z, Le(0x6A21, 2), Le(0x5C31, 2), Le(0xE8B7_BE43, 4), Le(1, 4), Le(1, 4), Le(1, 2), Le(5, 2));
  }

  lemma Regroup(p: bytes, a: bytes, b: bytes, c: bytes, d: bytes, e: bytes, f: bytes, g: bytes)
    ensures p + a + b + c + d + e + f + g == p + (a + b + c) + (d + e + f + g)
  {}

  lemma CentralHeadIs()
    ensures CentralHead(Example(), 0) == CENTRAL_FRONT
  {
    hide Le;
    Numbers();
    HeadBytes(CENTRAL_MAGIC, Le(788, 2), Le(20, 2), Le(0, 2), Le(0, 2), Le(0x6A21, 2), Le(0x5C31, 2), Le(0xE8B7_BE43, 4));
  }

  lemma CentralTailIs()
    ensures CentralTail(Example(), 0) == CENTRAL_BACK
  {
    hide Le, WriterExtras, ExtraBytes;
    Numbers();
    ExampleExtras();
    TailBytes(Le(1, 4), Le(1, 4), Le(1, 2), Le(5, 2), Le(1, 2), Le(0, 2), Le(0, 2), Le(0x81A4_0000, 4), Le(0, 4));
  }

  lemma EndIs()
    ensures EocdFixed(1, 53, 37, 1) == END
  {
    hide Le;
    Numbers();
    assert Le(53, 4) + Le(37, 4) + Le(1, 2) == [53, 0, 0, 0, 37, 0, 0, 0, 1, 0];
    assert EOCD_MAGIC + Le(0, 2) + Le(0, 2) + Le(1, 2) + Le(1, 2) == END[..12];
  }

  /** The whole archive, byte for byte (sections 4.3.7, 4.3.12 and 4.3.16 of APPNOTE.TXT). */
  lemma ExampleArchive()
    ensures Fits([Example()]) && WriteArchive([Example()], [0x7A]).Ok?
    ensures WriteArchive([Example()], [0x7A]).value ==
              (LOCAL_FRONT + LOCAL_MIDDLE + LOCAL_BACK + [0x61] + FIELD + [0x61])
              + (CENTRAL_FRONT + CENTRAL_BACK + [0x61] + FIELD + [0x63])
              + (END + [0x7A])
  {
    hide Le, WriterExtras, ExtraBytes, LocalFixed, CentralHead, CentralTail, Descriptor, EocdFixed;
    ExampleExtras();
    LocalIs(); CentralHeadIs(); CentralTailIs(); EndIs();
    var cf := Example();
    var files := [cf];
    assert files[..0] == [];
    assert LOCAL_FRONT + LOCAL_MIDDLE + LOCAL_BACK + [0x61] + FIELD + [0x61] + [] == Block(cf);
    assert CentralEntry(cf, 0) == CENTRAL_FRONT + CENTRAL_BACK + [0x61] + FIELD + [0x63];
    assert Body(files) == [] + Block(cf) && CentralEntries(files) == [] + CentralEntry(cf, 0);
    assert !AnyZip64(files[..0]) && !EntryZip64(files[0], |Body(files[..0])|);
    assert |Body(files)| == 37 && |CentralEntries(files)| == 53 && !ArchiveZip64(files);
    assert AllWritable(files[..0]);
  }

  lemma Eocd64Parts(m: bytes, a: bytes, b: bytes, c: bytes, d: bytes, e: bytes, f: bytes, g: bytes, h: bytes, i: bytes)
    requires |m| == |d| == |e| == 4 && |b| == |c| == 2 && |a| == |f| == |g| == |h| == |i| == 8
    ensures var s := m + a + b + c + d + e + f + g + h + i;
            && s[..4] == m && s[4..12] == a && s[12..14] == b && s[14..16] == c && s[16..20] == d && s[20..24] == e
            && s[24..32] == f && s[32..40] == g && s[40..48] == h && s[48..56] == i
  {}

  /** The ZIP64 end record and its locator, field by field (sections 4.3.14 and 4.3.15 of APPNOTE.TXT). */
  lemma Zip64RecordsSay(n: u64, size: u64, offset: u64, at: u64)
    ensures var e := Eocd64(n, size, offset);
            && e[..4] == [0x50, 0x4B, 6, 6] && U64(e, 4) == 44 && U16(e, 12) == 45 && U16(e, 14) == 45
            && U32(e, 16) == 0 && U32(e, 20) == 0 && U64(e, 24) == n && U64(e, 32) == n && U64(e, 40) == size
            && U64(e, 48) == offset
    ensures var l := Locator(at);
            l[..4] == [0x50, 0x4B, 6, 7] && U32(l, 4) == 0 && U64(l, 8) == at && U32(l, 16) == 1
  {
    hide Le, U16, U32, U64;
    var e, l := Eocd64(n, size, offset), Locator(at);
    Eocd64Parts(EOCD64_MAGIC, Le(44, 8), Le(45, 2), Le(45, 2), Le(0, 4), Le(0, 4), Le(n, 8), Le(n, 8), Le(size, 8),
                Le(offset, 8));
    U64At(e, 4, 44); U16At(e, 12, 45); U16At(e, 14, 45); U32At(e, 16, 0); U32At(e, 20, 0);
    U64At(e, 24, n); U64At(e, 32, n); U64At(e, 40, size); U64At(e, 48, offset);
    assert l[4..8] == Le(0, 4) && l[8..16] == Le(at, 8) && l[16..20] == Le(1, 4);
    U32At(l, 4, 0); U64At(l, 8, at); U32At(l, 16, 1);
  }

  // ----- the two headers of an entry -----

  /** Flags, method, time, date and CRC, then the name, are the same bytes in both headers of an entry. */
  lemma HeadersAgree(cf: CompressedFile, offset: u64)
    requires CompSize(cf) <= U64_MAX
    ensures var local, central := Block(cf), CentralEntry(cf, offset);
            && local[6..18] == central[8..20]
            && local[26..28] == central[28..30] && local[30..30 + |cf.name|] == central[46..46 + |cf.name|] == cf.name
  {
    hide Le, LocalExtra, CentralExtra, Descriptor, StoredCrc, Flags, OnDisk, VersionNeeded;
    var l, h, t := LocalFixed(cf), CentralHead(cf, offset), CentralTail(cf, offset);
    FiveParts(l, cf.name, LocalExtra(cf), cf.data, Descriptor(cf));
    FiveParts(h, t, cf.name, CentralExtra(cf, offset), Comment(cf));
    var same := Le(Flags(cf), 2) + Le(OnDisk(cf), 2) + Le(cf.lastModTime, 2) + Le(cf.lastModDate, 2) + Le(StoredCrc(cf), 4);
    assert l[6..18] == same && h[8..20] == same;
    assert l[26..28] == Le(|cf.name|, 2) && t[8..10] == Le(|cf.name|, 2);
    var local, central := Block(cf), CentralEntry(cf, offset);
    assert local[6..18] == local[0..30][6..18] && local[26..28] == local[0..30][26..28];
    assert central[8..20] == central[0..20][8..20] && central[28..30] == central[20..46][8..10];
  }

  /** An AES entry ends in a descriptor: its signature, no CRC, and both sizes in four bytes each, or in eight each when
      one of them needs them (section 4.3.9 of APPNOTE.TXT). Other entries end with their data. */
  lemma DescriptorSays(cf: CompressedFile)
    requires CompSize(cf) <= U64_MAX
    ensures cf.encryptionMethod < 0x0101 || cf.encryptionMethod > 0x0103 ==> Descriptor(cf) == []
    ensures 0x0101 <= cf.encryptionMethod <= 0x0103 ==>
              var d := Descriptor(cf);
              && |d| >= 8 && d[..4] == [0x50, 0x4B, 7, 8] && d[4..8] == [0, 0, 0, 0]
              && if CompSize(cf) > 0xFFFF_FFFF || cf.uncompSize > 0xFFFF_FFFF
                 then |d| == 24 && U64(d, 8) == |cf.data| && U64(d, 16) == cf.uncompSize
                 else |d| == 16 && U32(d, 8) == |cf.data| && U32(d, 12) == cf.uncompSize
  {
    hide Le, FromLe;
    Four(0, 0, 0, 0);
    if Aes(cf) {
      var d, k := Descriptor(cf), if NeedsZip64Sizes(cf) then 8 else 4;
      assert d[8..8 + k] == Le(CompSize(cf), k) && d[8 + k..8 + 2 * k] == Le(cf.uncompSize, k);
      if NeedsZip64Sizes(cf) {
        U64At(d, 8, CompSize(cf)); U64At(d, 16, cf.uncompSize);
      } else {
        U32At(d, 8, CompSize(cf)); U32At(d, 12, cf.uncompSize);
      }
    }
  }
}
