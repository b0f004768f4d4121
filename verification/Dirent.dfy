/** Directory entries: the extra-field block, the ZIP64 overlay, and the central record in both directions. */
module Dirents {
  import opened Bytes

  const CENTRAL_MAGIC: bytes := [0x50, 0x4B, 0x01, 0x02]
  const CENTRAL_SIZE := 46

  const EXTRA_FIELD_ZIP64: u16 := 0x0001
  const EF_WINZIP_AES: u16 := 0x9901
  const EF_WINZIP_AES_SIZE := 7
  const ZIP_CM_WINZIP_AES: u16 := 99

  const FLAG_ENCRYPTED: u16 := 0x0001
  const FLAG_DATA_DESCRIPTOR: u16 := 0x0008

  const ENC_NONE: u16 := 0
  const ENC_TRAD_PKWARE: u16 := 1
  const ENC_AES_128: u16 := 0x0101
  const ENC_AES_192: u16 := 0x0102
  const ENC_AES_256: u16 := 0x0103
  const ENC_UNKNOWN: u16 := 0xFFFF

  datatype Method = Store | Deflate | Bzip2 | Unsupported(v: int)

  function MethodFromU16(v: u16): Method {
    if v == 0 then Store else if v == 8 then Deflate else if v == 12 then Bzip2 else Unsupported(v)
  }

  // The cast of the preserved `i32` keeps its low 16 bits.
  function MethodToU16(m: Method): u16 {
    match m
    case Store => 0
    case Deflate => 8
    case Bzip2 => 12
    case Unsupported(v) => v % 0x1_0000
  }

  predicate IsAes(enc: u16) {
    enc == ENC_AES_128 || enc == ENC_AES_192 || enc == ENC_AES_256
  }

  function AesStrength(enc: u16): byte {
    if enc == ENC_AES_128 then 1 else if enc == ENC_AES_192 then 2 else if enc == ENC_AES_256 then 3 else 0
  }

  function AesFromStrength(s: byte): u16 {
    if s == 1 then ENC_AES_128 else if s == 2 then ENC_AES_192 else if s == 3 then ENC_AES_256 else ENC_UNKNOWN
  }

  datatype ExtraField = ExtraField(id: u16, data: bytes)

  /** A parsed entry. Names and comments are kept as bytes. */
  datatype Dirent = Dirent(
    versionMadeBy: u16, versionNeeded: u16, bitflags: u16, compMethod: Method,
    lastModTime: u16, lastModDate: u16, crc: u32, sizes: Sizes,
    filename: bytes, comment: bytes, intAttrib: u16, extAttrib: u32,
    encryptionMethod: u16, crcValid: bool, extraFields: seq<ExtraField>)

  /** The four quantities that a ZIP64 field can widen. */
  datatype Sizes = Sizes(uncomp: u64, comp: u64, offset: u64, disk: u32)

  // ----- extra-field block -----

  function ExtraFieldBytes(f: ExtraField): bytes {
    Le(f.id, 2) + Le(|f.data|, 2) + f.data
  }

  function ExtraBytes(fields: seq<ExtraField>): bytes {
    if fields == [] then [] else ExtraFieldBytes(fields[0]) + ExtraBytes(fields[1..])
  }

  lemma NoFields()
    ensures ExtraBytes([]) == []
  {}

  lemma {:induction false} ExtraBytesConcat(a: seq<ExtraField>, b: seq<ExtraField>)
    ensures ExtraBytes(a + b) == ExtraBytes(a) + ExtraBytes(b)
  {
    hide ExtraFieldBytes, Le;
    if a == [] {
      assert a + b == b;
    } else {
      ExtraBytesConcat(a[1..], b);
      assert (a + b)[1..] == a[1..] + b && (a + b)[0] == a[0];
      var f := ExtraFieldBytes(a[0]);
      assert f + (ExtraBytes(a[1..]) + ExtraBytes(b)) == f + ExtraBytes(a[1..]) + ExtraBytes(b);
    }
  }

  function ParseExtra(raw: bytes): Result<seq<ExtraField>> {
    if |raw| < 4 then Ok([])
    else
      var len := U16(raw, 2);
      if 4 + len > |raw| then Err(Incons)
      else
        var rest := ParseExtra(raw[4 + len..]);
        if rest.Err? then rest else Ok([ExtraField(U16(raw, 0), raw[4..4 + len])] + rest.value)
  }

  predicate Encodable(fields: seq<ExtraField>) {
    forall f <- fields :: |f.data| <= U16_MAX
  }

  lemma {:induction false} ShortBlockIsEncodable(fields: seq<ExtraField>)
    requires |ExtraBytes(fields)| <= U16_MAX
    ensures Encodable(fields)
  {
    if fields != [] {
      ShortBlockIsEncodable(fields[1..]);
      assert fields == [fields[0]] + fields[1..];
    }
  }

  lemma FirstField(f: ExtraField, rest: bytes)
    requires |f.data| <= U16_MAX
    ensures var raw := ExtraFieldBytes(f) + rest;
            && U16(raw, 0) == f.id && U16(raw, 2) == |f.data|
            && raw[4..4 + |f.data|] == f.data && raw[4 + |f.data|..] == rest
  {
    hide Le, FromLe;
    var raw := ExtraFieldBytes(f) + rest;
    assert raw[0..2] == Le(f.id, 2);
    assert raw[2..4] == Le(|f.data|, 2);
    U16At(raw, 0, f.id);
    U16At(raw, 2, |f.data|);
  }

  /** Printing then parsing a block is the identity, and a tail too short for a header is ignored. */
  lemma {:induction false} ExtraRoundTrip(fields: seq<ExtraField>, tail: bytes)
    requires Encodable(fields) && |tail| < 4
    ensures ParseExtra(ExtraBytes(fields) + tail) == Ok(fields)
  {
    hide FromLe, ExtraFieldBytes;
    if fields == [] {
      assert [] + tail == tail;
    } else {
      var f, rest := fields[0], ExtraBytes(fields[1..]) + tail;
      FirstField(f, rest);
      FieldLength(f);
      ExtraRoundTrip(fields[1..], tail);
      assert ExtraBytes(fields) + tail == ExtraFieldBytes(f) + rest;
      assert fields == [f] + fields[1..];
    }
  }

  lemma FieldLength(f: ExtraField)
    ensures |ExtraFieldBytes(f)| == 4 + |f.data|
  {
    hide Le;
  }

  /** Conversely a block that parses is the printed fields plus at most three ignored bytes. */
  lemma {:induction false} ParsedExtraReprints(raw: bytes)
    requires ParseExtra(raw).Ok?
    ensures var fs := ParseExtra(raw).value;
            Encodable(fs) && ExtraBytes(fs) <= raw && |raw| - |ExtraBytes(fs)| < 4
  {
    if |raw| >= 4 {
      var len := U16(raw, 2);
      ParsedExtraReprints(raw[4 + len..]);
      var fs := ParseExtra(raw).value;
      EncodeDecode(raw[0..2]);
      EncodeDecode(raw[2..4]);
      assert fs[1..] == ParseExtra(raw[4 + len..]).value;
      assert ExtraFieldBytes(fs[0]) == raw[..4 + len];
      assert raw == raw[..4 + len] + raw[4 + len..];
    }
  }

  function FindField(fields: seq<ExtraField>, id: u16): Option<bytes> {
    if fields == [] then None
    else if fields[0].id == id then Some(fields[0].data)
    else FindField(fields[1..], id)
  }

  function DropField(fields: seq<ExtraField>, id: u16): seq<ExtraField> {
    if fields == [] then []
    else if fields[0].id == id then DropField(fields[1..], id)
    else [fields[0]] + DropField(fields[1..], id)
  }

  lemma {:induction false} FindConcat(a: seq<ExtraField>, b: seq<ExtraField>, id: u16)
    ensures FindField(a + b, id) == if FindField(a, id).Some? then FindField(a, id) else FindField(b, id)
  {
    if a == [] {
      assert a + b == b;
    } else {
      FindConcat(a[1..], b, id);
      assert (a + b)[1..] == a[1..] + b;
    }
  }

  lemma {:induction false} FindAfterDrop(fields: seq<ExtraField>, id: u16, other: u16)
    ensures FindField(DropField(fields, id), other) == if other == id then None else FindField(fields, other)
  {
    if fields != [] {
      FindAfterDrop(fields[1..], id, other);
      var kept := [fields[0]] + DropField(fields[1..], id);
      assert kept[1..] == DropField(fields[1..], id);
    }
  }

  lemma {:induction false} DropAbsent(fields: seq<ExtraField>, id: u16)
    requires FindField(fields, id).None?
    ensures DropField(fields, id) == fields
  {
    if fields != [] {
      DropAbsent(fields[1..], id);
      assert fields == [fields[0]] + fields[1..];
    }
  }

  lemma {:induction false} DropConcat(a: seq<ExtraField>, b: seq<ExtraField>, id: u16)
    ensures DropField(a + b, id) == DropField(a, id) + DropField(b, id)
  {
    if a == [] {
      assert a + b == b;
    } else {
      DropConcat(a[1..], b, id);
      assert (a + b)[1..] == a[1..] + b && (a + b)[0] == a[0];
      assert DropField(a + b, id) == if a[0].id == id then DropField(a[1..] + b, id) else [a[0]] + DropField(a[1..] + b, id);
    }
  }

  // ----- the ZIP64 overlay -----

  // 32-bit (16-bit for the disk) value printed for a quantity: itself, or the sentinel when it overflows.
  function Print32(v: u64): u32 { if v > U32_MAX then U32_MAX else v }

  function Print16(v: u32): u16 { if v > U16_MAX then U16_MAX else v }

  function Printed(s: Sizes): Sizes {
    Sizes(Print32(s.uncomp), Print32(s.comp), Print32(s.offset), Print16(s.disk))
  }

  predicate NeedsZip64(s: Sizes) {
    s.comp > U32_MAX || s.uncomp > U32_MAX || s.offset > U32_MAX || s.disk > U16_MAX
  }

  /** Some quantity is exactly the value that its own field reserves as the sentinel. */
  predicate AtSentinel(s: Sizes) {
    s.comp == U32_MAX || s.uncomp == U32_MAX || s.offset == U32_MAX || s.disk == U16_MAX
  }

  function Opt(present: bool, v: nat, k: nat): bytes { if present then Le(v, k) else [] }

  /** What `build_zip64_extra` stores: the quantities that overflow. */
  function Overflow(s: Sizes): bytes {
    Opt(s.uncomp > U32_MAX, s.uncomp, 8) + (Opt(s.comp > U32_MAX, s.comp, 8)
    + (Opt(s.offset > U32_MAX, s.offset, 8) + Opt(s.disk > U16_MAX, s.disk, 4)))
  }

  /** What the reader looks for: the quantities whose printed field holds the sentinel. */
  function Marked(s: Sizes): bytes {
    Opt(s.uncomp >= U32_MAX, s.uncomp, 8) + (Opt(s.comp >= U32_MAX, s.comp, 8)
    + (Opt(s.offset >= U32_MAX, s.offset, 8) + Opt(s.disk >= U16_MAX, s.disk, 4)))
  }

  /** One optional field of the overlay: taken from the front of `z` when the printed field is the sentinel. */
  function Take(marked: bool, v: nat, z: bytes, k: nat): Result<(nat, bytes)> {
    if !marked then Ok((v, z))
    else if |z| < k then Err(Incons)
    else Ok((FromLe(z[..k]), z[k..]))
  }

  function Overlay(p: Sizes, z: bytes): Result<Sizes> {
    var u := Take(p.uncomp == U32_MAX, p.uncomp, z, 8);
    if u.Err? then Err(u.error) else
    var c := Take(p.comp == U32_MAX, p.comp, u.value.1, 8);
    if c.Err? then Err(c.error) else
    var o := Take(p.offset == U32_MAX, p.offset, c.value.1, 8);
    if o.Err? then Err(o.error) else
    var d := Take(p.disk == U16_MAX, p.disk, o.value.1, 4);
    if d.Err? then Err(d.error) else
    TakeWidth(p.uncomp == U32_MAX, p.uncomp, z, 8); TakeWidth(p.comp == U32_MAX, p.comp, u.value.1, 8);
    TakeWidth(p.offset == U32_MAX, p.offset, c.value.1, 8); TakeWidth(p.disk == U16_MAX, p.disk, o.value.1, 4);
    Widths();
    Ok(Sizes(u.value.0, c.value.0, o.value.0, d.value.0))
  }

  lemma TakeWidth(marked: bool, v: nat, z: bytes, k: nat)
    requires v < Pow256(k)
    ensures var r := Take(marked, v, z, k); r.Ok? ==> r.value.0 < Pow256(k)
  {
    if marked && |z| >= k { FromLeBound(z[..k]); }
  }

  /** Taking one field gives back `v` exactly when `z` starts with its encoding. */
  lemma TakeExact(marked: bool, v: nat, z: bytes, k: nat)
    requires v < Pow256(k)
    ensures marked && |z| >= k ==> (Take(marked, v, z, k).value.0 == v <==> z[..k] == Le(v, k))
  {
    if marked && |z| >= k {
      EncodeDecode(z[..k]);
      DecodeEncode(v, k);
    }
  }

  /** The overlay fails exactly when the field is shorter than the marked quantities need, and restores
      the true sizes exactly when the field starts with them. */
  lemma OverlayExact(s: Sizes, z: bytes)
    ensures Overlay(Printed(s), z).Err? <==> |z| < |Marked(s)|
    ensures Overlay(Printed(s), z).Err? ==> Overlay(Printed(s), z).error == Incons
    ensures Overlay(Printed(s), z) == Ok(s) <==> Marked(s) <= z
  {
    hide Le, FromLe;
    Widths();
    var a := Opt(s.uncomp >= U32_MAX, s.uncomp, 8);
    var b := Opt(s.comp >= U32_MAX, s.comp, 8);
    var c := Opt(s.offset >= U32_MAX, s.offset, 8);
    var d := Opt(s.disk >= U16_MAX, s.disk, 4);
    if |z| >= |Marked(s)| {
      var z1 := z[|a|..];
      var z2 := z1[|b|..];
      var z3 := z2[|c|..];
      TakeExact(s.uncomp >= U32_MAX, s.uncomp, z, 8);
      TakeExact(s.comp >= U32_MAX, s.comp, z1, 8);
      TakeExact(s.offset >= U32_MAX, s.offset, z2, 8);
      TakeExact(s.disk >= U16_MAX, s.disk, z3, 4);
      PrefixSplit(a, b + (c + d), z);
      PrefixSplit(b, c + d, z1);
      PrefixSplit(c, d, z2);
    }
  }

  lemma PrefixSplit(a: bytes, m: bytes, z: bytes)
    requires |a| + |m| <= |z|
    ensures a + m <= z <==> a == z[..|a|] && m <= z[|a|..]
  {
    if a + m <= z {
      assert z[..|a|] == (a + m)[..|a|];
      assert z[|a|..][..|m|] == (a + m)[|a|..];
    }
  }

  /** A freshly built ZIP64 field restores the sizes it was built from exactly when none is at its sentinel. */
  lemma FreshOverlay(s: Sizes)
    ensures |Overflow(s)| < |Marked(s)| <==> AtSentinel(s)
    ensures !AtSentinel(s) ==> Overflow(s) == Marked(s)
  {}

  // ----- the central record -----

  /** `(encryption, actual method, AE version)` of the first 0x9901 field, if it is well formed. */
  function ParseAes(fields: seq<ExtraField>): Option<(u16, Method, u16)> {
    match FindField(fields, EF_WINZIP_AES)
    case None => None
    case Some(data) =>
      if |data| < EF_WINZIP_AES_SIZE || data[2] != 0x41 || data[3] != 0x45 || AesFromStrength(data[4]) == ENC_UNKNOWN
      then None
      else Some((AesFromStrength(data[4]), MethodFromU16(U16(data, 5)), U16(data, 0)))
  }

  predicate HasEncryptedBit(flags: u16) { flags % 2 == 1 }

  predicate HasStrongBit(flags: u16) { (flags / 0x40) % 2 == 1 }

  /** Method, encryption and CRC validity, resolved from the raw method, the flags and the extra fields. */
  function Resolve(raw: u16, flags: u16, fields: seq<ExtraField>): (Method, u16, bool) {
    if raw == ZIP_CM_WINZIP_AES then
      match ParseAes(fields)
      case Some(a) => (a.1, a.0, a.2 == 1)
      case None => (Unsupported(ZIP_CM_WINZIP_AES), ENC_UNKNOWN, false)
    else
      (MethodFromU16(raw),
       if !HasEncryptedBit(flags) then ENC_NONE else if HasStrongBit(flags) then ENC_UNKNOWN else ENC_TRAD_PKWARE,
       true)
  }

  /** Path traversal guard: a `..` anywhere, or a leading slash or backslash. */
  predicate UnsafeName(name: bytes) {
    || (exists i :: 0 <= i < |name| - 1 && name[i] == 0x2E && name[i + 1] == 0x2E)
    || (|name| > 0 && (name[0] == 0x2F || name[0] == 0x5C))
  }

  /** The record at `p`, read at the offsets of section 4.3.12 of APPNOTE.TXT, and the position after it. */
  function ParseCentral(b: bytes, p: nat): (r: Result<(Dirent, nat)>)
    ensures r.Ok? ==> p + CENTRAL_SIZE <= r.value.1 <= |b|
  {
    if p + CENTRAL_SIZE > |b| || b[p..p + 4] != CENTRAL_MAGIC then Err(Nozip)
    else
      var nameAt := p + CENTRAL_SIZE;
      var extraAt := nameAt + U16(b, p + 28);
      var commentAt := extraAt + U16(b, p + 30);
      var end := commentAt + U16(b, p + 32);
      if end > |b| then Err(Eof)
      else
        var fields := ParseExtra(b[extraAt..commentAt]);
        if fields.Err? then Err(fields.error)
        else
          var raw := Sizes(U32(b, p + 24), U32(b, p + 20), U32(b, p + 42), U16(b, p + 34));
          var z := FindField(fields.value, EXTRA_FIELD_ZIP64);
          var sizes := if z.Some? then Overlay(raw, z.value) else Ok(raw);
          if sizes.Err? then Err(sizes.error)
          else
            var m := Resolve(U16(b, p + 10), U16(b, p + 8), fields.value);
            if UnsafeName(b[nameAt..extraAt]) then Err(Incons)
            else
              Ok((Dirent(U16(b, p + 4), U16(b, p + 6), U16(b, p + 8), m.0, U16(b, p + 12), U16(b, p + 14),
                         U32(b, p + 16), sizes.value, b[nameAt..extraAt], b[commentAt..end],
                         U16(b, p + 36), U32(b, p + 38), m.1, m.2, fields.value),
                  end))
  }

  function OnDiskMethod(d: Dirent): u16 {
    if IsAes(d.encryptionMethod) then ZIP_CM_WINZIP_AES else MethodToU16(d.compMethod)
  }

  /** The extra fields a record is printed with: verbatim, or with a regenerated ZIP64 field at the end. */
  function PrintedExtras(d: Dirent): seq<ExtraField> {
    if NeedsZip64(d.sizes)
    then DropField(d.extraFields, EXTRA_FIELD_ZIP64) + [ExtraField(EXTRA_FIELD_ZIP64, Overflow(d.sizes))]
    else d.extraFields
  }

  /** Bytes 0..20 of the record: identity and times. */
  function RecordHead(d: Dirent): (s: bytes)
    ensures |s| == 20
  {
    CENTRAL_MAGIC + Le(d.versionMadeBy, 2) + Le(d.versionNeeded, 2) + Le(d.bitflags, 2) + Le(OnDiskMethod(d), 2)
    + Le(d.lastModTime, 2) + Le(d.lastModDate, 2) + Le(d.crc, 4)
  }

  /** Bytes 20..46 of the record: sizes, lengths, attributes and offset. */
  function RecordTail(d: Dirent): (s: bytes)
    ensures |s| == 26
  {
    Le(Print32(d.sizes.comp), 4) + Le(Print32(d.sizes.uncomp), 4)
    + Le(|d.filename|, 2) + Le(|ExtraBytes(PrintedExtras(d))|, 2) + Le(|d.comment|, 2)
    + Le(Print16(d.sizes.disk), 2) + Le(d.intAttrib, 2) + Le(d.extAttrib, 4) + Le(Print32(d.sizes.offset), 4)
  }

  function RecordBytes(d: Dirent): (s: bytes)
    ensures |s| == RecordLength(d)
  {
    RecordHead(d) + RecordTail(d) + d.filename + ExtraBytes(PrintedExtras(d)) + d.comment
  }

  /** Every length fits its 16-bit field, so the record can be printed. */
  predicate Printable(d: Dirent) {
    |d.filename| <= U16_MAX && |ExtraBytes(PrintedExtras(d))| <= U16_MAX && |d.comment| <= U16_MAX
  }

  function CentralRecord(d: Dirent): Result<bytes> {
    if Printable(d) then Ok(RecordBytes(d)) else Err(Eftoolarge)
  }

  /** The derived fields agree with what the record says, as they do in everything the parser returns. */
  predicate Coherent(d: Dirent) {
    (d.compMethod, d.encryptionMethod, d.crcValid) == Resolve(OnDiskMethod(d), d.bitflags, d.extraFields)
  }

  /** The entry with the extra fields it is printed with. */
  function Regenerated(d: Dirent): Dirent { d.(extraFields := PrintedExtras(d)) }

  /** No printed field reads back as something else: there is no ZIP64 field to misread, or it starts with
      exactly the quantities whose printed field is the sentinel. */
  predicate Unambiguous(d: Dirent) {
    var z := FindField(PrintedExtras(d), EXTRA_FIELD_ZIP64);
    z.None? || Marked(d.sizes) <= z.value
  }

  lemma HeadParts(m: bytes, a: bytes, b: bytes, c: bytes, d: bytes, e: bytes, f: bytes, g: bytes)
    requires |m| == 4 && |a| == |b| == |c| == |d| == |e| == |f| == 2 && |g| == 4
    ensures var h := m + a + b + c + d + e + f + g;
            && h[0..4] == m && h[4..6] == a && h[6..8] == b && h[8..10] == c && h[10..12] == d && h[12..14] == e
            && h[14..16] == f && h[16..20] == g
  {}

  lemma HeadFields(b: bytes, p: nat, d: Dirent)
    requires p + 20 <= |b| && b[p..p + 20] == RecordHead(d)
    ensures b[p..p + 4] == CENTRAL_MAGIC
    ensures U16(b, p + 4) == d.versionMadeBy && U16(b, p + 6) == d.versionNeeded && U16(b, p + 8) == d.bitflags
    ensures U16(b, p + 10) == OnDiskMethod(d) && U16(b, p + 12) == d.lastModTime && U16(b, p + 14) == d.lastModDate
    ensures U32(b, p + 16) == d.crc
  {
    hide Le, U16, U32, OnDiskMethod;
    var h := RecordHead(d);
    HeadParts(CENTRAL_MAGIC, Le(d.versionMadeBy, 2), Le(d.versionNeeded, 2), Le(d.bitflags, 2), Le(OnDiskMethod(d), 2),
              Le(d.lastModTime, 2), Le(d.lastModDate, 2), Le(d.crc, 4));
    SubSlice(b, p, h, 0, 4); SubSlice(b, p, h, 4, 6); SubSlice(b, p, h, 6, 8); SubSlice(b, p, h, 8, 10);
    SubSlice(b, p, h, 10, 12); SubSlice(b, p, h, 12, 14); SubSlice(b, p, h, 14, 16); SubSlice(b, p, h, 16, 20);
    U16At(b, p + 4, d.versionMadeBy); U16At(b, p + 6, d.versionNeeded); U16At(b, p + 8, d.bitflags);
    U16At(b, p + 10, OnDiskMethod(d)); U16At(b, p + 12, d.lastModTime); U16At(b, p + 14, d.lastModDate);
    U32At(b, p + 16, d.crc);
  }

  lemma TailParts(a: bytes, b: bytes, c: bytes, d: bytes, e: bytes, f: bytes, g: bytes, h: bytes, i: bytes)
    requires |a| == |b| == |h| == |i| == 4 && |c| == |d| == |e| == |f| == |g| == 2
    ensures var t := a + b + c + d + e + f + g + h + i;
            && t[0..4] == a && t[4..8] == b && t[8..10] == c && t[10..12] == d && t[12..14] == e && t[14..16] == f
            && t[16..18] == g && t[18..22] == h && t[22..26] == i
  {}

  lemma TailFields(b: bytes, p: nat, d: Dirent)
    requires Printable(d) && p + 26 <= |b| && b[p..p + 26] == RecordTail(d)
    ensures U32(b, p) == Print32(d.sizes.comp) && U32(b, p + 4) == Print32(d.sizes.uncomp)
    ensures U16(b, p + 8) == |d.filename| && U16(b, p + 10) == |ExtraBytes(PrintedExtras(d))|
    ensures U16(b, p + 12) == |d.comment| && U16(b, p + 14) == Print16(d.sizes.disk)
    ensures U16(b, p + 16) == d.intAttrib && U32(b, p + 18) == d.extAttrib && U32(b, p + 22) == Print32(d.sizes.offset)
  {
    hide Le, U16, U32, ExtraBytes, PrintedExtras, Print32, Print16;
    var t := RecordTail(d);
    var ex := |ExtraBytes(PrintedExtras(d))|;
    TailParts(Le(Print32(d.sizes.comp), 4), Le(Print32(d.sizes.uncomp), 4), Le(|d.filename|, 2), Le(ex, 2),
              Le(|d.comment|, 2), Le(Print16(d.sizes.disk), 2), Le(d.intAttrib, 2), Le(d.extAttrib, 4),
              Le(Print32(d.sizes.offset), 4));
    SubSlice(b, p, t, 0, 4); SubSlice(b, p, t, 4, 8); SubSlice(b, p, t, 8, 10); SubSlice(b, p, t, 10, 12);
    SubSlice(b, p, t, 12, 14); SubSlice(b, p, t, 14, 16); SubSlice(b, p, t, 16, 18); SubSlice(b, p, t, 18, 22);
    SubSlice(b, p, t, 22, 26);
    U32At(b, p, Print32(d.sizes.comp)); U32At(b, p + 4, Print32(d.sizes.uncomp));
    U16At(b, p + 8, |d.filename|); U16At(b, p + 10, ex); U16At(b, p + 12, |d.comment|);
    U16At(b, p + 14, Print16(d.sizes.disk)); U16At(b, p + 16, d.intAttrib); U32At(b, p + 18, d.extAttrib);
    U32At(b, p + 22, Print32(d.sizes.offset));
  }

  /** The regenerated extra fields keep the first AES field, and hold the overflowing sizes when any overflows. */
  lemma PrintedExtrasKeepAes(d: Dirent)
    ensures ParseAes(PrintedExtras(d)) == ParseAes(d.extraFields)
    ensures NeedsZip64(d.sizes) ==> FindField(PrintedExtras(d), EXTRA_FIELD_ZIP64) == Some(Overflow(d.sizes))
  {
    if NeedsZip64(d.sizes) {
      var kept := DropField(d.extraFields, EXTRA_FIELD_ZIP64);
      var added := [ExtraField(EXTRA_FIELD_ZIP64, Overflow(d.sizes))];
      FindConcat(kept, added, EF_WINZIP_AES);
      FindConcat(kept, added, EXTRA_FIELD_ZIP64);
      FindAfterDrop(d.extraFields, EXTRA_FIELD_ZIP64, EF_WINZIP_AES);
      FindAfterDrop(d.extraFields, EXTRA_FIELD_ZIP64, EXTRA_FIELD_ZIP64);
      assert FindField(added[1..], EF_WINZIP_AES).None?;
    }
  }

  lemma RegeneratedPrintsTheSame(d: Dirent)
    ensures PrintedExtras(Regenerated(d)) == PrintedExtras(d)
    ensures RecordBytes(Regenerated(d)) == RecordBytes(d)
    ensures Coherent(d) ==> Coherent(Regenerated(d))
  {
    hide Le, ExtraBytes, Overflow, FindField, ParseAes;
    PrintedExtrasKeepAes(d);
    if NeedsZip64(d.sizes) {
      var kept := DropField(d.extraFields, EXTRA_FIELD_ZIP64);
      DropConcat(kept, [ExtraField(EXTRA_FIELD_ZIP64, Overflow(d.sizes))], EXTRA_FIELD_ZIP64);
      FindAfterDrop(d.extraFields, EXTRA_FIELD_ZIP64, EXTRA_FIELD_ZIP64);
      DropAbsent(kept, EXTRA_FIELD_ZIP64);
      assert kept + [] == kept;
    }
  }

  function RecordLength(d: Dirent): nat {
    CENTRAL_SIZE + |d.filename| + |ExtraBytes(PrintedExtras(d))| + |d.comment|
  }

  /** The fields of `d` as they are decoded from a record at `p`. */
  predicate FieldsAt(b: bytes, p: nat, d: Dirent) {
    && p + RecordLength(d) <= |b|
    && b[p..p + 4] == CENTRAL_MAGIC
    && U16(b, p + 4) == d.versionMadeBy && U16(b, p + 6) == d.versionNeeded && U16(b, p + 8) == d.bitflags
    && U16(b, p + 10) == OnDiskMethod(d) && U16(b, p + 12) == d.lastModTime && U16(b, p + 14) == d.lastModDate
    && U32(b, p + 16) == d.crc
    && U32(b, p + 20) == Print32(d.sizes.comp) && U32(b, p + 24) == Print32(d.sizes.uncomp)
    && U16(b, p + 28) == |d.filename| && U16(b, p + 30) == |ExtraBytes(PrintedExtras(d))|
    && U16(b, p + 32) == |d.comment| && U16(b, p + 34) == Print16(d.sizes.disk)
    && U16(b, p + 36) == d.intAttrib && U32(b, p + 38) == d.extAttrib && U32(b, p + 42) == Print32(d.sizes.offset)
    && var nameEnd := p + CENTRAL_SIZE + |d.filename|;
       var extraEnd := nameEnd + |ExtraBytes(PrintedExtras(d))|;
       && b[p + CENTRAL_SIZE..nameEnd] == d.filename
       && b[nameEnd..extraEnd] == ExtraBytes(PrintedExtras(d))
       && b[extraEnd..extraEnd + |d.comment|] == d.comment
  }

  lemma FiveParts(h: bytes, t: bytes, n: bytes, x: bytes, c: bytes)
    ensures var r := h + t + n + x + c;
            var i, j, k := |h| + |t|, |h| + |t| + |n|, |h| + |t| + |n| + |x|;
            r[0..|h|] == h && r[|h|..i] == t && r[i..j] == n && r[j..k] == x && r[k..|r|] == c
  {}

  lemma RecordParts(b: bytes, p: nat, d: Dirent)
    requires p + RecordLength(d) <= |b| && b[p..p + RecordLength(d)] == RecordBytes(d)
    ensures b[p..p + 20] == RecordHead(d) && b[p + 20..p + 46] == RecordTail(d)
    ensures var x := ExtraBytes(PrintedExtras(d));
            var n := p + 46 + |d.filename|;
            && b[p + 46..n] == d.filename && b[n..n + |x|] == x && b[n + |x|..n + |x| + |d.comment|] == d.comment
  {
    hide ExtraBytes, PrintedExtras, RecordHead, RecordTail;
    var rec, x := RecordBytes(d), ExtraBytes(PrintedExtras(d));
    var n, e := 46 + |d.filename|, 46 + |d.filename| + |x|;
    FiveParts(RecordHead(d), RecordTail(d), d.filename, x, d.comment);
    SubSlice(b, p, rec, 0, 20);
    SubSlice(b, p, rec, 20, 46);
    SubSlice(b, p, rec, 46, n);
    SubSlice(b, p, rec, n, e);
    SubSlice(b, p, rec, e, |rec|);
  }

  lemma RecordFields(b: bytes, p: nat, d: Dirent)
    requires Printable(d) && p + RecordLength(d) <= |b| && b[p..p + RecordLength(d)] == RecordBytes(d)
    ensures FieldsAt(b, p, d)
  {
    hide Le, FromLe, ExtraBytes, PrintedExtras, RecordHead, RecordTail, RecordBytes, U16, U32, OnDiskMethod, Print32, Print16;
    RecordParts(b, p, d);
    HeadFields(b, p, d);
    TailFields(b, p + 20, d);
    assert b[p..p + 4] == CENTRAL_MAGIC;
  }

  /** What the parser makes of the fields of a printed record: every field back, or an inconsistency. */
  lemma ParseFields(b: bytes, p: nat, d: Dirent)
    requires FieldsAt(b, p, d) && Coherent(d)
    ensures ParseCentral(b, p) == PrintedReadsAs(d, p)
  {
    hide Le, FromLe, ExtraBytes, ParseExtra, Overlay, UnsafeName, PrintedExtras, FindField, ParseAes;
    var pe := PrintedExtras(d);
    ShortBlockIsEncodable(pe);
    ExtraRoundTrip(pe, []);
    assert ExtraBytes(pe) + [] == ExtraBytes(pe);
    PrintedExtrasKeepAes(d);
  }

  function PrintedReadsAs(d: Dirent, p: nat): Result<(Dirent, nat)> {
    var z := FindField(PrintedExtras(d), EXTRA_FIELD_ZIP64);
    var sizes := if z.Some? then Overlay(Printed(d.sizes), z.value) else Ok(Printed(d.sizes));
    if sizes.Err? then Err(sizes.error)
    else if UnsafeName(d.filename) then Err(Incons)
    else Ok((Regenerated(d).(sizes := sizes.value), p + RecordLength(d)))
  }

  lemma ParsePrinted(pre: bytes, d: Dirent, post: bytes)
    requires Printable(d) && Coherent(d)
    ensures ParseCentral(pre + RecordBytes(d) + post, |pre|) == PrintedReadsAs(d, |pre|)
  {
    hide Le, ExtraBytes, Resolve, PrintedExtras, ParseCentral, RecordHead, RecordTail, FieldsAt;
    var rec := RecordBytes(d);
    assert (pre + rec + post)[|pre|..|pre| + |rec|] == rec;
    RecordFields(pre + rec + post, |pre|, d);
    ParseFields(pre + rec + post, |pre|, d);
  }

  /** Central record round trip under section 4.5.3 of APPNOTE.TXT, exactly: the printed record parses back to
      the entry with its regenerated extra fields if and only if the name is safe and no size is ambiguous.
      When some quantity overflows, ambiguous means exactly at its sentinel, and the record then fails to parse. */
  lemma CentralRoundTrip(pre: bytes, d: Dirent, post: bytes)
    requires Printable(d) && Coherent(d)
    ensures var r := ParseCentral(pre + RecordBytes(d) + post, |pre|);
            && (r == Ok((Regenerated(d), |pre| + |RecordBytes(d)|)) <==> !UnsafeName(d.filename) && Unambiguous(d))
            && (r.Err? ==> r.error == Incons)
            && (NeedsZip64(d.sizes) ==> (r.Err? <==> UnsafeName(d.filename) || AtSentinel(d.sizes)))
    ensures NeedsZip64(d.sizes) ==> (Unambiguous(d) <==> !AtSentinel(d.sizes))
  {
    hide Le, RecordBytes, ExtraBytes, PrintedExtras, FindField, Overlay, Overflow, Marked, ParseCentral, UnsafeName,
         Coherent;
    ParsePrinted(pre, d, post);
    PrintedExtrasKeepAes(d);
    FreshOverlay(d.sizes);
    var z := FindField(PrintedExtras(d), EXTRA_FIELD_ZIP64);
    if z.Some? { OverlayExact(d.sizes, z.value); }
  }

  /** The path traversal guard, byte by byte: a printed record whose name has two adjacent dots, or starts with a slash
      or a backslash, is rejected, whatever else it says. */
  lemma UnsafeIsRejected(pre: bytes, d: Dirent, post: bytes)
    requires Printable(d) && Coherent(d)
    requires || (exists i | 0 <= i < |d.filename| - 1 :: d.filename[i] == 0x2E && d.filename[i + 1] == 0x2E)
             || (d.filename != [] && (d.filename[0] == 0x2F || d.filename[0] == 0x5C))
    ensures ParseCentral(pre + RecordBytes(d) + post, |pre|) == Err(Incons)
  {
    hide Le, RecordBytes, ExtraBytes, PrintedExtras, FindField, Overlay, Overflow, Marked, ParseCentral, Coherent;
    CentralRoundTrip(pre, d, post);
    ParsePrinted(pre, d, post);
  }

  /** A printed record reads back as a different entry, without any error, exactly when a stale ZIP64 field is long
      enough for the marked quantities but does not start with them. */
  lemma MisreadExactly(d: Dirent, p: nat)
    ensures var r, z := PrintedReadsAs(d, p), FindField(PrintedExtras(d), EXTRA_FIELD_ZIP64);
            r.Ok? && r.value.0 != Regenerated(d) <==>
              !UnsafeName(d.filename) && z.Some? && |Marked(d.sizes)| <= |z.value| && !(Marked(d.sizes) <= z.value)
    ensures PrintedReadsAs(d, p).Ok? ==> PrintedReadsAs(d, p).value.1 == p + RecordLength(d)
    ensures PrintedReadsAs(d, p) == Ok((Regenerated(d), p + RecordLength(d))) <==> !UnsafeName(d.filename) && Unambiguous(d)
  {
    hide Le, PrintedExtras, FindField, Overlay, Overflow, Marked, UnsafeName;
    var z := FindField(PrintedExtras(d), EXTRA_FIELD_ZIP64);
    PrintedExtrasKeepAes(d);
    FreshOverlay(d.sizes);
    if z.Some? { OverlayExact(d.sizes, z.value); } else { NothingMarked(d.sizes); }
  }

  lemma NothingMarked(s: Sizes)
    ensures NeedsZip64(s) || AtSentinel(s) || Printed(s) == s
    ensures !NeedsZip64(s) ==> Printed(s) == s
  {}

  /** An entry without an overflow and without a quantity at its sentinel is never ambiguous. */
  lemma SmallIsUnambiguous(d: Dirent)
    requires !AtSentinel(d.sizes)
    ensures Unambiguous(d)
  {
    PrintedExtrasKeepAes(d);
    FreshOverlay(d.sizes);
  }

  lemma {:induction false} DropShortens(fields: seq<ExtraField>, id: u16)
    ensures |ExtraBytes(DropField(fields, id))| <= |ExtraBytes(fields)|
    ensures FindField(fields, id).Some? ==>
              |ExtraBytes(DropField(fields, id))| + 4 + |FindField(fields, id).value| <= |ExtraBytes(fields)|
  {
    if fields != [] {
      DropShortens(fields[1..], id);
      if fields[0].id != id {
        var kept := [fields[0]] + DropField(fields[1..], id);
        assert kept[1..] == DropField(fields[1..], id);
      }
    }
  }

  lemma OverlayCovers(p: Sizes, z: bytes)
    requires Printed(p) == p && Overlay(p, z).Ok?
    ensures |Overflow(Overlay(p, z).value)| <= |z|
  {
    hide Le, FromLe;
  }

  /** Regenerating the ZIP64 field never makes a parsed block longer than its 16-bit length allows. */
  lemma PrintedExtrasFit(raw: bytes, d: Dirent, p: Sizes)
    requires ParseExtra(raw) == Ok(d.extraFields) && |raw| <= U16_MAX && Printed(p) == p
    requires var z := FindField(d.extraFields, EXTRA_FIELD_ZIP64);
             Ok(d.sizes) == if z.Some? then Overlay(p, z.value) else Ok(p)
    ensures |ExtraBytes(PrintedExtras(d))| <= U16_MAX
  {
    hide Le, ParseExtra, DropField, FindField, Overlay, Overflow;
    ParsedExtraReprints(raw);
    if NeedsZip64(d.sizes) {
      OverlayCovers(p, FindField(d.extraFields, EXTRA_FIELD_ZIP64).value);
      DropShortens(d.extraFields, EXTRA_FIELD_ZIP64);
      var kept := DropField(d.extraFields, EXTRA_FIELD_ZIP64);
      var added := [ExtraField(EXTRA_FIELD_ZIP64, Overflow(d.sizes))];
      ExtraBytesConcat(kept, added);
      assert added[1..] == [];
      assert |ExtraBytes(added)| == 4 + |Overflow(d.sizes)|;
    }
  }

  lemma ResolvedIsCoherent(raw: u16, flags: u16, fields: seq<ExtraField>)
    ensures var m := Resolve(raw, flags, fields);
            raw == if IsAes(m.1) then ZIP_CM_WINZIP_AES else MethodToU16(m.0)
  {}

  /** Everything the parser accepts can be printed, is coherent and has a safe name. */
  lemma ParsedIsPrintable(b: bytes, p: nat)
    requires ParseCentral(b, p).Ok?
    ensures var d := ParseCentral(b, p).value.0; Printable(d) && Coherent(d) && !UnsafeName(d.filename)
  {
    hide Le, FromLe, ExtraBytes, ParseExtra, Overlay, Resolve, UnsafeName, PrintedExtras, FindField;
    var d := ParseCentral(b, p).value.0;
    var extraAt := p + CENTRAL_SIZE + U16(b, p + 28);
    var raw := Sizes(U32(b, p + 24), U32(b, p + 20), U32(b, p + 42), U16(b, p + 34));
    PrintedExtrasFit(b[extraAt..extraAt + U16(b, p + 30)], d, raw);
    ResolvedIsCoherent(U16(b, p + 10), d.bitflags, d.extraFields);
  }

  lemma {:induction false} FindIsFirst(fields: seq<ExtraField>, id: u16, k: nat)
    requires k <= |fields| && (forall j | 0 <= j < k :: fields[j].id != id) && (k < |fields| ==> fields[k].id == id)
    ensures FindField(fields, id) == if k < |fields| then Some(fields[k].data) else None
  {
    if k > 0 { FindIsFirst(fields[1..], id, k - 1); }
  }

  // A 16-bit number and its two bytes.
  lemma TwoBytes(b: bytes, p: nat)
    requires p + 2 <= |b|
    ensures U16(b, p) == b[p] as int + 256 * b[p + 1] as int
  {
    var s := b[p..p + 2];
    assert s[1..] == [b[p + 1]] && s[1..][1..] == [];
    assert FromLe(s[1..]) == b[p + 1] as int + 256 * FromLe(s[1..][1..]);
  }

  /** How a record is compressed and encrypted, from its numbers alone: methods 0, 8 and 12 are known; bit 0 of the flags
      means traditional encryption unless bit 6 is set too; method 99 defers to the first AES field (`k` is where
      it stands, or the number of fields), which must be an AE record of strength 1 to 3 and keeps a CRC only in version 1. */
  lemma MethodsRead(b: bytes, p: nat, k: nat)
    requires ParseCentral(b, p).Ok?
    requires var x := ParseCentral(b, p).value.0.extraFields;
             k <= |x| && (forall j | 0 <= j < k :: x[j].id != 0x9901) && (k < |x| ==> x[k].id == 0x9901)
    ensures var d, raw, flags := ParseCentral(b, p).value.0, U16(b, p + 10), U16(b, p + 8);
            var z := if k < |d.extraFields| then d.extraFields[k].data else [];
            if raw != 99 then
              && (d.compMethod == Store <==> raw == 0) && (d.compMethod == Deflate <==> raw == 8)
              && (d.compMethod == Bzip2 <==> raw == 12) && (d.compMethod.Unsupported? ==> d.compMethod.v == raw)
              && d.crcValid
              && d.encryptionMethod == if flags % 2 == 0 then 0 else if flags / 64 % 2 == 1 then 0xFFFF else 1
            else if |z| >= 7 && z[2] == 0x41 && z[3] == 0x45 && 1 <= z[4] <= 3 then
              var inner := z[5] as int + 256 * z[6] as int;
              && (d.compMethod == Store <==> inner == 0) && (d.compMethod == Deflate <==> inner == 8)
              && (d.compMethod == Bzip2 <==> inner == 12) && (d.compMethod.Unsupported? ==> d.compMethod.v == inner)
              && d.encryptionMethod == 0x100 + z[4] as int && (d.crcValid <==> z[0] == 1 && z[1] == 0)
            else d.compMethod == Unsupported(99) && d.encryptionMethod == 0xFFFF && !d.crcValid
  {
    hide Le, FromLe, ParseExtra, Overlay, UnsafeName, FindField;
    var x := ParseCentral(b, p).value.0.extraFields;
    FindIsFirst(x, EF_WINZIP_AES, k);
    if k < |x| && |x[k].data| >= 7 { TwoBytes(x[k].data, 0); TwoBytes(x[k].data, 5); }
  }

  /** Why a record is refused: no fixed part or another signature; name, extra block or comment past the end; an extra
      block or a ZIP64 field that is too short, or an unsafe name. */
  lemma RecordErrors(b: bytes, p: nat)
    ensures var r := ParseCentral(b, p);
            if p + 46 > |b| || b[p..p + 4] != [0x50, 0x4B, 1, 2] then r == Err(Nozip)
            else if p + 46 + U16(b, p + 28) + U16(b, p + 30) + U16(b, p + 32) > |b| then r == Err(Eof)
            else r.Err? ==> r.error == Incons
  {
    hide FromLe, ParseExtra, Overlay, UnsafeName, Resolve, FindField;
    if p + CENTRAL_SIZE <= |b| && p + 46 + U16(b, p + 28) + U16(b, p + 30) + U16(b, p + 32) <= |b| {
      var at := p + 46 + U16(b, p + 28);
      var block := b[at..at + U16(b, p + 30)];
      BlockErrors(block);
      if ParseExtra(block).Ok? && FindField(ParseExtra(block).value, EXTRA_FIELD_ZIP64).Some? {
        OverlayErrors(RawSizes(b, p), FindField(ParseExtra(block).value, EXTRA_FIELD_ZIP64).value);
      }
    }
  }

  lemma {:induction false} BlockErrors(raw: bytes)
    ensures ParseExtra(raw).Err? ==> ParseExtra(raw).error == Incons
  {
    if |raw| >= 4 && 4 + U16(raw, 2) <= |raw| { BlockErrors(raw[4 + U16(raw, 2)..]); }
  }

  lemma OverlayErrors(p: Sizes, z: bytes)
    ensures Overlay(p, z).Err? ==> Overlay(p, z).error == Incons
  {
    hide FromLe;
  }

  /** The round trip for every entry the parser can return. */
  lemma ReprintOfParsed(b: bytes, p: nat, pre: bytes, post: bytes)
    requires ParseCentral(b, p).Ok?
    ensures var d := ParseCentral(b, p).value.0;
            && CentralRecord(d) == Ok(RecordBytes(d))
            && (ParseCentral(pre + RecordBytes(d) + post, |pre|) == Ok((Regenerated(d), |pre| + |RecordBytes(d)|))
                <==> Unambiguous(d))
  {
    hide Le, FromLe, ExtraBytes, ParseExtra, Overlay, Resolve, UnsafeName, PrintedExtras, FindField, RecordBytes,
         ParseCentral, Coherent, Unambiguous;
    ParsedIsPrintable(b, p);
    CentralRoundTrip(pre, ParseCentral(b, p).value.0, post);
  }

  /** The record at `p` is already in the printer's own form: every size field holds what the printer writes
      for the parsed size, and the extra block is the printed fields with nothing after them. */
  predicate PrinterForm(b: bytes, p: nat, d: Dirent)
    requires p + CENTRAL_SIZE <= |b| && p + CENTRAL_SIZE + U16(b, p + 28) + U16(b, p + 30) <= |b|
  {
    var extraAt := p + CENTRAL_SIZE + U16(b, p + 28);
    && Sizes(U32(b, p + 24), U32(b, p + 20), U32(b, p + 42), U16(b, p + 34)) == Printed(d.sizes)
    && b[extraAt..extraAt + U16(b, p + 30)] == ExtraBytes(PrintedExtras(d))
  }

  lemma HeadFromFields(b: bytes, p: nat, d: Dirent)
    requires FieldsAt(b, p, d)
    ensures b[p..p + 20] == RecordHead(d)
  {
    hide Le, FromLe, ExtraBytes, PrintedExtras, OnDiskMethod;
    LeU16(b, p + 4); LeU16(b, p + 6); LeU16(b, p + 8); LeU16(b, p + 10); LeU16(b, p + 12); LeU16(b, p + 14);
    LeU32(b, p + 16);
    Join(b, p, p + 4, p + 6); Join(b, p, p + 6, p + 8); Join(b, p, p + 8, p + 10); Join(b, p, p + 10, p + 12);
    Join(b, p, p + 12, p + 14); Join(b, p, p + 14, p + 16); Join(b, p, p + 16, p + 20);
  }

  lemma TailFromFields(b: bytes, p: nat, d: Dirent)
    requires FieldsAt(b, p, d)
    ensures b[p + 20..p + 46] == RecordTail(d)
  {
    hide Le, FromLe, ExtraBytes, PrintedExtras, OnDiskMethod, Print32, Print16;
    LeU32(b, p + 20); LeU32(b, p + 24); LeU16(b, p + 28); LeU16(b, p + 30); LeU16(b, p + 32);
    LeU16(b, p + 34); LeU16(b, p + 36); LeU32(b, p + 38); LeU32(b, p + 42);
    Join(b, p + 20, p + 24, p + 28); Join(b, p + 20, p + 28, p + 30); Join(b, p + 20, p + 30, p + 32);
    Join(b, p + 20, p + 32, p + 34); Join(b, p + 20, p + 34, p + 36); Join(b, p + 20, p + 36, p + 38);
    Join(b, p + 20, p + 38, p + 42); Join(b, p + 20, p + 42, p + 46);
  }

  lemma BytesFromFields(b: bytes, p: nat, d: Dirent)
    requires FieldsAt(b, p, d)
    ensures b[p..p + RecordLength(d)] == RecordBytes(d)
  {
    hide Le, FromLe, ExtraBytes, PrintedExtras, OnDiskMethod, Print32, Print16, RecordHead, RecordTail;
    HeadFromFields(b, p, d);
    TailFromFields(b, p, d);
    var n := p + CENTRAL_SIZE + |d.filename|;
    var x := n + |ExtraBytes(PrintedExtras(d))|;
    Join(b, p, p + 20, p + 46); Join(b, p, p + 46, n); Join(b, p, n, x); Join(b, p, x, x + |d.comment|);
  }

  // ----- byte identity, in terms of the record that was parsed -----

  function FieldsLength(fields: seq<ExtraField>): nat {
    if fields == [] then 0 else 4 + |fields[0].data| + FieldsLength(fields[1..])
  }

  lemma {:induction false} FieldsLengthIs(fields: seq<ExtraField>)
    ensures FieldsLength(fields) == |ExtraBytes(fields)|
  {
    hide ExtraFieldBytes;
    if fields != [] {
      FieldLength(fields[0]);
      FieldsLengthIs(fields[1..]);
    }
  }

  /** Every size field that holds the sentinel stands for a value no smaller than the sentinel. */
  predicate SentinelsAreNeeded(raw: Sizes, stored: Sizes) {
    && (raw.uncomp == U32_MAX ==> stored.uncomp >= U32_MAX)
    && (raw.comp == U32_MAX ==> stored.comp >= U32_MAX)
    && (raw.offset == U32_MAX ==> stored.offset >= U32_MAX)
    && (raw.disk == U16_MAX ==> stored.disk >= U16_MAX)
  }

  /** There is exactly one ZIP64 field, it is the last field, and it holds these bytes. */
  predicate EndsWithZip64(fields: seq<ExtraField>, data: bytes) {
    && fields != [] && fields[|fields| - 1] == ExtraField(EXTRA_FIELD_ZIP64, data)
    && forall i | 0 <= i < |fields| - 1 :: fields[i].id != EXTRA_FIELD_ZIP64
  }

  /** The 32-bit and 16-bit size fields of the record at `p`. */
  function RawSizes(b: bytes, p: nat): Sizes
    requires p + CENTRAL_SIZE <= |b|
  {
    Sizes(U32(b, p + 24), U32(b, p + 20), U32(b, p + 42), U16(b, p + 34))
  }

  /** What the record at `p` must look like to be printed again as it is: no sentinel without need, no bytes after
      the last extra field, and, when some size overflows, the overflowing sizes in a single last ZIP64 field. */
  predicate Canonical(b: bytes, p: nat, d: Dirent)
    requires p + CENTRAL_SIZE <= |b|
  {
    && SentinelsAreNeeded(RawSizes(b, p), d.sizes)
    && U16(b, p + 30) == FieldsLength(d.extraFields)
    && (NeedsZip64(d.sizes) ==> EndsWithZip64(d.extraFields, Overflow(d.sizes)))
  }

  lemma OverlayKeepsTheRest(p: Sizes, z: bytes)
    requires Printed(p) == p && Overlay(p, z).Ok?
    ensures var s := Overlay(p, z).value;
            && (p.uncomp != U32_MAX ==> s.uncomp == p.uncomp) && (p.comp != U32_MAX ==> s.comp == p.comp)
            && (p.offset != U32_MAX ==> s.offset == p.offset) && (p.disk != U16_MAX ==> s.disk == p.disk)
    ensures Printed(Overlay(p, z).value) == p <==> SentinelsAreNeeded(p, Overlay(p, z).value)
  {
    hide FromLe;
  }

  lemma {:induction false} DropNothing(fields: seq<ExtraField>, id: u16)
    ensures DropField(fields, id) == fields <==> forall f <- fields :: f.id != id
    ensures |DropField(fields, id)| <= |fields|
  {
    if fields != [] {
      DropNothing(fields[1..], id);
      if fields[0].id != id {
        assert ([fields[0]] + DropField(fields[1..], id))[1..] == DropField(fields[1..], id);
        assert fields == [fields[0]] + fields[1..];
      }
    }
  }

  // The regenerated fields are the parsed ones exactly when those end with the one ZIP64 field.
  lemma RegeneratesItself(d: Dirent)
    ensures PrintedExtras(d) == d.extraFields <==>
              (NeedsZip64(d.sizes) ==> EndsWithZip64(d.extraFields, Overflow(d.sizes)))
  {
    hide Overflow;
    if NeedsZip64(d.sizes) {
      var fields, z := d.extraFields, ExtraField(EXTRA_FIELD_ZIP64, Overflow(d.sizes));
      if fields != [] && fields[|fields| - 1] == z {
        var init := fields[..|fields| - 1];
        assert fields == init + [z];
        assert [z][1..] == [];
        DropConcat(init, [z], EXTRA_FIELD_ZIP64);
        assert DropField(fields, EXTRA_FIELD_ZIP64) == DropField(init, EXTRA_FIELD_ZIP64) + [];
        DropNothing(init, EXTRA_FIELD_ZIP64);
        assert PrintedExtras(d) == DropField(init, EXTRA_FIELD_ZIP64) + [z];
        if PrintedExtras(d) == fields {
          assert PrintedExtras(d)[..|PrintedExtras(d)| - 1] == DropField(init, EXTRA_FIELD_ZIP64);
          assert fields[..|fields| - 1] == init;
        }
      }
    }
  }

  lemma CanonicalIsPrinterForm(b: bytes, p: nat)
    requires ParseCentral(b, p).Ok?
    ensures PrinterForm(b, p, ParseCentral(b, p).value.0) <==> Canonical(b, p, ParseCentral(b, p).value.0)
  {
    hide Le, FromLe, ExtraBytes, ParseExtra, Overlay, UnsafeName, FindField, ParseAes, PrintedExtras, Overflow, NeedsZip64;
    var (d, end) := ParseCentral(b, p).value;
    var raw := RawSizes(b, p);
    var z := FindField(d.extraFields, EXTRA_FIELD_ZIP64);
    assert Printed(raw) == raw;
    if z.Some? { OverlayKeepsTheRest(raw, z.value); }
    assert raw == Printed(d.sizes) <==> SentinelsAreNeeded(raw, d.sizes);
    var extraAt := p + CENTRAL_SIZE + U16(b, p + 28);
    var block := b[extraAt..extraAt + U16(b, p + 30)];
    ParsedIsPrintable(b, p);
    ParsedExtraReprints(block);
    FieldsLengthIs(d.extraFields);
    RegeneratesItself(d);
    assert |block| == U16(b, p + 30);
    if block == ExtraBytes(PrintedExtras(d)) {
      ShortBlockIsEncodable(PrintedExtras(d));
      ExtraRoundTrip(PrintedExtras(d), []);
      assert ExtraBytes(PrintedExtras(d)) + [] == block;
    } else if U16(b, p + 30) == FieldsLength(d.extraFields) {
      assert block[..|block|] == block;
    }
  }

  lemma PrintsItself(b: bytes, p: nat)
    requires ParseCentral(b, p).Ok?
    ensures var (d, end) := ParseCentral(b, p).value;
            RecordBytes(d) == b[p..end] <==> PrinterForm(b, p, d)
  {
    hide Le, FromLe, ExtraBytes, PrintedExtras, ParseExtra, Overlay, UnsafeName, FindField, ParseAes, RecordHead,
         RecordTail;
    var (d, end) := ParseCentral(b, p).value;
    ParsedIsPrintable(b, p);
    ResolvedIsCoherent(U16(b, p + 10), d.bitflags, d.extraFields);
    if PrinterForm(b, p, d) {
      BytesFromFields(b, p, d);
    }
    if RecordBytes(d) == b[p..end] {
      RecordFields(b, p, d);
    }
  }

  /** `to_central_record` is documented as byte-identical to the record the entry was parsed from. It is so
      exactly when that record is canonical. */
  lemma ReprintIsIdentical(b: bytes, p: nat)
    requires ParseCentral(b, p).Ok?
    ensures var (d, end) := ParseCentral(b, p).value;
            RecordBytes(d) == b[p..end] <==> Canonical(b, p, d)
  {
    hide RecordBytes, PrinterForm, Canonical, ParseCentral;
    PrintsItself(b, p);
    CanonicalIsPrinterForm(b, p);
  }

  // ----- inputs on which the code departs -----

  /** A minimal entry with these sizes and extra fields. */
  function Sample(s: Sizes, fields: seq<ExtraField>): Dirent {
    Dirent(20, 20, 0, Store, 0, 0, 0, s, [0x61], [], 0, 0, ENC_NONE, true, fields)
  }

  lemma SampleIsSound(s: Sizes, fields: seq<ExtraField>)
    requires FindField(fields, EF_WINZIP_AES).None?
    ensures Coherent(Sample(s, fields)) && !UnsafeName([0x61])
  {}

  /** A size exactly at its sentinel beside one that overflows: the printed record is rejected. */
  lemma SentinelIsRejected()
    ensures ParseCentral(RecordBytes(Sample(Sizes(U32_MAX, 0x1_0000_0000, 0, 0), [])), 0) == Err(Incons)
  {
    hide Le, FromLe, ParseCentral, RecordBytes, UnsafeName, Coherent;
    var d := Sample(Sizes(U32_MAX, 0x1_0000_0000, 0, 0), []);
    SampleIsSound(d.sizes, []);
    OverflowLength(d.sizes);
    assert PrintedExtras(d) == [ExtraField(EXTRA_FIELD_ZIP64, Overflow(d.sizes))];
    OneFieldLength(PrintedExtras(d)[0]);
    CentralRoundTrip([], d, []);
    assert [] + RecordBytes(d) + [] == RecordBytes(d);
  }

  lemma OverflowLength(s: Sizes)
    ensures |Overflow(s)| <= 28
  {}

  lemma OneFieldLength(f: ExtraField)
    ensures |ExtraBytes([f])| == 4 + |f.data|
  {
    hide ExtraFieldBytes;
    FieldLength(f);
    assert [f][1..] == [];
  }

  /** Both size fields at the sentinel and a ZIP64 field that gives 5 for the one and the sentinel for the other: the
      entry is accepted, printed with the other field still at the sentinel, and read again, without an error, with
      5 for both. */
  lemma SilentMisread()
    ensures var z := [ExtraField(EXTRA_FIELD_ZIP64, Le(5, 8) + Le(U32_MAX, 8))];
            var asStored, asRead, asReread := Sample(Sizes(U32_MAX, U32_MAX, 0, 0), z), Sample(Sizes(5, U32_MAX, 0, 0), z),
                                              Sample(Sizes(5, 5, 0, 0), z);
            && ParseCentral(RecordBytes(asStored), 0) == Ok((asRead, RecordLength(asStored)))
            && ParseCentral(RecordBytes(asRead), 0) == Ok((asReread, RecordLength(asRead)))
  {
    hide Le, FromLe, RecordBytes, ParseCentral, UnsafeName, Coherent;
    var data := Le(5, 8) + Le(U32_MAX, 8);
    var z := [ExtraField(EXTRA_FIELD_ZIP64, data)];
    assert z[1..] == [];
    OneFieldLength(z[0]);
    Widths(); DecodeEncode(5, 8); DecodeEncode(U32_MAX, 8);
    assert data[..8] == Le(5, 8) && data[8..] == Le(U32_MAX, 8) && data[8..][..8] == Le(U32_MAX, 8);
    var asStored, asRead := Sample(Sizes(U32_MAX, U32_MAX, 0, 0), z), Sample(Sizes(5, U32_MAX, 0, 0), z);
    SampleIsSound(asStored.sizes, z);
    SampleIsSound(asRead.sizes, z);
    ParsePrinted([], asStored, []);
    ParsePrinted([], asRead, []);
    assert [] + RecordBytes(asStored) + [] == RecordBytes(asStored);
    assert [] + RecordBytes(asRead) + [] == RecordBytes(asRead);
  }

  /** A stray byte after the extra fields: the record is accepted and printed again without it. */
  lemma StrayByteIsDropped()
    ensures var b := CENTRAL_MAGIC + Le(0, 26) + Le(1, 2) + Le(0, 15);
            ParseCentral(b, 0).Ok? && RecordBytes(ParseCentral(b, 0).value.0) != b
  {
    hide Le, FromLe;
    var b := CENTRAL_MAGIC + Le(0, 26) + Le(1, 2) + Le(0, 15);
    ZeroBytes(26); ZeroBytes(15);
    assert b[30..32] == Le(1, 2);
    U16At(b, 30, 1);
    ZeroField(b, 28); ZeroField(b, 32);
    assert b[46..47] == [0];
    assert FieldsLength([]) == 0;
    ReprintIsIdentical(b, 0);
    assert b[0..|b|] == b;
  }

  lemma {:induction false} ZeroBytes(k: nat)
    ensures forall i | 0 <= i < k :: Le(0, k)[i] == 0
    decreases k
  {
    if k > 0 { ZeroBytes(k - 1); }
  }

  lemma ZeroField(b: bytes, p: nat)
    requires p + 2 <= |b| && b[p] == 0 && b[p + 1] == 0
    ensures U16(b, p) == 0
  {
    assert b[p..p + 2] == [0, 0];
    assert [0 as byte, 0][1..] == [0] && [0 as byte][1..] == [];
  }
}
