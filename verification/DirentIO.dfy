/** The entry parser and printer as they run: cursors that advance, vectors that grow. */
module DirentIO {
  import opened Bytes
  import opened Sources
  import opened Dirents

  method SerializeExtraFields(fields: seq<ExtraField>) returns (r: Result<bytes>)
    ensures r == if |ExtraBytes(fields)| <= U16_MAX then Ok(ExtraBytes(fields)) else Err(Eftoolarge)
  {
    var out: bytes := [];
    for i := 0 to |fields|
      invariant out == ExtraBytes(fields[..i])
    {
      var f := fields[i];
      assert fields[..i + 1] == fields[..i] + [f];
      ExtraBytesConcat(fields[..i], [f]);
      assert fields == fields[..i + 1] + fields[i + 1..];
      ExtraBytesConcat(fields[..i + 1], fields[i + 1..]);
      assert ExtraBytes([f]) == ExtraFieldBytes(f) + ExtraBytes([]);
      if |f.data| > U16_MAX {
        return Err(Eftoolarge);
      }
      out := out + Le(f.id, 2);
      out := out + Le(|f.data|, 2);
      out := out + f.data;
    }
    assert fields[..|fields|] == fields;
    return if |out| > U16_MAX then Err(Eftoolarge) else Ok(out);
  }

  function Prepend(out: seq<ExtraField>, r: Result<seq<ExtraField>>): Result<seq<ExtraField>> {
    match r
    case Ok(rest) => Ok(out + rest)
    case Err(e) => Err(e)
  }

  // One iteration of the parser: the field at `at` moves from the input to the output.
  lemma ParseStep(raw: bytes, at: nat, out: seq<ExtraField>)
    requires at + 4 <= |raw|
    ensures var next := at + 4 + U16(raw, at + 2);
            if next > |raw| then ParseExtra(raw[at..]) == Err(Incons)
            else Prepend(out, ParseExtra(raw[at..])) ==
                 Prepend(out + [ExtraField(U16(raw, at), raw[at + 4..next])], ParseExtra(raw[next..]))
  {
    hide FromLe, Prepend;
    SlicedFields(raw, at, |raw|, 0);
    SlicedFields(raw, at, |raw|, 2);
    var here, next := raw[at..], at + 4 + U16(raw, at + 2);
    assert here == raw[at..|raw|];
    if next <= |raw| {
      SubSlice(raw, at, here, 4, next - at);
      assert here[next - at..] == raw[next..];
      PrependOne(out, ExtraField(U16(raw, at), raw[at + 4..next]), ParseExtra(raw[next..]));
    }
  }

  lemma PrependOne(out: seq<ExtraField>, f: ExtraField, rest: Result<seq<ExtraField>>)
    ensures Prepend(out + [f], rest) == Prepend(out, if rest.Err? then rest else Ok([f] + rest.value))
  {
    assert rest.Ok? ==> out + ([f] + rest.value) == out + [f] + rest.value;
  }

  method ParseExtraFields(raw: bytes) returns (r: Result<seq<ExtraField>>)
    ensures r == ParseExtra(raw)
  {
    hide ParseExtra;
    var out: seq<ExtraField> := [];
    var c := new Source(raw);
    assert raw[0..] == raw;
    assert ParseExtra(raw).Ok? ==> [] + ParseExtra(raw).value == ParseExtra(raw).value;
    while c.pos + 4 <= |raw|
      invariant c.data == raw && c.pos <= |raw|
      invariant ParseExtra(raw) == Prepend(out, ParseExtra(raw[c.pos..]))
      decreases |raw| - c.pos
    {
      ParseStep(raw, c.pos, out);
      var id := c.Read16();
      var len := c.Read16();
      var start := c.pos;
      if start + len > |raw| {
        return Err(Incons);
      }
      var data := raw[start..start + len];
      c.Seek(start + len);
      out := out + [ExtraField(id, data)];
    }
    ShortBlock(raw[c.pos..]);
    assert out + [] == out;
    return Ok(out);
  }

  lemma ShortBlock(raw: bytes)
    requires |raw| < 4
    ensures ParseExtra(raw) == Ok([])
  {}

  /** The ZIP64 field, read through a cursor in the order the format fixes. */
  method ReadZip64(raw: Sizes, z: bytes) returns (r: Result<Sizes>)
    requires Printed(raw) == raw
    ensures r == Overlay(raw, z)
  {
    Widths();
    var zc := new Source(z);
    var s := raw;
    if raw.uncomp == U32_MAX {
      var v := zc.ReadExact(8);
      if v.Err? { return Err(Incons); }
      FromLeBound(v.value);
      s := s.(uncomp := FromLe(v.value));
    }
    ghost var z1 := z[zc.pos..];
    if raw.comp == U32_MAX {
      assert |z1| >= 8 ==> z1[..8] == z[zc.pos..zc.pos + 8] && z1[8..] == z[zc.pos + 8..];
      var v := zc.ReadExact(8);
      if v.Err? { return Err(Incons); }
      FromLeBound(v.value);
      s := s.(comp := FromLe(v.value));
    }
    ghost var z2 := z[zc.pos..];
    if raw.offset == U32_MAX {
      assert |z2| >= 8 ==> z2[..8] == z[zc.pos..zc.pos + 8] && z2[8..] == z[zc.pos + 8..];
      var v := zc.ReadExact(8);
      if v.Err? { return Err(Incons); }
      FromLeBound(v.value);
      s := s.(offset := FromLe(v.value));
    }
    ghost var z3 := z[zc.pos..];
    if raw.disk == U16_MAX {
      assert |z3| >= 4 ==> z3[..4] == z[zc.pos..zc.pos + 4];
      var v := zc.ReadExact(4);
      if v.Err? { return Err(Incons); }
      FromLeBound(v.value);
      s := s.(disk := FromLe(v.value));
    }
    return Ok(s);
  }

  /** The fixed fields of a record, in file order. */
  datatype Fixed = Fixed(
    versionMadeBy: u16, versionNeeded: u16, bitflags: u16, rawMethod: u16, time: u16, date: u16, crc: u32,
    comp: u32, uncomp: u32, nameLen: u16, extraLen: u16, commentLen: u16, disk: u16,
    intAttrib: u16, extAttrib: u32, offset: u32)

  function FixedAt(b: bytes, p: nat): Fixed
    requires p + CENTRAL_SIZE <= |b|
  {
    Fixed(U16(b, p + 4), U16(b, p + 6), U16(b, p + 8), U16(b, p + 10), U16(b, p + 12), U16(b, p + 14), U32(b, p + 16),
          U32(b, p + 20), U32(b, p + 24), U16(b, p + 28), U16(b, p + 30), U16(b, p + 32), U16(b, p + 34),
          U16(b, p + 36), U32(b, p + 38), U32(b, p + 42))
  }

  method ReadFixed(raw: bytes) returns (h: Fixed)
    requires |raw| == CENTRAL_SIZE
    ensures h == FixedAt(raw, 0)
  {
    hide FromLe;
    SliceFields(raw);
    var c := new Source(raw[4..46]);
    var versionMadeBy := c.Read16();
    var versionNeeded := c.Read16();
    var bitflags := c.Read16();
    var compMethodRaw := c.Read16();
    var lastModTime := c.Read16();
    var lastModDate := c.Read16();
    var crc := c.Read32();
    var comp32 := c.Read32();
    var uncomp32 := c.Read32();
    var filenameLen := c.Read16();
    var extraLen := c.Read16();
    var commentLen := c.Read16();
    var diskNumber := c.Read16();
    var intAttrib := c.Read16();
    var extAttrib := c.Read32();
    var offset32 := c.Read32();
    return Fixed(versionMadeBy, versionNeeded, bitflags, compMethodRaw, lastModTime, lastModDate, crc, comp32, uncomp32,
                 filenameLen, extraLen, commentLen, diskNumber, intAttrib, extAttrib, offset32);
  }

  lemma SliceFields(b: bytes)
    requires |b| == CENTRAL_SIZE
    ensures var h := b[4..46];
            && U16(h, 0) == U16(b, 4) && U16(h, 2) == U16(b, 6) && U16(h, 4) == U16(b, 8)
            && U16(h, 6) == U16(b, 10) && U16(h, 8) == U16(b, 12) && U16(h, 10) == U16(b, 14)
            && U32(h, 12) == U32(b, 16) && U32(h, 16) == U32(b, 20) && U32(h, 20) == U32(b, 24)
            && U16(h, 24) == U16(b, 28) && U16(h, 26) == U16(b, 30) && U16(h, 28) == U16(b, 32)
            && U16(h, 30) == U16(b, 34) && U16(h, 32) == U16(b, 36) && U32(h, 34) == U32(b, 38)
            && U32(h, 38) == U32(b, 42)
  {
    hide FromLe;
    SlicedFields(b, 4, 46, 0); SlicedFields(b, 4, 46, 2); SlicedFields(b, 4, 46, 4); SlicedFields(b, 4, 46, 6);
    SlicedFields(b, 4, 46, 8); SlicedFields(b, 4, 46, 10); SlicedFields(b, 4, 46, 12); SlicedFields(b, 4, 46, 16);
    SlicedFields(b, 4, 46, 20); SlicedFields(b, 4, 46, 24); SlicedFields(b, 4, 46, 26); SlicedFields(b, 4, 46, 28);
    SlicedFields(b, 4, 46, 30); SlicedFields(b, 4, 46, 32); SlicedFields(b, 4, 46, 34); SlicedFields(b, 4, 46, 38);
  }

  lemma FixedOfSlice(b: bytes, p: nat)
    requires p + CENTRAL_SIZE <= |b|
    ensures FixedAt(b[p..p + CENTRAL_SIZE], 0) == FixedAt(b, p)
  {
    hide FromLe;
    SlicedFields(b, p, p + 46, 4); SlicedFields(b, p, p + 46, 6); SlicedFields(b, p, p + 46, 8); SlicedFields(b, p, p + 46, 10);
    SlicedFields(b, p, p + 46, 12); SlicedFields(b, p, p + 46, 14); SlicedFields(b, p, p + 46, 16); SlicedFields(b, p, p + 46, 20);
    SlicedFields(b, p, p + 46, 24); SlicedFields(b, p, p + 46, 28); SlicedFields(b, p, p + 46, 30); SlicedFields(b, p, p + 46, 32);
    SlicedFields(b, p, p + 46, 34); SlicedFields(b, p, p + 46, 36); SlicedFields(b, p, p + 46, 38); SlicedFields(b, p, p + 46, 42);
  }

  /** Parses the record at the cursor; on success the cursor stands after it. */
  method ParseCentral(cursor: Source) returns (r: Result<Dirent>)
    modifies cursor
    ensures match Dirents.ParseCentral(cursor.data, old(cursor.pos))
            case Ok((d, end)) => r == Ok(d) && cursor.pos == end
            case Err(e) => r == Err(e)
  {
    hide FromLe, ExtraBytes, ParseExtra, Overlay, Resolve, UnsafeName, FindField;
    ghost var b, p := cursor.data, cursor.pos;
    var raw := cursor.ReadExact(CENTRAL_SIZE);
    assert raw.Ok? ==> raw.value[0..4] == b[p..p + 4];
    if raw.Err? || raw.value[0..4] != CENTRAL_MAGIC { return Err(Nozip); }
    var h := ReadFixed(raw.value);
    FixedOfSlice(b, p);

    var filename := cursor.ReadExact(h.nameLen);
    if filename.Err? { return Err(Eof); }
    var extraRaw := cursor.ReadExact(h.extraLen);
    if extraRaw.Err? { return Err(Eof); }
    var comment := cursor.ReadExact(h.commentLen);
    if comment.Err? { return Err(Eof); }

    var fields := ParseExtraFields(extraRaw.value);
    if fields.Err? { return Err(fields.error); }
    var sizes := Ok(Sizes(h.uncomp, h.comp, h.offset, h.disk));
    var z := FindField(fields.value, EXTRA_FIELD_ZIP64);
    if z.Some? {
      sizes := ReadZip64(sizes.value, z.value);
      if sizes.Err? { return Err(sizes.error); }
    }
    var m := Resolve(h.rawMethod, h.bitflags, fields.value);
    if UnsafeName(filename.value) { return Err(Incons); }
    return Ok(Dirent(h.versionMadeBy, h.versionNeeded, h.bitflags, m.0, h.time, h.date, h.crc, sizes.value,
                     filename.value, comment.value, h.intAttrib, h.extAttrib, m.1, m.2, fields.value));
  }

  method BuildZip64Extra(s: Sizes) returns (r: Option<bytes>)
    ensures r == if NeedsZip64(s) then Some(ExtraFieldBytes(ExtraField(EXTRA_FIELD_ZIP64, Overflow(s)))) else None
  {
    if !NeedsZip64(s) { return None; }
    var data: bytes := [];
    if s.uncomp > U32_MAX { data := data + Le(s.uncomp, 8); }
    if s.comp > U32_MAX { data := data + Le(s.comp, 8); }
    if s.offset > U32_MAX { data := data + Le(s.offset, 8); }
    if s.disk > U16_MAX { data := data + Le(s.disk, 4); }
    assert data == Overflow(s);
    return Some(Le(EXTRA_FIELD_ZIP64, 2) + Le(|data|, 2) + data);
  }

  method ToCentralRecord(d: Dirent) returns (r: Result<bytes>)
    ensures r == CentralRecord(d)
  {
    hide Le, Overflow, DropField, OnDiskMethod, Print32, Print16;
    var extra: bytes;
    if NeedsZip64(d.sizes) {
      var filtered := DropField(d.extraFields, EXTRA_FIELD_ZIP64);
      var raw := SerializeExtraFields(filtered);
      ghost var added := ExtraField(EXTRA_FIELD_ZIP64, Overflow(d.sizes));
      ExtraBytesConcat(filtered, [added]);
      assert ExtraBytes([added]) == ExtraFieldBytes(added) + ExtraBytes([]);
      if raw.Err? { return Err(raw.error); }
      extra := raw.value;
      var z := BuildZip64Extra(d.sizes);
      if z.Some? { extra := extra + z.value; }
    } else {
      var raw := SerializeExtraFields(d.extraFields);
      if raw.Err? { return Err(raw.error); }
      extra := raw.value;
    }
    assert extra == ExtraBytes(PrintedExtras(d));
    if |extra| > U16_MAX || |d.filename| > U16_MAX || |d.comment| > U16_MAX {
      return Err(Eftoolarge);
    }
    var out: bytes := CENTRAL_MAGIC;
    out := out + Le(d.versionMadeBy, 2);
    out := out + Le(d.versionNeeded, 2);
    out := out + Le(d.bitflags, 2);
    out := out + Le(OnDiskMethod(d), 2);
    out := out + Le(d.lastModTime, 2);
    out := out + Le(d.lastModDate, 2);
    out := out + Le(d.crc, 4);
    assert out == RecordHead(d);
    out := out + Le(Print32(d.sizes.comp), 4);
    out := out + Le(Print32(d.sizes.uncomp), 4);
    out := out + Le(|d.filename|, 2);
    out := out + Le(|extra|, 2);
    out := out + Le(|d.comment|, 2);
    out := out + Le(Print16(d.sizes.disk), 2);
    out := out + Le(d.intAttrib, 2);
    out := out + Le(d.extAttrib, 4);
    out := out + Le(Print32(d.sizes.offset), 4);
    assert out == RecordHead(d) + RecordTail(d);
    out := out + d.filename;
    out := out + extra;
    out := out + d.comment;
    return Ok(out);
  }
}
