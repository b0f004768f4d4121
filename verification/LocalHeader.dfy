/** Local file headers: skipping one to reach the data, caching where the data starts, decoding the sizes. */
module LocalHeaders {
  import opened Bytes
  import opened Sources
  import opened Dirents

  const LOCAL_MAGIC: bytes := [0x50, 0x4B, 0x03, 0x04]
  const LOCAL_SIZE := 30

  /** Where the data of the entry whose local header is at `p` starts. */
  function LocalHeaderLen(b: bytes, p: nat): Result<nat> {
    if p + LOCAL_SIZE > |b| then Err(Eof)
    else if b[p..p + 4] != LOCAL_MAGIC then Err(Nozip)
    else Ok(p + LOCAL_SIZE + U16(b, p + 26) + U16(b, p + 28))
  }

  /** The skip depends on nothing beyond the fixed header. */
  lemma HeaderIsLocal(a: bytes, b: bytes, p: nat, end: nat)
    requires p + LOCAL_SIZE <= end <= |a| && end <= |b| && a[..end] == b[..end]
    ensures LocalHeaderLen(a, p) == LocalHeaderLen(b, p)
  {
    hide FromLe;
    assert a[p..p + 30] == a[..end][p..p + 30] == b[..end][p..p + 30] == b[p..p + 30];
    SubSlice(a, p, a[p..p + 30], 0, 4); SubSlice(b, p, a[p..p + 30], 0, 4);
    SubSlice(a, p, a[p..p + 30], 26, 28); SubSlice(b, p, a[p..p + 30], 26, 28);
    SubSlice(a, p, a[p..p + 30], 28, 30); SubSlice(b, p, a[p..p + 30], 28, 30);
  }

  /** Reads the fixed header at the source position and seeks past the name and the extra fields. */
  method SkipLocalHeader(src: Source) returns (r: Result<nat>)
    modifies src
    ensures r == LocalHeaderLen(src.data, old(src.pos))
    ensures r.Ok? ==> src.pos == r.value
  {
    hide FromLe;
    ghost var b, p := src.data, src.pos;
    var raw := src.ReadExact(LOCAL_SIZE);
    if raw.Err? { return Err(Eof); }
    assert raw.value[0..4] == b[p..p + 4];
    if raw.value[0..4] != LOCAL_MAGIC { return Err(Nozip); }
    SlicedFields(b, p, p + 30, 26);
    SlicedFields(b, p, p + 30, 28);
    var nameLen, extraLen := U16(raw.value, 26), U16(raw.value, 28);
    src.Seek(src.pos + nameLen + extraLen);
    return Ok(src.pos);
  }

  /** One entry of an open archive together with its lazily computed data offset. */
  class Entry {
    const offset: nat
    var dataOffset: Option<nat>

    /** A cached offset is the one the local header gives. */
    ghost predicate Valid(b: bytes)
      reads this
    {
      dataOffset.Some? ==> LocalHeaderLen(b, offset) == Ok(dataOffset.value)
    }

    constructor (offset: nat)
      ensures this.offset == offset && dataOffset == None && forall b :: Valid(b)
    {
      this.offset := offset;
      dataOffset := None;
    }

    /** First and later opens agree: the result is what the header says and the source stands at the data. */
    method DataOffset(src: Source) returns (r: Result<nat>)
      requires Valid(src.data) && src.pos == offset
      modifies this, src
      ensures Valid(src.data)
      ensures r == LocalHeaderLen(src.data, offset)
      ensures r.Ok? ==> src.pos == r.value && dataOffset == Some(r.value)
    {
      if dataOffset.Some? {
        src.Seek(dataOffset.value);
        return Ok(dataOffset.value);
      }
      r := SkipLocalHeader(src);
      if r.Ok? { dataOffset := Some(r.value); }
    }
  }

  /** The sizes a full decode of the local header at `p` yields, and where the data starts. */
  function ParseLocal(b: bytes, p: nat): Result<(Sizes, nat)> {
    match LocalHeaderLen(b, p)
    case Err(e) => Err(e)
    case Ok(start) =>
      if start > |b| then Err(Eof)
      else
        var fields := ParseExtra(b[start - U16(b, p + 28)..start]);
        if fields.Err? then Err(fields.error)
        else
          var raw := Sizes(U32(b, p + 22), U32(b, p + 18), 0, 0);
          var z := FindField(fields.value, EXTRA_FIELD_ZIP64);
          var sizes := if z.Some? then Overlay(raw, z.value) else Ok(raw);
          if sizes.Err? then Err(sizes.error) else Ok((sizes.value, start))
  }
}
