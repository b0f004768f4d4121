/** The central directory as it runs: output vectors appended in place, a source that is seeked and read,
    a loop over candidates and a cursor over the records. */
module CdirIO {
  import opened Bytes
  import opened Sources
  import opened Dirents
  import opened Cdir
  import DirentIO

  method WriteEocd64(n: nat, size: nat, offset: nat, out: Vec)
    modifies out
    ensures out.contents == old(out.contents) + Eocd64(n, size, offset)
  {
    hide Le;
    ghost var was := out.contents;
    out.Extend(EOCD64_MAGIC);
    out.Extend(Le(44, 8));
    out.Extend(Le(45, 2));
    out.Extend(Le(45, 2));
    out.Extend(Le(0, 4));
    out.Extend(Le(0, 4));
    out.Extend(Le(n, 8));
    out.Extend(Le(n, 8));
    out.Extend(Le(size, 8));
    out.Extend(Le(offset, 8));
    assert out.contents == was + Eocd64(n, size, offset);
  }

  method WriteLocator(eocd64At: nat, out: Vec)
    modifies out
    ensures out.contents == old(out.contents) + Locator(eocd64At)
  {
    hide Le;
    ghost var was := out.contents;
    out.Extend(LOCATOR_MAGIC);
    out.Extend(Le(0, 4));
    out.Extend(Le(eocd64At, 8));
    out.Extend(Le(1, 4));
    assert out.contents == was + Locator(eocd64At);
  }

  method WriteEocdZip64Sentinel(comment: bytes, out: Vec)
    modifies out
    ensures out.contents == old(out.contents) + (EocdFixed(U16_MAX, U32_MAX, U32_MAX, |comment|) + comment)
  {
    hide Le;
    ghost var was := out.contents;
    out.Extend(EOCD_MAGIC);
    out.Extend(Le(0, 2));
    out.Extend(Le(0, 2));
    out.Extend(Le(U16_MAX, 2));
    out.Extend(Le(U16_MAX, 2));
    out.Extend(Le(U32_MAX, 4));
    out.Extend(Le(U32_MAX, 4));
    out.Extend(Le(|comment|, 2));
    assert out.contents == was + EocdFixed(U16_MAX, U32_MAX, U32_MAX, |comment|);
    out.Extend(comment);
  }

  method WriteEocd(n: nat, size: nat, offset: nat, comment: bytes, out: Vec)
    modifies out
    ensures out.contents == old(out.contents) + (EocdFixed(n, size, offset, |comment|) + comment)
  {
    hide Le;
    ghost var was := out.contents;
    out.Extend(EOCD_MAGIC);
    out.Extend(Le(0, 2));
    out.Extend(Le(0, 2));
    out.Extend(Le(n, 2));
    out.Extend(Le(n, 2));
    out.Extend(Le(size, 4));
    out.Extend(Le(offset, 4));
    out.Extend(Le(|comment|, 2));
    assert out.contents == was + EocdFixed(n, size, offset, |comment|);
    out.Extend(comment);
  }

  /** The end records, appended after whatever `out` already holds. */
  method WriteEndRecords(zip64: bool, n: nat, size: nat, offset: nat, comment: bytes, out: Vec)
    modifies out
    ensures out.contents == old(out.contents) + EndRecords(zip64, n, size, offset, comment)
  {
    hide Eocd64, Locator, EocdFixed;
    ghost var was := out.contents;
    if zip64 {
      WriteEocd64(n, size, offset, out);
      WriteLocator(offset + size, out);
      WriteEocdZip64Sentinel(comment, out);
    } else {
      WriteEocd(n, size, offset, comment, out);
    }
    assert out.contents == was + EndRecords(zip64, n, size, offset, comment);
  }

  method Serialize(cd: CentralDir) returns (r: Result<bytes>)
    ensures r == Cdir.Serialize(cd)
  {
    hide RecordBytes, Records, EndRecords, Printable;
    var cdir := new Vec();
    ghost var es := cd.entries;
    Nothing();
    for i := 0 to |cd.entries|
      invariant fresh(cdir) && cdir.contents == Records(cd.entries[..i])
      invariant forall k | 0 <= k < i :: Printable(cd.entries[k])
    {
      var record := DirentIO.ToCentralRecord(cd.entries[i]);
      if record.Err? { return Err(Eftoolarge); }
      RecordsConcat(cd.entries[..i], [cd.entries[i]]);
      OneRecord(cd.entries[i]);
      assert cd.entries[..i + 1] == cd.entries[..i] + [cd.entries[i]];
      cdir.Extend(record.value);
    }
    assert es[..|es|] == es;
    var size := |cdir.contents|;
    var zip64 := NeedsZip64Directory(cd);
    var out := new Vec();
    out.Extend(cdir.contents);
    assert out.contents == Records(cd.entries);
    WriteEndRecords(zip64, |cd.entries|, size, cd.cdirOffset, cd.comment, out);
    assert forall d <- cd.entries :: Printable(d);
    assert out.contents == SerializedBytes(cd);
    return Ok(out.contents);
  }

  lemma OneRecord(d: Dirent)
    ensures Records([d]) == RecordBytes(d)
  {
    hide RecordBytes;
    assert [d][1..] == [];
  }

  lemma Nothing()
    ensures Records([]) == []
  {}

  method ReadEocd64(src: Source, offset: nat) returns (r: Option<Zip64Eocd>)
    modifies src
    ensures r == Cdir.ReadEocd64(src.data, offset)
  {
    src.Seek(offset);
    var raw := src.ReadExact(EOCD64_SIZE);
    if raw.Err? { return None; }
    assert raw.value[0..4] == src.data[offset..offset + 4];
    if raw.value[0..4] != EOCD64_MAGIC { return None; }
    SlicedFields(src.data, offset, offset + 56, 40);
    SlicedFields(src.data, offset, offset + 56, 48);
    SlicedFields(src.data, offset, offset + 56, 32);
    return Some(Zip64Eocd(U64(raw.value, 40), U64(raw.value, 48), U64(raw.value, 32)));
  }

  method ReadEntries(src: Source, offset: nat, size: nat, n: nat) returns (r: Result<seq<Dirent>>)
    modifies src
    ensures r == Cdir.ReadEntries(src.data, offset, size, n)
  {
    hide Dirents.ParseCentral;
    if size > MAX_CD_SIZE { return Err(CentralDirTooLarge); }
    src.Seek(offset);
    var buf := src.ReadExact(size);
    if buf.Err? { return Err(Incons); }
    var cursor := new Source(buf.value);
    var entries: seq<Dirent> := [];
    ghost var all := ParseEntries(buf.value, 0);
    assert [] + all == all;
    while cursor.pos < |buf.value|
      invariant cursor.data == buf.value
      invariant all == entries + ParseEntries(buf.value, cursor.pos)
      decreases |buf.value| - cursor.pos
    {
      ghost var at := cursor.pos;
      var d := DirentIO.ParseCentral(cursor);
      if d.Err? {
        assert ParseEntries(buf.value, at) == [];
        break;
      }
      ghost var rest := ParseEntries(buf.value, cursor.pos);
      assert entries + ([d.value] + rest) == entries + [d.value] + rest;
      entries := entries + [d.value];
    }
    assert entries + [] == entries;
    if !CountMatches(|entries|, n) { return Err(Incons); }
    return Ok(entries);
  }

  method TryParse(src: Source, tail: bytes, tailStart: nat, abs: nat) returns (r: Result<Option<CentralDir>>)
    requires tailStart <= abs && abs + EOCD_SIZE <= |src.data| && tail == src.data[tailStart..]
    modifies src
    ensures r == Cdir.TryParse(src.data, tailStart, abs)
  {
    hide FromLe, Cdir.ReadEntries, Cdir.ReadEocd64;
    var rel := abs - tailStart;
    ghost var b := src.data;
    assert tail == b[tailStart..|b|];
    SlicedFields(b, tailStart, |b|, rel + 4); SlicedFields(b, tailStart, |b|, rel + 6);
    SlicedFields(b, tailStart, |b|, rel + 10); SlicedFields(b, tailStart, |b|, rel + 12);
    SlicedFields(b, tailStart, |b|, rel + 16); SlicedFields(b, tailStart, |b|, rel + 20);
    var thisDisk, eocdDisk := U16(tail, rel + 4), U16(tail, rel + 6);
    var n := U16(tail, rel + 10);
    var size: u64, offset: u64 := U32(tail, rel + 12), U32(tail, rel + 16);
    var commentLen := U16(tail, rel + 20);
    if rel + EOCD_SIZE + commentLen > |tail| { return Ok(None); }
    var comment := tail[rel + EOCD_SIZE..rel + EOCD_SIZE + commentLen];
    assert comment == b[abs + EOCD_SIZE..abs + EOCD_SIZE + commentLen];
    if thisDisk != 0 || eocdDisk != 0 { return Ok(None); }
    var zip64 := false;
    if rel >= LOCATOR_SIZE {
      SubSlice(b, tailStart, tail, rel - 20, rel - 16);
    }
    if rel >= LOCATOR_SIZE && tail[rel - 20..rel - 16] == LOCATOR_MAGIC {
      zip64 := true;
      SlicedFields(b, tailStart, |b|, rel - 12);
      var z := ReadEocd64(src, U64(tail, rel - 12));
      if z.Some? {
        size := z.value.size;
        offset := z.value.offset;
        if n == U16_MAX {
          var entries := ReadEntries(src, offset, size, z.value.n);
          if entries.Err? { return Err(entries.error); }
          return Ok(Some(CentralDir(entries.value, comment, zip64, size, offset)));
        }
      }
    }
    if size == 0 && offset == 0 && n == 0 {
      return Ok(Some(CentralDir([], comment, zip64, 0, 0)));
    }
    var entries := ReadEntries(src, offset, size, n);
    if entries.Err? { return Err(entries.error); }
    return Ok(Some(CentralDir(entries.value, comment, zip64, size, offset)));
  }

  // What is collected so far and what is still below make up all candidates.
  ghost predicate Collecting(b: bytes, collected: seq<nat>, i: int)
    requires |b| >= EOCD_SIZE && i <= |b| - EOCD_SIZE
  {
    Candidates(b, |b| - EOCD_SIZE) == collected + Candidates(b, i)
  }

  /** The absolute offsets in the tail buffer where an end-record signature stands, latest first. */
  method CollectCandidates(tail: bytes, tailStart: nat, ghost b: bytes) returns (candidates: seq<nat>)
    requires |b| >= EOCD_SIZE && tailStart == TailStart(b) && tail == b[tailStart..]
    ensures candidates == Candidates(b, |b| - EOCD_SIZE)
  {
    hide Candidates, TailStart, EocdAt, MagicAt, Collecting;
    candidates := [];
    var i := |tail| - EOCD_SIZE;
    CollectingEnds(b, candidates);
    while i >= 0
      invariant -1 <= i <= |tail| - EOCD_SIZE
      invariant Collecting(b, candidates, tailStart + i)
    {
      CandidateStep(b, candidates, tailStart + i);
      EocdInTail(b, tail, tailStart, i);
      if MagicAt(tail, i) {
        candidates := candidates + [tailStart + i];
      }
      i := i - 1;
    }
    CollectingEnds(b, candidates);
  }

  lemma CollectingEnds(b: bytes, collected: seq<nat>)
    requires |b| >= EOCD_SIZE
    ensures TailStart(b) + EOCD_SIZE <= |b| && Collecting(b, [], |b| - EOCD_SIZE)
    ensures Collecting(b, collected, TailStart(b) - 1) ==> collected == Candidates(b, |b| - EOCD_SIZE)
  {
    assert [] + Candidates(b, |b| - EOCD_SIZE) == Candidates(b, |b| - EOCD_SIZE);
    assert collected + [] == collected;
  }

  predicate MagicAt(tail: bytes, i: nat)
    requires i + EOCD_SIZE <= |tail|
  {
    tail[i..i + 4] == EOCD_MAGIC
  }

  lemma EocdInTail(b: bytes, tail: bytes, tailStart: nat, i: nat)
    requires tailStart <= |b| && tail == b[tailStart..] && i + EOCD_SIZE <= |tail|
    ensures EocdAt(b, tailStart + i) <==> MagicAt(tail, i)
  {
    SubSlice(b, tailStart, tail, i, i + 4);
  }

  lemma CandidateStep(b: bytes, out: seq<nat>, i: nat)
    requires TailStart(b) <= i && i + EOCD_SIZE <= |b| && Collecting(b, out, i)
    ensures Collecting(b, if EocdAt(b, i) then out + [i] else out, i - 1)
  {
    assert out + ([i] + Candidates(b, i - 1)) == out + [i] + Candidates(b, i - 1);
  }

  /** Reads the directory: tail into a buffer, candidates from the end backwards, first consistent parse wins. */
  method ReadCentralDir(src: Source) returns (r: Result<CentralDir>)
    modifies src
    ensures r == Cdir.ReadCentralDir(src.data)
  {
    hide Cdir.TryParse, Candidates, EocdAt;
    var len := |src.data|;
    if len < EOCD_SIZE { return Err(Nozip); }
    var buflen := if len <= MAX_CD_BUFFER then len else MAX_CD_BUFFER;
    var tailStart := len - buflen;
    src.Seek(tailStart);
    var tail := src.ReadExact(buflen);
    ghost var b := src.data;
    assert tail.value == b[tailStart..] && tailStart == TailStart(b);
    var candidates := CollectCandidates(tail.value, tailStart, b);
    CandidatesAreEocds(b, len - EOCD_SIZE);
    CandidatesFit(b, candidates);
    for k := 0 to |candidates|
      invariant forall c <- candidates[k..] :: c in candidates
      invariant TryAll(b, candidates) == TryAll(b, candidates[k..])
    {
      assert candidates[k] in candidates;
      assert candidates[k..][1..] == candidates[k + 1..];
      var cd := TryParse(src, tail.value, tailStart, candidates[k]);
      if cd.Err? { return Err(cd.error); }
      if cd.value.Some? { return Ok(cd.value.value); }
    }
    src.Seek(0);
    var head := src.Read(2);
    assert head == b[0..2];
    return if head[0] == 0x50 && head[1] == 0x4B then Err(TruncatedZip) else Err(Nozip);
  }

  lemma CandidatesFit(b: bytes, candidates: seq<nat>)
    requires forall c <- candidates :: EocdAt(b, c)
    ensures forall c <- candidates :: c + EOCD_SIZE <= |b|
  {}
}
