/** What the end record that decides makes of an archive: with a ZIP64 record, without one, and without any end record. */
module DirectoryReads {
  import opened Bytes
  import opened Dirents
  import opened Cdir

  /** The end record that decides what an archive reads as. */
  predicate Decides(b: bytes, at: nat) {
    EocdAt(b, at) && TailStart(b) <= at && !PassedOver(b, at) && LaterPassedOver(b, at)
  }

  /** The outcome of reading the entries, with everything else the end records give. */
  function Outcome(entries: Result<seq<Dirent>>, comment: bytes, zip64: bool, size: u64, offset: u64): Result<CentralDir> {
    match entries
    case Ok(es) => Ok(CentralDir(es, comment, zip64, size, offset))
    case Err(e) => Err(e)
  }

  // What a decisive end record without a locator says.
  lemma PlainRecord(b: bytes, at: nat)
    requires Decides(b, at) && NoFalseLocator(b, at)
    ensures at + EOCD_SIZE + U16(b, at + 20) <= |b|
    ensures var n, size, offset := U16(b, at + 10), U32(b, at + 12), U32(b, at + 16);
            var comment := b[at + EOCD_SIZE..at + EOCD_SIZE + U16(b, at + 20)];
            ReadCentralDir(b) == Outcome(ReadEntries(b, offset, size, n), comment, false, size, offset)
  {
    hide FromLe, ReadCentralDir, ParseEntries;
    SearchOutcome(b, at);
    EmptyEntries();
  }

  predicate LocatorBefore(b: bytes, at: nat) {
    TailStart(b) + LOCATOR_SIZE <= at <= |b| && b[at - 20..at - 16] == LOCATOR_MAGIC
  }

  /** A ZIP64 end record stands at `e`. */
  predicate RecordAt(b: bytes, e: nat) { e + EOCD64_SIZE <= |b| && b[e..e + 4] == EOCD64_MAGIC }

  /** When the locator leads to a ZIP64 end record, that alone gives the place and the size of the directory, whatever
      the plain record says of them. The plain count holds unless it is at its sentinel. */
  lemma Zip64RecordDecides(b: bytes, at: nat)
    requires Decides(b, at) && LocatorBefore(b, at) && RecordAt(b, U64(b, at - 12))
    ensures at + EOCD_SIZE + U16(b, at + 20) <= |b|
    ensures var e, m := U64(b, at - 12), U16(b, at + 10);
            var n, size, offset := U64(b, e + 32), U64(b, e + 40), U64(b, e + 48);
            ReadCentralDir(b) ==
              Outcome(ReadEntries(b, offset, size, if m == 0xFFFF then n else m),
                      b[at + EOCD_SIZE..at + EOCD_SIZE + U16(b, at + 20)], true, size, offset)
  {
    hide FromLe, ReadCentralDir, ParseEntries;
    SearchOutcome(b, at);
    EmptyEntries();
  }

  /** A locator that leads to no ZIP64 end record marks the archive, and the plain values hold. */
  lemma LocatorWithoutRecord(b: bytes, at: nat)
    requires Decides(b, at) && LocatorBefore(b, at) && !RecordAt(b, U64(b, at - 12))
    ensures at + EOCD_SIZE + U16(b, at + 20) <= |b|
    ensures var m, size, offset := U16(b, at + 10), U32(b, at + 12), U32(b, at + 16);
            ReadCentralDir(b) ==
              Outcome(ReadEntries(b, offset, size, m), b[at + EOCD_SIZE..at + EOCD_SIZE + U16(b, at + 20)], true, size, offset)
  {
    hide FromLe, ReadCentralDir, ParseEntries;
    SearchOutcome(b, at);
    EmptyEntries();
  }

  // ----- an archive that ends in ZIP64 records and any plain end record -----

  function MixedEnd(body: bytes, n: u64, size: u64, offset: u64, m: u16, plainSize: u32, plainOffset: u32, comment: bytes)
    : bytes
  {
    body + Eocd64(n, size, offset) + Locator(|body|) + EocdFixed(m, plainSize, plainOffset, |comment|) + comment
  }

  lemma MixedLayout(body: bytes, n: u64, size: u64, offset: u64, m: u16, plainSize: u32, plainOffset: u32, comment: bytes)
    requires |comment| <= U16_MAX
    requires |MixedEnd(body, n, size, offset, m, plainSize, plainOffset, comment)| <= U64_MAX
    ensures var b, at := MixedEnd(body, n, size, offset, m, plainSize, plainOffset, comment),
                         |body| + EOCD64_SIZE + LOCATOR_SIZE;
            && |b| == at + EOCD_SIZE + |comment| && TailStart(b) + LOCATOR_SIZE <= at
            && EocdAt(b, at) && !PassedOver(b, at) && U16(b, at + 10) == m && U16(b, at + 20) == |comment|
            && b[at + EOCD_SIZE..at + EOCD_SIZE + |comment|] == comment
            && LocatorBefore(b, at) && U64(b, at - 12) == |body| && RecordAt(b, |body|)
            && U64(b, |body| + 32) == n && U64(b, |body| + 40) == size && U64(b, |body| + 48) == offset
  {
    hide Le, FromLe, EocdFixed, Eocd64, Locator;
    var b, at := MixedEnd(body, n, size, offset, m, plainSize, plainOffset, comment), |body| + EOCD64_SIZE + LOCATOR_SIZE;
    var z, l, e := Eocd64(n, size, offset), Locator(|body|), EocdFixed(m, plainSize, plainOffset, |comment|);
    FiveParts(body, z, l, e, comment);
    assert b[at - 76..at - 20] == z && b[at - 20..at] == l && b[at..at + EOCD_SIZE] == e;
    EocdFields(b, at, m, plainSize, plainOffset, |comment|);
    LocatorFields(b, at - 20, |body|);
    Eocd64Fields(b, at - 76, n, size, offset);
  }

  /** Such an archive is read from its ZIP64 record: the directory is the one at `offset` of `size` bytes, and the count
      that is checked is the plain one unless that is 65535. */
  lemma MixedEndReads(body: bytes, n: u64, size: u64, offset: u64, m: u16, plainSize: u32, plainOffset: u32, comment: bytes)
    requires |comment| <= U16_MAX
    requires |MixedEnd(body, n, size, offset, m, plainSize, plainOffset, comment)| <= U64_MAX
    requires LaterPassedOver(MixedEnd(body, n, size, offset, m, plainSize, plainOffset, comment),
                             |body| + EOCD64_SIZE + LOCATOR_SIZE)
    ensures var b := MixedEnd(body, n, size, offset, m, plainSize, plainOffset, comment);
            ReadCentralDir(b) ==
              Outcome(ReadEntries(b, offset, size, if m == 0xFFFF then n else m), comment, true, size, offset)
    ensures var b := MixedEnd(body, n, size, offset, m, plainSize, plainOffset, comment);
            && (size > 0x4000_0000 ==> ReadCentralDir(b) == Err(CentralDirTooLarge))
            && (0 < size <= 0x4000_0000 && offset + size > |b| ==> ReadCentralDir(b) == Err(Incons))
  {
    hide ReadCentralDir, ParseEntries, MixedEnd, EocdAt, PassedOver, LocatorBefore, RecordAt, TailStart, LaterPassedOver;
    MixedLayout(body, n, size, offset, m, plainSize, plainOffset, comment);
    Zip64RecordDecides(MixedEnd(body, n, size, offset, m, plainSize, plainOffset, comment),
                       |body| + EOCD64_SIZE + LOCATOR_SIZE);
  }

  /** Reopening through a ZIP64 record: the entries come back if their number is the checked one, as it is or modulo
      65536, whatever the plain record gives for size and offset. */
  lemma MixedEndReopens(prefix: bytes, ds: seq<Dirent>, n: u64, m: u16, plainSize: u32, plainOffset: u32, comment: bytes)
    requires (forall d <- ds :: Sound(d)) && |Records(ds)| <= 0x4000_0000 && |comment| <= U16_MAX && |prefix| <= U64_MAX
    requires var b := MixedEnd(prefix + Records(ds), n, |Records(ds)|, |prefix|, m, plainSize, plainOffset, comment);
             |b| <= U64_MAX && LaterPassedOver(b, |prefix| + |Records(ds)| + EOCD64_SIZE + LOCATOR_SIZE)
    ensures var b := MixedEnd(prefix + Records(ds), n, |Records(ds)|, |prefix|, m, plainSize, plainOffset, comment);
            var es, count := RereadPrefix(ds), if m == 0xFFFF then n else m;
            ReadCentralDir(b) ==
              if |es| == count || |es| % 0x1_0000 == count then Ok(CentralDir(es, comment, true, |Records(ds)|, |prefix|))
              else Err(Incons)
    ensures RereadPrefix(ds) == RegeneratedAll(ds) <==> forall d <- ds :: Readable(d)
  {
    hide ReadCentralDir, Records, RereadPrefix, Sound, ParseEntries, LaterPassedOver, Reread, Readable, Eocd64, Locator,
         EocdFixed, RegeneratedAll;
    var r := Records(ds);
    var b := MixedEnd(prefix + r, n, |r|, |prefix|, m, plainSize, plainOffset, comment);
    MixedEndReads(prefix + r, n, |r|, |prefix|, m, plainSize, plainOffset, comment);
    RereadPrefixExact(ds);
    var rest := Eocd64(n, |r|, |prefix|) + Locator(|prefix + r|) + EocdFixed(m, plainSize, plainOffset, |comment|) + comment;
    assert b == prefix + r + rest;
    assert b[|prefix|..|prefix| + |r|] == r;
    ParseRecords([], ds, []);
    assert [] + r + [] == r;
    assert |r| == 0 ==> r == [];
  }

  // ----- when an archive is a ZIP64 one -----

  /** Some quantity does not fit its field without ZIP64. */
  predicate Wide(s: Sizes) {
    s.uncomp > 0xFFFF_FFFF || s.comp > 0xFFFF_FFFF || s.offset > 0xFFFF_FFFF || s.disk > 0xFFFF
  }

  lemma Zip64When(cd: CentralDir)
    ensures NeedsZip64Directory(cd) <==>
              || cd.isZip64 || |cd.entries| > 65535 || |Records(cd.entries)| > 0xFFFF_FFFF || cd.cdirOffset > 0xFFFF_FFFF
              || exists k | 0 <= k < |cd.entries| :: Wide(cd.entries[k].sizes)
  {
    hide Records;
    forall k | 0 <= k < |cd.entries| && Wide(cd.entries[k].sizes) ensures NeedsZip64Directory(cd) {
      assert cd.entries[k] in cd.entries && NeedsZip64(cd.entries[k].sizes);
    }
  }

  // ----- no end record -----

  lemma {:induction false} NoCandidates(b: bytes, i: int)
    requires |b| >= EOCD_SIZE && i <= |b| - EOCD_SIZE
    requires forall p | 0 <= p <= i && |b| - 65578 <= p :: b[p..p + 4] != EOCD_MAGIC || PassedOver(b, p)
    ensures SearchBelow(b, i) == if b[0] == 0x50 && b[1] == 0x4B then Err(TruncatedZip) else Err(Nozip)
    decreases i + 1
  {
    hide TryParse, PassedOver, SearchBelow;
    if i >= TailStart(b) {
      assert b[i..i + 4] != EOCD_MAGIC || PassedOver(b, i);
      SearchStep(b, i);
      NoCandidates(b, i - 1);
    } else {
      NothingBelow(b, i);
    }
  }

  lemma NothingBelow(b: bytes, i: int)
    requires |b| >= EOCD_SIZE && i <= |b| - EOCD_SIZE && i < TailStart(b)
    ensures SearchBelow(b, i) == if b[0] == 0x50 && b[1] == 0x4B then Err(TruncatedZip) else Err(Nozip)
  {}

  /** An end record with a comment that ends within the file and two disk numbers of zero. */
  predicate Usable(b: bytes, p: nat)
    requires p + 22 <= |b|
  {
    && b[p..p + 4] == [0x50, 0x4B, 5, 6] && p + 22 + U16(b, p + 20) <= |b| && U16(b, p + 4) == 0 && U16(b, p + 6) == 0
  }

  /** Only the last 65578 bytes are searched: 65536 and the sizes of an end record and a locator. Without
      a usable end record there, the archive is truncated when it starts like one, and no archive otherwise. */
  lemma NotFound(b: bytes)
    requires forall p | 0 <= p <= |b| - 22 && |b| - 65578 <= p :: !Usable(b, p)
    ensures ReadCentralDir(b) ==
              if |b| >= 22 && b[0] == 0x50 && b[1] == 0x4B then Err(TruncatedZip) else Err(Nozip)
  {
    hide FromLe, TryAll, Candidates;
    forall p | 0 <= p <= |b| - 22 && |b| - 65578 <= p ensures b[p..p + 4] != EOCD_MAGIC || PassedOver(b, p) {
      assert !Usable(b, p);
    }
    if |b| >= EOCD_SIZE { NoCandidates(b, |b| - EOCD_SIZE); }
  }
}
