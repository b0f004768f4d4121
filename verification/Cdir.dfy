/** The central directory: printing it with its end records, finding it from the end of an archive, reading it. */
module Cdir {
  import opened Bytes
  import opened Dirents

  const EOCD_MAGIC: bytes := [0x50, 0x4B, 0x05, 0x06]
  const LOCATOR_MAGIC: bytes := [0x50, 0x4B, 0x06, 0x07]
  const EOCD64_MAGIC: bytes := [0x50, 0x4B, 0x06, 0x06]
  const EOCD_SIZE := 22
  const LOCATOR_SIZE := 20
  const EOCD64_SIZE := 56
  const MAX_CD_BUFFER := 65536 + EOCD_SIZE + LOCATOR_SIZE
  const MAX_CD_SIZE := 0x4000_0000

  datatype CentralDir = CentralDir(
    entries: seq<Dirent>, comment: bytes, isZip64: bool, cdirSize: u64, cdirOffset: u64)

  // ----- printing -----

  function Records(ds: seq<Dirent>): bytes {
    if ds == [] then [] else RecordBytes(ds[0]) + Records(ds[1..])
  }

  lemma {:induction false} RecordsConcat(a: seq<Dirent>, b: seq<Dirent>)
    ensures Records(a + b) == Records(a) + Records(b)
  {
    hide RecordBytes;
    if a == [] {
      assert a + b == b;
    } else {
      RecordsConcat(a[1..], b);
      assert (a + b)[1..] == a[1..] + b && (a + b)[0] == a[0];
    }
  }

  function Eocd64(n: nat, size: nat, offset: nat): (s: bytes)
    ensures |s| == EOCD64_SIZE
  {
    EOCD64_MAGIC + Le(44, 8) + Le(45, 2) + Le(45, 2) + Le(0, 4) + Le(0, 4)
    + Le(n, 8) + Le(n, 8) + Le(size, 8) + Le(offset, 8)
  }

  function Locator(eocd64At: nat): (s: bytes)
    ensures |s| == LOCATOR_SIZE
  {
    LOCATOR_MAGIC + Le(0, 4) + Le(eocd64At, 8) + Le(1, 4)
  }

  /** The fixed part of the end record; every argument is truncated to its field. */
  function EocdFixed(n: nat, size: nat, offset: nat, commentLen: nat): (s: bytes)
    ensures |s| == EOCD_SIZE
  {
    EOCD_MAGIC + Le(0, 2) + Le(0, 2) + Le(n, 2) + Le(n, 2) + Le(size, 4) + Le(offset, 4) + Le(commentLen, 2)
  }

  /** Everything after the records: the end record, preceded by the ZIP64 records when they are needed. */
  function EndRecords(zip64: bool, n: nat, size: nat, offset: nat, comment: bytes): bytes {
    if zip64
    then Eocd64(n, size, offset) + Locator(offset + size)
         + EocdFixed(U16_MAX, U32_MAX, U32_MAX, |comment|) + comment
    else EocdFixed(n, size, offset, |comment|) + comment
  }

  predicate NeedsZip64Directory(cd: CentralDir) {
    || cd.isZip64
    || |cd.entries| > U16_MAX
    || |Records(cd.entries)| > U32_MAX
    || cd.cdirOffset > U32_MAX
    || exists d <- cd.entries :: NeedsZip64(d.sizes)
  }

  function SerializedBytes(cd: CentralDir): bytes {
    var records := Records(cd.entries);
    records + EndRecords(NeedsZip64Directory(cd), |cd.entries|, |records|, cd.cdirOffset, cd.comment)
  }

  function Serialize(cd: CentralDir): Result<bytes> {
    if forall d <- cd.entries :: Printable(d) then Ok(SerializedBytes(cd)) else Err(Eftoolarge)
  }

  // ----- reading -----

  /** As many records as parse, one after the other, from `p` to the end. */
  function ParseEntries(b: bytes, p: nat): seq<Dirent>
    decreases |b| - p
  {
    if p >= |b| then []
    else
      match ParseCentral(b, p)
      case Err(_) => []
      case Ok((d, end)) => [d] + ParseEntries(b, end)
  }

  // The count may have wrapped at 0x10000.
  predicate CountMatches(parsed: nat, n: nat) { parsed == n || parsed % 0x1_0000 == n }

  function ReadEntries(b: bytes, offset: nat, size: nat, n: nat): Result<seq<Dirent>> {
    if size > MAX_CD_SIZE then Err(CentralDirTooLarge)
    else if size > 0 && offset + size > |b| then Err(Incons)
    else
      var entries := ParseEntries(if size == 0 then [] else b[offset..offset + size], 0);
      if CountMatches(|entries|, n) then Ok(entries) else Err(Incons)
  }

  datatype Zip64Eocd = Zip64Eocd(size: u64, offset: u64, n: u64)

  function ReadEocd64(b: bytes, at: nat): Option<Zip64Eocd> {
    if at + EOCD64_SIZE > |b| || b[at..at + 4] != EOCD64_MAGIC then None
    else Some(Zip64Eocd(U64(b, at + 40), U64(b, at + 48), U64(b, at + 32)))
  }

  /** The directory described by the end record at `abs`; `None` asks for an earlier candidate. */
  function TryParse(b: bytes, tailStart: nat, abs: nat): Result<Option<CentralDir>>
    requires tailStart <= abs && abs + EOCD_SIZE <= |b|
  {
    var n, commentLen := U16(b, abs + 10), U16(b, abs + 20);
    if abs + EOCD_SIZE + commentLen > |b| || U16(b, abs + 4) != 0 || U16(b, abs + 6) != 0 then Ok(None)
    else
      var comment := b[abs + EOCD_SIZE..abs + EOCD_SIZE + commentLen];
      var zip64 := abs - tailStart >= LOCATOR_SIZE && b[abs - 20..abs - 16] == LOCATOR_MAGIC;
      var z := if zip64 then ReadEocd64(b, U64(b, abs - 12)) else None;
      var size := if z.Some? then z.value.size else U32(b, abs + 12);
      var offset := if z.Some? then z.value.offset else U32(b, abs + 16);
      if z.Some? && n == U16_MAX then Found(ReadEntries(b, offset, size, z.value.n), comment, true, size, offset)
      else if size == 0 && offset == 0 && n == 0 then Ok(Some(CentralDir([], comment, zip64, 0, 0)))
      else Found(ReadEntries(b, offset, size, n), comment, zip64, size, offset)
  }

  function Found(entries: Result<seq<Dirent>>, comment: bytes, zip64: bool, size: u64, offset: u64)
    : Result<Option<CentralDir>>
  {
    match entries
    case Ok(es) => Ok(Some(CentralDir(es, comment, zip64, size, offset)))
    case Err(e) => Err(e)
  }

  function TailStart(b: bytes): nat { if |b| <= MAX_CD_BUFFER then 0 else |b| - MAX_CD_BUFFER }

  predicate EocdAt(b: bytes, p: nat) { p + EOCD_SIZE <= |b| && b[p..p + 4] == EOCD_MAGIC }

  /** The candidates at or below `i`, latest first. */
  function Candidates(b: bytes, i: int): seq<nat>
    requires |b| >= EOCD_SIZE && i <= |b| - EOCD_SIZE
    decreases i + 1
  {
    if i < TailStart(b) then []
    else if EocdAt(b, i) then [i] + Candidates(b, i - 1)
    else Candidates(b, i - 1)
  }

  function TryAll(b: bytes, candidates: seq<nat>): Result<CentralDir>
    requires |b| >= EOCD_SIZE && forall c <- candidates :: TailStart(b) <= c && EocdAt(b, c)
  {
    if candidates == [] then
      // A `PK` prefix without an end record is a truncated archive.
      if b[0] == 0x50 && b[1] == 0x4B then Err(TruncatedZip) else Err(Nozip)
    else
      assert candidates[0] in candidates && EocdAt(b, candidates[0]) && forall c <- candidates[1..] :: c in candidates;
      match TryParse(b, TailStart(b), candidates[0])
      case Err(e) => Err(e)
      case Ok(Some(cd)) => Ok(cd)
      case Ok(None) => TryAll(b, candidates[1..])
  }

  lemma {:induction false} CandidatesAreEocds(b: bytes, i: int)
    requires |b| >= EOCD_SIZE && i <= |b| - EOCD_SIZE
    ensures forall c <- Candidates(b, i) :: TailStart(b) <= c <= i && EocdAt(b, c)
    decreases i + 1
  {
    if i >= TailStart(b) {
      CandidatesAreEocds(b, i - 1);
    }
  }

  function ReadCentralDir(b: bytes): Result<CentralDir> {
    if |b| < EOCD_SIZE then Err(Nozip)
    else
      CandidatesAreEocds(b, |b| - EOCD_SIZE);
      TryAll(b, Candidates(b, |b| - EOCD_SIZE))
  }

  // ----- the end-record search -----

  /** No end-record signature starts after `at` where a candidate could still begin. */
  predicate NoLaterEocd(b: bytes, at: nat) {
    forall p | at < p && p + EOCD_SIZE <= |b| :: !EocdAt(b, p)
  }

  /** A signature the reader leaves for an earlier one: its comment would pass the end, or a disk number is not zero. */
  predicate PassedOver(b: bytes, p: nat)
    requires p + EOCD_SIZE <= |b|
  {
    p + EOCD_SIZE + U16(b, p + 20) > |b| || U16(b, p + 4) != 0 || U16(b, p + 6) != 0
  }

  /** Every signature after `at` is passed over. */
  predicate LaterPassedOver(b: bytes, at: nat) {
    forall p | at < p <= |b| - EOCD_SIZE && EocdAt(b, p) :: PassedOver(b, p)
  }

  predicate NoFalseLocator(b: bytes, at: nat) {
    LOCATOR_SIZE <= at <= |b| ==> b[at - 20..at - 16] != LOCATOR_MAGIC
  }

  // A candidate is passed over, or it decides the outcome with a comment that ends within the archive.
  lemma CandidateOutcome(b: bytes, p: nat)
    requires TailStart(b) <= p && p + EOCD_SIZE <= |b|
    ensures var r := TryParse(b, TailStart(b), p);
            && (r == Ok(None) <==> PassedOver(b, p))
            && (r.Ok? && r.value.Some? ==> |r.value.value.comment| == U16(b, p + 20) <= |b| - EOCD_SIZE - p)
  {
    hide FromLe, ParseEntries;
  }

  function Unwrapped(r: Result<Option<CentralDir>>): Result<CentralDir>
    requires r != Ok(None)
  {
    match r case Ok(o) => Ok(o.value) case Err(e) => Err(e)
  }

  /** The outcome of the candidates at or below `i`. */
  function SearchBelow(b: bytes, i: int): Result<CentralDir>
    requires |b| >= EOCD_SIZE && i <= |b| - EOCD_SIZE
  {
    CandidatesAreEocds(b, i);
    TryAll(b, Candidates(b, i))
  }

  lemma SearchStep(b: bytes, i: nat)
    requires TailStart(b) <= i && i + EOCD_SIZE <= |b|
    ensures SearchBelow(b, i) ==
              if !EocdAt(b, i) || PassedOver(b, i) then SearchBelow(b, i - 1)
              else (CandidateOutcome(b, i); Unwrapped(TryParse(b, TailStart(b), i)))
  {
    hide TryParse, PassedOver, TailStart, EocdAt;
    CandidateOutcome(b, i);
    CandidatesAreEocds(b, i - 1);
    if EocdAt(b, i) { assert Candidates(b, i)[1..] == Candidates(b, i - 1); }
  }

  lemma {:induction false} SearchFrom(b: bytes, at: nat, i: int)
    requires EocdAt(b, at) && TailStart(b) <= at <= i <= |b| - EOCD_SIZE && !PassedOver(b, at)
    ensures TryParse(b, TailStart(b), at) != Ok(None)
    ensures var r := SearchBelow(b, i);
            if forall p | at < p <= i && EocdAt(b, p) :: PassedOver(b, p)
            then r == Unwrapped(TryParse(b, TailStart(b), at))
            else r.Err? || |r.value.comment| < |b| - EOCD_SIZE - at
    decreases i
  {
    hide TryParse, PassedOver, TailStart, EocdAt, SearchBelow;
    CandidateOutcome(b, i);
    CandidateOutcome(b, at);
    SearchStep(b, i);
    if i > at { SearchFrom(b, at, i - 1); }
  }

  /** The search from an end record that is not itself passed over: it is the one that decides exactly when every
      later signature is passed over; otherwise a later one decides, and any comment it gives is shorter. */
  lemma SearchOutcome(b: bytes, at: nat)
    requires EocdAt(b, at) && TailStart(b) <= at && !PassedOver(b, at)
    ensures TryParse(b, TailStart(b), at) != Ok(None)
    ensures if LaterPassedOver(b, at) then ReadCentralDir(b) == Unwrapped(TryParse(b, TailStart(b), at))
            else ReadCentralDir(b).Err? || |ReadCentralDir(b).value.comment| < |b| - EOCD_SIZE - at
  {
    hide TryParse, PassedOver, TailStart, TryAll, Candidates;
    SearchFrom(b, at, |b| - EOCD_SIZE);
  }

  /** The search, exactly: a directory whose comment reaches the end of the archive is the one that is found if and
      only if every later signature is passed over. */
  lemma SearchIsExact(b: bytes, at: nat, cd: CentralDir)
    requires EocdAt(b, at) && TailStart(b) <= at && TryParse(b, TailStart(b), at) == Ok(Some(cd))
    requires |cd.comment| == |b| - EOCD_SIZE - at
    ensures ReadCentralDir(b) == Ok(cd) <==> LaterPassedOver(b, at)
  {
    hide TryParse, PassedOver, TailStart, ReadCentralDir;
    CandidateOutcome(b, at);
    SearchOutcome(b, at);
  }

  lemma {:induction false} CommentsFit(b: bytes, candidates: seq<nat>)
    requires |b| >= EOCD_SIZE && forall c <- candidates :: TailStart(b) <= c && EocdAt(b, c)
    ensures TryAll(b, candidates).Ok? ==> |TryAll(b, candidates).value.comment| <= U16_MAX
  {
    hide TryParse, PassedOver, TailStart, FromLe;
    if candidates != [] {
      assert candidates[0] in candidates && EocdAt(b, candidates[0]) && forall c <- candidates[1..] :: c in candidates;
      CandidateOutcome(b, candidates[0]);
      CommentsFit(b, candidates[1..]);
    }
  }

  lemma ReadCommentFits(b: bytes)
    ensures ReadCentralDir(b).Ok? ==> |ReadCentralDir(b).value.comment| <= U16_MAX
  {
    hide TryAll, Candidates;
    if |b| >= EOCD_SIZE {
      CandidatesAreEocds(b, |b| - EOCD_SIZE);
      CommentsFit(b, Candidates(b, |b| - EOCD_SIZE));
    }
  }

  lemma {:induction false} FirstCandidateFrom(b: bytes, at: nat, i: int)
    requires EocdAt(b, at) && TailStart(b) <= at <= i <= |b| - EOCD_SIZE
    ensures |Candidates(b, i)| > 0 && at in Candidates(b, i)
    ensures Candidates(b, i)[0] == at <==> forall p | at < p <= i :: !EocdAt(b, p)
    decreases i
  {
    hide EocdAt, TailStart;
    if i > at { FirstCandidateFrom(b, at, i - 1); }
  }

  /** For every comment that fits its length field the scanned tail holds the end record and, when there is
      one, the locator before it; the end record is the first candidate exactly when no signature starts
      after it, and always when the comment is empty. */
  lemma EocdSearch(body: bytes, n: nat, size: nat, offset: nat, comment: bytes)
    requires |comment| <= U16_MAX
    ensures var b := body + EocdFixed(n, size, offset, |comment|) + comment;
            && TailStart(b) <= |body| && (|body| >= LOCATOR_SIZE ==> |body| - TailStart(b) >= LOCATOR_SIZE)
            && EocdAt(b, |body|)
            && |Candidates(b, |b| - EOCD_SIZE)| > 0
            && (Candidates(b, |b| - EOCD_SIZE)[0] == |body| <==> NoLaterEocd(b, |body|))
            && (comment == [] ==> NoLaterEocd(b, |body|))
  {
    hide Le;
    var b := body + EocdFixed(n, size, offset, |comment|) + comment;
    assert b[|body|..|body| + 4] == EOCD_MAGIC;
    FirstCandidateFrom(b, |body|, |b| - EOCD_SIZE);
  }

  // ----- reading what was printed -----

  /** The entry comes back from its printed record with its regenerated extra fields. */
  predicate Readable(d: Dirent) { !UnsafeName(d.filename) && Unambiguous(d) }

  /** What reading the printed record gives: the entry, an error, or, for an ambiguous entry, another one. */
  function Reread(d: Dirent): Result<Dirent> {
    match PrintedReadsAs(d, 0) case Err(e) => Err(e) case Ok((e, _)) => Ok(e)
  }

  predicate Sound(d: Dirent) { Printable(d) && Coherent(d) }

  /** The entries read back, up to the first that fails. */
  function RereadPrefix(ds: seq<Dirent>): (r: seq<Dirent>)
    ensures |r| <= |ds|
  {
    if ds == [] || Reread(ds[0]).Err? then [] else [Reread(ds[0]).value] + RereadPrefix(ds[1..])
  }

  lemma RereadIs(d: Dirent)
    ensures Reread(d) == Ok(Regenerated(d)) <==> Readable(d)
  {
    hide PrintedReadsAs, UnsafeName, Unambiguous, Regenerated, FindField, PrintedExtras, Marked;
    MisreadExactly(d, 0);
  }

  lemma {:induction false} RereadPrefixExact(ds: seq<Dirent>)
    ensures |RereadPrefix(ds)| == |ds| <==> forall d <- ds :: Reread(d).Ok?
    ensures RereadPrefix(ds) == RegeneratedAll(ds) <==> forall d <- ds :: Readable(d)
  {
    hide Reread, Readable, Regenerated;
    if ds == [] {
    } else {
      RereadPrefixExact(ds[1..]);
      RereadIs(ds[0]);
      var all, rest := RegeneratedAll(ds), RegeneratedAll(ds[1..]);
      assert ds == [ds[0]] + ds[1..];
      assert all == [Regenerated(ds[0])] + rest;
      if Reread(ds[0]).Ok? {
        assert RereadPrefix(ds)[0] == Reread(ds[0]).value && RereadPrefix(ds)[1..] == RereadPrefix(ds[1..]);
        assert all[0] == Regenerated(ds[0]) && all[1..] == rest;
      }
    }
  }

  lemma ReadOne(pre: bytes, d: Dirent, post: bytes)
    requires Sound(d)
    ensures var r := ParseCentral(pre + RecordBytes(d) + post, |pre|);
            if Reread(d).Ok? then r == Ok((Reread(d).value, |pre| + |RecordBytes(d)|)) else r.Err?
  {
    hide ParseCentral, RecordBytes, UnsafeName, Coherent, Overlay, PrintedExtras, FindField;
    ParsePrinted(pre, d, post);
  }

  /** No record starts here. */
  predicate Stops(post: bytes) { |post| < 4 || post[..4] != CENTRAL_MAGIC }

  lemma NoRecordAt(pre: bytes, post: bytes)
    requires Stops(post)
    ensures ParseEntries(pre + post, |pre|) == []
  {
    if |post| >= 4 { assert (pre + post)[|pre|..|pre| + 4] == post[..4]; }
  }

  /** Parsing a printed directory gives what each record reads back as, up to the first that fails, and stops at
      anything else that follows. */
  lemma {:induction false} ParseRecords(pre: bytes, ds: seq<Dirent>, post: bytes)
    requires (forall d <- ds :: Sound(d)) && Stops(post)
    ensures ParseEntries(pre + Records(ds) + post, |pre|) == RereadPrefix(ds)
    decreases |ds|
  {
    hide ParseCentral, RecordBytes, Reread, Sound, Stops;
    if ds == [] {
      assert pre + Records(ds) == pre;
      NoRecordAt(pre, post);
    } else {
      var rec, rest := RecordBytes(ds[0]), Records(ds[1..]) + post;
      assert pre + Records(ds) + post == pre + rec + rest;
      assert pre + rec + Records(ds[1..]) + post == pre + rec + rest;
      ReadOne(pre, ds[0], rest);
      ParseRecords(pre + rec, ds[1..], post);
      assert |rec| >= CENTRAL_SIZE;
    }
  }

  lemma EocdFields(b: bytes, at: nat, n: u16, size: u32, offset: u32, commentLen: u16)
    requires at + EOCD_SIZE <= |b| && b[at..at + EOCD_SIZE] == EocdFixed(n, size, offset, commentLen)
    ensures EocdAt(b, at) && U16(b, at + 4) == 0 && U16(b, at + 6) == 0 && U16(b, at + 10) == n
    ensures U32(b, at + 12) == size && U32(b, at + 16) == offset && U16(b, at + 20) == commentLen
  {
    hide Le, FromLe;
    var e := EocdFixed(n, size, offset, commentLen);
    SubSlice(b, at, e, 0, 4); assert e[0..4] == EOCD_MAGIC;
    SubSlice(b, at, e, 4, 6); assert e[4..6] == Le(0, 2);
    SubSlice(b, at, e, 6, 8); assert e[6..8] == Le(0, 2);
    SubSlice(b, at, e, 10, 12); assert e[10..12] == Le(n, 2);
    SubSlice(b, at, e, 12, 16); assert e[12..16] == Le(size, 4);
    SubSlice(b, at, e, 16, 20); assert e[16..20] == Le(offset, 4);
    SubSlice(b, at, e, 20, 22); assert e[20..22] == Le(commentLen, 2);
    U16At(b, at + 4, 0); U16At(b, at + 6, 0); U16At(b, at + 10, n);
    U32At(b, at + 12, size); U32At(b, at + 16, offset); U16At(b, at + 20, commentLen);
  }

  lemma Eocd64Fields(b: bytes, at: nat, n: u64, size: u64, offset: u64)
    requires at + EOCD64_SIZE <= |b| && b[at..at + EOCD64_SIZE] == Eocd64(n, size, offset)
    ensures ReadEocd64(b, at) == Some(Zip64Eocd(size, offset, n))
  {
    hide Le, FromLe;
    var e := Eocd64(n, size, offset);
    SubSlice(b, at, e, 0, 4); assert e[0..4] == EOCD64_MAGIC;
    SubSlice(b, at, e, 32, 40); assert e[32..40] == Le(n, 8);
    SubSlice(b, at, e, 40, 48); assert e[40..48] == Le(size, 8);
    SubSlice(b, at, e, 48, 56); assert e[48..56] == Le(offset, 8);
    U64At(b, at + 32, n); U64At(b, at + 40, size); U64At(b, at + 48, offset);
  }

  lemma LocatorFields(b: bytes, at: nat, eocd64At: u64)
    requires at + LOCATOR_SIZE <= |b| && b[at..at + LOCATOR_SIZE] == Locator(eocd64At)
    ensures b[at..at + 4] == LOCATOR_MAGIC && U64(b, at + 8) == eocd64At
  {
    hide Le, FromLe;
    var e := Locator(eocd64At);
    SubSlice(b, at, e, 0, 4); assert e[0..4] == LOCATOR_MAGIC;
    SubSlice(b, at, e, 8, 16); assert e[8..16] == Le(eocd64At, 8);
    U64At(b, at + 8, eocd64At);
  }

  // Where the end record of `prefix + SerializedBytes(cd)` stands.
  function EocdOffset(prefix: bytes, cd: CentralDir): nat {
    |prefix| + |Records(cd.entries)| + if NeedsZip64Directory(cd) then EOCD64_SIZE + LOCATOR_SIZE else 0
  }

  /** The directory is serialized at its own offset, within 64-bit positions. */
  predicate Situated(prefix: bytes, cd: CentralDir) {
    cd.cdirOffset == |prefix| && |prefix + SerializedBytes(cd)| <= U64_MAX
  }

  /** What the reader needs to find the directory again: lengths within its bounds, every signature in the comment
      passed over, and no locator signature before the end record of an archive that has no locator. */
  predicate Findable(prefix: bytes, cd: CentralDir) {
    var out, at := prefix + SerializedBytes(cd), EocdOffset(prefix, cd);
    && |cd.comment| <= U16_MAX && |Records(cd.entries)| <= MAX_CD_SIZE
    && LaterPassedOver(out, at) && (NeedsZip64Directory(cd) || NoFalseLocator(out, at))
  }

  lemma CountBound(ds: seq<Dirent>)
    ensures CENTRAL_SIZE * |ds| <= |Records(ds)|
  {
    hide RecordBytes;
    if ds != [] { CountBound(ds[1..]); }
  }

  // The layout of a serialized archive around its end records, whatever follows it.
  lemma PlainLayout(prefix: bytes, cd: CentralDir, post: bytes)
    requires Situated(prefix, cd) && !NeedsZip64Directory(cd)
    ensures var b, at, size := prefix + SerializedBytes(cd) + post, EocdOffset(prefix, cd), |Records(cd.entries)|;
            && |b| == at + EOCD_SIZE + |cd.comment| + |post| && b[|prefix|..at] == Records(cd.entries)
            && b[at + EOCD_SIZE..at + EOCD_SIZE + |cd.comment|] == cd.comment
            && b[at..at + EOCD_SIZE] == EocdFixed(|cd.entries|, size, |prefix|, |cd.comment|)
  {
    hide Le, Records, EocdFixed;
    var e := EocdFixed(|cd.entries|, |Records(cd.entries)|, |prefix|, |cd.comment|);
    FiveParts(prefix, Records(cd.entries), e, cd.comment, post);
    assert prefix + SerializedBytes(cd) + post == prefix + Records(cd.entries) + e + cd.comment + post;
  }

  lemma SevenParts(p: bytes, r: bytes, z: bytes, l: bytes, e: bytes, c: bytes, q: bytes)
    ensures var b, i := p + (r + (z + l + e + c)) + q, |p| + |r|;
            var j, k, m, n := i + |z|, i + |z| + |l|, i + |z| + |l| + |e|, i + |z| + |l| + |e| + |c|;
            && |b| == n + |q| && b[|p|..i] == r && b[i..j] == z && b[j..k] == l && b[k..m] == e && b[m..n] == c
  {}

  lemma Zip64Layout(prefix: bytes, cd: CentralDir, post: bytes)
    requires Situated(prefix, cd) && NeedsZip64Directory(cd)
    ensures var b, at, size := prefix + SerializedBytes(cd) + post, EocdOffset(prefix, cd), |Records(cd.entries)|;
            && |b| == at + EOCD_SIZE + |cd.comment| + |post| && b[|prefix|..at - 76] == Records(cd.entries)
            && b[at + EOCD_SIZE..at + EOCD_SIZE + |cd.comment|] == cd.comment
            && b[at - 76..at - 20] == Eocd64(|cd.entries|, size, |prefix|)
            && b[at - 20..at] == Locator(|prefix| + size)
            && b[at..at + EOCD_SIZE] == EocdFixed(U16_MAX, U32_MAX, U32_MAX, |cd.comment|)
  {
    hide Le, Records, EocdFixed, Eocd64, Locator;
    var size := |Records(cd.entries)|;
    SevenParts(prefix, Records(cd.entries), Eocd64(|cd.entries|, size, |prefix|), Locator(|prefix| + size),
               EocdFixed(U16_MAX, U32_MAX, U32_MAX, |cd.comment|), cd.comment, post);
  }

  // What the true end record says, unless a locator signature stands before it by accident. What follows is short
  // enough for the end record to be scanned.
  lemma TrueRecord(prefix: bytes, cd: CentralDir, post: bytes)
    requires Situated(prefix, cd) && |cd.comment| + |post| <= U16_MAX
    ensures var b, at, size := prefix + SerializedBytes(cd) + post, EocdOffset(prefix, cd), |Records(cd.entries)|;
            && |b| == at + EOCD_SIZE + |cd.comment| + |post| && TailStart(b) <= at
            && EocdAt(b, at) && !PassedOver(b, at)
            && var r := TryParse(b, TailStart(b), at);
               if NeedsZip64Directory(cd) || NoFalseLocator(b, at)
               then r == Found(ReadEntries(b, |prefix|, size, |cd.entries|), cd.comment, NeedsZip64Directory(cd), size, |prefix|)
               else r.Ok? && r.value.Some? ==> r.value.value.isZip64
  {
    hide Records, ParseEntries, FromLe, Le, EocdFixed, Eocd64, Locator, SerializedBytes, ReadEocd64;
    var b, at, n, size := prefix + SerializedBytes(cd) + post, EocdOffset(prefix, cd), |cd.entries|, |Records(cd.entries)|;
    CountBound(cd.entries);
    if NeedsZip64Directory(cd) {
      Zip64Layout(prefix, cd, post);
      EocdFields(b, at, U16_MAX, U32_MAX, U32_MAX, |cd.comment|);
      LocatorFields(b, at - 20, |prefix| + size);
      Eocd64Fields(b, at - 76, n, size, |prefix|);
    } else {
      PlainLayout(prefix, cd, post);
      EocdFields(b, at, n, size, |prefix|, |cd.comment|);
    }
    EmptyEntries();
  }

  lemma RecordsInPlace(prefix: bytes, cd: CentralDir, post: bytes)
    requires Situated(prefix, cd)
    ensures var b, size := prefix + SerializedBytes(cd) + post, |Records(cd.entries)|;
            |prefix| + size <= |b| && b[|prefix|..|prefix| + size] == Records(cd.entries)
  {
    hide Records, EndRecords, NeedsZip64Directory;
    var b, r := prefix + SerializedBytes(cd) + post, Records(cd.entries);
    assert b == prefix + r + b[|prefix| + |r|..];
  }

  lemma EmptyEntries()
    ensures ParseEntries([], 0) == []
  {}

  /** The directory as it should be read back. */
  function Directory(prefix: bytes, cd: CentralDir): CentralDir
    requires Situated(prefix, cd)
  {
    RecordsInPlace(prefix, cd, []);
    CentralDir(RegeneratedAll(cd.entries), cd.comment, NeedsZip64Directory(cd), |Records(cd.entries)|, |prefix|)
  }

  // What reading the entries at the right place gives.
  lemma EntriesRead(prefix: bytes, cd: CentralDir, post: bytes)
    requires Situated(prefix, cd) && forall d <- cd.entries :: Sound(d)
    ensures var b, size, es := prefix + SerializedBytes(cd) + post, |Records(cd.entries)|, RereadPrefix(cd.entries);
            ReadEntries(b, |prefix|, size, |cd.entries|) ==
              if size > MAX_CD_SIZE then Err(CentralDirTooLarge)
              else if |es| == |cd.entries| then Ok(es) else Err(Incons)
  {
    hide Records, SerializedBytes, RereadPrefix, Sound, ParseEntries, NeedsZip64Directory;
    RecordsInPlace(prefix, cd, post);
    ParseRecords([], cd.entries, []);
    assert [] + Records(cd.entries) + [] == Records(cd.entries);
    var b, size := prefix + SerializedBytes(cd) + post, |Records(cd.entries)|;
    assert size == 0 ==> Records(cd.entries) == [];
    assert (if size == 0 then [] else b[|prefix|..|prefix| + size]) == Records(cd.entries);
  }

  /** Reopening, exactly. Reading an archive that ends with a serialized directory returns that directory, every entry
      with its regenerated extra fields, if and only if the directory can be found and every entry is readable.
      Once it can be found, one entry that fails to reread fails the archive, and ambiguous entries come back changed. */
  lemma ReopenExact(prefix: bytes, cd: CentralDir)
    requires Situated(prefix, cd) && forall d <- cd.entries :: Sound(d)
    ensures var r, full := ReadCentralDir(prefix + SerializedBytes(cd)), Directory(prefix, cd);
            && (r == Ok(full) <==> Findable(prefix, cd) && forall d <- cd.entries :: Readable(d))
            && (Findable(prefix, cd) ==>
                  r == if forall d <- cd.entries :: Reread(d).Ok? then Ok(full.(entries := RereadPrefix(cd.entries)))
                       else Err(Incons))
  {
    hide Records, SerializedBytes, RereadPrefix, Reread, Readable, Sound, ReadEntries, TryParse, PassedOver, ReadCentralDir,
         LaterPassedOver, NoFalseLocator, NeedsZip64Directory, EocdOffset, RegeneratedAll, TailStart;
    var b, at := prefix + SerializedBytes(cd), EocdOffset(prefix, cd);
    ReadCommentFits(b);
    RereadPrefixExact(cd.entries);
    if |cd.comment| <= U16_MAX {
      TrueRecord(prefix, cd, []);
      EntriesRead(prefix, cd, []);
      assert b + [] == b;
      SearchOutcome(b, at);
    }
  }

  function RegeneratedAll(ds: seq<Dirent>): (r: seq<Dirent>)
    ensures |r| == |ds|
  {
    seq(|ds|, i requires 0 <= i < |ds| => Regenerated(ds[i]))
  }
}
