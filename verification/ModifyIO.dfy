/** Archive editing as it runs: entries edited and removed in place, then a tail written over a buffer or a file. */
module ModifyIO {
  import opened Bytes
  import opened Sources
  import opened Dirents
  import opened Cdir
  import opened Modify
  import CdirIO

  predicate StrictlyIncreasing(s: seq<u64>) { forall i, j | 0 <= i < j < |s| :: s[i] < s[j] }

  method InsertSorted(s: seq<u64>, x: u64) returns (r: seq<u64>)
    requires StrictlyIncreasing(s)
    ensures StrictlyIncreasing(r) && forall y: u64 :: y in r <==> y in s || y == x
  {
    var i := 0;
    while i < |s| && s[i] < x
      invariant 0 <= i <= |s| && forall j | 0 <= j < i :: s[j] < x
    {
      i := i + 1;
    }
    if i < |s| && s[i] == x { return s; }
    r := s[..i] + [x] + s[i..];
    Inserted(s, i, x);
  }

  lemma Inserted(s: seq<u64>, i: nat, x: u64)
    requires StrictlyIncreasing(s) && i <= |s| && (forall j | 0 <= j < i :: s[j] < x) && (i < |s| ==> s[i] > x)
    ensures StrictlyIncreasing(s[..i] + [x] + s[i..])
    ensures forall y: u64 :: y in s[..i] + [x] + s[i..] <==> y in s || y == x
  {
    assert s == s[..i] + s[i..];
  }

  /** `sort_unstable` followed by `dedup`. */
  method SortDedup(s: seq<u64>) returns (r: seq<u64>)
    ensures StrictlyIncreasing(r) && forall x: u64 :: x in r <==> x in s
  {
    hide StrictlyIncreasing;
    r := [];
    NoneIncreasing();
    for k := 0 to |s|
      invariant StrictlyIncreasing(r) && forall x: u64 :: x in r <==> x in s[..k]
    {
      r := InsertSorted(r, s[k]);
      assert s[..k + 1] == s[..k] + [s[k]];
    }
    assert s[..|s|] == s;
  }

  lemma NoneIncreasing()
    ensures StrictlyIncreasing([])
  {}

  // How many leading entries are untouched when the deletions from position `k` of the sorted list are done.
  function Untouched(dels: seq<u64>, k: nat, n: nat): nat {
    if k < |dels| && dels[k] < n then dels[k] else n
  }

  lemma {:induction false} SurvivorsSameSet(ds: seq<Dirent>, a: seq<u64>, b: seq<u64>, from: nat)
    requires forall x: u64 :: x in a <==> x in b
    ensures Survivors(ds, a, from) == Survivors(ds, b, from)
    decreases |ds| - from
  {
    if from < |ds| {
      SurvivorsSameSet(ds, a, b, from + 1);
      if from <= U64_MAX { var x: u64 := from; assert x in a <==> x in b; } else { BigIndex(a, from); BigIndex(b, from); }
    }
  }

  lemma BigIndex(a: seq<u64>, i: nat)
    requires i > U64_MAX
    ensures i !in a
  {}

  lemma {:induction false} SurvivorsOfUndeleted(ds: seq<Dirent>, dels: seq<u64>, from: nat, upTo: nat)
    requires from <= upTo <= |ds| && forall i | from <= i < upTo :: i !in dels
    ensures Survivors(ds, dels, from) == ds[from..upTo] + Survivors(ds, dels, upTo)
    decreases upTo - from
  {
    if from < upTo {
      SurvivorsOfUndeleted(ds, dels, from + 1, upTo);
      assert Survivors(ds, dels, from) == [ds[from]] + Survivors(ds, dels, from + 1);
      var rest := Survivors(ds, dels, upTo);
      assert [ds[from]] + (ds[from + 1..upTo] + rest) == ds[from..upTo] + rest;
    } else {
      assert ds[from..upTo] == [];
    }
  }

  lemma NoneBetween(dels: seq<u64>, k: nat, i: nat)
    requires StrictlyIncreasing(dels) && k <= |dels|
    ensures i in dels ==> (k > 0 && i <= dels[k - 1]) || (k < |dels| && dels[k] <= i)
  {}

  /** One removal from the back of the sorted list refines one step of the filter. */
  lemma RemoveStep(ds: seq<Dirent>, dels: seq<u64>, k: nat)
    requires StrictlyIncreasing(dels) && k < |dels|
    ensures var c, d := Untouched(dels, k + 1, |ds|), dels[k];
            var was := ds[..c] + Survivors(ds, dels, c);
            var c' := Untouched(dels, k, |ds|);
            (d < |was| <==> d < |ds|) &&
            ds[..c'] + Survivors(ds, dels, c') == if d < |was| then was[..d] + was[d + 1..] else was
  {
    var c, d := Untouched(dels, k + 1, |ds|), dels[k];
    if d < |ds| {
      forall i | d < i < c ensures i !in dels {
        NoneBetween(dels, k + 1, i);
      }
      assert d < c;
      SurvivorsOfUndeleted(ds, dels, d + 1, c);
      assert dels[k] in dels;
      var was := ds[..c] + Survivors(ds, dels, c);
      assert was[..d] == ds[..d];
      assert was[d + 1..] == ds[d + 1..c] + Survivors(ds, dels, c);
    } else {
      assert k + 1 < |dels| ==> dels[k + 1] > d;
    }
  }

  /** The two edit loops on the entry vector. */
  method ApplyEdits(original: seq<Dirent>, renames: seq<Rename>, deletes: seq<u64>) returns (entries: seq<Dirent>)
    ensures entries == Edited(original, renames, deletes)
  {
    entries := original;
    for k := 0 to |renames|
      invariant |entries| == |original|
      invariant forall i | 0 <= i < |entries| :: entries[i] == RenameOne(original[i], i, renames[..k])
    {
      var i := renames[k].index;
      assert renames[..k + 1][..k] == renames[..k];
      if i < |entries| {
        entries := entries[i := entries[i].(filename := renames[k].name)];
      }
    }
    assert renames[..|renames|] == renames;
    assert entries == Renamed(original, renames);
    ghost var renamed := entries;
    var dels := SortDedup(deletes);
    SurvivorsSameSet(renamed, deletes, dels, 0);
    var k := |dels|;
    while k > 0
      invariant 0 <= k <= |dels|
      invariant entries == renamed[..Untouched(dels, k, |renamed|)] + Survivors(renamed, dels, Untouched(dels, k, |renamed|))
    {
      k := k - 1;
      RemoveStep(renamed, dels, k);
      var i := dels[k];
      if i < |entries| {
        entries := entries[..i] + entries[i + 1..];
      }
    }
    ghost var c := Untouched(dels, 0, |renamed|);
    forall i | 0 <= i < c ensures i !in dels {
      NoneBetween(dels, 0, i);
    }
    SurvivorsOfUndeleted(renamed, dels, 0, c);
    assert renamed[..c] == renamed[0..c];
  }

  method ModifyArchive(b: bytes, renames: seq<Rename>, deletes: seq<u64>) returns (r: Result<bytes>)
    ensures r == Modify.ModifyArchive(b, renames, deletes)
  {
    hide Cdir.ReadCentralDir, Cdir.Serialize, Edited;
    var src := new Source(b);
    var dir := CdirIO.ReadCentralDir(src);
    if dir.Err? { return Err(dir.error); }
    var cd := dir.value;
    if cd.cdirOffset > |b| || cd.cdirSize > |b| || cd.cdirOffset + cd.cdirSize > |b| { return Err(Incons); }
    var entries := ApplyEdits(cd.entries, renames, deletes);
    var tail := CdirIO.Serialize(CentralDir(entries, cd.comment, cd.isZip64, cd.cdirSize, cd.cdirOffset));
    if tail.Err? { return Err(tail.error); }
    var out := new Vec();
    out.Extend(b[..cd.cdirOffset]);
    out.Extend(tail.value);
    assert out.contents == b[..cd.cdirOffset] + tail.value;
    return Ok(out.contents);
  }

  /** What the operating system may refuse: nothing, the seek, the write after some bytes, or the truncation. */
  datatype Fault = NoFault | SeekFails | WriteFails(after: nat) | TruncateFails

  /** A file open for reading and writing: its bytes and the file position. */
  class File {
    var contents: bytes
    var pos: nat

    constructor (contents: bytes)
      ensures this.contents == contents && pos == 0
    {
      this.contents := contents;
      pos := 0;
    }

    method Seek(p: nat, fault: Fault) returns (ok: bool)
      modifies this`pos
      ensures ok == !fault.SeekFails? && (ok ==> pos == p)
    {
      if fault.SeekFails? { return false; }
      pos := p;
      return true;
    }

    /** Overwrites from the position, growing the file as needed; on a fault only the first bytes are written. */
    method WriteAll(s: bytes, fault: Fault) returns (ok: bool)
      requires pos <= |contents|
      modifies this
      ensures ok == (fault.WriteFails? ==> fault.after >= |s|)
      ensures var w := if ok then s else s[..fault.after];
              contents == Overwrite(old(contents), old(pos), w) && pos == old(pos) + |w|
    {
      ok := !fault.WriteFails? || fault.after >= |s|;
      var w := if ok then s else s[..fault.after];
      contents := Overwrite(contents, pos, w);
      pos := pos + |w|;
    }

    method SetLen(n: nat, fault: Fault) returns (ok: bool)
      requires n <= |contents|
      modifies this`contents
      ensures ok == !fault.TruncateFails?
      ensures contents == if ok then old(contents)[..n] else old(contents)
    {
      if fault.TruncateFails? { return false; }
      contents := contents[..n];
      return true;
    }
  }

  function Overwrite(b: bytes, at: nat, s: bytes): bytes
    requires at <= |b|
  {
    b[..at] + s + if at + |s| <= |b| then b[at + |s|..] else []
  }

  /** The outcome of writing the new tail at the directory and cutting the file there, under a fault. */
  function Outcome(out: bytes, tail: nat, fault: Fault): Result<nat> {
    match fault
    case NoFault => Ok(|out|)
    case SeekFails => Err(ZipError.Seek)
    case WriteFails(after) => if after < tail then Err(ZipError.Write) else Ok(|out|)
    case TruncateFails => Err(ZipError.Write)
  }

  /** The file it leaves: the old one, the old one with part of the new tail over it, the new archive followed by what
      is left of a longer old tail, or the new archive. */
  function Left(was: bytes, at: nat, tail: bytes, fault: Fault): bytes
    requires at <= |was|
  {
    match fault
    case NoFault => was[..at] + tail
    case SeekFails => was
    case WriteFails(after) => if after < |tail| then Overwrite(was, at, tail[..after]) else was[..at] + tail
    case TruncateFails => Overwrite(was, at, tail)
  }

  /** What a failed write leaves: nothing changed before the directory; from there on the new tail as far as it was
      written, then the old bytes that were not reached. A failed seek leaves everything. */
  lemma FaultsLeave(was: bytes, at: nat, tail: bytes, after: nat)
    requires at <= |was|
    ensures Left(was, at, tail, SeekFails) == was
    ensures after < |tail| ==>
              var f := Left(was, at, tail, WriteFails(after));
              && f[..at] == was[..at] && f[at..at + after] == tail[..after]
              && (at + after <= |was| ==> |f| == |was| && f[at + after..] == was[at + after..])
              && (at + after > |was| ==> |f| == at + after)
    ensures Left(was, at, tail, NoFault) == was[..at] + tail
    ensures Outcome(was[..at] + tail, |tail|, NoFault) == Ok(at + |tail|)
    ensures Outcome(was[..at] + tail, |tail|, SeekFails) == Err(ZipError.Seek)
    ensures after < |tail| ==> Outcome(was[..at] + tail, |tail|, WriteFails(after)) == Err(ZipError.Write)
    ensures Outcome(was[..at] + tail, |tail|, TruncateFails) == Err(ZipError.Write)
  {}

  /** Edits the file in place. Without a fault the file ends as the in-memory edit of the same bytes, longer or
      shorter, and any error before the write leaves it as it was; a fault leaves exactly what `Left` says, and never
      touches the bytes before the directory. */
  method ModifyArchiveFile(file: File, renames: seq<Rename>, deletes: seq<u64>, fault: Fault) returns (r: Result<nat>)
    modifies file
    ensures var was := old(file.contents);
            match Modify.ModifyArchive(was, renames, deletes)
            case Err(e) => r == Err(e) && file.contents == was
            case Ok(out) =>
              var at := Cdir.ReadCentralDir(was).value.cdirOffset;
              && at <= |was| && at <= |out| && out[..at] == was[..at]
              && r == Outcome(out, |out| - at, fault)
              && file.contents == Left(was, at, out[at..], fault)
              && at <= |file.contents| && file.contents[..at] == was[..at]
  {
    hide Cdir.ReadCentralDir, Cdir.Serialize, Edited;
    ghost var was := file.contents;
    var src := new Source(file.contents);
    var dir := CdirIO.ReadCentralDir(src);
    if dir.Err? { return Err(dir.error); }
    var cd := dir.value;
    var len := |file.contents|;
    if cd.cdirOffset > len || cd.cdirSize > len || cd.cdirOffset + cd.cdirSize > len { return Err(Incons); }
    var at := cd.cdirOffset;
    var entries := ApplyEdits(cd.entries, renames, deletes);
    var tail := CdirIO.Serialize(CentralDir(entries, cd.comment, cd.isZip64, cd.cdirSize, at));
    if tail.Err? { return Err(tail.error); }
    ghost var out := was[..at] + tail.value;
    assert out[..at] == was[..at] && out[at..] == tail.value;
    var ok := file.Seek(at, fault);
    if !ok { return Err(ZipError.Seek); }
    ok := file.WriteAll(tail.value, fault);
    assert file.contents[..at] == was[..at];
    if !ok { return Err(ZipError.Write); }
    var newLen := at + |tail.value|;
    ok := file.SetLen(newLen, fault);
    if !ok { return Err(ZipError.Write); }
    assert file.contents == was[..at] + tail.value;
    return Ok(newLen);
  }
}
