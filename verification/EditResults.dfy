/** What an edit makes of each entry, told by indices and rename requests alone. */
module EditResults {
  import opened Bytes
  import opened Dirents
  import opened Cdir
  import opened DirectoryReads
  import opened Modify
  import ArchiveProofs

  /** The indices below `n` that are not deleted, in increasing order. */
  function KeptIndices(n: nat, deletes: seq<u64>): (kept: seq<nat>)
    ensures forall k | 0 <= k < |kept| :: kept[k] < n
  {
    if n == 0 then [] else KeptIndices(n - 1, deletes) + if n - 1 in deletes then [] else [n - 1]
  }

  lemma {:induction false} KeptAre(n: nat, deletes: seq<u64>)
    ensures var kept := KeptIndices(n, deletes);
            && (forall j, k | 0 <= j < k < |kept| :: kept[j] < kept[k])
            && (forall i | 0 <= i < n :: i in kept <==> i !in deletes)
            && (forall k | 0 <= k < |kept| :: kept[k] !in deletes)
  {
    if n > 0 { KeptAre(n - 1, deletes); }
  }

  /** The name of entry `i` after the edit: that of the last request for its index, or the one it had. */
  predicate Called(renames: seq<Rename>, i: nat, was: bytes, name: bytes) {
    || (name == was && forall j | 0 <= j < |renames| :: renames[j].index != i)
    || (exists j | 0 <= j < |renames| ::
          renames[j].index == i && renames[j].name == name && forall l | j < l < |renames| :: renames[l].index != i)
  }

  lemma {:induction false} RenameIsCalled(d: Dirent, i: nat, renames: seq<Rename>)
    ensures Called(renames, i, d.filename, RenameOne(d, i, renames).filename)
    ensures RenameOne(d, i, renames).(filename := d.filename) == d
  {
    if renames != [] {
      var n := |renames| - 1;
      if renames[n].index != i {
        RenameIsCalled(d, i, renames[..n]);
        var name := RenameOne(d, i, renames[..n]).filename;
        assert RenameOne(d, i, renames) == RenameOne(d, i, renames[..n]);
        if exists j | 0 <= j < n ::
          renames[..n][j].index == i && renames[..n][j].name == name && forall l | j < l < n :: renames[..n][l].index != i {
          var j :| 0 <= j < n && renames[..n][j].index == i && renames[..n][j].name == name
                   && forall l | j < l < n :: renames[..n][l].index != i;
          assert renames[j].index == i && renames[j].name == name;
          forall l | j < l < |renames| ensures renames[l].index != i { if l < n { assert renames[..n][l].index != i; } }
        } else {
          forall j | 0 <= j < |renames| ensures renames[j].index != i { if j < n { assert renames[..n][j].index != i; } }
        }
      }
    }
  }

  lemma CalledOnce(renames: seq<Rename>, i: nat, was: bytes, a: bytes, b: bytes)
    requires Called(renames, i, was, a) && Called(renames, i, was, b)
    ensures a == b
  {}

  function Picked(ds: seq<Dirent>, indices: seq<nat>): (r: seq<Dirent>)
    requires forall k | 0 <= k < |indices| :: indices[k] < |ds|
    ensures |r| == |indices|
  {
    seq(|indices|, k requires 0 <= k < |indices| => ds[indices[k]])
  }

  lemma OneMorePicked(ds: seq<Dirent>, indices: seq<nat>, i: nat, rest: seq<Dirent>)
    requires i < |ds| && forall k | 0 <= k < |indices| :: indices[k] < |ds|
    ensures Picked(ds, indices + [i]) + rest == Picked(ds, indices) + ([ds[i]] + rest)
    ensures Picked(ds, indices + []) + rest == Picked(ds, indices) + ([] + rest)
  {
    assert Picked(ds, indices + [i]) == Picked(ds, indices) + [ds[i]] && indices + [] == indices;
  }

  lemma {:induction false} SurvivorsFrom(ds: seq<Dirent>, deletes: seq<u64>, m: nat)
    requires m <= |ds|
    ensures Survivors(ds, deletes, 0) == Picked(ds, KeptIndices(m, deletes)) + Survivors(ds, deletes, m)
  {
    if m == 0 {
      assert Picked(ds, KeptIndices(0, deletes)) == [];
    } else {
      SurvivorsFrom(ds, deletes, m - 1);
      OneMorePicked(ds, KeptIndices(m - 1, deletes), m - 1, Survivors(ds, deletes, m));
    }
  }

  /** The edited entry list: the kept indices in order, each entry as it was but for its name. */
  lemma EditedIs(ds: seq<Dirent>, renames: seq<Rename>, deletes: seq<u64>)
    ensures var kept, edited := KeptIndices(|ds|, deletes), Edited(ds, renames, deletes);
            && |edited| == |kept|
            && forall k | 0 <= k < |kept| ::
                 edited[k].(filename := ds[kept[k]].filename) == ds[kept[k]]
                 && Called(renames, kept[k], ds[kept[k]].filename, edited[k].filename)
  {
    hide KeptIndices, Called, LastRename;
    var kept, edited := KeptIndices(|ds|, deletes), Edited(ds, renames, deletes);
    SurvivorsFrom(Renamed(ds, renames), deletes, |ds|);
    assert edited == Picked(Renamed(ds, renames), kept);
    forall k | 0 <= k < |kept|
      ensures edited[k].(filename := ds[kept[k]].filename) == ds[kept[k]]
      ensures Called(renames, kept[k], ds[kept[k]].filename, edited[k].filename)
    {
      RenameIsCalled(ds[kept[k]], kept[k], renames);
    }
  }

  /** An edit succeeds if and only if the archive is read, its directory lies within it, and every kept entry has a name of
      at most 65535 bytes afterwards; otherwise each failure has its error, the first that applies. */
  lemma EditSucceeds(b: bytes, renames: seq<Rename>, deletes: seq<u64>)
    ensures var dir, r := ReadCentralDir(b), ModifyArchive(b, renames, deletes);
            if dir.Err? then r == Err(dir.error)
            else if dir.value.cdirOffset + dir.value.cdirSize > |b| then r == Err(Incons)
            else
              var ds := dir.value.entries;
              var fits := forall i, name | 0 <= i < |ds| && i !in deletes && Called(renames, i, ds[i].filename, name) ::
                            |name| <= 65535;
              (r.Ok? <==> fits) && (r.Err? ==> r.error == Eftoolarge)
  {
    hide ReadCentralDir, SerializedBytes, Edited, Called, Printable, Coherent, UnsafeName, KeptIndices;
    if ReadCentralDir(b).Ok? {
      ArchiveProofs.ReadIsPrintable(b);
      EditedIsPrintable(ReadCentralDir(b).value.entries, renames, deletes);
    }
  }

  lemma EditedIsPrintable(ds: seq<Dirent>, renames: seq<Rename>, deletes: seq<u64>)
    requires forall d <- ds :: Printable(d)
    ensures (forall d <- Edited(ds, renames, deletes) :: Printable(d)) <==>
              forall i, name | 0 <= i < |ds| && i !in deletes && Called(renames, i, ds[i].filename, name) :: |name| <= 65535
  {
    hide Edited, Called, Printable, KeptIndices;
    var edited, kept := Edited(ds, renames, deletes), KeptIndices(|ds|, deletes);
    EditedIs(ds, renames, deletes);
    KeptAre(|ds|, deletes);
    forall k | 0 <= k < |kept| ensures Printable(edited[k]) <==> |edited[k].filename| <= 65535 {
      assert ds[kept[k]] in ds;
      PrintableButName(ds[kept[k]], edited[k].filename);
    }
    if forall d <- edited :: Printable(d) {
      forall i, name | 0 <= i < |ds| && i !in deletes && Called(renames, i, ds[i].filename, name) ensures |name| <= 65535 {
        assert i in kept;
        var k :| 0 <= k < |kept| && kept[k] == i;
        assert edited[k] in edited;
        CalledOnce(renames, i, ds[i].filename, name, edited[k].filename);
      }
    } else {
      var d :| d in edited && !Printable(d);
      var k :| 0 <= k < |edited| && edited[k] == d;
      assert kept[k] in kept && |d.filename| > 65535;
    }
  }

  lemma PrintableButName(d: Dirent, name: bytes)
    requires Printable(d)
    ensures Printable(d.(filename := name)) <==> |name| <= 65535
  {
    hide ExtraBytes, Overflow, DropField;
  }

  /** What an edited archive reads back as: exactly the undeleted entries in their order. Each is the entry it was, but
      for its name, which is that of the last rename request for its index, and for its extra fields, where one ZIP64
      field with the overflowing sizes takes the place of the others when a size overflows. */
  lemma EditMeans(b: bytes, renames: seq<Rename>, deletes: seq<u64>)
    requires ModifyArchive(b, renames, deletes).Ok? && |ModifyArchive(b, renames, deletes).value| <= U64_MAX
    requires var cd := ReadCentralDir(b).value;
             && Findable(b[..cd.cdirOffset], EditedDir(cd, renames, deletes))
             && forall d <- Edited(cd.entries, renames, deletes) :: Readable(d)
    ensures ReadCentralDir(b).Ok? && ReadCentralDir(ModifyArchive(b, renames, deletes).value).Ok?
    ensures var cd, again := ReadCentralDir(b).value, ReadCentralDir(ModifyArchive(b, renames, deletes).value).value;
            var ds, now, kept := cd.entries, again.entries, KeptIndices(|cd.entries|, deletes);
            && again.comment == cd.comment && again.cdirOffset == cd.cdirOffset && |now| == |kept|
            && (forall j, k | 0 <= j < k < |kept| :: kept[j] < kept[k])
            && (forall i | 0 <= i < |ds| :: i in kept <==> i !in deletes)
            && (again.isZip64 <==>
                  || cd.isZip64 || |now| > 65535 || again.cdirSize > 0xFFFF_FFFF || cd.cdirOffset > 0xFFFF_FFFF
                  || exists k | 0 <= k < |now| :: Wide(now[k].sizes))
            && forall k | 0 <= k < |kept| ::
                 && now[k].(filename := ds[kept[k]].filename, extraFields := ds[kept[k]].extraFields) == ds[kept[k]]
                 && now[k].extraFields == FieldsKept(ds[kept[k]])
                 && Called(renames, kept[k], ds[kept[k]].filename, now[k].filename)
  {
    hide ReadCentralDir, ModifyArchive, Findable, Readable, KeptIndices, Called, Edited, Overflow, DropField, Records,
         NeedsZip64Directory, SerializedBytes;
    ReopenModified(b, renames, deletes);
    KeptAre(|ReadCentralDir(b).value.entries|, deletes);
    var edited := EditedDir(ReadCentralDir(b).value, renames, deletes);
    Zip64When(edited);
    SameWidths(edited.entries);
    EditedIs(ReadCentralDir(b).value.entries, renames, deletes);
  }

  lemma SameWidths(ds: seq<Dirent>)
    ensures (exists k | 0 <= k < |ds| :: Wide(ds[k].sizes)) <==>
              exists k | 0 <= k < |ds| :: Wide(RegeneratedAll(ds)[k].sizes)
  {
    hide Wide, PrintedExtras;
    forall k | 0 <= k < |ds| ensures RegeneratedAll(ds)[k].sizes == ds[k].sizes {}
    if k :| 0 <= k < |ds| && Wide(ds[k].sizes) { assert Wide(RegeneratedAll(ds)[k].sizes); }
    if k :| 0 <= k < |ds| && Wide(RegeneratedAll(ds)[k].sizes) { assert Wide(ds[k].sizes); }
  }

  /** The extra fields of an entry after an edit. */
  function FieldsKept(d: Dirent): seq<ExtraField> {
    if Wide(d.sizes)
    then DropField(d.extraFields, 0x0001) + [ExtraField(0x0001, Overflow(d.sizes))]
    else d.extraFields
  }
}
