/** The pending edits of an open archive: what each call records, and what a run of calls amounts to. */
module PendingOps {
  import opened Bytes
  import opened Dirents

  // ----- keyed lists -----

  /** Edits in the order they were made, each with the logical index it targets. */
  type Keyed<T> = seq<(nat, T)>

  function FindFirst<T>(l: Keyed<T>, i: nat): Option<T> {
    if l == [] then None
    else
      var earlier := FindFirst(l[..|l| - 1], i);
      if earlier.Some? then earlier else if l[|l| - 1].0 == i then Some(l[|l| - 1].1) else None
  }

  function FindLast<T>(l: Keyed<T>, i: nat): Option<T> {
    if l == [] then None else if l[|l| - 1].0 == i then Some(l[|l| - 1].1) else FindLast(l[..|l| - 1], i)
  }

  /** Everything but the edits of index `i`. */
  function Retained<T>(l: Keyed<T>, i: nat): Keyed<T> {
    if l == [] then []
    else if l[|l| - 1].0 == i then Retained(l[..|l| - 1], i)
    else Retained(l[..|l| - 1], i) + [l[|l| - 1]]
  }

  predicate Unique<T>(l: Keyed<T>) { forall a, b | 0 <= a < b < |l| :: l[a].0 != l[b].0 }

  lemma RetainedAppend<T>(l: Keyed<T>, i: nat, x: (nat, T))
    ensures Retained(l + [x], i) == if x.0 == i then Retained(l, i) else Retained(l, i) + [x]
  {
    assert (l + [x])[..|l|] == l;
  }

  lemma {:induction false} RetainedTwice<T>(l: Keyed<T>, i: nat, j: nat)
    ensures Retained(Retained(l, i), j) == Retained(Retained(l, j), i)
    ensures i == j ==> Retained(Retained(l, i), j) == Retained(l, i)
  {
    if l != [] {
      var init, x := l[..|l| - 1], l[|l| - 1];
      RetainedTwice(init, i, j);
      RetainedAppend(Retained(init, i), j, x);
      RetainedAppend(Retained(init, j), i, x);
    }
  }

  lemma {:induction false} FindAfterRetain<T>(l: Keyed<T>, i: nat, j: nat)
    ensures FindLast(Retained(l, i), j) == if i == j then None else FindLast(l, j)
    ensures FindFirst(Retained(l, i), j) == if i == j then None else FindFirst(l, j)
  {
    if l != [] {
      var init, x := l[..|l| - 1], l[|l| - 1];
      FindAfterRetain(init, i, j);
      FindAppend(Retained(init, i), j, x);
    }
  }

  lemma FindAppend<T>(l: Keyed<T>, i: nat, x: (nat, T))
    ensures FindLast(l + [x], i) == if x.0 == i then Some(x.1) else FindLast(l, i)
    ensures FindFirst(l + [x], i) ==
              if FindFirst(l, i).Some? then FindFirst(l, i) else if x.0 == i then Some(x.1) else None
  {
    assert (l + [x])[..|l|] == l;
  }

  lemma {:induction false} RetainedIsUnique<T>(l: Keyed<T>, i: nat)
    requires Unique(l)
    ensures Unique(Retained(l, i))
    ensures forall a | 0 <= a < |Retained(l, i)| :: Retained(l, i)[a].0 != i && Retained(l, i)[a] in l
  {
    if l != [] {
      var init := l[..|l| - 1];
      RetainedIsUnique(init, i);
      assert forall x <- Retained(init, i) :: x in init;
    }
  }

  /** With at most one edit per index, looking from either end finds the same. */
  lemma {:induction false} UniqueFindsAgree<T>(l: Keyed<T>, i: nat)
    requires Unique(l)
    ensures FindFirst(l, i) == FindLast(l, i)
  {
    if l != [] {
      UniqueFindsAgree(l[..|l| - 1], i);
      if l[|l| - 1].0 == i { FirstIsKeyed(l[..|l| - 1], i); }
    }
  }

  lemma {:induction false} FirstIsKeyed<T>(l: Keyed<T>, i: nat)
    ensures FindFirst(l, i).Some? ==> exists a :: 0 <= a < |l| && l[a].0 == i
  {
    if l != [] { FirstIsKeyed(l[..|l| - 1], i); }
  }

  // ----- extra fields -----

  const EXTRA_FIELD_ALL: u16 := 0xFFFF
  const EXTRA_FIELD_NEW: u16 := 0xFFFF

  datatype ExtraOp =
    | Set(id: u16, efIdx: u16, data: bytes)
    | Delete(efIdx: u16)
    | DeleteById(id: u16, efIdx: u16)

  function CountId(fields: seq<ExtraField>, id: u16): nat {
    if fields == [] then 0 else CountId(fields[..|fields| - 1], id) + if fields[|fields| - 1].id == id then 1 else 0
  }

  /** Position of the `n`-th field with this id, counted from zero; the length if there is none. */
  function NthWithId(fields: seq<ExtraField>, id: u16, n: nat): (k: nat)
    ensures k <= |fields| && (k < |fields| ==> fields[k].id == id)
  {
    if fields == [] then 0
    else if fields[0].id == id then if n == 0 then 0 else 1 + NthWithId(fields[1..], id, n - 1)
    else 1 + NthWithId(fields[1..], id, n)
  }

  function ApplyExtra(fields: seq<ExtraField>, op: ExtraOp): seq<ExtraField> {
    match op
    case Delete(k) =>
      if k == EXTRA_FIELD_ALL then [] else if k < |fields| then fields[..k] + fields[k + 1..] else fields
    case DeleteById(id, n) =>
      if id == EXTRA_FIELD_ALL || n == EXTRA_FIELD_ALL then DropField(fields, id)
      else
        var k := NthWithId(fields, id, n);
        if k < |fields| then fields[..k] + fields[k + 1..] else fields
    case Set(id, n, data) =>
      var k := if n == EXTRA_FIELD_NEW then |fields| else NthWithId(fields, id, n);
      if k < |fields| then fields[k := ExtraField(id, data)] else fields + [ExtraField(id, data)]
  }

  /** `k` is where the field with this id and `n` earlier ones of the same id stands. */
  predicate IsNth(fields: seq<ExtraField>, id: u16, n: nat, k: nat) {
    k < |fields| && fields[k].id == id && CountId(fields[..k], id) == n
  }

  lemma {:induction false} CountFront(f: ExtraField, fields: seq<ExtraField>, id: u16)
    ensures CountId([f] + fields, id) == CountId(fields, id) + if f.id == id then 1 else 0
  {
    var all := [f] + fields;
    if fields == [] {
      assert all[..0] == [];
    } else {
      var n := |fields| - 1;
      CountFront(f, fields[..n], id);
      assert all[..|all| - 1] == [f] + fields[..n];
    }
  }

  /** Counting by position and counting by id agree, and past the last one there is none. */
  lemma {:induction false} NthIs(fields: seq<ExtraField>, id: u16, n: nat)
    ensures var k := NthWithId(fields, id, n); if n < CountId(fields, id) then IsNth(fields, id, n, k) else k == |fields|
  {
    if fields != [] {
      var f, rest := fields[0], fields[1..];
      assert fields == [f] + rest;
      CountFront(f, rest, id);
      if f.id == id && n == 0 {
        assert fields[..0] == [];
      } else {
        var m := if f.id == id then n - 1 else n;
        NthIs(rest, id, m);
        var k := NthWithId(rest, id, m);
        CountFront(f, rest[..k], id);
        assert fields[..k + 1] == [f] + rest[..k];
      }
    }
  }

  lemma {:induction false} NthIsUnique(fields: seq<ExtraField>, id: u16, n: nat, j: nat, k: nat)
    requires IsNth(fields, id, n, j) && IsNth(fields, id, n, k)
    ensures j == k
  {
    if j < k {
      assert fields[..j + 1][..j] == fields[..j];
      CountGrows(fields, id, j + 1, k);
    } else if k < j {
      assert fields[..k + 1][..k] == fields[..k];
      CountGrows(fields, id, k + 1, j);
    }
  }

  lemma {:induction false} CountGrows(fields: seq<ExtraField>, id: u16, j: nat, k: nat)
    requires j <= k <= |fields|
    ensures CountId(fields[..j], id) <= CountId(fields[..k], id)
  {
    if j < k {
      CountGrows(fields, id, j, k - 1);
      assert fields[..k][..k - 1] == fields[..k - 1];
    }
  }

  /** Each edit that names one field changes that field only: deleting by position or by id and number takes it out and
      keeps the others in order; setting replaces it, or appends a new one when there is none to replace. */
  lemma SingleFieldEdits(fields: seq<ExtraField>, id: u16, n: u16, k: nat, data: bytes)
    requires n != 0xFFFF
    ensures k < |fields| && k == n ==> ApplyExtra(fields, Delete(n)) == fields[..k] + fields[k + 1..]
    ensures n >= |fields| ==> ApplyExtra(fields, Delete(n)) == fields
    ensures ApplyExtra(fields, Delete(0xFFFF)) == []
    ensures id != 0xFFFF && IsNth(fields, id, n, k) ==> ApplyExtra(fields, DeleteById(id, n)) == fields[..k] + fields[k + 1..]
    ensures id != 0xFFFF && n >= CountId(fields, id) ==> ApplyExtra(fields, DeleteById(id, n)) == fields
    ensures IsNth(fields, id, n, k) ==> ApplyExtra(fields, Set(id, n, data)) == fields[k := ExtraField(id, data)]
    ensures n >= CountId(fields, id) ==> ApplyExtra(fields, Set(id, n, data)) == fields + [ExtraField(id, data)]
    ensures ApplyExtra(fields, Set(id, 0xFFFF, data)) == fields + [ExtraField(id, data)]
  {
    hide NthWithId, CountId, DropField, IsNth;
    NthOrNone(fields, id, n, k);
  }

  lemma NthOrNone(fields: seq<ExtraField>, id: u16, n: nat, k: nat)
    ensures IsNth(fields, id, n, k) ==> k < |fields| && NthWithId(fields, id, n) == k
    ensures n >= CountId(fields, id) ==> NthWithId(fields, id, n) == |fields|
  {
    hide NthWithId;
    NthIs(fields, id, n);
    if IsNth(fields, id, n, k) {
      CountGrows(fields, id, k + 1, |fields|);
      assert fields[..k + 1][..k] == fields[..k] && fields[..|fields|] == fields;
      NthIsUnique(fields, id, n, k, NthWithId(fields, id, n));
    }
  }

  /** All edits of index `i`, in order, over the fields the entry has on disk. */
  function EditedFields(base: seq<ExtraField>, ops: Keyed<ExtraOp>, i: nat): seq<ExtraField> {
    if ops == [] then base
    else
      var earlier := EditedFields(base, ops[..|ops| - 1], i);
      if ops[|ops| - 1].0 == i then ApplyExtra(earlier, ops[|ops| - 1].1) else earlier
  }

  lemma {:induction false} FieldsAfterRetain(base: seq<ExtraField>, ops: Keyed<ExtraOp>, i: nat, j: nat)
    ensures EditedFields(base, Retained(ops, i), j) == if i == j then base else EditedFields(base, ops, j)
  {
    hide ApplyExtra;
    if ops != [] {
      var init, x := ops[..|ops| - 1], ops[|ops| - 1];
      FieldsAfterRetain(base, init, i, j);
      assert (Retained(init, i) + [x])[..|Retained(init, i)|] == Retained(init, i);
    }
  }

  /** Deleting "all ids" removes only the fields whose id is literally that constant: any other field stays. */
  lemma DeleteAllIdsKeepsOthers(fields: seq<ExtraField>, n: u16)
    ensures ApplyExtra(fields, DeleteById(EXTRA_FIELD_ALL, n)) == fields <==>
              forall f <- fields :: f.id != EXTRA_FIELD_ALL
  {
    DropNothing(fields, EXTRA_FIELD_ALL);
  }

  // ----- the archive and its pending edits -----

  /** What is on disk, and whether it may be edited. */
  datatype Disk = Disk(entries: seq<Dirent>, comment: bytes, writable: bool)

  datatype Ops = Ops(
    adds: seq<(bytes, bytes)>, deletes: Keyed<()>, renames: Keyed<bytes>, replacements: Keyed<bytes>,
    encryptions: Keyed<u16>, extraOps: Keyed<ExtraOp>, comments: Keyed<Option<bytes>>, dostimes: Keyed<(u16, u16)>,
    mtimes: Keyed<int>, attrs: Keyed<(u8, u32)>, compressions: Keyed<(int, nat)>, archiveComment: Option<bytes>)

  const NO_OPS := Ops([], [], [], [], [], [], [], [], [], [], [], None)

  /** The pending edits and the cached extra fields that getters show. */
  datatype Handle = Handle(ops: Ops, overlay: seq<seq<ExtraField>>)

  datatype Edit =
    | Add(name: bytes, data: bytes, overwrite: bool)
    | AddDir(name: bytes)
    | DeleteEntry(i: nat)
    | Rename(i: nat, name: bytes)
    | Replace(i: nat, data: bytes)
    | Encrypt(i: nat, enc: u16)
    | ArchiveComment(comment: bytes)
    | EntryComment(i: nat, text: Option<bytes>)
    | Extra(i: nat, op: ExtraOp)
    | Mtime(i: nat, t: int)
    | Dostime(i: nat, time: u16, date: u16)
    | Attrs(i: nat, opsys: u8, attrs: u32)
    | Compression(i: nat, m: int, level: nat)
    | Unchange(i: nat)
    | UnchangeAll
    | UnchangeArchive

  /** Index of the first entry on disk with this name. */
  function Locate(entries: seq<Dirent>, name: bytes): (k: Option<nat>)
    ensures k.Some? ==> k.value < |entries| && entries[k.value].filename == name
  {
    if entries == [] then None
    else
      var earlier := Locate(entries[..|entries| - 1], name);
      if earlier.Some? then earlier
      else if entries[|entries| - 1].filename == name then Some(|entries| - 1) else None
  }

  function DirName(name: bytes): bytes { if name != [] && name[|name| - 1] == 0x2F then name else name + [0x2F] }

  predicate ValidIndex(d: Disk, ops: Ops, i: nat) { i < |d.entries| + |ops.adds| }

  /** The fields an entry starts from: its own without the two the writer manages. */
  function DiskFields(d: Disk, i: nat): seq<ExtraField> {
    if i < |d.entries| then DropField(DropField(d.entries[i].extraFields, EXTRA_FIELD_ZIP64), EF_WINZIP_AES) else []
  }

  function Slot(overlay: seq<seq<ExtraField>>, i: nat): seq<ExtraField> { if i < |overlay| then overlay[i] else [] }

  function SetSlot(overlay: seq<seq<ExtraField>>, i: nat, fields: seq<ExtraField>): (r: seq<seq<ExtraField>>)
    ensures forall j: nat :: Slot(r, j) == if j == i then fields else Slot(overlay, j)
  {
    var grown := if i < |overlay| then overlay else overlay + seq(i + 1 - |overlay|, _ => []);
    grown[i := fields]
  }

  function Fresh(d: Disk): Handle {
    Handle(NO_OPS, seq(|d.entries|, i requires 0 <= i < |d.entries| => DiskFields(d, i)))
  }

  predicate KnownEncryption(m: u16) { m == ENC_NONE || m == ENC_TRAD_PKWARE || IsAes(m) }

  function ExtraRefusal(fields: seq<ExtraField>, op: ExtraOp): Option<ZipError> {
    match op
    case Set(id, n, _) =>
      if id == EF_WINZIP_AES || id == EXTRA_FIELD_ZIP64 then Some(Inval)
      else if n != EXTRA_FIELD_NEW && n > CountId(fields, id) then Some(Inval) else None
    case Delete(k) => if k != EXTRA_FIELD_ALL && k >= |fields| then Some(Noent) else None
    case DeleteById(id, n) =>
      if id != EXTRA_FIELD_ALL && n != EXTRA_FIELD_ALL && n >= CountId(fields, id) then Some(Noent) else None
  }

  predicate Reverts(e: Edit) { e.Unchange? || e.UnchangeAll? || e.UnchangeArchive? }

  /** Why a call is refused, if it is. */
  function Refusal(d: Disk, h: Handle, e: Edit): Option<ZipError> {
    if !Reverts(e) && !d.writable then Some(Rdonly)
    else
      match e
      case Add(name, _, overwrite) => if Locate(d.entries, name).Some? && !overwrite then Some(Exists) else None
      case AddDir(name) => if Locate(d.entries, DirName(name)).Some? then Some(Exists) else None
      case DeleteEntry(i) => if i >= |d.entries| then Some(Inval) else None
      case Rename(i, _) => if i >= |d.entries| then Some(Inval) else None
      case Replace(i, _) => if i >= |d.entries| then Some(Inval) else None
      case ArchiveComment(_) => None
      case UnchangeAll => None
      case UnchangeArchive => None
      case _ =>
        if !ValidIndex(d, h.ops, e.i) then Some(Inval)
        else
          match e
          case Encrypt(_, m) => if KnownEncryption(m) then None else Some(Encrmethnotsupp)
          case Extra(i, op) => ExtraRefusal(Slot(h.overlay, i), op)
          case Compression(_, m, _) => if m == -1 || m == 0 || m == 8 then None else Some(Compnotsupp)
          case _ => None
  }

  /** The edits without any of index `i`. */
  function Strip(ops: Ops, i: nat): Ops {
    Ops(ops.adds, Retained(ops.deletes, i), Retained(ops.renames, i), Retained(ops.replacements, i),
        Retained(ops.encryptions, i), Retained(ops.extraOps, i), Retained(ops.comments, i), Retained(ops.dostimes, i),
        Retained(ops.mtimes, i), Retained(ops.attrs, i), Retained(ops.compressions, i), ops.archiveComment)
  }

  function RemoveAdd(d: Disk, ops: Ops, i: nat): Ops {
    if |d.entries| <= i < |d.entries| + |ops.adds|
    then var k := i - |d.entries|; ops.(adds := ops.adds[..k] + ops.adds[k + 1..])
    else ops
  }

  /** The last setting replaces earlier ones of the same index. */
  function Put<T>(l: Keyed<T>, i: nat, x: T): Keyed<T> { Retained(l, i) + [(i, x)] }

  /** What an accepted call records. */
  function Recorded(d: Disk, ops: Ops, e: Edit): Ops {
    match e
    case Add(name, data, _) =>
      var at := Locate(d.entries, name);
      if at.Some? then ops.(replacements := ops.replacements + [(at.value, data)])
      else ops.(adds := ops.adds + [(name, data)])
    case AddDir(name) => ops.(adds := ops.adds + [(DirName(name), [])])
    case DeleteEntry(i) =>
      if FindFirst(ops.deletes, i).Some? then ops else ops.(deletes := ops.deletes + [(i, ())])
    case Rename(i, name) => ops.(renames := ops.renames + [(i, name)])
    case Replace(i, data) => ops.(replacements := ops.replacements + [(i, data)])
    case Encrypt(i, m) => ops.(encryptions := Put(ops.encryptions, i, m))
    case ArchiveComment(c) => ops.(archiveComment := Some(c))
    case EntryComment(i, text) => ops.(comments := Put(ops.comments, i, text))
    case Extra(i, op) => ops.(extraOps := ops.extraOps + [(i, op)])
    case Mtime(i, t) => ops.(mtimes := Put(ops.mtimes, i, t))
    case Dostime(i, time, date) => ops.(dostimes := Put(ops.dostimes, i, (time, date)))
    case Attrs(i, opsys, attrs) => ops.(attrs := Put(ops.attrs, i, (opsys, attrs)))
    case Compression(i, m, level) => ops.(compressions := Put(ops.compressions, i, (m, level)))
    case Unchange(i) => RemoveAdd(d, Strip(ops, i), i)
    case UnchangeAll => NO_OPS
    case UnchangeArchive => ops.(archiveComment := None)
  }

  /** Extra-field calls refresh the cached fields of their entry; nothing else does. */
  function Refreshed(d: Disk, h: Handle, e: Edit): seq<seq<ExtraField>> {
    if e.Extra? then SetSlot(h.overlay, e.i, EditedFields(DiskFields(d, e.i), Recorded(d, h.ops, e).extraOps, e.i))
    else h.overlay
  }

  function Answer(d: Disk, ops: Ops, e: Edit): nat {
    match e
    case Add(name, _, _) =>
      var at := Locate(d.entries, name); if at.Some? then at.value else |d.entries| + |ops.adds|
    case AddDir(_) => |d.entries| + |ops.adds|
    case _ => 0
  }

  function Step(d: Disk, h: Handle, e: Edit): (Handle, Result<nat>) {
    match Refusal(d, h, e)
    case Some(error) => (h, Err(error))
    case None => (Handle(Recorded(d, h.ops, e), Refreshed(d, h, e)), Ok(Answer(d, h.ops, e)))
  }

  function Run(d: Disk, edits: seq<Edit>): Handle {
    if edits == [] then Fresh(d) else Step(d, Run(d, edits[..|edits| - 1]), edits[|edits| - 1]).0
  }
}
