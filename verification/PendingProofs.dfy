/** Runs of edit calls: undoing an entry is never having edited it, and what each entry ends up with. */
module PendingProofs {
  import opened Bytes
  import opened Dirents
  import opened PendingOps

  // ----- undoing an entry -----

  /** The index an edit is about, if it is about one. Adding over an existing name edits that entry. */
  function Target(d: Disk, e: Edit): Option<nat> {
    match e
    case Add(name, _, overwrite) => if overwrite then Locate(d.entries, name) else None
    case AddDir(_) => None
    case ArchiveComment(_) => None
    case UnchangeAll => None
    case UnchangeArchive => None
    case _ => Some(e.i)
  }

  /** The same run with every edit of entry `i` left out. */
  function Without(d: Disk, edits: seq<Edit>, i: nat): seq<Edit> {
    if edits == [] then []
    else
      var init := Without(d, edits[..|edits| - 1], i);
      if Target(d, edits[|edits| - 1]) == Some(i) then init else init + [edits[|edits| - 1]]
  }

  /** `b` is `a` without anything about entry `i`. */
  ghost predicate Mirrors(i: nat, a: Handle, b: Handle) {
    Strip(a.ops, i) == b.ops && forall j: nat | j != i :: Slot(a.overlay, j) == Slot(b.overlay, j)
  }

  lemma StripTwice(ops: Ops, i: nat, j: nat)
    ensures Strip(Strip(ops, i), j) == Strip(Strip(ops, j), i)
    ensures i == j ==> Strip(Strip(ops, i), j) == Strip(ops, i)
  {
    RetainedTwice(ops.deletes, i, j); RetainedTwice(ops.renames, i, j); RetainedTwice(ops.replacements, i, j);
    RetainedTwice(ops.encryptions, i, j); RetainedTwice(ops.extraOps, i, j); RetainedTwice(ops.comments, i, j);
    RetainedTwice(ops.dostimes, i, j); RetainedTwice(ops.mtimes, i, j); RetainedTwice(ops.attrs, i, j);
    RetainedTwice(ops.compressions, i, j);
  }

  lemma RetainPut<T>(l: Keyed<T>, j: nat, x: T, i: nat)
    ensures Retained(Put(l, j, x), i) == if i == j then Retained(l, i) else Put(Retained(l, i), j, x)
  {
    RetainedAppend(Retained(l, j), i, (j, x));
    RetainedTwice(l, i, j);
  }

  predicate IsSetting(e: Edit) {
    e.Encrypt? || e.EntryComment? || e.Mtime? || e.Dostime? || e.Attrs? || e.Compression?
  }

  lemma StripSetting(d: Disk, ops: Ops, e: Edit, i: nat)
    requires IsSetting(e)
    ensures Strip(Recorded(d, ops, e), i) == if e.i == i then Strip(ops, i) else Recorded(d, Strip(ops, i), e)
  {
    hide Retained, Put, RemoveAdd, Locate, FindFirst;
    match e {
      case Encrypt(j, m) => RetainPut(ops.encryptions, j, m, i);
      case EntryComment(j, text) => RetainPut(ops.comments, j, text, i);
      case Mtime(j, t) => RetainPut(ops.mtimes, j, t, i);
      case Dostime(j, time, date) => RetainPut(ops.dostimes, j, (time, date), i);
      case Attrs(j, opsys, attrs) => RetainPut(ops.attrs, j, (opsys, attrs), i);
      case Compression(j, m, level) => RetainPut(ops.compressions, j, (m, level), i);
    }
  }

  // Recording an edit of another entry commutes with stripping; recording one of this entry is stripped away.
  lemma StripRecorded(d: Disk, ops: Ops, e: Edit, i: nat)
    requires i < |d.entries| && (e.Add? && Locate(d.entries, e.name).Some? ==> e.overwrite)
    ensures Strip(Recorded(d, ops, e), i) ==
              if Target(d, e) == Some(i) then Strip(ops, i) else Recorded(d, Strip(ops, i), e)
  {
    hide Locate, Retained, FindFirst, RemoveAdd, Put;
    match e {
      case Add(name, data, _) =>
        var at := Locate(d.entries, name);
        if at.Some? { RetainedAppend(ops.replacements, i, (at.value, data)); }
      case DeleteEntry(j) => RetainedAppend(ops.deletes, i, (j, ())); FindAfterRetain(ops.deletes, i, j);
      case Rename(j, name) => RetainedAppend(ops.renames, i, (j, name));
      case Replace(j, data) => RetainedAppend(ops.replacements, i, (j, data));
      case Extra(j, op) => RetainedAppend(ops.extraOps, i, (j, op));
      case Unchange(j) => StripTwice(ops, i, j); RemoveThenStrip(d, Strip(ops, j), i, j);
      case UnchangeAll => NothingToStrip(i);
      case _ => if IsSetting(e) { StripSetting(d, ops, e, i); }
    }
  }

  lemma RemoveThenStrip(d: Disk, ops: Ops, i: nat, j: nat)
    ensures Strip(RemoveAdd(d, ops, j), i) == RemoveAdd(d, Strip(ops, i), j)
    ensures j < |d.entries| ==> RemoveAdd(d, ops, j) == ops
  {
    hide Retained;
  }

  lemma NothingToStrip(i: nat)
    ensures Strip(NO_OPS, i) == NO_OPS
  {}

  // A call about another entry is treated alike on both sides, and keeps them alike.
  lemma OtherEdit(d: Disk, i: nat, a: Handle, b: Handle, e: Edit)
    requires i < |d.entries| && Mirrors(i, a, b) && Target(d, e) != Some(i)
    ensures Refusal(d, a, e) == Refusal(d, b, e) && Step(d, a, e).1 == Step(d, b, e).1
    ensures Mirrors(i, Step(d, a, e).0, Step(d, b, e).0)
  {
    hide Locate, Retained, FindFirst, EditedFields, DiskFields, ApplyExtra, ExtraRefusal;
    if Refusal(d, a, e).None? {
      StripRecorded(d, a.ops, e, i);
      if e.Extra? { FieldsAfterRetain(DiskFields(d, e.i), Recorded(d, a.ops, e).extraOps, i, e.i); }
    }
  }

  lemma OwnEdit(d: Disk, i: nat, a: Handle, b: Handle, e: Edit)
    requires i < |d.entries| && Mirrors(i, a, b) && Target(d, e) == Some(i)
    ensures Mirrors(i, Step(d, a, e).0, b)
  {
    hide Locate, Retained, FindFirst, EditedFields, DiskFields, ApplyExtra, ExtraRefusal, Recorded;
    if Refusal(d, a, e).None? { StripRecorded(d, a.ops, e, i); }
  }

  lemma {:induction false} RunMirrors(d: Disk, edits: seq<Edit>, i: nat)
    requires i < |d.entries|
    ensures Mirrors(i, Run(d, edits), Run(d, Without(d, edits, i)))
  {
    hide Step, Strip, Target;
    if edits == [] {
      NothingToStrip(i);
    } else {
      var init, e := edits[..|edits| - 1], edits[|edits| - 1];
      RunMirrors(d, init, i);
      var a, b := Run(d, init), Run(d, Without(d, init, i));
      if Target(d, e) == Some(i) {
        OwnEdit(d, i, a, b, e);
      } else {
        OtherEdit(d, i, a, b, e);
        var w := Without(d, edits, i);
        assert w[..|w| - 1] == Without(d, init, i) && w[|w| - 1] == e;
      }
    }
  }

  /** Undoing an entry is history deletion: after any run, the pending edits are those of the run in which no call
      ever edited that entry. Earlier undos, of any index, may be part of the run. */
  lemma UnchangeIsDeletion(d: Disk, edits: seq<Edit>, i: nat)
    requires i < |d.entries|
    ensures Step(d, Run(d, edits), Unchange(i)) ==
              (Run(d, edits).(ops := Run(d, Without(d, edits, i)).ops), Ok(0))
  {
    hide Run, Retained;
    RunMirrors(d, edits, i);
  }

  /** And nobody else could tell: every other call got the answer it gets when the edits of `i` are left out. */
  lemma OthersUnaffected(d: Disk, edits: seq<Edit>, i: nat, e: Edit)
    requires i < |d.entries| && Target(d, e) != Some(i)
    ensures Step(d, Run(d, edits), e).1 == Step(d, Run(d, Without(d, edits, i)), e).1
  {
    hide Run, Step;
    RunMirrors(d, edits, i);
    OtherEdit(d, i, Run(d, edits), Run(d, Without(d, edits, i)), e);
  }

  // ----- at most one setting per index -----

  predicate Settled(ops: Ops) {
    && Unique(ops.deletes) && Unique(ops.encryptions) && Unique(ops.comments) && Unique(ops.dostimes)
    && Unique(ops.mtimes) && Unique(ops.attrs) && Unique(ops.compressions)
  }

  lemma PutIsUnique<T>(l: Keyed<T>, i: nat, x: T)
    requires Unique(l)
    ensures Unique(Put(l, i, x))
  {
    RetainedIsUnique(l, i);
  }

  lemma StripIsSettled(ops: Ops, i: nat)
    requires Settled(ops)
    ensures Settled(Strip(ops, i))
  {
    RetainedIsUnique(ops.deletes, i); RetainedIsUnique(ops.encryptions, i); RetainedIsUnique(ops.comments, i);
    RetainedIsUnique(ops.dostimes, i); RetainedIsUnique(ops.mtimes, i); RetainedIsUnique(ops.attrs, i);
    RetainedIsUnique(ops.compressions, i);
  }

  lemma {:induction false} NotFound<T>(l: Keyed<T>, i: nat)
    requires FindFirst(l, i).None?
    ensures forall a | 0 <= a < |l| :: l[a].0 != i
  {
    if l != [] { NotFound(l[..|l| - 1], i); }
  }

  lemma RecordedIsSettled(d: Disk, ops: Ops, e: Edit)
    requires Settled(ops)
    ensures Settled(Recorded(d, ops, e))
  {
    hide Locate, Retained, FindFirst, Unique;
    NothingIsSettled();
    match e {
      case DeleteEntry(i) => DeleteIsUnique(ops.deletes, i);
      case Encrypt(i, m) => PutIsUnique(ops.encryptions, i, m);
      case EntryComment(i, text) => PutIsUnique(ops.comments, i, text);
      case Mtime(i, t) => PutIsUnique(ops.mtimes, i, t);
      case Dostime(i, time, date) => PutIsUnique(ops.dostimes, i, (time, date));
      case Attrs(i, opsys, attrs) => PutIsUnique(ops.attrs, i, (opsys, attrs));
      case Compression(i, m, level) => PutIsUnique(ops.compressions, i, (m, level));
      case Unchange(i) => StripIsSettled(ops, i);
      case _ =>
    }
  }

  /** In every reachable state the delete list and the six metadata lists hold at most one edit per index. */
  lemma {:induction false} RunIsSettled(d: Disk, edits: seq<Edit>)
    ensures Settled(Run(d, edits).ops)
  {
    hide Settled, Recorded, Refusal, Refreshed, Answer;
    NothingIsSettled();
    if edits != [] {
      RunIsSettled(d, edits[..|edits| - 1]);
      RecordedIsSettled(d, Run(d, edits[..|edits| - 1]).ops, edits[|edits| - 1]);
    }
  }

  lemma NothingIsSettled()
    ensures Settled(NO_OPS)
  {}

  lemma DeleteIsUnique(l: Keyed<()>, i: nat)
    requires Unique(l)
    ensures FindFirst(l, i).None? ==> Unique(l + [(i, ())])
  {
    if FindFirst(l, i).None? { NotFound(l, i); }
  }

  /** So the forward lookups made when the archive is written and the backward lookups made by getters agree. */
  lemma LookupsAgree(d: Disk, edits: seq<Edit>, i: nat)
    ensures var ops := Run(d, edits).ops;
            && FindFirst(ops.encryptions, i) == FindLast(ops.encryptions, i)
            && FindFirst(ops.comments, i) == FindLast(ops.comments, i)
            && FindFirst(ops.dostimes, i) == FindLast(ops.dostimes, i)
            && FindFirst(ops.mtimes, i) == FindLast(ops.mtimes, i)
            && FindFirst(ops.attrs, i) == FindLast(ops.attrs, i)
            && FindFirst(ops.compressions, i) == FindLast(ops.compressions, i)
  {
    hide Run;
    var ops := Run(d, edits).ops;
    RunIsSettled(d, edits);
    UniqueFindsAgree(ops.encryptions, i); UniqueFindsAgree(ops.comments, i); UniqueFindsAgree(ops.dostimes, i);
    UniqueFindsAgree(ops.mtimes, i); UniqueFindsAgree(ops.attrs, i); UniqueFindsAgree(ops.compressions, i);
  }

  // ----- the last setting wins -----

  /** What has been set for one index. */
  datatype Meta = Meta(
    deleted: bool, encryption: Option<u16>, comment: Option<Option<bytes>>, dostime: Option<(u16, u16)>,
    mtime: Option<int>, attrs: Option<(u8, u32)>, compression: Option<(int, nat)>)

  const NOTHING_SET := Meta(false, None, None, None, None, None, None)

  function MetaOf(ops: Ops, i: nat): Meta {
    Meta(FindLast(ops.deletes, i).Some?, FindLast(ops.encryptions, i), FindLast(ops.comments, i), FindLast(ops.dostimes, i),
         FindLast(ops.mtimes, i), FindLast(ops.attrs, i), FindLast(ops.compressions, i))
  }

  /** One accepted call, seen from index `i`. */
  function MetaStep(m: Meta, e: Edit, i: nat): Meta {
    match e
    case DeleteEntry(j) => if i == j then m.(deleted := true) else m
    case Encrypt(j, x) => if i == j then m.(encryption := Some(x)) else m
    case EntryComment(j, x) => if i == j then m.(comment := Some(x)) else m
    case Dostime(j, t, u) => if i == j then m.(dostime := Some((t, u))) else m
    case Mtime(j, t) => if i == j then m.(mtime := Some(t)) else m
    case Attrs(j, o, a) => if i == j then m.(attrs := Some((o, a))) else m
    case Compression(j, x, l) => if i == j then m.(compression := Some((x, l))) else m
    case Unchange(j) => if i == j then NOTHING_SET else m
    case UnchangeAll => NOTHING_SET
    case _ => m
  }

  /** What a reader of the history alone would say is set for index `i`. */
  function MetaAfter(d: Disk, edits: seq<Edit>, i: nat): Meta {
    if edits == [] then NOTHING_SET
    else
      var init, e := edits[..|edits| - 1], edits[|edits| - 1];
      if Refusal(d, Run(d, init), e).Some? then MetaAfter(d, init, i) else MetaStep(MetaAfter(d, init, i), e, i)
  }

  lemma PutFinds<T>(l: Keyed<T>, j: nat, x: T, i: nat)
    ensures FindLast(Put(l, j, x), i) == if i == j then Some(x) else FindLast(l, i)
  {
    FindAppend(Retained(l, j), i, (j, x));
    FindAfterRetain(l, j, i);
  }

  lemma StripFinds(ops: Ops, j: nat, i: nat)
    ensures MetaOf(Strip(ops, j), i) == if i == j then NOTHING_SET else MetaOf(ops, i)
  {
    FindAfterRetain(ops.deletes, j, i); FindAfterRetain(ops.encryptions, j, i); FindAfterRetain(ops.comments, j, i);
    FindAfterRetain(ops.dostimes, j, i); FindAfterRetain(ops.mtimes, j, i); FindAfterRetain(ops.attrs, j, i);
    FindAfterRetain(ops.compressions, j, i);
  }

  lemma {:induction false} FoundFromBothEnds<T>(l: Keyed<T>, i: nat)
    ensures FindFirst(l, i).Some? <==> FindLast(l, i).Some?
  {
    if l != [] { FoundFromBothEnds(l[..|l| - 1], i); }
  }

  lemma RecordedSetting(d: Disk, ops: Ops, e: Edit, i: nat)
    ensures MetaOf(Recorded(d, ops, e), i) == MetaStep(MetaOf(ops, i), e, i)
  {
    hide Locate, Retained, FindFirst, FindLast;
    NothingSet(i);
    match e {
      case DeleteEntry(j) => FindAppend(ops.deletes, i, (j, ())); FoundFromBothEnds(ops.deletes, j);
      case Encrypt(j, m) => PutFinds(ops.encryptions, j, m, i);
      case EntryComment(j, text) => PutFinds(ops.comments, j, text, i);
      case Mtime(j, t) => PutFinds(ops.mtimes, j, t, i);
      case Dostime(j, time, date) => PutFinds(ops.dostimes, j, (time, date), i);
      case Attrs(j, opsys, attrs) => PutFinds(ops.attrs, j, (opsys, attrs), i);
      case Compression(j, m, level) => PutFinds(ops.compressions, j, (m, level), i);
      case Unchange(j) => StripFinds(ops, j, i);
      case _ =>
    }
  }

  /** For every index the lists hold exactly the last accepted setting since the entry was last undone. */
  lemma {:induction false} LastSettingWins(d: Disk, edits: seq<Edit>, i: nat)
    ensures MetaOf(Run(d, edits).ops, i) == MetaAfter(d, edits, i)
  {
    hide MetaOf, MetaStep, Recorded, Refusal, Refreshed, Answer;
    NothingSet(i);
    if edits != [] {
      LastSettingWins(d, edits[..|edits| - 1], i);
      RecordedSetting(d, Run(d, edits[..|edits| - 1]).ops, edits[|edits| - 1], i);
    }
  }

  lemma NothingSet(i: nat)
    ensures MetaOf(NO_OPS, i) == NOTHING_SET
  {}

  // ----- but the first rename and the first replacement win -----

  /** The name the archive is written with: the first rename since the entry was last undone. */
  function NameAfter(d: Disk, edits: seq<Edit>, i: nat): Option<bytes> {
    if edits == [] then None
    else
      var init, e := edits[..|edits| - 1], edits[|edits| - 1];
      var earlier := NameAfter(d, init, i);
      if Refusal(d, Run(d, init), e).Some? then earlier
      else if e.UnchangeAll? || e == Unchange(i) then None
      else if earlier.None? && e.Rename? && e.i == i then Some(e.name)
      else earlier
  }

  function DataAfter(d: Disk, edits: seq<Edit>, i: nat): Option<bytes> {
    if edits == [] then None
    else
      var init, e := edits[..|edits| - 1], edits[|edits| - 1];
      var earlier := DataAfter(d, init, i);
      if Refusal(d, Run(d, init), e).Some? then earlier
      else if e.UnchangeAll? || e == Unchange(i) then None
      else if earlier.None? && e.Replace? && e.i == i then Some(e.data)
      else if earlier.None? && e.Add? && Locate(d.entries, e.name) == Some(i) then Some(e.data)
      else earlier
  }

  lemma RecordedFirst(d: Disk, ops: Ops, e: Edit, i: nat)
    ensures var was, now := FindFirst(ops.renames, i), FindFirst(Recorded(d, ops, e).renames, i);
            now == if e.UnchangeAll? || e == Unchange(i) then None
                   else if was.None? && e.Rename? && e.i == i then Some(e.name) else was
    ensures var was, now := FindFirst(ops.replacements, i), FindFirst(Recorded(d, ops, e).replacements, i);
            now == if e.UnchangeAll? || e == Unchange(i) then None
                   else if was.None? && e.Replace? && e.i == i then Some(e.data)
                   else if was.None? && e.Add? && Locate(d.entries, e.name) == Some(i) then Some(e.data)
                   else was
  {
    hide Locate, Retained, FindFirst, FindLast;
    NothingRenamed(i);
    match e {
      case Add(name, data, _) =>
        var at := Locate(d.entries, name);
        if at.Some? { FindAppend(ops.replacements, i, (at.value, data)); }
      case Rename(j, name) => FindAppend(ops.renames, i, (j, name));
      case Replace(j, data) => FindAppend(ops.replacements, i, (j, data));
      case Unchange(j) => FindAfterRetain(ops.renames, j, i); FindAfterRetain(ops.replacements, j, i);
      case _ =>
    }
  }

  lemma {:induction false} FirstRenameWins(d: Disk, edits: seq<Edit>, i: nat)
    ensures FindFirst(Run(d, edits).ops.renames, i) == NameAfter(d, edits, i)
    ensures FindFirst(Run(d, edits).ops.replacements, i) == DataAfter(d, edits, i)
  {
    hide FindFirst, Recorded, Refusal, Refreshed, Answer, Locate;
    NothingRenamed(i);
    if edits != [] {
      FirstRenameWins(d, edits[..|edits| - 1], i);
      RecordedFirst(d, Run(d, edits[..|edits| - 1]).ops, edits[|edits| - 1], i);
    }
  }

  lemma NothingRenamed(i: nat)
    ensures FindFirst(NO_OPS.renames, i) == None && FindFirst(NO_OPS.replacements, i) == None
  {}

  /** An accepted rename takes effect if and only if no rename is pending for the entry, or one to the same name. */
  lemma RenameTakesEffect(d: Disk, edits: seq<Edit>, i: nat, name: bytes)
    requires d.writable && i < |d.entries|
    ensures var earlier := NameAfter(d, edits, i);
            NameAfter(d, edits + [Rename(i, name)], i) == Some(name) <==> earlier.None? || earlier == Some(name)
  {
    var now := edits + [Rename(i, name)];
    assert now[..|now| - 1] == edits;
  }

  /** What `DataAfter` is to a name. */
  lemma ReplaceTakesEffect(d: Disk, edits: seq<Edit>, i: nat, e: Edit)
    requires d.writable && i < |d.entries|
    requires (e.Replace? && e.i == i) || (e.Add? && e.overwrite && Locate(d.entries, e.name) == Some(i))
    ensures var earlier := DataAfter(d, edits, i);
            DataAfter(d, edits + [e], i) == Some(e.data) <==> earlier.None? || earlier == Some(e.data)
  {
    hide Locate;
    var now := edits + [e];
    assert now[..|now| - 1] == edits;
  }

  // ----- the cached extra fields -----

  /** The call was made and accepted after this run. */
  predicate Accepted(d: Disk, before: seq<Edit>, e: Edit) { Refusal(d, Run(d, before), e).None? }

  /** The extra fields entry `i` would be written with, told from the history: accepted edits in order, starting over
      from the fields on disk whenever the entry is undone. */
  function CurrentFields(d: Disk, edits: seq<Edit>, i: nat): seq<ExtraField> {
    if edits == [] then DiskFields(d, i)
    else
      var init, e := edits[..|edits| - 1], edits[|edits| - 1];
      if !Accepted(d, init, e) then CurrentFields(d, init, i)
      else if e.UnchangeAll? || e == Unchange(i) then DiskFields(d, i)
      else if e.Extra? && e.i == i then ApplyExtra(CurrentFields(d, init, i), e.op)
      else CurrentFields(d, init, i)
  }

  /** The extra fields as they were right after the last accepted extra-field call on entry `i`, or on disk. */
  function FieldsAtLastEdit(d: Disk, edits: seq<Edit>, i: nat): seq<ExtraField> {
    if edits == [] then DiskFields(d, i)
    else
      var init, e := edits[..|edits| - 1], edits[|edits| - 1];
      if Accepted(d, init, e) && e.Extra? && e.i == i then CurrentFields(d, edits, i) else FieldsAtLastEdit(d, init, i)
  }

  /** Entry `i` was undone, alone or with everything, after the last accepted extra-field call on it. */
  predicate UndoneSince(d: Disk, edits: seq<Edit>, i: nat) {
    edits != [] &&
    var init, e := edits[..|edits| - 1], edits[|edits| - 1];
    if !Accepted(d, init, e) then UndoneSince(d, init, i)
    else if e.UnchangeAll? || e == Unchange(i) then true
    else if e.Extra? && e.i == i then false
    else UndoneSince(d, init, i)
  }

  lemma RecordedFields(d: Disk, ops: Ops, e: Edit, i: nat)
    ensures var was, now := EditedFields(DiskFields(d, i), ops.extraOps, i),
                            EditedFields(DiskFields(d, i), Recorded(d, ops, e).extraOps, i);
            now == if e.UnchangeAll? || e == Unchange(i) then DiskFields(d, i)
                   else if e.Extra? && e.i == i then ApplyExtra(was, e.op) else was
  {
    hide Locate, Retained, FindFirst, ApplyExtra, DiskFields;
    match e {
      case Extra(j, op) => assert (ops.extraOps + [(j, op)])[..|ops.extraOps|] == ops.extraOps;
      case Unchange(j) => FieldsAfterRetain(DiskFields(d, i), ops.extraOps, j, i);
      case _ =>
    }
  }

  /** The pending edits of any run yield the fields its history yields. */
  lemma {:induction false} CurrentFieldsAre(d: Disk, edits: seq<Edit>, i: nat)
    ensures EditedFields(DiskFields(d, i), Run(d, edits).ops.extraOps, i) == CurrentFields(d, edits, i)
  {
    hide Recorded, Refusal, Refreshed, Answer, DiskFields, ApplyExtra;
    if edits != [] {
      CurrentFieldsAre(d, edits[..|edits| - 1], i);
      RecordedFields(d, Run(d, edits[..|edits| - 1]).ops, edits[|edits| - 1], i);
    }
  }

  lemma RefreshedSlot(d: Disk, h: Handle, e: Edit, i: nat)
    ensures Slot(Refreshed(d, h, e), i) ==
              if e.Extra? && e.i == i then EditedFields(DiskFields(d, i), Recorded(d, h.ops, e).extraOps, i)
              else Slot(h.overlay, i)
  {
    hide SetSlot, EditedFields, DiskFields, Recorded;
  }

  /** After any run the cache that getters show holds the fields of the last extra-field call. */
  lemma {:induction false} CacheIsLastEdit(d: Disk, edits: seq<Edit>, i: nat)
    ensures Slot(Run(d, edits).overlay, i) == FieldsAtLastEdit(d, edits, i)
  {
    hide Recorded, Refusal, Refreshed, Answer, DiskFields, ApplyExtra, EditedFields, CurrentFields;
    if edits == [] {
      FreshSlots(d, i);
    } else {
      var init, e := edits[..|edits| - 1], edits[|edits| - 1];
      CacheIsLastEdit(d, init, i);
      RefreshedSlot(d, Run(d, init), e, i);
      CurrentFieldsAre(d, edits, i);
    }
  }

  lemma FreshSlots(d: Disk, i: nat)
    ensures Slot(Fresh(d).overlay, i) == DiskFields(d, i)
  {}

  // Since the last extra-field call the fields have either stayed, or gone back to those on disk.
  lemma {:induction false} FieldsSinceLastEdit(d: Disk, edits: seq<Edit>, i: nat)
    ensures CurrentFields(d, edits, i) ==
              if UndoneSince(d, edits, i) then DiskFields(d, i) else FieldsAtLastEdit(d, edits, i)
  {
    hide Accepted, DiskFields, ApplyExtra;
    if edits != [] { FieldsSinceLastEdit(d, edits[..|edits| - 1], i); }
  }

  /** After any run, exactly when getters show the extra fields the archive would be written with: the entry has not
      been undone since its last extra-field call, or that call had left the fields as they are on disk. */
  lemma CacheIsCurrent(d: Disk, edits: seq<Edit>, i: nat)
    ensures var h := Run(d, edits);
            Slot(h.overlay, i) == EditedFields(DiskFields(d, i), h.ops.extraOps, i) <==>
              !UndoneSince(d, edits, i) || FieldsAtLastEdit(d, edits, i) == DiskFields(d, i)
  {
    hide Run, EditedFields, DiskFields, CurrentFields, FieldsAtLastEdit, UndoneSince;
    CurrentFieldsAre(d, edits, i);
    CacheIsLastEdit(d, edits, i);
    FieldsSinceLastEdit(d, edits, i);
  }

  lemma {:induction false} NotUndone(d: Disk, edits: seq<Edit>, i: nat)
    requires forall k | 0 <= k < |edits| :: edits[k] != Unchange(i) && !edits[k].UnchangeAll?
    ensures !UndoneSince(d, edits, i)
  {
    hide Accepted;
    if edits != [] { NotUndone(d, edits[..|edits| - 1], i); }
  }

  /** As long as entry `i` itself is not undone, whatever happens to others, getters show what would be written. */
  lemma OverlayIsCurrent(d: Disk, edits: seq<Edit>, i: nat)
    requires forall k | 0 <= k < |edits| :: edits[k] != Unchange(i) && !edits[k].UnchangeAll?
    ensures var h := Run(d, edits); Slot(h.overlay, i) == EditedFields(DiskFields(d, i), h.ops.extraOps, i)
  {
    hide Run, EditedFields, DiskFields, FieldsAtLastEdit, UndoneSince;
    NotUndone(d, edits, i);
    CacheIsCurrent(d, edits, i);
  }

  /** Right after an undo the entry would be written with its fields on disk, and getters show those exactly when the
      last extra-field call before it, however long ago, had left them so. */
  lemma UndoneOverlay(d: Disk, edits: seq<Edit>, i: nat)
    requires i < |d.entries|
    ensures var h := Step(d, Run(d, edits), Unchange(i)).0;
            && EditedFields(DiskFields(d, i), h.ops.extraOps, i) == DiskFields(d, i)
            && (Slot(h.overlay, i) == DiskFields(d, i) <==> FieldsAtLastEdit(d, edits, i) == DiskFields(d, i))
  {
    hide Run, Retained, EditedFields, DiskFields, FieldsAtLastEdit;
    CacheIsLastEdit(d, edits, i);
    FieldsAfterRetain(DiskFields(d, i), Run(d, edits).ops.extraOps, i, i);
  }

  // ----- inputs on which the calls surprise -----

  lemma TwoCalls(d: Disk, first: Edit, second: Edit)
    ensures [first, second][..1] == [first] && [first][..0] == []
    ensures Run(d, [first]) == Step(d, Fresh(d), first).0
    ensures Run(d, [first, second]) == Step(d, Run(d, [first]), second).0
  {
    hide Step;
    assert [first, second][..1] == [first] && [first][..0] == [];
  }

  /** A second rename is accepted and ignored, and so is a second replacement. */
  lemma SecondRenameIsIgnored(d: Disk)
    requires d.writable && |d.entries| > 0
    ensures var renames, replacements := [Rename(0, [0x61]), Rename(0, [0x62])], [Replace(0, [1]), Replace(0, [2])];
            && Step(d, Run(d, renames[..1]), renames[1]).1 == Ok(0) && NameAfter(d, renames, 0) == Some([0x61])
            && Step(d, Run(d, replacements[..1]), replacements[1]).1 == Ok(0) && DataAfter(d, replacements, 0) == Some([1])
  {
    hide Locate;
    var a, b, p, q := Rename(0, [0x61]), Rename(0, [0x62]), Replace(0, [1]), Replace(0, [2]);
    TwoCalls(d, a, b);
    TwoCalls(d, p, q);
    assert NameAfter(d, [a], 0) == Some([0x61]) && [a, b][1] == b;
    assert DataAfter(d, [p], 0) == Some([1]) && [p, q][1] == q;
  }

  /** Adding a field to an entry without any and undoing the entry, even twice: the pending edits leave the fields as
      on disk, the getters still show the added one. */
  lemma StaleCache(d: Disk)
    requires d.writable && |d.entries| > 0 && DiskFields(d, 0) == []
    ensures var edits := [Extra(0, Set(5, EXTRA_FIELD_NEW, [])), Unchange(0)];
            forall again <- [edits, edits + [Unchange(0)]] ::
              var h := Run(d, again);
              EditedFields([], h.ops.extraOps, 0) == [] && Slot(h.overlay, 0) == [ExtraField(5, [])]
  {
    hide Run, DiskFields, EditedFields;
    var add, undo := Extra(0, Set(5, EXTRA_FIELD_NEW, [])), Unchange(0);
    var once, twice := [add, undo], [add, undo] + [undo];
    assert [add][..0] == [] && once[..1] == [add] && twice[..2] == once && twice[2] == undo;
    assert CurrentFields(d, [add], 0) == [] + [ExtraField(5, [])];
    CurrentFieldsAre(d, once, 0); CacheIsLastEdit(d, once, 0);
    CurrentFieldsAre(d, twice, 0); CacheIsLastEdit(d, twice, 0);
  }

  /** Deleting all ids from an entry with one ordinary field deletes nothing. */
  lemma DeletesNothing(f: ExtraField)
    requires f.id != EXTRA_FIELD_ALL
    ensures ApplyExtra([f], DeleteById(EXTRA_FIELD_ALL, EXTRA_FIELD_ALL)) == [f]
  {
    DeleteAllIdsKeepsOthers([f], EXTRA_FIELD_ALL);
  }
}
