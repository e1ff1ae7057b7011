/**
 Runs of the expirer, of ws_release and of ws_editdb over one filesystem, in any order and with any failures
 of file operations: what was deleted stays, under names of its own, and together.
 */
module DeletedAreaRuns {
  import opened Integers
  import opened Wrappers
  import opened Names
  import opened Retention
  import opened DeletedArea
  import opened RetentionEdit
  import opened DeletedAreaSafety

  /** Expiring or releasing one live entry, or editing one deleted entry, each read from its file first. */
  datatype Op = ExpireOp(name: string, timestamp: string, now: int, faults: ExpireFaults)
              | ReleaseOp(name: string, time: nat, now: int, releaseFaults: ReleaseFaults)
              | EditOp(name: string, edit: Edit, reserved: set<string>)

  function Step(a: Area, op: Op): Area {
    match op
    case ExpireOp(n, timestamp, now, f) =>
      if n in a.liveDb then AfterExpireWorkspace(a, Handle(n, Live(n), a.liveDb[n]), timestamp, now, f) else a
    case ReleaseOp(n, ts, now, f) =>
      if n in a.liveDb then AfterReleaseWorkspace(a, Handle(n, Live(n), a.liveDb[n]), ts, now, f) else a
    case EditOp(n, e, reserved) =>
      if n in a.deletedDb then AfterEdit(a, Handle(n, Deleted(n), a.deletedDb[n]), e, reserved, false).area else a
  }

  function Run(a: Area, ops: seq<Op>): Area
    decreases |ops|
  {
    if ops == [] then a else Step(Run(a, ops[..|ops| - 1]), ops[|ops| - 1])
  }

  // ----- nothing is lost -----

  lemma EditLosesNothing(a: Area, h: Handle, e: Edit, reserved: set<string>)
    requires Unique(a) && ReadsDeleted(a, h)
    ensures var b := AfterEdit(a, h, e, reserved, false).area;
      Unique(b) && NothingLost(a, b) && b.liveDb == a.liveDb
  {
    var (a1, h1) := AfterTimes(a, h, e);
    TimesKeepIds(a, h, e);
    var planned := PlannedName(a1, h1, h.record.times, e, reserved);
    if planned.Some? {
      hide AfterRename, Ids, Sound;
      RenameLosesNothing(a1, h1, planned.value, e.rename);
    }
  }

  lemma TimesKeepIds(a: Area, h: Handle, e: Edit)
    requires ReadsDeleted(a, h)
    ensures var (b, h') := AfterTimes(a, h, e);
      && Ids(b.deletedDb) == Ids(a.deletedDb) && b.liveDb == a.liveDb
      && b.liveDirs == a.liveDirs && b.deletedDirs == a.deletedDirs && ReadsDeleted(b, h')
      && h'.record.space == h.record.space && h'.record.serial == h.record.serial && h'.id == h.id
  {
    var t := h.record.times;
    var r1 := h.record.(times := t.(expiration := Or(e.expiration, t.expiration)));
    var r2 := r1.(times := r1.times.(expired := Or(e.expired, t.expired)));
    var a1 := if e.expiration.Some? then AfterWrite(a, h.path, r1, e.firstWriteFails) else a;
    hide Ids;
    WriteKeepsIds(a, h, r1, e.firstWriteFails);
    WriteKeepsIds(a1, h, r2, e.secondWriteFails);
  }

  predicate NoRelease(ops: seq<Op>) {
    forall op <- ops :: !op.ReleaseOp?
  }

  /** No run without release loses or overwrites anything, and what is in the deleted area stays there. */
  lemma {:induction false} RunLosesNothing(a: Area, ops: seq<Op>)
    requires Unique(a) && NamedAlike(a) && NoRelease(ops)
    ensures var b := Run(a, ops);
      Unique(b) && NamedAlike(b) && NothingLost(a, b)
    decreases |ops|
  {
    if ops != [] {
      var b, op := Run(a, ops[..|ops| - 1]), ops[|ops| - 1];
      RunLosesNothing(a, ops[..|ops| - 1]);
      StepLosesNothing(b, op);
      hide Ids, Sound, Step;
    }
  }

  lemma StepLosesNothing(a: Area, op: Op)
    requires Unique(a) && NamedAlike(a) && !op.ReleaseOp?
    ensures var b := Step(a, op);
      Unique(b) && NamedAlike(b) && NothingLost(a, b)
  {
    hide AfterExpireWorkspace, AfterEdit, Ids, Sound;
    match op
    case ExpireOp(n, timestamp, now, f) =>
      if n in a.liveDb {
        ExpireLosesNothing(a, Handle(n, Live(n), a.liveDb[n]), timestamp, now, f);
      }
    case EditOp(n, e, reserved) =>
      if n in a.deletedDb {
        EditLosesNothing(a, Handle(n, Deleted(n), a.deletedDb[n]), e, reserved);
      }
  }

  // ----- no data is overwritten -----

  /** The directories that hold something. */
  function Contents(a: Area): set<nat> {
    a.liveDirs.Values + a.deletedDirs.Values - a.empties
  }

  function DeletedContents(a: Area): set<nat> {
    a.deletedDirs.Values - a.empties
  }

  /** Whatever holds something is still somewhere, and still deleted if it was. */
  predicate ContentsKept(a: Area, b: Area) {
    && b.empties == a.empties && Sound(b.liveDirs, b.deletedDirs)
    && Contents(b) == Contents(a) && DeletedContents(a) <= DeletedContents(b)
  }

  lemma RetireKeepsContents(a: Area, from: Place, to: Place)
    requires Sound(a.liveDirs, a.deletedDirs) && from in a.liveDirs && Replaceable(a, to)
    ensures ContentsKept(a, RetireDir(a, from, to))
  {
    var others := a.deletedDirs - {to};
    TransferredValues(a.liveDirs, others, from, to);
    assert others[to := a.liveDirs[from]] == a.deletedDirs[to := a.liveDirs[from]];
    forall v | v in DeletedContents(a)
      ensures v in others.Values
    {
      var p :| p in a.deletedDirs && a.deletedDirs[p] == v;
      assert others[p] == v;
    }
  }

  lemma RenameKeepsContents(a: Area, h: Handle, newId: string, f: RenameFaults)
    requires Sound(a.liveDirs, a.deletedDirs) && ReadsDeleted(a, h)
    ensures ContentsKept(a, AfterRename(a, h, newId, f).area)
  {
    var b, from, to := AfterRename(a, h, newId, f).area, (h.record.space, h.id), (h.record.space, newId);
    if from in a.deletedDirs && to !in a.deletedDirs {
      MovedValues(a.deletedDirs, from, to);
    }
    hide RenameAllowed;
    assert b.deletedDirs == a.deletedDirs
        || (from in a.deletedDirs && to !in a.deletedDirs && b.deletedDirs == Moved(a.deletedDirs, from, to));
    hide AfterRename, Sound;
  }

  lemma EditKeepsContents(a: Area, h: Handle, e: Edit, reserved: set<string>)
    requires Sound(a.liveDirs, a.deletedDirs) && ReadsDeleted(a, h)
    ensures ContentsKept(a, AfterEdit(a, h, e, reserved, false).area)
  {
    var (a1, h1) := AfterTimes(a, h, e);
    TimesKeepIds(a, h, e);
    var planned := PlannedName(a1, h1, h.record.times, e, reserved);
    if planned.Some? {
      hide AfterRename, Sound;
      RenameKeepsContents(a1, h1, planned.value, e.rename);
    }
  }

  lemma StepKeepsContents(a: Area, op: Op)
    requires Sound(a.liveDirs, a.deletedDirs)
    ensures ContentsKept(a, Step(a, op))
  {
    hide AfterExpire, AfterRelease, AfterEdit, Sound, Stamped;
    match op
    case ExpireOp(n, timestamp, now, f) =>
      if n in a.liveDb {
        var h := Handle(n, Live(n), a.liveDb[n]);
        var o, from := AfterExpire(a, h, timestamp, now, f), (h.record.space, h.record.directory);
        EntryGoesIff(a, h, timestamp, now, f);
        if o.result.Success? && from in a.liveDirs {
          var to := DirectoryTarget(h, o.result.value);
          if Replaceable(o.area, to) {
            RetireKeepsContents(o.area, from, to);
          }
        }
      }
    case ReleaseOp(n, ts, now, f) =>
      if n in a.liveDb {
        var h := Handle(n, Live(n), a.liveDb[n]);
        var o, from := AfterRelease(a, h, ts, now, f), (h.record.space, h.record.directory);
        EntryReleasedIff(a, h, ts, now, f);
        if o.result.Success? && from in a.liveDirs {
          var to := (h.record.space, Stamped(h.id, o.result.value));
          if Replaceable(o.area, to) {
            RetireKeepsContents(o.area, from, to);
          }
        }
      }
    case EditOp(n, e, reserved) =>
      if n in a.deletedDb {
        EditKeepsContents(a, Handle(n, Deleted(n), a.deletedDb[n]), e, reserved);
      }
  }

  /**
   Whatever the names, over every run of all three tools with any failures: no directory that holds something
   is overwritten, and what is in the deleted area stays there.
   */
  lemma {:induction false} RunKeepsContents(a: Area, ops: seq<Op>)
    requires Sound(a.liveDirs, a.deletedDirs)
    ensures ContentsKept(a, Run(a, ops))
    decreases |ops|
  {
    if ops != [] {
      RunKeepsContents(a, ops[..|ops| - 1]);
      StepKeepsContents(Run(a, ops[..|ops| - 1]), ops[|ops| - 1]);
      hide Step, Sound;
    }
  }

  // ----- entry and directory stay together -----

  /** A directory of the deleted area belongs to an entry there exactly if it carries the entry's name. */
  predicate DeletedPaired(a: Area) {
    forall n, p :: n in a.deletedDb && p in a.deletedDirs ==>
      (a.deletedDirs[p] == a.deletedDb[n].serial <==> p == (a.deletedDb[n].space, n))
  }

  predicate LivePaired(a: Area) {
    && (forall n, p :: n in a.liveDb && p in a.liveDirs ==>
          (a.liveDirs[p] == a.liveDb[n].serial <==> p == (a.liveDb[n].space, a.liveDb[n].directory)))
    && (forall n, p :: n in a.liveDb && p in a.deletedDirs ==> a.deletedDirs[p] != a.liveDb[n].serial)
  }

  predicate Paired(a: Area) {
    DeletedPaired(a) && LivePaired(a)
  }

  lemma WriteKeepsPairs(a: Area, h: Handle, r: Record, fails: bool)
    requires Paired(a) && Reads(a, h)
    requires r.serial == h.record.serial && r.space == h.record.space && r.directory == h.record.directory
    ensures Paired(AfterWrite(a, h.path, r, fails))
  {
  }

  lemma EntryMoveKeepsPairs(a: Area, h: Handle, name: string)
    requires Paired(a) && ReadsLive(a, h) && !Taken(a, h.record.space, name)
    ensures Paired(MoveDb(a, h.path, Deleted(name)))
  {
  }

  lemma DirectoryMoveKeepsPairs(a: Area, from: Place, to: Place)
    requires Unique(a) && Paired(a) && from in a.liveDirs && to !in a.deletedDirs
    requires to.1 in a.deletedDb && a.deletedDb[to.1].serial == a.liveDirs[from] && a.deletedDb[to.1].space == to.0
    ensures Paired(RetireDir(a, from, to))
  {
    var s := a.liveDirs[from];
    forall n | n in a.deletedDb && n != to.1
      ensures a.deletedDb[n].serial != s
    {
      assert Ids(a.deletedDb)[n] != Ids(a.deletedDb)[to.1];
    }
    forall n | n in a.liveDb
      ensures a.liveDb[n].serial != s
    {
      assert Ids(a.liveDb)[n] in Ids(a.liveDb).Values && Ids(a.deletedDb)[to.1] in Ids(a.deletedDb).Values;
    }
  }

  lemma ExpireKeepsPairs(a: Area, h: Handle, timestamp: string, now: int, f: ExpireFaults)
    requires Unique(a) && Paired(a) && ReadsLive(a, h) && h.record.directory == h.id
    ensures Paired(AfterExpireWorkspace(a, h, timestamp, now, f))
  {
    var o, from := AfterExpire(a, h, timestamp, now, f), (h.record.space, h.record.directory);
    EntryRetires(a, h, timestamp, now, f);
    EntryKeepsPairs(a, h, timestamp, now, f);
    if o.result.Success? && !f.directory && from in a.liveDirs {
      hide AfterExpire, Unique, Ids;
      assert a.liveDirs[from] == a.liveDb[h.id].serial;
      DirectoryMoveKeepsPairs(o.area, from, (h.record.space, Stamped(h.id, o.result.value)));
    }
  }

  lemma EntryKeepsPairs(a: Area, h: Handle, timestamp: string, now: int, f: ExpireFaults)
    requires Unique(a) && Paired(a) && ReadsLive(a, h)
    ensures var o := AfterExpire(a, h, timestamp, now, f);
      && Paired(o.area)
      && (o.result.Success? ==>
            var name := Stamped(h.id, o.result.value);
            && (h.record.space, name) !in a.deletedDirs && name in o.area.deletedDb
            && o.area.deletedDb[name].serial == h.record.serial && o.area.deletedDb[name].space == h.record.space)
  {
    var o := AfterExpire(a, h, timestamp, now, f);
    var r := h.record.(times := h.record.times.(expired := now));
    var a1 := AfterWrite(a, h.path, r, f.write);
    hide Paired, Unique, Ids, ExpireTime, Stamped;
    WriteKeepsPairs(a, h, r, f.write);
    WriteKeepsIds(a, h, r, f.write);
    if o.result.Success? {
      EntryMoveKeepsPairs(a1, h, Stamped(h.id, o.result.value));
    }
  }

  // ----- rename -----

  lemma EntryRenameKeepsPairs(a: Area, h: Handle, newId: string)
    requires Unique(a) && Paired(a) && ReadsDeleted(a, h) && !Taken(a, h.record.space, newId)
    ensures var b := MoveDb(a, h.path, Deleted(newId));
      Paired(b) <==> (h.record.space, h.id) !in a.deletedDirs
  {
    var b, from := MoveDb(a, h.path, Deleted(newId)), (h.record.space, h.id);
    if from in a.deletedDirs {
      assert newId in b.deletedDb && from in b.deletedDirs && b.deletedDirs[from] == b.deletedDb[newId].serial;
    } else {
      hide Unique, Ids;
    }
  }

  lemma BothRenamesKeepPairs(a: Area, h: Handle, newId: string)
    requires Unique(a) && Paired(a) && ReadsDeleted(a, h) && !Taken(a, h.record.space, newId)
    requires (h.record.space, h.id) in a.deletedDirs
    ensures var b := MoveDb(a, h.path, Deleted(newId));
      Paired(MoveDeletedDir(b, (h.record.space, h.id), (h.record.space, newId)))
  {
    hide Unique, Ids;
  }

  /**
   A rename separates an entry from its directory exactly if, after all checks, the directory does not follow
   and the entry does not get back, and exactly then it reports that the roll back failed.
   */
  lemma RenameKeepsPairs(a: Area, h: Handle, newId: string, f: RenameFaults)
    requires Unique(a) && Paired(a) && ReadsDeleted(a, h)
    ensures Paired(AfterRename(a, h, newId, f).area) <==> !RollbackDue(a, h, newId, f)
    ensures AfterRename(a, h, newId, f).result == Some(RollbackFailed) <==> RollbackDue(a, h, newId, f)
  {
    hide Unique, Ids, Paired, RenameAllowed;
    RollbackFailsIff(a, h, newId, f);
    hide RollbackDue;
    if !Taken(a, h.record.space, newId) {
      EntryRenameKeepsPairs(a, h, newId);
      if (h.record.space, h.id) in a.deletedDirs {
        BothRenamesKeepPairs(a, h, newId);
      }
      RolledBackIsSame(a, h, newId);
    }
  }

  lemma EditKeepsPairs(a: Area, h: Handle, e: Edit, reserved: set<string>)
    requires Unique(a) && Paired(a) && ReadsDeleted(a, h) && !(e.rename.directory && e.rename.rollback)
    ensures Paired(AfterEdit(a, h, e, reserved, false).area)
  {
    var t := h.record.times;
    var r1 := h.record.(times := t.(expiration := Or(e.expiration, t.expiration)));
    var r2 := r1.(times := r1.times.(expired := Or(e.expired, t.expired)));
    var a1 := if e.expiration.Some? then AfterWrite(a, h.path, r1, e.firstWriteFails) else a;
    var (a2, h2) := AfterTimes(a, h, e);
    TimesKeepIds(a, h, e);
    WriteKeepsIds(a, h, r1, e.firstWriteFails);
    hide Paired, Ids, AfterWrite, PlannedName;
    WriteKeepsPairs(a, h, r1, e.firstWriteFails);
    WriteKeepsPairs(a1, h, r2, e.secondWriteFails);
    var planned := PlannedName(a2, h2, t, e, reserved);
    if planned.Some? {
      RenameKeepsPairs(a2, h2, planned.value, e.rename);
      hide AfterRename;
    }
  }

  /** The assumption on faults: not both the directory rename and the way back of the entry fail. */
  predicate RollbacksWork(ops: seq<Op>) {
    forall op <- ops :: op.EditOp? ==> !(op.edit.rename.directory && op.edit.rename.rollback)
  }

  /** As long as roll backs work, entry and directory of every workspace stay under one name. */
  lemma {:induction false} RunKeepsPairs(a: Area, ops: seq<Op>)
    requires Unique(a) && NamedAlike(a) && Paired(a) && RollbacksWork(ops) && NoRelease(ops)
    ensures Paired(Run(a, ops))
    decreases |ops|
  {
    if ops != [] {
      var earlier, op := ops[..|ops| - 1], ops[|ops| - 1];
      RunKeepsPairs(a, earlier);
      RunLosesNothing(a, earlier);
      StepKeepsPairs(Run(a, earlier), op);
    }
  }

  lemma StepKeepsPairs(a: Area, op: Op)
    requires Unique(a) && NamedAlike(a) && Paired(a) && RollbacksWork([op]) && !op.ReleaseOp?
    ensures Paired(Step(a, op))
  {
    assert op in [op];
    hide AfterExpireWorkspace, AfterEdit, Ids, Sound, Paired;
    match op
    case ExpireOp(n, timestamp, now, f) =>
      if n in a.liveDb {
        ExpireKeepsPairs(a, Handle(n, Live(n), a.liveDb[n]), timestamp, now, f);
      }
    case EditOp(n, e, reserved) =>
      if n in a.deletedDb {
        EditKeepsPairs(a, Handle(n, Deleted(n), a.deletedDb[n]), e, reserved);
      }
  }

  // ----- one run of ws_editdb -----

  /** Entries read at the start of a run, and not handled yet, still agree with their files. */
  predicate StillRead(a: Area, hs: seq<Handle>, i: nat) {
    && (forall j :: i <= j < |hs| ==> ReadsDeleted(a, hs[j]))
    && (forall j, k :: i <= j < k < |hs| ==> hs[j].id != hs[k].id)
  }

  /** A whole run over entries that were all read at its start loses nothing either. */
  lemma {:induction false} EditRunLosesNothing(a: Area, hs: seq<Handle>, es: seq<Edit>, reserved: set<string>, i: nat)
    requires |hs| == |es| && i <= |hs| && Unique(a) && StillRead(a, hs, i)
    ensures var b := AfterEdits(a, hs, es, reserved, false, i).area;
      Unique(b) && NothingLost(a, b)
    decreases |hs| - i
  {
    if i < |hs| {
      var o := AfterEdit(a, hs[i], es[i], reserved, false);
      EditLosesNothing(a, hs[i], es[i], reserved);
      forall j | i < j < |hs|
        ensures ReadsDeleted(o.area, hs[j])
      {
        EditIsLocal(a, hs[i], es[i], reserved, hs[j].id);
      }
      hide AfterEdit, Ids, Sound;
      EditRunLosesNothing(o.area, hs, es, reserved + SetOf(o.result), i + 1);
    }
  }

  lemma EditIsLocal(a: Area, h: Handle, e: Edit, reserved: set<string>, other: string)
    requires ReadsDeleted(a, h) && other in a.deletedDb && other != h.id
    ensures var b := AfterEdit(a, h, e, reserved, false).area;
      other in b.deletedDb && b.deletedDb[other] == a.deletedDb[other]
  {
    hide AfterRename, Ids, PlannedName;
    var (a1, h1) := AfterTimes(a, h, e);
    TimesKeepIds(a, h, e);
    var planned := PlannedName(a1, h1, h.record.times, e, reserved);
    if planned.Some? {
      RenameIsAtomic(a1, h1, planned.value, e.rename);
      assert other in a1.deletedDb - {h.id, planned.value};
    }
  }

  // ----- the name after an edit -----

  /**
   An edit plans a name exactly if it sets a time and so moves the boundary of an entry that was not released,
   to a positive one; the name then carries the first timestamp from the new boundary on at which the search
   ends, within 1000 tries, unless that is the old name.
   */
  lemma EditPlansIff(a: Area, h: Handle, before: Times, e: Edit, reserved: set<string>, base: string, n: nat, t: nat)
    requires SplitExpiredId(h.id) == Some((base, n))
    ensures var expiration := if e.expiration.Some? then e.expiration.value else before.expiration;
      var expired := if e.expired.Some? then e.expired.value else before.expired;
      var planned := BoundaryOf(expiration, expired, Some(n));
      PlannedName(a, h, before, e, reserved) == Some(base + "-" + Decimal(t))
      <==> (&& (e.expiration.Some? || e.expired.Some?) && h.record.times.released <= 1000000000
            && planned != BoundaryOf(before.expiration, before.expired, Some(n)) && 0 < planned
            && FirstEnd(a, h, base, reserved, e.lookupFails, planned, planned + 1000, t)
            && base + "-" + Decimal(t) != h.id)
  {
    var planned := BoundaryOf(Or(e.expiration, before.expiration), Or(e.expired, before.expired), Some(n));
    assert TimestampFromId(h.id) == Some(n) && Stamped(base, t) == base + "-" + Decimal(t);
    hide SplitExpiredId, TimestampFromId, BoundaryOf, UsableId, FirstEnd, Decimal, Stamped;
    if planned > 0 {
      if planned <= t {
        UsableIdIff(a, h, base, planned, planned + MAX_TRIES, reserved, e.lookupFails, t);
      } else {
        NotPassedTwice(a, h, base, planned, planned + MAX_TRIES, reserved, e.lookupFails, t);
        NotFirstEnd(a, h, base, reserved, e.lookupFails, planned, planned + 1000, t);
      }
    }
  }

  lemma NotFirstEnd(a: Area, h: Handle, base: string, reserved: set<string>, fails: set<nat>, ts: nat, end: nat, t: nat)
    requires t < ts
    ensures !FirstEnd(a, h, base, reserved, fails, ts, end, t)
  {
  }

  /** If nothing fails in the rename, entry and directory get the name that was planned. */
  lemma EditRenames(a: Area, h: Handle, e: Edit, reserved: set<string>, base: string, n: nat, t: nat)
    requires ReadsDeleted(a, h) && SplitExpiredId(h.id) == Some((base, n)) && 0 < t < TWO_63
    requires AfterEdit(a, h, e, reserved, false).result == Some(base + "-" + Decimal(t))
    requires e.rename.lookup > 2 && !e.rename.db && !e.rename.directory
    ensures var o, name, space := AfterEdit(a, h, e, reserved, false), base + "-" + Decimal(t), h.record.space;
      && o.entry.id == name && name in o.area.deletedDb && SameWorkspace(o.area.deletedDb[name], a.deletedDb[h.id])
      && h.id !in o.area.deletedDb && (space, h.id) !in o.area.deletedDirs
      && DirAt(o.area, space, name) == DirAt(a, space, h.id)
  {
    var (a1, h1) := AfterTimes(a, h, e);
    var name := Stamped(base, t);
    TimesKeepIds(a, h, e);
    TimesKeepWorkspace(a, h, e);
    StampedSplits(base, t);
    RenameSucceedsIff(a1, h1, name, e.rename);
    SplitsIff(h.id, base, n);
    hide AfterRename, PlannedName, SplitExpiredId, Ids, Decimal, AfterTimes;
    assert PlannedName(a1, h1, h.record.times, e, reserved) == Some(name);
  }

  lemma TimesKeepWorkspace(a: Area, h: Handle, e: Edit)
    requires ReadsDeleted(a, h)
    ensures var (b, h') := AfterTimes(a, h, e);
      h.id in b.deletedDb && SameWorkspace(b.deletedDb[h.id], a.deletedDb[h.id])
      && h'.record.times.released == h.record.times.released
  {
  }

  // ----- retention after an edit -----

  function NewTimes(h: Handle, e: Edit): Times {
    var t := h.record.times;
    Times(Or(e.expiration, t.expiration), Or(e.expired, t.expired), t.released)
  }

  function PlannedBoundary(h: Handle, e: Edit): int {
    BoundaryOf(NewTimes(h, e).expiration, NewTimes(h, e).expired, TimestampFromId(h.id))
  }

  /** After the edit the expirer reads from file and name the planned boundary, or up to 999 seconds later. */
  predicate EditKept(a: Area, h: Handle, e: Edit, reserved: set<string>) {
    var o := AfterEdit(a, h, e, reserved, false);
    o.entry.id in o.area.deletedDb && Kept(PlannedBoundary(h, e), o.area.deletedDb[o.entry.id].times, o.entry.id)
  }

  /**
   For an edit of an entry that was not released, whose writes succeed: whatever fails in the rename, the
   expirer keeps the planned boundary, exactly if the new times are in step with the old name.
   */
  lemma EditStaysInStep(a: Area, h: Handle, e: Edit, reserved: set<string>)
    requires ReadsDeleted(a, h) && a.deletedDb[h.id] == h.record && h.record.times.released <= RELEASED_AFTER
    requires SplitExpiredId(h.id).Some? && (e.expiration.Some? || e.expired.Some?)
    requires !e.firstWriteFails && !e.secondWriteFails && PlannedBoundary(h, e) + MAX_TRIES <= TWO_63
    ensures (forall f: RenameFaults :: EditKept(a, h, e.(rename := f), reserved))
      <==> InStep(NewTimes(h, e), TimestampFromId(h.id).value)
  {
    hide AfterEdit, Kept, InStep, PossibleName, BoundaryOf;
    var t, planned := NewTimes(h, e), PlannedBoundary(h, e);
    forall f: RenameFaults
      ensures EditKept(a, h, e.(rename := f), reserved) <==> Kept(planned, Persisted(t), EditedId(a, h, e, reserved, f))
      ensures PossibleName(h.id, planned, EditedId(a, h, e, reserved, f))
    {
      EditedFile(a, h, e.(rename := f), reserved);
    }
    EditKeepsBoundary(t, h.id);
    KeptUnderOldName(t, h.id);
    FailingLookupKeepsTheName(a, h, e, reserved);
    var f := RenameFaults(0, false, false, false);
    assert EditKept(a, h, e.(rename := f), reserved) <==> Kept(planned, Persisted(t), h.id);
  }

  /** The name of the entry after the edit. */
  function EditedId(a: Area, h: Handle, e: Edit, reserved: set<string>, f: RenameFaults): string {
    AfterEdit(a, h, e.(rename := f), reserved, false).entry.id
  }

  lemma FailingLookupKeepsTheName(a: Area, h: Handle, e: Edit, reserved: set<string>)
    ensures EditedId(a, h, e, reserved, RenameFaults(0, false, false, false)) == h.id
  {
    hide PlannedName, RenameAllowed;
  }

  /** The file and the name after an edit whose writes succeed. */
  lemma EditedFile(a: Area, h: Handle, e: Edit, reserved: set<string>)
    requires ReadsDeleted(a, h) && a.deletedDb[h.id] == h.record && h.record.times.released <= RELEASED_AFTER
    requires SplitExpiredId(h.id).Some? && (e.expiration.Some? || e.expired.Some?)
    requires !e.firstWriteFails && !e.secondWriteFails && PlannedBoundary(h, e) + MAX_TRIES <= TWO_63
    ensures var o := AfterEdit(a, h, e, reserved, false);
      && o.entry.id in o.area.deletedDb
      && o.area.deletedDb[o.entry.id].times == Persisted(NewTimes(h, e))
      && PossibleName(h.id, PlannedBoundary(h, e), o.entry.id)
  {
    hide AfterRename, Ids, BoundaryOf, SplitExpiredId, TimestampFromId, Stamped;
    var (a1, h1) := AfterTimes(a, h, e);
    TimesKeepIds(a, h, e);
    var planned := PlannedName(a1, h1, h.record.times, e, reserved);
    if planned.Some? {
      RenameIsAtomic(a1, h1, planned.value, e.rename);
      var base := SplitExpiredId(h.id).value.0;
      var stamp: nat :| PlannedBoundary(h, e) <= stamp < PlannedBoundary(h, e) + MAX_TRIES
                        && planned.value == Stamped(base, stamp);
      assert TriedName(h.id, PlannedBoundary(h, e), planned.value, stamp);
    }
  }

  /** Whatever becomes of the rename, the file has the times that the edit asked for, and else those it had. */
  lemma EditNotesTheTimes(a: Area, h: Handle, e: Edit, reserved: set<string>)
    requires ReadsDeleted(a, h) && a.deletedDb[h.id] == h.record && h.record.times.released <= RELEASED_AFTER
    requires SplitExpiredId(h.id).Some? && (e.expiration.Some? || e.expired.Some?)
    requires !e.firstWriteFails && !e.secondWriteFails && PlannedBoundary(h, e) + MAX_TRIES <= TWO_63
    ensures var o, t := AfterEdit(a, h, e, reserved, false), h.record.times;
      && o.entry.id in o.area.deletedDb
      && HasTimes(o.area.deletedDb[o.entry.id], if e.expiration.Some? then e.expiration.value else t.expiration,
                  if e.expired.Some? then e.expired.value else t.expired, t.released)
  {
    EditedFile(a, h, e, reserved);
    hide AfterEdit, PossibleName, BoundaryOf, SplitExpiredId;
  }

  // ----- a whole run of ws_editdb -----

  /** An entry as it was read, and an edit of it whose writes work. */
  predicate Editable(a: Area, h: Handle, e: Edit) {
    && ReadsDeleted(a, h) && a.deletedDb[h.id] == h.record && h.record.times.released <= RELEASED_AFTER
    && SplitExpiredId(h.id).Some? && (e.expiration.Some? || e.expired.Some?)
    && !e.firstWriteFails && !e.secondWriteFails && PlannedBoundary(h, e) + MAX_TRIES <= TWO_63
  }

  /** Somewhere in the deleted area is the entry of this workspace, with the times that the edit asked for. */
  predicate Edited(a: Area, h: Handle, e: Edit) {
    exists n :: n in a.deletedDb && EditedAt(a, n, h, e)
  }

  predicate EditedAt(a: Area, n: string, h: Handle, e: Edit)
    requires n in a.deletedDb
  {
    && SameWorkspace(a.deletedDb[n], h.record)
    && HasTimes(a.deletedDb[n], if e.expiration.Some? then e.expiration.value else h.record.times.expiration,
                if e.expired.Some? then e.expired.value else h.record.times.expired, h.record.times.released)
  }

  /** One round edits its entry, and puts it where no other entry was. */
  lemma RoundEdits(a: Area, h: Handle, e: Edit, reserved: set<string>)
    requires Unique(a) && Editable(a, h, e)
    ensures var o := AfterEdit(a, h, e, reserved, false);
      && o.entry.id in o.area.deletedDb && EditedAt(o.area, o.entry.id, h, e)
      && (o.entry.id == h.id || o.entry.id !in a.deletedDb)
  {
    EditNotesTheTimes(a, h, e, reserved);
    RoundKeepsWorkspace(a, h, e, reserved);
    hide AfterEdit, HasTimes;
  }

  lemma RoundKeepsWorkspace(a: Area, h: Handle, e: Edit, reserved: set<string>)
    requires ReadsDeleted(a, h) && a.deletedDb[h.id] == h.record
    ensures var o := AfterEdit(a, h, e, reserved, false);
      && o.entry.id in o.area.deletedDb && SameWorkspace(o.area.deletedDb[o.entry.id], h.record)
      && (o.entry.id == h.id || o.entry.id !in a.deletedDb)
  {
    var (a1, h1) := AfterTimes(a, h, e);
    TimesKeepIds(a, h, e);
    TimesKeepWorkspace(a, h, e);
    TimesKeepNames(a, h, e);
    var planned := PlannedName(a1, h1, h.record.times, e, reserved);
    hide AfterTimes, AfterRename, PlannedName, Ids;
    if planned.Some? {
      RenameIsAtomic(a1, h1, planned.value, e.rename);
    }
  }

  lemma TimesKeepNames(a: Area, h: Handle, e: Edit)
    requires ReadsDeleted(a, h)
    ensures AfterTimes(a, h, e).0.deletedDb.Keys == a.deletedDb.Keys
  {
  }

  /** Later rounds leave an entry alone that is not one of theirs. */
  lemma {:induction false} LaterRoundsKeep(a: Area, hs: seq<Handle>, es: seq<Edit>, reserved: set<string>, i: nat,
                                           n: string)
    requires |hs| == |es| && i <= |hs| && Unique(a) && StillRead(a, hs, i) && n in a.deletedDb
    requires forall j :: i <= j < |hs| ==> hs[j].id != n
    ensures var b := AfterEdits(a, hs, es, reserved, false, i).area;
      n in b.deletedDb && b.deletedDb[n] == a.deletedDb[n]
    decreases |hs| - i
  {
    if i < |hs| {
      var o := AfterEdit(a, hs[i], es[i], reserved, false);
      EditLosesNothing(a, hs[i], es[i], reserved);
      EditIsLocal(a, hs[i], es[i], reserved, n);
      forall j | i < j < |hs|
        ensures ReadsDeleted(o.area, hs[j])
      {
        EditIsLocal(a, hs[i], es[i], reserved, hs[j].id);
      }
      hide AfterEdit, Ids, Sound;
      LaterRoundsKeep(o.area, hs, es, reserved + SetOf(o.result), i + 1, n);
    }
  }

  /** A run over entries that were all read at its start edits every one of them, whatever its renames come to. */
  lemma {:induction false} EditRunNotesTheTimes(a: Area, hs: seq<Handle>, es: seq<Edit>, reserved: set<string>,
                                                i: nat, k: nat)
    requires |hs| == |es| && i <= k < |hs| && Unique(a) && StillRead(a, hs, i) && Editable(a, hs[k], es[k])
    ensures Edited(AfterEdits(a, hs, es, reserved, false, i).area, hs[k], es[k])
    decreases |hs| - i
  {
    var o := AfterEdit(a, hs[i], es[i], reserved, false);
    EditLosesNothing(a, hs[i], es[i], reserved);
    forall j | i < j < |hs|
      ensures ReadsDeleted(o.area, hs[j]) && o.area.deletedDb[hs[j].id] == a.deletedDb[hs[j].id]
    {
      EditIsLocal(a, hs[i], es[i], reserved, hs[j].id);
    }
    if k == i {
      RoundEdits(a, hs[i], es[i], reserved);
    }
    hide AfterEdit, Ids, Sound, EditedAt, PlannedBoundary;
    if k == i {
      LaterRoundsKeep(o.area, hs, es, reserved + SetOf(o.result), i + 1, o.entry.id);
      SameRecordEdited(o.area, AfterEdits(o.area, hs, es, reserved + SetOf(o.result), false, i + 1).area, o.entry.id,
                       hs[k], es[k]);
    } else {
      EditRunNotesTheTimes(o.area, hs, es, reserved + SetOf(o.result), i + 1, k);
    }
  }

  lemma SameRecordEdited(a: Area, b: Area, n: string, h: Handle, e: Edit)
    requires n in a.deletedDb && n in b.deletedDb && a.deletedDb[n] == b.deletedDb[n] && EditedAt(a, n, h, e)
    ensures Edited(b, h, e)
  {
    assert EditedAt(b, n, h, e);
  }
}
