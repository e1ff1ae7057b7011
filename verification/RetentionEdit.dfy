/**
 The main loop of ws_editdb over entries of the deleted area: change the times of each entry, and
 rename entry and directory if that moved the retention boundary. Names planned in one run are
 remembered, so that two entries are never planned for the same name, in a dry run either.
 */
module RetentionEdit {
  import opened Wrappers
  import opened Names
  import opened Retention
  import opened DeletedArea

  /** What the command line asks for one entry, and which file operations fail on the way. */
  datatype Edit = Edit(expiration: Option<int>, expired: Option<int>, firstWriteFails: bool, secondWriteFails: bool,
                       lookupFails: set<nat>, rename: RenameFaults)

  function Or(x: Option<int>, otherwise: int): int {
    if x.Some? then x.value else otherwise
  }

  /** The entry after its two optional writes. */
  function AfterTimes(a: Area, h: Handle, e: Edit): (Area, Handle) {
    var t := h.record.times;
    var r1 := h.record.(times := t.(expiration := Or(e.expiration, t.expiration)));
    var r2 := r1.(times := r1.times.(expired := Or(e.expired, t.expired)));
    var a1 := if e.expiration.Some? then AfterWrite(a, h.path, r1, e.firstWriteFails) else a;
    var a2 := if e.expired.Some? then AfterWrite(a1, h.path, r2, e.secondWriteFails) else a1;
    (a2, h.(record := r2))
  }

  /** The new name for an entry whose times were `before`, if the edit calls for one and one is found. */
  function PlannedName(a: Area, h: Handle, before: Times, e: Edit, reserved: set<string>): (r: Option<string>)
    ensures r.Some? ==> r.value != h.id && r.value !in reserved && !Taken(a, h.record.space, r.value)
  {
    var nameTime := TimestampFromId(h.id);
    if e.expiration.None? && e.expired.None? then None else
    if h.record.times.released > RELEASED_AFTER || nameTime.None? then None else
    var boundary := BoundaryOf(Or(e.expiration, before.expiration), Or(e.expired, before.expired), nameTime);
    if boundary == BoundaryOf(before.expiration, before.expired, nameTime) then None else
    var newId := NewIdFor(a, h, boundary, reserved, e.lookupFails);
    if newId.Success? && newId.value != h.id then Some(newId.value) else None
  }

  /** One round of the loop; the result is the name planned for the entry. */
  function AfterEdit(a: Area, h: Handle, e: Edit, reserved: set<string>, dryrun: bool): (o: Outcome<Option<string>>)
    ensures o.result.Some? ==> o.result.value !in reserved
    ensures dryrun ==> o.area == a && (o.result.Some? ==> !Taken(a, h.record.space, o.result.value))
  {
    var (a1, h1) := if dryrun then (a, h) else AfterTimes(a, h, e);
    var planned := PlannedName(a1, h1, h.record.times, e, reserved);
    if planned.None? || dryrun then Outcome(a1, h1, planned) else
    var o := AfterRename(a1, h1, planned.value, e.rename);
    Outcome(o.area, o.entry, planned)
  }

  /** What the loop leaves: the files, and the names it planned. */
  datatype Edits = Edits(area: Area, names: seq<string>)

  function NamesOf(planned: Option<string>): seq<string> {
    if planned.Some? then [planned.value] else []
  }

  function SetOf(planned: Option<string>): set<string> {
    if planned.Some? then {planned.value} else {}
  }

  /** The result of the rest of the loop, after the names planned before. */
  function After(names: seq<string>, rest: Edits): Edits {
    rest.(names := names + rest.names)
  }

  /** The whole loop, from entry i on: the files it leaves and the names it planned. */
  function AfterEdits(a: Area, hs: seq<Handle>, es: seq<Edit>, reserved: set<string>, dryrun: bool, i: nat)
    : Edits
    requires |hs| == |es| && i <= |hs|
    decreases |hs| - i
  {
    if i == |hs| then Edits(a, []) else
    var o := AfterEdit(a, hs[i], es[i], reserved, dryrun);
    After(NamesOf(o.result), AfterEdits(o.area, hs, es, reserved + SetOf(o.result), dryrun, i + 1))
  }

  /** One round of the loop on an entry object. */
  method EditEntry(store: FileStore, entry: DBEntryV1, e: Edit, reserved: set<string>, dryrun: bool)
    returns (planned: Option<string>)
    modifies store, entry
    ensures Outcome(store.View(), entry.View(), planned)
         == AfterEdit(old(store.View()), old(entry.View()), e, reserved, dryrun)
  {
    hide AfterRename, NewIdFor, BoundaryOf, TimestampFromId;
    var expiration, expired := entry.record.times.expiration, entry.record.times.expired;
    var nameTime := TimestampFromId(entry.id);
    if e.expiration.Some? && !dryrun {
      entry.record := entry.record.(times := entry.record.times.(expiration := e.expiration.value));
      store.WriteDb(entry.dbfilepath, entry.record, e.firstWriteFails);
    }
    if e.expired.Some? && !dryrun {
      entry.record := entry.record.(times := entry.record.times.(expired := e.expired.value));
      store.WriteDb(entry.dbfilepath, entry.record, e.secondWriteFails);
    }
    planned := None;
    if (e.expiration.Some? || e.expired.Some?) && entry.record.times.released <= RELEASED_AFTER && nameTime.Some? {
      var boundary := BoundaryOf(Or(e.expiration, expiration), Or(e.expired, expired), nameTime);
      if boundary != BoundaryOf(expiration, expired, nameTime) {
        var newId := entry.ExpiredIdFor(store, boundary, reserved, e.lookupFails);
        if newId.Success? && newId.value != entry.id {
          planned := Some(newId.value);
          if !dryrun {
            var _ := entry.RenameAsExpired(store, newId.value, e.rename);
          }
        }
      }
    }
  }

  lemma OneRound(names: seq<string>, a: Area, hs: seq<Handle>, es: seq<Edit>, reserved: set<string>, dryrun: bool,
                 i: nat)
    requires |hs| == |es| && i < |hs|
    ensures var o := AfterEdit(a, hs[i], es[i], reserved, dryrun);
      After(names, AfterEdits(a, hs, es, reserved, dryrun, i))
      == After(names + NamesOf(o.result), AfterEdits(o.area, hs, es, reserved + SetOf(o.result), dryrun, i + 1))
  {
    hide AfterEdit;
    var o := AfterEdit(a, hs[i], es[i], reserved, dryrun);
    var rest := AfterEdits(o.area, hs, es, reserved + SetOf(o.result), dryrun, i + 1);
    assert names + (NamesOf(o.result) + rest.names) == names + NamesOf(o.result) + rest.names;
  }

  lemma EmptyRest(a: Area, hs: seq<Handle>, es: seq<Edit>, reserved: set<string>, dryrun: bool)
    requires |hs| == |es|
    ensures AfterEdits(a, hs, es, reserved, dryrun, |hs|) == Edits(a, [])
  {
  }

  /** The loop itself, over entries read beforehand. */
  method EditEntries(store: FileStore, hs: seq<Handle>, es: seq<Edit>, dryrun: bool) returns (names: seq<string>)
    requires |hs| == |es|
    modifies store
    ensures Edits(store.View(), names) == AfterEdits(old(store.View()), hs, es, {}, dryrun, 0)
  {
    hide AfterEdit, AfterEdits, NamesOf;
    var reserved, i := {}, 0;
    names := [];
    ghost var whole := AfterEdits(store.View(), hs, es, {}, dryrun, 0);
    while i < |hs|
      invariant i <= |hs|
      invariant whole == After(names, AfterEdits(store.View(), hs, es, reserved, dryrun, i))
    {
      OneRound(names, store.View(), hs, es, reserved, dryrun, i);
      var entry := new DBEntryV1(hs[i].id, hs[i].path, hs[i].record);
      var planned := EditEntry(store, entry, es[i], reserved, dryrun);
      reserved, names := reserved + SetOf(planned), names + NamesOf(planned);
      i := i + 1;
    }
    EmptyRest(store.View(), hs, es, reserved, dryrun);
  }

  // ----- names chosen in one run -----

  /** Pairwise distinct names, none of them taken already. */
  predicate Fresh(names: seq<string>, taken: set<string>) {
    && (forall j, k :: 0 <= j < k < |names| ==> names[j] != names[k])
    && (forall j :: 0 <= j < |names| ==> names[j] !in taken)
  }

  /** The names planned in one run are pairwise distinct, in a dry run as in a real one. */
  lemma {:induction false} PlannedNamesDiffer(a: Area, hs: seq<Handle>, es: seq<Edit>, reserved: set<string>,
                                              dryrun: bool, i: nat)
    requires |hs| == |es| && i <= |hs|
    ensures Fresh(AfterEdits(a, hs, es, reserved, dryrun, i).names, reserved)
    decreases |hs| - i
  {
    hide AfterEdit;
    if i < |hs| {
      var o := AfterEdit(a, hs[i], es[i], reserved, dryrun);
      PlannedNamesDiffer(o.area, hs, es, reserved + SetOf(o.result), dryrun, i + 1);
    }
  }

  /** A dry run changes nothing, and plans only names that are free for one of its entries. */
  lemma {:induction false} DryRunOnlyPlans(a: Area, hs: seq<Handle>, es: seq<Edit>, reserved: set<string>, i: nat)
    requires |hs| == |es| && i <= |hs|
    ensures var edits := AfterEdits(a, hs, es, reserved, true, i);
      edits.area == a && forall j :: 0 <= j < |edits.names| ==>
        exists k :: i <= k < |hs| && !Taken(a, hs[k].record.space, edits.names[j])
    decreases |hs| - i
  {
    hide AfterEdit, Taken;
    if i < |hs| {
      var o := AfterEdit(a, hs[i], es[i], reserved, true);
      DryRunOnlyPlans(a, hs, es, reserved + SetOf(o.result), i + 1);
      var names := AfterEdits(a, hs, es, reserved, true, i).names;
      var first, later := NamesOf(o.result), AfterEdits(a, hs, es, reserved + SetOf(o.result), true, i + 1).names;
      forall j | 0 <= j < |names|
        ensures exists k :: i <= k < |hs| && !Taken(a, hs[k].record.space, names[j])
      {
        assert names[j] == if j < |first| then first[j] else later[j - |first|];
      }
    }
  }
}
