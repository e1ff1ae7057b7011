/**
 One run of the stray cleanup over a filesystem: phase 1 moves directories without an entry to the
 deleted area, phase 3 removes directories there that have no entry. Two guards protect workspaces that
 are just being allocated: a grace time in phase 1, and the start of the run in phase 3.
 Clocks, directory listings, results of lstat and failures of file operations are arbitrary.
 */
module StrayCleanup {
  import opened Integers
  import opened Wrappers
  import opened Names
  import opened Retention
  import opened DeletedArea
  import opened StrayProtocol

  const STRAY_GRACETIME: int := 3600

  /** What the cleanup finds when it turns to one directory: its mtime, two clock readings, and if the move fails. */
  datatype Look = Look(mtime: Option<int>, checkedAt: int, movedAt: nat, fails: bool)

  predicate OldEnough(mtime: int, now: int) {
    !(mtime > now - STRAY_GRACETIME)
  }

  function PathOf(p: Place): string {
    p.0 + "/" + p.1
  }

  /** The directory belongs to an entry, given as pairs of id and path. */
  predicate HasEntry(known: seq<(string, string)>, p: Place) {
    exists i :: 0 <= i < |known| && (known[i].1 == PathOf(p) || known[i].0 == p.1)
  }

  // ----- what is known of the entries -----

  /** What the cleanup notes about each live entry: its id, and its path, or nothing if it could not be read. */
  predicate Snapshot(known: seq<(string, string)>, liveDb: map<string, Record>, ids: seq<string>,
                     unreadable: set<string>)
  {
    |known| == |ids| && forall i :: 0 <= i < |ids| ==>
      && known[i].0 == ids[i]
      && known[i].1 == (if ids[i] in unreadable || ids[i] !in liveDb then ""
                        else liveDb[ids[i]].space + "/" + liveDb[ids[i]].directory)
  }

  method CollectEntries(store: FileStore, ids: seq<string>, unreadable: set<string>)
    returns (known: seq<(string, string)>)
    ensures Snapshot(known, store.liveDb, ids, unreadable)
  {
    known := [];
    for i := 0 to |ids|
      invariant Snapshot(known, store.liveDb, ids[..i], unreadable)
    {
      if ids[i] in unreadable || ids[i] !in store.liveDb {
        known := known + [(ids[i], "")];
      } else {
        var r := store.liveDb[ids[i]];
        known := known + [(ids[i], PathOf((r.space, r.directory)))];
      }
    }
    assert ids[..|ids|] == ids;
  }

  // ----- phase 1 -----

  predicate Moves(known: seq<(string, string)>, p: Place, look: Look) {
    !HasEntry(known, p) && look.mtime.Some? && OldEnough(look.mtime.value, look.checkedAt) && !look.fails
  }

  function MovedTo(p: Place, look: Look): Place {
    (p.0, Stamped(p.1, look.movedAt))
  }

  function AfterMoves(a: Area, found: seq<Place>, looks: seq<Look>, known: seq<(string, string)>, i: nat): Area
    requires i <= |found| == |looks|
  {
    if i == 0 then a else
    var b, p, look := AfterMoves(a, found, looks, known, i - 1), found[i - 1], looks[i - 1];
    if !Moves(known, p, look) || p !in b.liveDirs || !Replaceable(b, MovedTo(p, look)) then b
    else RetireDir(b, p, MovedTo(p, look))
  }

  method FindEntry(known: seq<(string, string)>, p: Place) returns (found: bool)
    ensures found <==> HasEntry(known, p)
  {
    for i := 0 to |known|
      invariant forall j :: 0 <= j < i ==> known[j].1 != PathOf(p) && known[j].0 != p.1
    {
      if known[i].1 == PathOf(p) || known[i].0 == p.1 {
        return true;
      }
    }
    found := false;
  }

  method MoveStrays(store: FileStore, found: seq<Place>, looks: seq<Look>, known: seq<(string, string)>, dryrun: bool)
    requires |found| == |looks|
    modifies store
    ensures store.View() == if dryrun then old(store.View())
                            else AfterMoves(old(store.View()), found, looks, known, |found|)
  {
    for i := 0 to |found|
      invariant store.View() == if dryrun then old(store.View())
                                else AfterMoves(old(store.View()), found, looks, known, i)
    {
      var hasEntry := FindEntry(known, found[i]);
      if !hasEntry && looks[i].mtime.Some? {
        if looks[i].mtime.value > looks[i].checkedAt - STRAY_GRACETIME {
          continue;
        }
        if !dryrun {
          var _ := store.RenameLiveDir(found[i], MovedTo(found[i], looks[i]), looks[i].fails);
        }
      }
    }
  }

  /** As long as a directory is live, nobody else has used a place that carries its name. */
  lemma {:induction false} OwnPlaceUntouched(a: Area, p: Place, t: nat, found: seq<Place>, looks: seq<Look>,
                                             known: seq<(string, string)>, i: nat)
    requires i <= |found| == |looks| && p in AfterMoves(a, found, looks, known, i).liveDirs
    ensures Replaceable(AfterMoves(a, found, looks, known, i), (p.0, Stamped(p.1, t)))
       <==> Replaceable(a, (p.0, Stamped(p.1, t)))
    ensures p in a.liveDirs
  {
    if i > 0 {
      OwnPlaceUntouched(a, p, t, found, looks, known, i - 1);
      var q, look := found[i - 1], looks[i - 1];
      hide Moves, Stamped;
      if q != p && MovedTo(q, look) == (p.0, Stamped(p.1, t)) {
        StampedInjective(q.1, look.movedAt, p.1, t);
      }
    }
  }

  lemma {:induction false} MovesIff(a: Area, p: Place, found: seq<Place>, looks: seq<Look>,
                                    known: seq<(string, string)>, i: nat)
    requires p in a.liveDirs && i <= |found| == |looks|
    ensures p !in AfterMoves(a, found, looks, known, i).liveDirs
      <==> exists k :: 0 <= k < i && found[k] == p && Moves(known, p, looks[k]) && Replaceable(a, MovedTo(p, looks[k]))
  {
    if i > 0 {
      MovesIff(a, p, found, looks, known, i - 1);
      if p in AfterMoves(a, found, looks, known, i - 1).liveDirs {
        OwnPlaceUntouched(a, p, looks[i - 1].movedAt, found, looks, known, i - 1);
      }
      hide Moves, Replaceable, Stamped;
    }
  }

  /** A directory can go: it is an hour old or more, and its rename works, which it does not onto data. */
  predicate CanGo(a: Area, p: Place, look: Look) {
    && look.mtime.Some? && look.mtime.value + 3600 <= look.checkedAt && !look.fails
    && var to := (p.0, p.1 + "-" + Decimal(look.movedAt));
      to in a.deletedDirs ==> a.deletedDirs[to] in a.empties
  }

  /**
   Phase 1 moves a live directory exactly if no entry is known that has its name as id or its path as path,
   and it is listed and can go when the loop comes to it.
   */
  lemma MovedIff(a: Area, p: Place, found: seq<Place>, looks: seq<Look>, known: seq<(string, string)>, i: nat)
    requires p in a.liveDirs && i <= |found| == |looks|
    ensures p !in AfterMoves(a, found, looks, known, i).liveDirs
      <==> && (forall j :: 0 <= j < |known| ==> known[j].0 != p.1 && known[j].1 != p.0 + "/" + p.1)
           && exists k :: 0 <= k < i && found[k] == p && CanGo(a, p, looks[k])
  {
    MovesIff(a, p, found, looks, known, i);
    forall k | 0 <= k < i
      ensures Moves(known, p, looks[k]) && Replaceable(a, MovedTo(p, looks[k]))
         <==> !HasEntry(known, p) && CanGo(a, p, looks[k])
    {
    }
    hide Moves, CanGo, Replaceable, MovedTo;
  }

  lemma {:induction false} SparedIsUnchanged(a: Area, p: Place, found: seq<Place>, looks: seq<Look>,
                                             known: seq<(string, string)>, i: nat)
    requires i <= |found| == |looks| && p in AfterMoves(a, found, looks, known, i).liveDirs
    ensures p in a.liveDirs && AfterMoves(a, found, looks, known, i).liveDirs[p] == a.liveDirs[p]
  {
    if i > 0 {
      SparedIsUnchanged(a, p, found, looks, known, i - 1);
      hide Moves, Replaceable, Stamped;
    }
  }

  /**
   So no directory of a live entry is moved, whatever was listed and whatever clocks say, as long as the entry
   was read or the directory is named like it.
   */
  lemma LiveEntriesAreSpared(a: Area, n: string, found: seq<Place>, looks: seq<Look>, known: seq<(string, string)>,
                             ids: seq<string>, unreadable: set<string>)
    requires |found| == |looks| && Snapshot(known, a.liveDb, ids, unreadable) && n in a.liveDb && n in ids
    requires var p := (a.liveDb[n].space, a.liveDb[n].directory);
      p in a.liveDirs && (n !in unreadable || a.liveDb[n].directory == n)
    ensures var p, b := (a.liveDb[n].space, a.liveDb[n].directory), AfterMoves(a, found, looks, known, |found|);
      p in b.liveDirs && b.liveDirs[p] == a.liveDirs[p]
  {
    var p := (a.liveDb[n].space, a.liveDb[n].directory);
    var j :| 0 <= j < |ids| && ids[j] == n;
    assert known[j].0 == n;
    MovedIff(a, p, found, looks, known, |found|);
    SparedIsUnchanged(a, p, found, looks, known, |found|);
  }

  /** An entry that could not be read does not protect a directory with another name. */
  lemma UnreadableEntryLosesItsDirectory()
    ensures exists a: Area, looks: seq<Look>, known: seq<(string, string)> ::
      var p := ("/ws", "bob-data");
      && a.liveDb.Keys == {"root-data"} && (a.liveDb["root-data"].space, a.liveDb["root-data"].directory) == p
      && p in a.liveDirs && |looks| == 1 && Snapshot(known, a.liveDb, ["root-data"], {"root-data"})
      && p !in AfterMoves(a, [p], looks, known, 1).liveDirs
  {
    hide AfterMoves;
    var p := ("/ws", "bob-data");
    var a := Area(map["root-data" := Record(1, "/ws", "bob-data", Times(9000, 0, 0))], map[], map[p := 1], map[], {});
    var looks, known := [Look(Some(0), 4000, 4000, false)], [("root-data", "")];
    assert "root-data"[0] != "bob-data"[0];
    assert [p][0] == p && CanGo(a, p, looks[0]);
    MovedIff(a, p, [p], looks, known, 1);
    assert a.liveDb.Keys == {"root-data"};
  }

  // ----- phase 3 -----

  predicate Removes(names: seq<string>, runStart: int, p: Place) {
    p.1 !in names && !Deferred(p.1, runStart)
  }

  function AfterRemovals(a: Area, found: seq<Place>, names: seq<string>, runStart: int, fails: set<nat>, i: nat): Area
    requires i <= |found|
  {
    if i == 0 then a else
    var b, p := AfterRemovals(a, found, names, runStart, fails, i - 1), found[i - 1];
    if Removes(names, runStart, p) && i - 1 !in fails then b.(deletedDirs := b.deletedDirs - {p}) else b
  }

  method RemoveStrays(store: FileStore, found: seq<Place>, names: seq<string>, runStart: int, fails: set<nat>,
                      dryrun: bool)
    modifies store
    ensures store.View() == if dryrun then old(store.View())
                            else AfterRemovals(old(store.View()), found, names, runStart, fails, |found|)
  {
    for i := 0 to |found|
      invariant store.View() == if dryrun then old(store.View())
                                else AfterRemovals(old(store.View()), found, names, runStart, fails, i)
    {
      if found[i].1 !in names {
        var plausible, movedAt := TrailingTimestamp(found[i].1, 0);
        if plausible && movedAt >= runStart {
          continue;
        }
        if !dryrun && i !in fails {
          store.deletedDirs := store.deletedDirs - {found[i]};
        }
      }
    }
  }

  lemma {:induction false} RemovesIff(a: Area, p: Place, found: seq<Place>, names: seq<string>, runStart: int,
                                      fails: set<nat>, i: nat)
    requires p in a.deletedDirs && i <= |found|
    ensures p !in AfterRemovals(a, found, names, runStart, fails, i).deletedDirs
      <==> exists k :: 0 <= k < i && found[k] == p && k !in fails && Removes(names, runStart, p)
  {
    if i > 0 {
      RemovesIff(a, p, found, names, runStart, fails, i - 1);
      hide Removes;
    }
  }

  /** The name ends in a time that is plausible and not before the start of the run. */
  ghost predicate Protected(name: string, runStart: int) {
    exists base, t :: SplitExpiredId(name) == Some((base, t)) && 0 < t <= 4102444800 && runStart <= t
  }

  /** Phase 3 removes exactly the listed directories whose name no entry has and no guard defers, if that works. */
  lemma RemovedIff(a: Area, p: Place, found: seq<Place>, names: seq<string>, runStart: int, fails: set<nat>, i: nat)
    requires p in a.deletedDirs && i <= |found|
    ensures p !in AfterRemovals(a, found, names, runStart, fails, i).deletedDirs
      <==> && p.1 !in names && !Protected(p.1, runStart)
           && exists k :: 0 <= k < i && found[k] == p && k !in fails
  {
    RemovesIff(a, p, found, names, runStart, fails, i);
    DeferredIsProtected(p.1, runStart);
    hide Deferred, Protected, AfterRemovals;
  }

  lemma DeferredIsProtected(name: string, runStart: int)
    ensures Deferred(name, runStart) <==> Protected(name, runStart)
  {
    SplitsIff(name, "", 0);
    if Deferred(name, runStart) {
      var (base, t) := SplitExpiredId(name).value;
      assert SplitExpiredId(name) == Some((base, t));
    }
    hide SplitExpiredId;
  }

  // ----- guard 2: what this run moved -----

  /** The timestamp appended by a move reads back, so the guard knows it, exactly if the clock is sane. */
  lemma MoveIsDeferredIff(dir: string, movedAt: nat, runStart: int)
    requires dir != "" && movedAt < TWO_63
    ensures Deferred(Stamped(dir, movedAt), runStart) <==> runStart <= movedAt && 0 < movedAt <= MAX_PLAUSIBLE
  {
    StampedSplits(dir, movedAt);
  }

  /** The clock of a run: it does not go back behind the start, and it is before the year 2100. */
  predicate SaneClock(looks: seq<Look>, runStart: int) {
    forall look <- looks :: runStart <= look.movedAt && 0 < look.movedAt <= MAX_PLAUSIBLE
  }

  /** A directory is where it was, or in the deleted area under its name and a timestamp of this run. */
  ghost predicate Survives(a: Area, p: Place, b: Area, runStart: int)
    requires p in a.liveDirs
  {
    || (p in b.liveDirs && b.liveDirs[p] == a.liveDirs[p])
    || exists t: nat :: MovedAt(a, p, b, t, runStart)
  }

  predicate MovedAt(a: Area, p: Place, b: Area, t: nat, runStart: int)
    requires p in a.liveDirs
  {
    && runStart <= t && 0 < t <= MAX_PLAUSIBLE
    && p !in b.liveDirs
    && (p.0, Stamped(p.1, t)) in b.deletedDirs && b.deletedDirs[(p.0, Stamped(p.1, t))] == a.liveDirs[p]
  }

  lemma {:induction false} MovesSurvive(a: Area, p: Place, found: seq<Place>, looks: seq<Look>,
                                        known: seq<(string, string)>, runStart: int, i: nat)
    requires p in a.liveDirs && i <= |found| == |looks| && SaneClock(looks, runStart)
    ensures Survives(a, p, AfterMoves(a, found, looks, known, i), runStart)
  {
    if i > 0 {
      MovesSurvive(a, p, found, looks, known, runStart, i - 1);
      var b, q, look := AfterMoves(a, found, looks, known, i - 1), found[i - 1], looks[i - 1];
      var c := AfterMoves(a, found, looks, known, i);
      hide Stamped, HasEntry;
      assert look in looks;
      if p in b.liveDirs && p == q && p !in c.liveDirs {
        assert MovedAt(a, p, c, look.movedAt, runStart);
      } else if p !in b.liveDirs {
        var t: nat :| MovedAt(a, p, b, t, runStart);
        if q != p && MovedTo(q, look) == (p.0, Stamped(p.1, t)) {
          StampedInjective(q.1, look.movedAt, p.1, t);
        }
        assert MovedAt(a, p, c, t, runStart);
      }
    }
  }

  lemma {:induction false} RemovalsSpare(a: Area, found: seq<Place>, names: seq<string>, runStart: int,
                                         fails: set<nat>, i: nat)
    requires i <= |found|
    ensures var b := AfterRemovals(a, found, names, runStart, fails, i);
      && b.liveDirs == a.liveDirs
      && forall p :: p in a.deletedDirs && (p.1 in names || Deferred(p.1, runStart)) ==>
           p in b.deletedDirs && b.deletedDirs[p] == a.deletedDirs[p]
  {
    if i > 0 {
      RemovalsSpare(a, found, names, runStart, fails, i - 1);
      hide Deferred;
    }
  }

  /**
   Phase 1 and phase 3 of one run, whatever was listed, known and failed in between: with a clock that
   does not go back and is before 2100, no directory that was live at the start is removed.
   */
  lemma RunRemovesNothingItMoved(a: Area, p: Place, found: seq<Place>, looks: seq<Look>, known: seq<(string, string)>,
                                 deleted: seq<Place>, names: seq<string>, runStart: int, fails: set<nat>)
    requires |found| == |looks| && SaneClock(looks, runStart) && p in a.liveDirs && p.1 != ""
    ensures var b := AfterMoves(a, found, looks, known, |found|);
      Survives(a, p, AfterRemovals(b, deleted, names, runStart, fails, |deleted|), runStart)
  {
    var b := AfterMoves(a, found, looks, known, |found|);
    var c := AfterRemovals(b, deleted, names, runStart, fails, |deleted|);
    MovesSurvive(a, p, found, looks, known, runStart, |found|);
    RemovalsSpare(b, deleted, names, runStart, fails, |deleted|);
    if p !in b.liveDirs {
      var t: nat :| MovedAt(a, p, b, t, runStart);
      MoveIsDeferredIff(p.1, t, runStart);
      assert MovedAt(a, p, c, t, runStart);
    }
  }

  // ----- guard 1: workspaces that are being allocated -----

  /**
   A workspace that phase 1 found but whose entry the snapshot missed: the directory was made, then the
   snapshot was taken, then the entry was written, within w seconds of the directory; the age was
   checked within d seconds of the snapshot.
   */
  predicate Race(made: real, snapshot: real, written: real, checked: real, w: real, d: real) {
    0.0 <= made <= snapshot <= written <= made + w && snapshot <= checked <= snapshot + d
  }

  /** Phase 1 leaves every such workspace alone. Clocks show whole seconds. */
  ghost predicate GraceSuffices(w: real, d: real) {
    forall made, snapshot, written, checked :: Race(made, snapshot, written, checked, w, d) ==>
      !OldEnough(made.Floor, checked.Floor)
  }

  /** The grace time covers an allocation exactly if the two intervals add up to at most 3599 seconds. */
  lemma GraceSufficesIff(w: real, d: real)
    requires w >= 0.0 && d >= 0.0
    ensures GraceSuffices(w, d) <==> w + d <= 3599.0
  {
    if w + d <= 3599.0 {
      forall made, snapshot, written, checked | Race(made, snapshot, written, checked, w, d)
        ensures !OldEnough(made.Floor, checked.Floor)
      {
        assert checked - made <= 3599.0;
      }
    } else {
      // Made late in one second and checked early in another, with total in (3599, 3600].
      var total := if w + d > 3600.0 then 3600.0 else w + d;
      var made := 3600.0 - total;
      var toWrite := if w < total then w else total;
      var snapshot := made + toWrite;
      assert Race(made, snapshot, snapshot, 3600.0, w, d);
      assert made.Floor == 0 && (3600.0).Floor == 3600;
      assert OldEnough(made.Floor, (3600.0).Floor);
    }
  }

  /** So a workspace whose entry gets written in time is not moved, whenever the loop of phase 1 comes to it. */
  lemma AllocationIsNotMoved(a: Area, p: Place, found: seq<Place>, looks: seq<Look>, known: seq<(string, string)>,
                             made: real, snapshot: real, written: real, checked: seq<real>, w: real, d: real)
    requires p in a.liveDirs && |found| == |looks| == |checked| && w >= 0.0 && d >= 0.0 && w + d <= 3599.0
    requires forall k :: 0 <= k < |found| && found[k] == p ==>
      && looks[k].mtime == Some(made.Floor) && looks[k].checkedAt == checked[k].Floor
      && Race(made, snapshot, written, checked[k], w, d)
    ensures p in AfterMoves(a, found, looks, known, |found|).liveDirs
  {
    GraceSufficesIff(w, d);
    MovedIff(a, p, found, looks, known, |found|);
  }
}
