/**
 Two parts of the expirer in a row: a workspace is expired, and a later run of the stray cleanup comes to
 its directory. The first names the directory after the directory, the second looks for entries by name, so
 between them they remove the data of workspaces whose two names differ.
 */
module ExpireThenCleanup {
  import opened Integers
  import opened Wrappers
  import opened Names
  import opened Retention
  import opened DeletedArea
  import opened DeletedAreaSafety
  import opened StrayProtocol
  import opened StrayCleanup

  /** Nowhere is there a directory with this data. */
  predicate Gone(a: Area, data: nat) {
    data !in a.liveDirs.Values && data !in a.deletedDirs.Values
  }

  /** The names of the deleted entries, as the cleanup reads them. */
  ghost predicate ReadFrom(names: seq<string>, a: Area) {
    forall n :: n in names <==> n in a.deletedDb
  }

  /** The cleanup comes to this directory, and is able to remove it. */
  predicate Comes(found: seq<Place>, fails: set<nat>, p: Place) {
    exists k :: 0 <= k < |found| && found[k] == p && k !in fails
  }

  /** Where the directory of an expired workspace is afterwards. */
  lemma DirectoryIsAt(a: Area, h: Handle, timestamp: string, now: int, f: ExpireFaults, t: nat)
    requires Unique(a) && ReadsLive(a, h) && (h.record.space, h.record.directory) in a.liveDirs
    requires EntryGoes(a, h, timestamp, f) == Some(t)
    ensures var b, from, to := AfterExpireWorkspace(a, h, timestamp, now, f), (h.record.space, h.record.directory),
                               DirectoryTarget(h, t);
      && b.deletedDb.Keys == a.deletedDb.Keys + {Stamped(h.id, t)}
      && (if f.directory || !Replaceable(a, to) then b.liveDirs == a.liveDirs && b.deletedDirs == a.deletedDirs
          else b.liveDirs == a.liveDirs - {from} && b.deletedDirs == a.deletedDirs[to := a.liveDirs[from]])
  {
    EntryGoesIff(a, h, timestamp, now, f);
    ExpiredKeys(a, h, timestamp, now, f, t);
    hide AfterExpire, EntryGoes, Stamped, Unique;
  }

  lemma ExpiredKeys(a: Area, h: Handle, timestamp: string, now: int, f: ExpireFaults, t: nat)
    requires ReadsLive(a, h) && EntryGoes(a, h, timestamp, f) == Some(t)
    ensures AfterExpire(a, h, timestamp, now, f).area.deletedDb.Keys == a.deletedDb.Keys + {Stamped(h.id, t)}
  {
    hide FreeTime, ExpireTime, Stamped;
  }

  lemma RemovalsOnlyRemove(a: Area, found: seq<Place>, names: seq<string>, runStart: int, fails: set<nat>, i: nat)
    requires i <= |found|
    ensures var b := AfterRemovals(a, found, names, runStart, fails, i);
      && b.liveDirs == a.liveDirs && b.liveDb == a.liveDb && b.deletedDb == a.deletedDb
      && forall p :: p in b.deletedDirs ==> p in a.deletedDirs && b.deletedDirs[p] == a.deletedDirs[p]
  {
    if i > 0 {
      RemovalsOnlyRemove(a, found, names, runStart, fails, i - 1);
      hide Removes;
    }
  }

  /**
   A workspace that was expired under a timestamp keeps its entry through a later cleanup, and loses its data
   in it exactly if the directory was moved, the cleanup comes to it, its name is not that of the entry nor of
   any other, and its timestamp is before the start of the run, or implausible.
   */
  lemma ExpiredDataIsLostIff(a: Area, h: Handle, timestamp: string, now: int, f: ExpireFaults, t: nat,
                             found: seq<Place>, names: seq<string>, runStart: int, fails: set<nat>)
    requires Unique(a) && ReadsLive(a, h) && (h.record.space, h.record.directory) in a.liveDirs
    requires EntryGoes(a, h, timestamp, f) == Some(t) && t < TWO_63 && h.record.directory != ""
    requires ReadFrom(names, AfterExpireWorkspace(a, h, timestamp, now, f))
    ensures var b, to := AfterExpireWorkspace(a, h, timestamp, now, f), DirectoryTarget(h, t);
      var c := AfterRemovals(b, found, names, runStart, fails, |found|);
      && Stamped(h.id, t) in c.deletedDb
      && (Gone(c, a.liveDirs[(h.record.space, h.record.directory)])
          <==> (&& !f.directory && Replaceable(a, to) && Comes(found, fails, to)
                && h.record.directory != h.id && to.1 !in a.deletedDb
                && !(runStart <= t && 0 < t <= MAX_PLAUSIBLE)))
  {
    var b, from, to := AfterExpireWorkspace(a, h, timestamp, now, f), (h.record.space, h.record.directory),
                       DirectoryTarget(h, t);
    var c, data := AfterRemovals(b, found, names, runStart, fails, |found|), a.liveDirs[from];
    DirectoryIsAt(a, h, timestamp, now, f, t);
    RemovalsOnlyRemove(b, found, names, runStart, fails, |found|);
    hide AfterExpireWorkspace, EntryGoes, Stamped, Deferred, AfterRemovals, Ids;
    assert Stamped(h.id, t) in b.deletedDb.Keys;
    if f.directory || !Replaceable(a, to) {
      assert c.liveDirs[from] == data;
    } else {
      RemovesIff(b, to, found, names, runStart, fails, |found|);
      MoveIsDeferredIff(h.record.directory, t, runStart);
      if Stamped(h.id, t) == to.1 {
        StampedInjective(h.id, t, h.record.directory, t);
      }
      assert Removes(names, runStart, to) <==>
             h.record.directory != h.id && to.1 !in a.deletedDb && !(runStart <= t && 0 < t <= MAX_PLAUSIBLE);
      DataIsOnlyThere(a, b, c, from, to);
      hide Removes, Unique;
    }
  }

  /** Data that has moved is gone exactly if it is no longer where it was moved to. */
  lemma DataIsOnlyThere(a: Area, b: Area, c: Area, from: Place, to: Place)
    requires Sound(a.liveDirs, a.deletedDirs) && from in a.liveDirs
    requires b.liveDirs == a.liveDirs - {from} && b.deletedDirs == a.deletedDirs[to := a.liveDirs[from]]
    requires c.liveDirs == b.liveDirs
    requires forall p :: p in c.deletedDirs ==> p in b.deletedDirs && c.deletedDirs[p] == b.deletedDirs[p]
    ensures Gone(c, a.liveDirs[from]) <==> to !in c.deletedDirs
  {
    var data := a.liveDirs[from];
    assert data in a.liveDirs.Values;
    if to in c.deletedDirs {
      assert c.deletedDirs[to] == data;
    }
    forall p | p in c.deletedDirs && p != to
      ensures c.deletedDirs[p] != data
    {
      assert a.deletedDirs[p] in a.deletedDirs.Values;
    }
  }

  const ROOTS := Record(1, "/ws", "bob-data", Times(5, 0, 0))
  const AT_START := Area(map["root-data" := ROOTS], map[], map[("/ws", "bob-data") := 1], map[], {})
  const ENTRY := Handle("root-data", Live("root-data"), ROOTS)
  const NO_EXPIRE_FAULTS := ExpireFaults(MAX_TRIES, false, false, false)

  lemma ExpiresAtSeven()
    ensures Unique(AT_START) && ReadsLive(AT_START, ENTRY)
    ensures EntryGoes(AT_START, ENTRY, "7", NO_EXPIRE_FAULTS) == Some(7)
  {
    SevenIsATime();
    hide Stamped, ExpireTime;
    assert FirstFree(AT_START, "/ws", "root-data", 7, 7 + MAX_TRIES) == Some(7);
  }

  /** It happens to what root allocates for bob: expired at second 7, and removed by a run that starts at 8. */
  lemma DataForSomebodyElseIsLost()
    ensures ENTRY.id == "root-data" && ENTRY.record.directory == "bob-data" && !Gone(AT_START, 1)
    ensures exists found: seq<Place>, names: seq<string> ::
      var b := AfterExpireWorkspace(AT_START, ENTRY, "7", 7, NO_EXPIRE_FAULTS);
      && ReadFrom(names, b) && Stamped("root-data", 7) in b.deletedDb
      && Gone(AfterRemovals(b, found, names, 8, {}, |found|), 1)
  {
    ExpiresAtSeven();
    hide Stamped, AfterExpireWorkspace, AfterRemovals, EntryGoes, ReadsLive, Unique;
    assert AT_START.liveDirs[("/ws", "bob-data")] == 1;
    DirectoryIsAt(AT_START, ENTRY, "7", 7, NO_EXPIRE_FAULTS, 7);
    var b, to := AfterExpireWorkspace(AT_START, ENTRY, "7", 7, NO_EXPIRE_FAULTS), DirectoryTarget(ENTRY, 7);
    assert Stamped("root-data", 7) in b.deletedDb.Keys;
    var found, names := [to], [Stamped("root-data", 7)];
    assert found[0] == to;
    ExpiredDataIsLostIff(AT_START, ENTRY, "7", 7, NO_EXPIRE_FAULTS, 7, found, names, 8, {});
  }
}
