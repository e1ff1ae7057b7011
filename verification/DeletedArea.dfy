/**
 The deleted area of a workspace filesystem. Expiring moves the database entry and then the
 directory of a workspace there under "<id>-<timestamp>"; ws_editdb renames both again when their
 retention changes. Every file operation may fail. As in the system call, a rename replaces an existing
 file or an empty directory and fails on a directory that holds something, so that no entry is
 overwritten is a property of the callers.
 */
module DeletedArea {
  import opened Wrappers
  import opened Names
  import opened Retention

  /** The content of a database entry; `serial` is the identity of the workspace it belongs to. */
  datatype Record = Record(serial: nat, space: string, directory: string, times: Times)

  /** A directory: the space it is in and its name there. */
  type Place = (string, string)

  /**
   Database entries by name, and directories by place; a directory holds the data of one workspace, or
   is one of those that are empty.
   */
  datatype Area = Area(
    liveDb: map<string, Record>,
    deletedDb: map<string, Record>,
    liveDirs: map<Place, nat>,
    deletedDirs: map<Place, nat>,
    empties: set<nat>)

  datatype DbPath = Live(name: string) | Deleted(name: string)

  /** The state of an entry object: its id, where it believes its file to be, and its fields. */
  datatype Handle = Handle(id: string, path: DbPath, record: Record)

  /** What an operation leaves behind: the files, the state of the entry object, and its result. */
  datatype Outcome<T> = Outcome(area: Area, entry: Handle, result: T)

  datatype Error = BadTimestamp | BadName | Released | LookupFailed | NameExists | NoFreeName | RenameFailed
                 | RolledBack | RollbackFailed

  // ----- file operations -----

  predicate HasDb(a: Area, p: DbPath) {
    match p case Live(n) => n in a.liveDb case Deleted(n) => n in a.deletedDb
  }

  function GetDb(a: Area, p: DbPath): Record
    requires HasDb(a, p)
  {
    match p case Live(n) => a.liveDb[n] case Deleted(n) => a.deletedDb[n]
  }

  function PutDb(a: Area, p: DbPath, r: Record): Area {
    match p
    case Live(n) => a.(liveDb := a.liveDb[n := r])
    case Deleted(n) => a.(deletedDb := a.deletedDb[n := r])
  }

  function DropDb(a: Area, p: DbPath): Area {
    match p
    case Live(n) => a.(liveDb := a.liveDb - {n})
    case Deleted(n) => a.(deletedDb := a.deletedDb - {n})
  }

  function MoveDb(a: Area, from: DbPath, to: DbPath): Area
    requires HasDb(a, from)
  {
    PutDb(DropDb(a, from), to, GetDb(a, from))
  }

  /** A directory can be renamed to a place where there is none, or an empty one. */
  predicate Replaceable(a: Area, to: Place) {
    to in a.deletedDirs ==> a.deletedDirs[to] in a.empties
  }

  function RetireDir(a: Area, from: Place, to: Place): Area
    requires from in a.liveDirs
  {
    a.(liveDirs := a.liveDirs - {from}, deletedDirs := a.deletedDirs[to := a.liveDirs[from]])
  }

  function MoveDeletedDir(a: Area, from: Place, to: Place): Area
    requires from in a.deletedDirs
  {
    a.(deletedDirs := (a.deletedDirs - {from})[to := a.deletedDirs[from]])
  }

  /** What reading an entry back gives. */
  function Written(r: Record): Record {
    r.(times := Persisted(r.times))
  }

  function AfterWrite(a: Area, p: DbPath, r: Record, fails: bool): Area {
    if fails then a else PutDb(a, p, Written(r))
  }

  /** A name of the deleted area that is in use for an entry, or for a directory of that space. */
  predicate Taken(a: Area, space: string, name: string) {
    name in a.deletedDb || (space, name) in a.deletedDirs
  }

  /** The files: four directories of names. */
  class FileStore {
    var liveDb: map<string, Record>
    var deletedDb: map<string, Record>
    var liveDirs: map<Place, nat>
    var deletedDirs: map<Place, nat>
    var empties: set<nat>

    function View(): Area
      reads this
    {
      Area(liveDb, deletedDb, liveDirs, deletedDirs, empties)
    }

    method Store(p: DbPath, r: Record)
      modifies this
      ensures View() == PutDb(old(View()), p, r)
    {
      match p
      case Live(n) => liveDb := liveDb[n := r];
      case Deleted(n) => deletedDb := deletedDb[n := r];
    }

    /** writeEntry: replaces the file, or only complains. */
    method WriteDb(p: DbPath, r: Record, fails: bool)
      modifies this
      ensures View() == AfterWrite(old(View()), p, r, fails)
    {
      if !fails {
        Store(p, Written(r));
      }
    }

    method RenameDb(from: DbPath, to: DbPath, fails: bool) returns (ok: bool)
      modifies this
      ensures ok <==> !fails && HasDb(old(View()), from)
      ensures View() == if ok then MoveDb(old(View()), from, to) else old(View())
    {
      if fails || !HasDb(View(), from) {
        return false;
      }
      var r := GetDb(View(), from);
      match from {
        case Live(n) => liveDb := liveDb - {n};
        case Deleted(n) => deletedDb := deletedDb - {n};
      }
      Store(to, r);
      ok := true;
    }

    method RenameLiveDir(from: Place, to: Place, fails: bool) returns (ok: bool)
      modifies this
      ensures ok <==> !fails && from in old(liveDirs) && Replaceable(old(View()), to)
      ensures View() == if ok then RetireDir(old(View()), from, to) else old(View())
    {
      ok := !fails && from in liveDirs && Replaceable(View(), to);
      if ok {
        deletedDirs := deletedDirs[to := liveDirs[from]];
        liveDirs := liveDirs - {from};
      }
    }

    method RenameDeletedDir(from: Place, to: Place, fails: bool) returns (ok: bool)
      modifies this
      ensures ok <==> !fails && from in old(deletedDirs) && Replaceable(old(View()), to)
      ensures View() == if ok then MoveDeletedDir(old(View()), from, to) else old(View())
    {
      ok := !fails && from in deletedDirs && Replaceable(View(), to);
      if ok {
        deletedDirs := (deletedDirs - {from})[to := deletedDirs[from]];
      }
    }
  }

  // ----- expire -----

  /** Which file operations of an expire fail: the lookup of the given try, the write, the renames. */
  datatype ExpireFaults = ExpireFaults(lookup: nat, write: bool, rename: bool, directory: bool)

  /** The least timestamp of [ts, end) whose name is free in both parts of the deleted area. */
  function FirstFree(a: Area, space: string, base: string, ts: nat, end: nat): (r: Option<nat>)
    ensures r.Some? ==> ts <= r.value < end && !Taken(a, space, Stamped(base, r.value))
    ensures forall t :: ts <= t < (if r.Some? then r.value else end) ==> Taken(a, space, Stamped(base, t))
    decreases end - ts
  {
    if ts >= end then None
    else if !Taken(a, space, Stamped(base, ts)) then Some(ts)
    else FirstFree(a, space, base, ts + 1, end)
  }

  /** std::stol on the timestamp given to expire: digits only, and in range. */
  function ExpireTime(timestamp: string): Option<nat> {
    if timestamp == "" || !AllDigits(timestamp) then None else ParseDigits(timestamp)
  }

  /** The search loop of expire; the lookup of one try may fail. */
  function FreeTime(a: Area, space: string, base: string, ts: nat, failAt: nat): Result<nat, Error> {
    match FirstFree(a, space, base, ts, ts + MAX_TRIES)
    case None => Failure(if failAt < MAX_TRIES then LookupFailed else NoFreeName)
    case Some(t) => if failAt <= t - ts then Failure(LookupFailed) else Success(t)
  }

  /** DBEntryV1::expire on values; the result is the timestamp that was used. */
  function AfterExpire(a: Area, h: Handle, timestamp: string, now: int, f: ExpireFaults): Outcome<Result<nat, Error>> {
    match ExpireTime(timestamp)
    case None => Outcome(a, h, Failure(BadTimestamp))
    case Some(ts) =>
      match FreeTime(a, h.record.space, h.id, ts, f.lookup)
      case Failure(e) => Outcome(a, h, Failure(e))
      case Success(t) => MarkAndMove(a, h, t, now, f)
  }

  /** The second half of expire: note the time in the entry, then rename its file. */
  function MarkAndMove(a: Area, h: Handle, ts: nat, now: int, f: ExpireFaults): Outcome<Result<nat, Error>> {
    var r := h.record.(times := h.record.times.(expired := now));
    var a1 := AfterWrite(a, h.path, r, f.write);
    var target := Deleted(Stamped(h.id, ts));
    if f.rename || !HasDb(a1, h.path) then Outcome(a1, h.(record := r), Failure(RenameFailed))
    else Outcome(MoveDb(a1, h.path, target), h.(path := target, record := r), Success(ts))
  }

  /** One entry of the expirer's loop: the entry first, then the directory under the same timestamp. */
  function AfterExpireWorkspace(a: Area, h: Handle, timestamp: string, now: int, f: ExpireFaults): Area {
    var o := AfterExpire(a, h, timestamp, now, f);
    var from := (h.record.space, h.record.directory);
    if o.result.Failure? then o.area else
    var to := (h.record.space, Stamped(h.record.directory, o.result.value));
    if f.directory || from !in o.area.liveDirs || !Replaceable(o.area, to) then o.area else RetireDir(o.area, from, to)
  }

  // ----- release -----

  datatype ReleaseFaults = ReleaseFaults(write: bool, lookup: bool, rename: bool, directory: bool)

  /** DBEntryV1::release on values: on a collision the timestamp is bumped once, and not looked up again. */
  function AfterRelease(a: Area, h: Handle, ts: nat, now: int, f: ReleaseFaults): Outcome<Result<nat, Error>> {
    var r := h.record.(times := h.record.times.(released := now));
    var a1, h1 := AfterWrite(a, h.path, r, f.write), h.(record := r);
    if f.lookup then Outcome(a1, h1, Failure(LookupFailed)) else
    var used := if Stamped(h.id, ts) in a1.deletedDb then ts + 1 else ts;
    var target := Deleted(Stamped(h.id, used));
    if f.rename || !HasDb(a1, h.path) then Outcome(a1, h1, Failure(RenameFailed))
    else Outcome(MoveDb(a1, h.path, target), h1.(path := target), Success(used))
  }

  /** ws_release: the entry first, then the directory under the name the entry got. */
  function AfterReleaseWorkspace(a: Area, h: Handle, ts: nat, now: int, f: ReleaseFaults): Area {
    var o := AfterRelease(a, h, ts, now, f);
    var from := (h.record.space, h.record.directory);
    if o.result.Failure? then o.area else
    var to := (h.record.space, Stamped(h.id, o.result.value));
    if f.directory || from !in o.area.liveDirs || !Replaceable(o.area, to) then o.area else RetireDir(o.area, from, to)
  }

  // ----- ws_editdb -----

  /** Which file operations of a rename fail: one of its lookups, the renames, the roll back. */
  datatype RenameFaults = RenameFaults(lookup: nat, db: bool, directory: bool, rollback: bool)

  /** A name that the search for a new one passes over. */
  predicate Unusable(a: Area, h: Handle, name: string, reserved: set<string>) {
    name != h.id && (name in reserved || Taken(a, h.record.space, name))
  }

  /** The loop of expiredIdFor, from timestamp ts on. */
  function UsableId(a: Area, h: Handle, base: string, ts: nat, end: nat, reserved: set<string>, fails: set<nat>)
    : (r: Result<string, Error>)
    ensures r.Success? ==> exists t ::
              && ts <= t < end && r.value == Stamped(base, t)
              && forall u :: ts <= u < t ==> Unusable(a, h, Stamped(base, u), reserved)
    ensures r.Success? && r.value != h.id ==> r.value !in reserved && !Taken(a, h.record.space, r.value)
    decreases end - ts
  {
    if ts >= end then Failure(NoFreeName) else
    var candidate := Stamped(base, ts);
    if candidate == h.id then Success(h.id)
    else if candidate in reserved then UsableId(a, h, base, ts + 1, end, reserved, fails)
    else if ts in fails then Failure(LookupFailed)
    else if Taken(a, h.record.space, candidate) then UsableId(a, h, base, ts + 1, end, reserved, fails)
    else Success(candidate)
  }

  lemma NextTry(a: Area, h: Handle, base: string, ts: nat, end: nat, reserved: set<string>, fails: set<nat>)
    requires ts < end
    ensures var id, r := Stamped(base, ts), UsableId(a, h, base, ts, end, reserved, fails);
      && (id == h.id ==> r == Success(id))
      && (id != h.id && id !in reserved && ts in fails ==> r == Failure(LookupFailed))
      && (id != h.id && id !in reserved && ts !in fails && !Taken(a, h.record.space, id) ==> r == Success(id))
      && (id != h.id && (id in reserved || (ts !in fails && Taken(a, h.record.space, id)))
          ==> r == UsableId(a, h, base, ts + 1, end, reserved, fails))
  {
  }

  lemma NoTryLeft(a: Area, h: Handle, base: string, end: nat, reserved: set<string>, fails: set<nat>)
    ensures UsableId(a, h, base, end, end, reserved, fails) == Failure(NoFreeName)
  {
  }

  /** DBEntryV1::expiredIdFor on values. */
  function NewIdFor(a: Area, h: Handle, boundary: int, reserved: set<string>, fails: set<nat>): Result<string, Error> {
    match SplitExpiredId(h.id)
    case None => Failure(BadName)
    case Some((base, _)) =>
      if boundary <= 0 then Failure(BadName)
      else UsableId(a, h, base, boundary, boundary + MAX_TRIES, reserved, fails)
  }

  /** What renameAsExpired demands of the names before it touches anything. */
  predicate RenameAllowed(id: string, newId: string) {
    && SplitExpiredId(id).Some? && SplitExpiredId(newId).Some?
    && SplitExpiredId(newId).value.0 == SplitExpiredId(id).value.0 && SplitExpiredId(newId).value.1 > 0
  }

  /** DBEntryV1::renameAsExpired on values; the result is the error, if any. */
  function AfterRename(a: Area, h: Handle, newId: string, f: RenameFaults): Outcome<Option<Error>> {
    if h.record.times.released > RELEASED_AFTER then Outcome(a, h, Some(Released))
    else if !RenameAllowed(h.id, newId) then Outcome(a, h, Some(BadName))
    else if newId == h.id then Outcome(a, h, None)
    else if f.lookup == 0 then Outcome(a, h, Some(LookupFailed))
    else if newId in a.deletedDb then Outcome(a, h, Some(NameExists))
    else if f.lookup == 1 then Outcome(a, h, Some(LookupFailed))
    else if (h.record.space, newId) in a.deletedDirs then Outcome(a, h, Some(NameExists))
    else if f.lookup == 2 then Outcome(a, h, Some(LookupFailed))
    else if f.db || !HasDb(a, h.path) then Outcome(a, h, Some(RenameFailed))
    else MoveBoth(a, h, newId, f)
  }

  /** The second half of renameAsExpired, once the checks have passed. */
  function MoveBoth(a: Area, h: Handle, newId: string, f: RenameFaults): Outcome<Option<Error>>
    requires HasDb(a, h.path)
  {
    var from, to := (h.record.space, h.id), (h.record.space, newId);
    var a1, h1 := MoveDb(a, h.path, Deleted(newId)), h.(id := newId, path := Deleted(newId));
    if from !in a.deletedDirs then Outcome(a1, h1, None)
    else if !f.directory then Outcome(MoveDeletedDir(a1, from, to), h1, None)
    else if f.rollback then Outcome(a1, h1, Some(RollbackFailed))
    else Outcome(MoveDb(a1, Deleted(newId), h.path), h, Some(RolledBack))
  }

  // ----- the entry object -----

  class DBEntryV1 {
    var id: string
    var dbfilepath: DbPath
    var record: Record

    function View(): Handle
      reads this
    {
      Handle(id, dbfilepath, record)
    }

    constructor (id: string, path: DbPath, record: Record)
      ensures View() == Handle(id, path, record)
    {
      this.id, dbfilepath, this.record := id, path, record;
    }

    method FreeTimestamp(store: FileStore, start: nat, failAt: nat) returns (free: Result<nat, Error>)
      ensures free == FreeTime(store.View(), record.space, id, start, failAt)
    {
      var area, ts, end := store.View(), start, start + MAX_TRIES;
      while ts < end
        invariant start <= ts <= end && ts - start <= failAt
        invariant FirstFree(area, record.space, id, start, end) == FirstFree(area, record.space, id, ts, end)
      {
        hide Taken;
        if ts - start == failAt {
          return Failure(LookupFailed);
        }
        if !Taken(area, record.space, Stamped(id, ts)) {
          return Success(ts);
        }
        ts := ts + 1;
      }
      free := Failure(NoFreeName);
    }

    method Expire(store: FileStore, timestamp: string, now: int, f: ExpireFaults) returns (used: Result<nat, Error>)
      modifies this, store
      ensures Outcome(store.View(), View(), used) == AfterExpire(old(store.View()), old(View()), timestamp, now, f)
    {
      if timestamp == "" || !AllDigits(timestamp) {
        return Failure(BadTimestamp);
      }
      var parsed := ParseDigits(timestamp);
      if parsed.None? {
        return Failure(BadTimestamp);
      }
      var free := FreeTimestamp(store, parsed.value, f.lookup);
      if free.Failure? {
        return free;
      }
      record := record.(times := record.times.(expired := now));
      store.WriteDb(dbfilepath, record, f.write);
      var target := Deleted(Stamped(id, free.value));
      var ok := store.RenameDb(dbfilepath, target, f.rename);
      if !ok {
        return Failure(RenameFailed);
      }
      dbfilepath := target;
      used := free;
    }

    method Release(store: FileStore, timestamp: nat, now: int, f: ReleaseFaults) returns (used: Result<nat, Error>)
      modifies this, store
      ensures Outcome(store.View(), View(), used) == AfterRelease(old(store.View()), old(View()), timestamp, now, f)
    {
      var ts := timestamp;
      record := record.(times := record.times.(released := now));
      store.WriteDb(dbfilepath, record, f.write);
      if f.lookup {
        return Failure(LookupFailed);
      }
      var target := Deleted(Stamped(id, ts));
      if HasDb(store.View(), target) {
        ts := ts + 1;
        target := Deleted(Stamped(id, ts));
      }
      var ok := store.RenameDb(dbfilepath, target, f.rename);
      if !ok {
        return Failure(RenameFailed);
      }
      dbfilepath := target;
      used := Success(ts);
    }

    method ExpiredIdFor(store: FileStore, boundary: int, reserved: set<string>, fails: set<nat>)
      returns (newId: Result<string, Error>)
      ensures newId == NewIdFor(store.View(), View(), boundary, reserved, fails)
    {
      var split := SplitExpiredId(id);
      if split.None? || boundary <= 0 {
        return Failure(BadName);
      }
      var area, entry, base, ts, end := store.View(), View(), split.value.0, boundary, boundary + MAX_TRIES;
      ghost var usable := NewIdFor(area, entry, boundary, reserved, fails);
      hide Taken, Stamped, UsableId, NewIdFor;
      while ts < end
        invariant boundary <= ts <= end && usable == UsableId(area, entry, base, ts, end, reserved, fails)
      {
        NextTry(area, entry, base, ts, end, reserved, fails);
        var candidate := Stamped(base, ts);
        if candidate == id {
          return Success(id);
        }
        if candidate !in reserved {
          if ts in fails {
            return Failure(LookupFailed);
          }
          if !Taken(area, record.space, candidate) {
            return Success(candidate);
          }
        }
        ts := ts + 1;
      }
      NoTryLeft(area, entry, base, end, reserved, fails);
      newId := Failure(NoFreeName);
    }

    method RenameAsExpired(store: FileStore, newId: string, f: RenameFaults) returns (error: Option<Error>)
      modifies this, store
      ensures Outcome(store.View(), View(), error) == AfterRename(old(store.View()), old(View()), newId, f)
    {
      if record.times.released > RELEASED_AFTER {
        return Some(Released);
      }
      if !RenameAllowed(id, newId) {
        return Some(BadName);
      }
      if newId == id {
        return None;
      }
      var dbFrom, dbTo := dbfilepath, Deleted(newId);
      var wsFrom, wsTo := (record.space, id), (record.space, newId);
      if f.lookup == 0 {
        return Some(LookupFailed);
      }
      if HasDb(store.View(), dbTo) {
        return Some(NameExists);
      }
      if f.lookup == 1 {
        return Some(LookupFailed);
      }
      if wsTo in store.deletedDirs {
        return Some(NameExists);
      }
      if f.lookup == 2 {
        return Some(LookupFailed);
      }
      var wsPresent := wsFrom in store.deletedDirs;
      var ok := store.RenameDb(dbFrom, dbTo, f.db);
      if !ok {
        return Some(RenameFailed);
      }
      var oldId := id;
      dbfilepath, id := dbTo, newId;
      if wsPresent {
        ok := store.RenameDeletedDir(wsFrom, wsTo, f.directory);
        if !ok {
          ok := store.RenameDb(dbTo, dbFrom, f.rollback);
          if !ok {
            return Some(RollbackFailed);
          }
          dbfilepath, id := dbFrom, oldId;
          return Some(RolledBack);
        }
      }
      error := None;
    }
  }

  /** One entry of the expirer's loop. */
  method ExpireWorkspace(store: FileStore, entry: DBEntryV1, timestamp: string, now: int, f: ExpireFaults)
    modifies store, entry
    ensures store.View() == AfterExpireWorkspace(old(store.View()), old(entry.View()), timestamp, now, f)
  {
    var used := entry.Expire(store, timestamp, now, f);
    if used.Success? {
      var from := (entry.record.space, entry.record.directory);
      var to := (entry.record.space, Stamped(entry.record.directory, used.value));
      var _ := store.RenameLiveDir(from, to, f.directory);
    }
  }

  /** What ws_release does with one workspace, unless it is to delete the data as well. */
  method ReleaseWorkspace(store: FileStore, entry: DBEntryV1, timestamp: nat, now: int, f: ReleaseFaults)
    modifies store, entry
    ensures store.View() == AfterReleaseWorkspace(old(store.View()), old(entry.View()), timestamp, now, f)
  {
    var used := entry.Release(store, timestamp, now, f);
    if used.Success? {
      var from := (entry.record.space, entry.record.directory);
      var to := (entry.record.space, Stamped(entry.id, used.value));
      var _ := store.RenameLiveDir(from, to, f.directory);
    }
  }
}
