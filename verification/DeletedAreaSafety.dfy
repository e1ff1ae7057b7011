/**
 What expiring and renaming keep: no entry and no directory of the deleted area is overwritten or
 lost, entry and directory stay under the same name, and a rename ends in one of few states, whatever
 file operations fail. Release does not keep the first of these, and it is shown when.
 */
module DeletedAreaSafety {
  import opened Wrappers
  import opened Names
  import opened Retention
  import opened DeletedArea

  // ----- maps of identities -----

  predicate Injective<K(==)>(m: map<K, nat>) {
    forall j, k :: j in m && k in m && m[j] == m[k] ==> j == k
  }

  /** Two maps in which every identity occurs at most once. */
  predicate Sound<K(==), L(==)>(live: map<K, nat>, deleted: map<L, nat>) {
    Injective(live) && Injective(deleted) && live.Values !! deleted.Values
  }

  function Moved<K(==)>(m: map<K, nat>, from: K, to: K): map<K, nat>
    requires from in m
  {
    (m - {from})[to := m[from]]
  }

  lemma MovedValues<K>(m: map<K, nat>, from: K, to: K)
    requires from in m && (to in m ==> to == from) && Injective(m)
    ensures Injective(Moved(m, from, to)) && Moved(m, from, to).Values == m.Values
  {
    var m' := Moved(m, from, to);
    forall v | v in m.Values
      ensures v in m'.Values
    {
      var k :| k in m && m[k] == v;
      assert m'[if k == from then to else k] == v;
    }
  }

  lemma TransferredValues<K, L>(live: map<K, nat>, deleted: map<L, nat>, from: K, to: L)
    requires Sound(live, deleted) && from in live && to !in deleted
    ensures Sound(live - {from}, deleted[to := live[from]])
    ensures (live - {from}).Values == live.Values - {live[from]}
    ensures deleted[to := live[from]].Values == deleted.Values + {live[from]}
  {
    var live', deleted' := live - {from}, deleted[to := live[from]];
    forall v | v in live.Values - {live[from]}
      ensures v in live'.Values
    {
      var k :| k in live && live[k] == v;
      assert live'[k] == v;
    }
    assert live'.Values == live.Values - {live[from]};
    forall v | v in deleted.Values
      ensures v in deleted'.Values
    {
      var k :| k in deleted && deleted[k] == v;
      assert deleted'[k] == v;
    }
    assert deleted'[to] == live[from];
    assert deleted'.Values == deleted.Values + {live[from]};
  }

  // ----- invariants of the files -----

  /** The identities of entries by name. */
  function Ids(db: map<string, Record>): map<string, nat> {
    map n | n in db :: db[n].serial
  }

  /** Every workspace has one entry and one directory at most. */
  predicate Unique(a: Area) {
    Sound(Ids(a.liveDb), Ids(a.deletedDb)) && Sound(a.liveDirs, a.deletedDirs)
  }

  /** The hypothesis on names: the directory of a live entry is called like the entry. */
  predicate NamedAlike(a: Area) {
    forall n :: n in a.liveDb ==> a.liveDb[n].directory == n
  }

  /** Nothing is lost on the way from one state to another, and what was in the deleted area stays there. */
  predicate NothingLost(a: Area, b: Area) {
    && Ids(a.liveDb).Values + Ids(a.deletedDb).Values == Ids(b.liveDb).Values + Ids(b.deletedDb).Values
    && Ids(a.deletedDb).Values <= Ids(b.deletedDb).Values
    && a.liveDirs.Values + a.deletedDirs.Values == b.liveDirs.Values + b.deletedDirs.Values
    && a.deletedDirs.Values <= b.deletedDirs.Values
  }

  /** An entry object agrees with the file it names, up to times that were not written yet. */
  predicate Reads(a: Area, h: Handle) {
    && HasDb(a, h.path)
    && var r := GetDb(a, h.path);
      r.serial == h.record.serial && r.space == h.record.space && r.directory == h.record.directory
  }

  predicate ReadsLive(a: Area, h: Handle) {
    h.path == Live(h.id) && Reads(a, h)
  }

  predicate ReadsDeleted(a: Area, h: Handle) {
    h.path == Deleted(h.id) && Reads(a, h)
  }

  function DirAt(a: Area, space: string, name: string): Option<nat> {
    if (space, name) in a.deletedDirs then Some(a.deletedDirs[(space, name)]) else None
  }

  lemma IdsOfStored(db: map<string, Record>, n: string, r: Record)
    ensures Ids(db[n := r]) == Ids(db)[n := r.serial]
    ensures Ids(db - {n}) == Ids(db) - {n}
  {
  }

  lemma WriteKeepsIds(a: Area, h: Handle, r: Record, fails: bool)
    requires Reads(a, h)
    requires r.serial == h.record.serial && r.space == h.record.space && r.directory == h.record.directory
    ensures var b := AfterWrite(a, h.path, r, fails);
      && Ids(b.liveDb) == Ids(a.liveDb) && Ids(b.deletedDb) == Ids(a.deletedDb)
      && b.liveDirs == a.liveDirs && b.deletedDirs == a.deletedDirs && Reads(b, h)
  {
    match h.path
    case Live(n) =>
      IdsOfStored(a.liveDb, n, Written(r));
      assert Ids(a.liveDb)[n := r.serial] == Ids(a.liveDb);
    case Deleted(n) =>
      IdsOfStored(a.deletedDb, n, Written(r));
      assert Ids(a.deletedDb)[n := r.serial] == Ids(a.deletedDb);
  }

  // ----- expire -----

  /** The least timestamp from the given one on, within the tries, that is free for an entry and a directory. */
  predicate IsLeastFree(a: Area, space: string, base: string, ts: nat, t: nat) {
    && ts <= t < ts + 1000 && !Occupied(a, space, base, t)
    && forall u :: ts <= u < t ==> Occupied(a, space, base, u)
  }

  /** An entry or a directory of the deleted area has this name. */
  predicate Occupied(a: Area, space: string, base: string, t: nat) {
    base + "-" + Decimal(t) in a.deletedDb || (space, base + "-" + Decimal(t)) in a.deletedDirs
  }

  lemma TakenIsOccupied(a: Area, space: string, base: string, t: nat)
    ensures Taken(a, space, Stamped(base, t)) <==> Occupied(a, space, base, t)
  {
  }

  lemma FreeTimeIff(a: Area, space: string, base: string, ts: nat, failAt: nat, t: nat)
    ensures FreeTime(a, space, base, ts, failAt) == Success(t)
       <==> IsLeastFree(a, space, base, ts, t) && t - ts < failAt
  {
    forall u: nat
      ensures Taken(a, space, Stamped(base, u)) <==> Occupied(a, space, base, u)
    {
      TakenIsOccupied(a, space, base, u);
    }
    hide Taken, Stamped, Occupied;
    var r := FirstFree(a, space, base, ts, ts + MAX_TRIES);
    if IsLeastFree(a, space, base, ts, t) {
      assert r.Some? && !(r.value < t) && !(t < r.value);
    }
  }

  /**
   Expire goes through with a timestamp exactly if that is the least free one, counted from the one given,
   and the lookups up to it and the rename work; the object then names the file that exists.
   */
  lemma ExpireTakesLeastFree(a: Area, h: Handle, timestamp: string, now: int, f: ExpireFaults, t: nat)
    requires HasDb(a, h.path)
    ensures var o, start := AfterExpire(a, h, timestamp, now, f), ExpireTime(timestamp);
      && (o.result == Success(t) <==>
            && start.Some? && IsLeastFree(a, h.record.space, h.id, start.value, t)
            && t - start.value < f.lookup && !f.rename)
      && (o.result == Success(t) ==> o.entry.path == Deleted(Stamped(h.id, t)) && HasDb(o.area, o.entry.path))
  {
    hide IsLeastFree, FreeTime, Stamped, ExpireTime;
    if ExpireTime(timestamp).Some? {
      FreeTimeIff(a, h.record.space, h.id, ExpireTime(timestamp).value, f.lookup, t);
    }
  }

  /** The timestamp that the expirer passes is the number it printed. */
  lemma ExpireTimeIs(n: nat)
    ensures ExpireTime(Decimal(n)) == if n < 0x8000_0000_0000_0000 then Some(n) else None
  {
    DecimalValue(n);
  }

  /** The times that a file gives back: what is not positive is not written. */
  predicate HasTimes(r: Record, expiration: int, expired: int, released: int) {
    && r.times.expiration == expiration
    && r.times.expired == (if expired > 0 then expired else 0)
    && r.times.released == (if released > 0 then released else 0)
  }

  predicate SameWorkspace(r: Record, s: Record) {
    r.serial == s.serial && r.space == s.space && r.directory == s.directory
  }

  /** An entry that was expired says so, if it could be written. */
  lemma ExpireNotesTheTime(a: Area, h: Handle, timestamp: string, now: int, f: ExpireFaults, t: nat)
    requires ReadsLive(a, h) && AfterExpire(a, h, timestamp, now, f).result == Success(t)
    ensures var o, name := AfterExpire(a, h, timestamp, now, f), h.id + "-" + Decimal(t);
      && name in o.area.deletedDb && h.id !in o.area.liveDb && SameWorkspace(o.area.deletedDb[name], a.liveDb[h.id])
      && (f.write ==> o.area.deletedDb[name] == a.liveDb[h.id])
      && (!f.write ==>
            HasTimes(o.area.deletedDb[name], h.record.times.expiration, now, h.record.times.released))
  {
    hide FreeTime, ExpireTime, Decimal;
  }

  lemma ExpireTarget(a: Area, h: Handle, timestamp: string, now: int, f: ExpireFaults)
    requires AfterExpire(a, h, timestamp, now, f).result.Success?
    ensures !Taken(a, h.record.space, Stamped(h.id, AfterExpire(a, h, timestamp, now, f).result.value))
  {
  }

  /** The deleted area of one state is part of that of another. */
  predicate DeletedAreaGrows(a: Area, b: Area) {
    && (forall n :: n in a.deletedDb ==> n in b.deletedDb && b.deletedDb[n] == a.deletedDb[n])
    && (forall p :: p in a.deletedDirs ==> p in b.deletedDirs && b.deletedDirs[p] == a.deletedDirs[p])
  }

  predicate LiveShrinks(a: Area, b: Area) {
    forall n :: n in b.liveDb ==> n in a.liveDb && b.liveDb[n].directory == a.liveDb[n].directory
  }

  lemma EntryMoveLosesNothing(a: Area, h: Handle, name: string)
    requires Unique(a) && ReadsLive(a, h) && name !in a.deletedDb
    ensures var b := MoveDb(a, h.path, Deleted(name));
      Unique(b) && NothingLost(a, b) && DeletedAreaGrows(a, b) && LiveShrinks(a, b)
  {
    IdsOfStored(a.liveDb, h.id, h.record);
    IdsOfStored(a.deletedDb, name, a.liveDb[h.id]);
    TransferredValues(Ids(a.liveDb), Ids(a.deletedDb), h.id, name);
  }

  lemma DirectoryMoveLosesNothing(a: Area, from: Place, to: Place)
    requires Unique(a) && from in a.liveDirs && to !in a.deletedDirs
    ensures var b := RetireDir(a, from, to);
      Unique(b) && NothingLost(a, b) && DeletedAreaGrows(a, b) && LiveShrinks(a, b)
  {
    TransferredValues(a.liveDirs, a.deletedDirs, from, to);
  }

  /** A step that only moves from the live area to unused names of the deleted area. */
  predicate OnlyRetires(a: Area, b: Area) {
    Unique(b) && NothingLost(a, b) && DeletedAreaGrows(a, b) && LiveShrinks(a, b)
  }

  lemma OnlyRetiresChains(a: Area, b: Area, c: Area)
    requires OnlyRetires(a, b) && OnlyRetires(b, c)
    ensures OnlyRetires(a, c)
  {
    hide Unique, Ids;
  }

  lemma WriteOnlyRetires(a: Area, h: Handle, r: Record, fails: bool)
    requires Unique(a) && ReadsLive(a, h)
    requires r.serial == h.record.serial && r.space == h.record.space && r.directory == h.record.directory
    ensures OnlyRetires(a, AfterWrite(a, h.path, r, fails)) && ReadsLive(AfterWrite(a, h.path, r, fails), h)
  {
    WriteKeepsIds(a, h, r, fails);
    hide Ids, Sound;
  }

  /** The entry's part of expire. */
  lemma EntryRetires(a: Area, h: Handle, timestamp: string, now: int, f: ExpireFaults)
    requires Unique(a) && ReadsLive(a, h)
    ensures var o := AfterExpire(a, h, timestamp, now, f);
      && OnlyRetires(a, o.area)
      && o.area.liveDirs == a.liveDirs && o.area.deletedDirs == a.deletedDirs
  {
    var o := AfterExpire(a, h, timestamp, now, f);
    var r := h.record.(times := h.record.times.(expired := now));
    var a1 := AfterWrite(a, h.path, r, f.write);
    hide ExpireTime, Stamped, Ids, Sound, NothingLost;
    WriteOnlyRetires(a, h, r, f.write);
    if o.result.Success? {
      EntryMoveLosesNothing(a1, h, Stamped(h.id, o.result.value));
      OnlyRetiresChains(a, a1, o.area);
    } else {
      SameOnlyRetires(a);
    }
  }

  lemma SameOnlyRetires(a: Area)
    requires Unique(a)
    ensures OnlyRetires(a, a)
  {
  }

  /** Expiring a workspace loses nothing and leaves every entry and directory of the deleted area as it was. */
  lemma ExpireLosesNothing(a: Area, h: Handle, timestamp: string, now: int, f: ExpireFaults)
    requires Unique(a) && ReadsLive(a, h) && h.record.directory == h.id
    ensures OnlyRetires(a, AfterExpireWorkspace(a, h, timestamp, now, f))
  {
    var o := AfterExpire(a, h, timestamp, now, f);
    EntryRetires(a, h, timestamp, now, f);
    var from := (h.record.space, h.record.directory);
    if o.result.Success? && !f.directory && from in a.liveDirs {
      ExpireTarget(a, h, timestamp, now, f);
      hide AfterExpire, Stamped, Ids, Sound, NothingLost;
      var to := (h.record.space, Stamped(h.record.directory, o.result.value));
      DirectoryMoveLosesNothing(o.area, from, to);
      OnlyRetiresChains(a, o.area, RetireDir(o.area, from, to));
    }
  }

  /** The timestamp under which an expire moves the entry, if it does; the name looked up is the entry's. */
  function EntryGoes(a: Area, h: Handle, timestamp: string, f: ExpireFaults): Option<nat> {
    match ExpireTime(timestamp)
    case None => None
    case Some(ts) =>
      match FreeTime(a, h.record.space, h.id, ts, f.lookup)
      case Failure(_) => None
      case Success(t) => if f.rename then None else Some(t)
  }

  lemma EntryGoesIff(a: Area, h: Handle, timestamp: string, now: int, f: ExpireFaults)
    requires ReadsLive(a, h)
    ensures var o, t := AfterExpire(a, h, timestamp, now, f), EntryGoes(a, h, timestamp, f);
      && (if t.Some? then o.result == Success(t.value) else o.result.Failure?)
      && (h.id in o.area.liveDb <==> t.None?)
      && o.area.liveDirs == a.liveDirs && o.area.deletedDirs == a.deletedDirs && o.area.empties == a.empties
  {
    hide ExpireTime, FreeTime, Stamped;
  }

  /** The place to which the expirer moves the directory; its name is looked up nowhere. */
  function DirectoryTarget(h: Handle, t: nat): Place {
    (h.record.space, Stamped(h.record.directory, t))
  }

  /**
   What goes wrong without the hypothesis on names: the entry is retired and the directory stays live,
   exactly if the entry's part works and the directory's own name with that timestamp is occupied by a
   directory that holds something, or the rename of the directory fails otherwise.
   */
  lemma DirectoryStaysBehindIff(a: Area, h: Handle, timestamp: string, now: int, f: ExpireFaults)
    requires ReadsLive(a, h) && (h.record.space, h.record.directory) in a.liveDirs
    ensures var b, t := AfterExpireWorkspace(a, h, timestamp, now, f), EntryGoes(a, h, timestamp, f);
      (h.id !in b.liveDb && (h.record.space, h.record.directory) in b.liveDirs)
      <==> (t.Some? && (f.directory || !Replaceable(a, DirectoryTarget(h, t.value))))
  {
    EntryGoesIff(a, h, timestamp, now, f);
    hide AfterExpire, EntryGoes, Stamped;
  }

  /** With names alike the second cause cannot occur: only a failing rename leaves the directory behind. */
  lemma AlikeStaysBehindIff(a: Area, h: Handle, timestamp: string, now: int, f: ExpireFaults)
    requires ReadsLive(a, h) && (h.record.space, h.record.directory) in a.liveDirs && h.record.directory == h.id
    ensures var b, t := AfterExpireWorkspace(a, h, timestamp, now, f), EntryGoes(a, h, timestamp, f);
      (h.id !in b.liveDb && (h.record.space, h.record.directory) in b.liveDirs) <==> (t.Some? && f.directory)
  {
    DirectoryStaysBehindIff(a, h, timestamp, now, f);
    EntryGoesIff(a, h, timestamp, now, f);
    if EntryGoes(a, h, timestamp, f).Some? {
      ExpireTarget(a, h, timestamp, now, f);
    }
    hide AfterExpire, AfterExpireWorkspace, EntryGoes, Stamped;
  }

  /** The directory ends under the name of the entry exactly if the names are alike and its rename works. */
  lemma ExpiredTogetherIff(a: Area, h: Handle, timestamp: string, now: int, f: ExpireFaults)
    requires ReadsLive(a, h) && (h.record.space, h.record.directory) in a.liveDirs
    requires EntryGoes(a, h, timestamp, f).Some?
    ensures var b, t := AfterExpireWorkspace(a, h, timestamp, now, f), EntryGoes(a, h, timestamp, f).value;
      var name := Stamped(h.id, t);
      && name in b.deletedDb
      && ((h.record.space, name) in b.deletedDirs <==> h.record.directory == h.id && !f.directory)
  {
    EntryGoesIff(a, h, timestamp, now, f);
    ExpireTarget(a, h, timestamp, now, f);
    var t := EntryGoes(a, h, timestamp, f).value;
    hide EntryGoes, Stamped, FreeTime, ExpireTime;
    if Stamped(h.id, t) == Stamped(h.record.directory, t) {
      StampedInjective(h.id, t, h.record.directory, t);
    }
  }

  /**
   It happens: root allocates a workspace for bob, and it expires in the second in which one of bob's
   own did. Its entry is retired, its directory stays live without an entry.
   */
  lemma DirectoryStaysBehind()
    ensures exists a: Area, h: Handle ::
      && Unique(a) && ReadsLive(a, h) && h.id == "root-data" && h.record.directory == "bob-data"
      && var b := AfterExpireWorkspace(a, h, "7", 7, ExpireFaults(MAX_TRIES, false, false, false));
        h.id !in b.liveDb && (h.record.space, h.record.directory) in b.liveDirs
  {
    hide Stamped, AfterExpireWorkspace;
    var r := Record(1, "/ws", "bob-data", Times(5, 0, 0));
    var h := Handle("root-data", Live("root-data"), r);
    var target := ("/ws", Stamped("bob-data", 7));
    var a := Area(map["root-data" := r], map[], map[("/ws", "bob-data") := 1], map[target := 2], {});
    SevenIsATime();
    if Stamped("root-data", 7) == Stamped("bob-data", 7) {
      StampedInjective("root-data", 7, "bob-data", 7);
      assert false;
    }
    var f := ExpireFaults(MAX_TRIES, false, false, false);
    assert FirstFree(a, "/ws", "root-data", 7, 7 + MAX_TRIES) == Some(7);
    DirectoryStaysBehindIff(a, h, "7", 7, f);
  }

  lemma SevenIsATime()
    ensures ExpireTime("7") == Some(7)
  {
    assert "7"[..0] == "";
  }

  // ----- release -----

  /**
   Release loses an entry of the deleted area exactly if it goes through while both the name it was
   given and the next one are in use: the second is not looked up again.
   */
  lemma ReleaseLosesIff(a: Area, h: Handle, ts: nat, now: int, f: ReleaseFaults)
    requires Unique(a) && ReadsLive(a, h)
    ensures var o := AfterRelease(a, h, ts, now, f);
      && (o.result.Success? <==> !f.lookup && !f.rename)
      && (Ids(a.deletedDb).Values <= Ids(o.area.deletedDb).Values
          <==> !(o.result.Success? && Stamped(h.id, ts) in a.deletedDb && Stamped(h.id, ts + 1) in a.deletedDb))
  {
    hide Stamped;
    var r := h.record.(times := h.record.times.(released := now));
    WriteKeepsIds(a, h, r, f.write);
    var a1 := AfterWrite(a, h.path, r, f.write);
    var o := AfterRelease(a, h, ts, now, f);
    if o.result.Success? {
      var name := Stamped(h.id, o.result.value);
      var ids := Ids(a1.deletedDb);
      IdsOfStored(a1.deletedDb, name, a1.liveDb[h.id]);
      assert Ids(o.area.deletedDb) == ids[name := h.record.serial];
      if name in ids {
        assert ids[name] in ids.Values;
        assert h.record.serial == Ids(a.liveDb)[h.id] && h.record.serial in Ids(a.liveDb).Values;
        assert ids[name] !in ids[name := h.record.serial].Values;
      } else {
        TransferredValues(Ids(a1.liveDb), ids, h.id, name);
      }
    }
  }

  const NO_FAULTS := ReleaseFaults(false, false, false, false)

  /** An entry that was released says so, if it could be written. */
  lemma ReleaseNotesTheTime(a: Area, h: Handle, ts: nat, now: int, f: ReleaseFaults, t: nat)
    requires ReadsLive(a, h) && AfterRelease(a, h, ts, now, f).result == Success(t)
    ensures var o, name := AfterRelease(a, h, ts, now, f), h.id + "-" + Decimal(t);
      && name in o.area.deletedDb && h.id !in o.area.liveDb && SameWorkspace(o.area.deletedDb[name], a.liveDb[h.id])
      && (f.write ==> o.area.deletedDb[name] == a.liveDb[h.id])
      && (!f.write ==>
            HasTimes(o.area.deletedDb[name], h.record.times.expiration, h.record.times.expired, now))
  {
    hide Decimal;
  }

  /** It happens with two entries retired in the same second and the next: the later one is lost. */
  lemma ReleaseLosesAnEntry()
    ensures exists a: Area, h: Handle ::
      && Unique(a) && ReadsLive(a, h)
      && !(Ids(a.deletedDb).Values <= Ids(AfterRelease(a, h, 7, 7, NO_FAULTS).area.deletedDb).Values)
  {
    hide Stamped, AfterRelease;
    var r := Record(1, "/ws", "ann-ws", Times(5, 0, 0));
    var h := Handle("ann-ws", Live("ann-ws"), r);
    if Stamped("ann-ws", 7) == Stamped("ann-ws", 8) {
      StampedInjective("ann-ws", 7, "ann-ws", 8);
      assert false;
    }
    var deleted := map[Stamped("ann-ws", 7) := r.(serial := 2), Stamped("ann-ws", 8) := r.(serial := 3)];
    var a := Area(map["ann-ws" := r], deleted, map[], map[], {});
    ReleaseLosesIff(a, h, 7, 7, NO_FAULTS);
  }

  /** The timestamp under which a release moves the entry, if it does; only entries are looked up. */
  function EntryReleased(a: Area, h: Handle, ts: nat, f: ReleaseFaults): Option<nat> {
    if f.lookup || f.rename then None else Some(if Stamped(h.id, ts) in a.deletedDb then ts + 1 else ts)
  }

  lemma EntryReleasedIff(a: Area, h: Handle, ts: nat, now: int, f: ReleaseFaults)
    requires ReadsLive(a, h)
    ensures var o, t := AfterRelease(a, h, ts, now, f), EntryReleased(a, h, ts, f);
      && (if t.Some? then o.result == Success(t.value) else o.result.Failure?)
      && (h.id in o.area.liveDb <==> t.None?)
      && (t.Some? ==> Stamped(h.id, t.value) in o.area.deletedDb)
      && o.area.liveDirs == a.liveDirs && o.area.deletedDirs == a.deletedDirs && o.area.empties == a.empties
  {
    hide Stamped;
  }

  /**
   Release leaves the directory live without an entry exactly if the entry's part works and the entry's new
   name is occupied by a directory that holds something, which nobody looks up, or the rename fails otherwise.
   */
  lemma ReleasedStaysBehindIff(a: Area, h: Handle, ts: nat, now: int, f: ReleaseFaults)
    requires ReadsLive(a, h) && (h.record.space, h.record.directory) in a.liveDirs
    ensures var b, t := AfterReleaseWorkspace(a, h, ts, now, f), EntryReleased(a, h, ts, f);
      (h.id !in b.liveDb && (h.record.space, h.record.directory) in b.liveDirs)
      <==> (t.Some? && (f.directory || !Replaceable(a, (h.record.space, Stamped(h.id, t.value)))))
  {
    EntryReleasedIff(a, h, ts, now, f);
    hide AfterRelease, EntryReleased, Stamped;
  }

  /** Otherwise, and whatever the names were before, entry and directory end under one name. */
  lemma ReleasedTogetherIff(a: Area, h: Handle, ts: nat, now: int, f: ReleaseFaults)
    requires Unique(a) && ReadsLive(a, h) && (h.record.space, h.record.directory) in a.liveDirs
    requires EntryReleased(a, h, ts, f).Some?
    ensures var b, name := AfterReleaseWorkspace(a, h, ts, now, f), Stamped(h.id, EntryReleased(a, h, ts, f).value);
      && name in b.deletedDb
      && (DirAt(b, h.record.space, name) == Some(a.liveDirs[(h.record.space, h.record.directory)])
          <==> !f.directory && Replaceable(a, (h.record.space, name)))
  {
    EntryReleasedIff(a, h, ts, now, f);
    assert a.liveDirs[(h.record.space, h.record.directory)] in a.liveDirs.Values;
    hide AfterRelease, EntryReleased, Stamped, Ids;
  }

  /** It happens where a directory without an entry has the name. */
  lemma ReleasedStaysBehind()
    ensures exists a: Area, h: Handle ::
      && Unique(a) && ReadsLive(a, h) && h.record.directory == h.id
      && var b := AfterReleaseWorkspace(a, h, 7, 7, NO_FAULTS);
        h.id !in b.liveDb && (h.record.space, h.record.directory) in b.liveDirs
  {
    hide Stamped, AfterReleaseWorkspace;
    var r := Record(1, "/ws", "ann-ws", Times(5, 0, 0));
    var h := Handle("ann-ws", Live("ann-ws"), r);
    var a := Area(map["ann-ws" := r], map[], map[("/ws", "ann-ws") := 1], map[("/ws", Stamped("ann-ws", 7)) := 2], {});
    ReleasedStaysBehindIff(a, h, 7, 7, NO_FAULTS);
  }

  // ----- names for an edited entry -----

  /** The search goes past this name: it is planned for another entry, or looked up and found to be in use. */
  predicate Passed(a: Area, h: Handle, base: string, reserved: set<string>, fails: set<nat>, u: nat) {
    var name := base + "-" + Decimal(u);
    name != h.id && (name in reserved || (u !in fails && Occupied(a, h.record.space, base, u)))
  }

  /** The search ends at this name: it is the entry's own, or looked up and found to be free. */
  predicate Chosen(a: Area, h: Handle, base: string, reserved: set<string>, fails: set<nat>, t: nat) {
    var name := base + "-" + Decimal(t);
    name == h.id || (name !in reserved && t !in fails && !Occupied(a, h.record.space, base, t))
  }

  /** From a later timestamp on the name is not found. */
  lemma NotPassedTwice(a: Area, h: Handle, base: string, ts: nat, end: nat, reserved: set<string>, fails: set<nat>,
                       t: nat)
    requires t < ts
    ensures UsableId(a, h, base, ts, end, reserved, fails) != Success(Stamped(base, t))
  {
    var r := UsableId(a, h, base, ts, end, reserved, fails);
    hide Stamped, Unusable;
    if r == Success(Stamped(base, t)) {
      var u: nat :| ts <= u < end && r.value == Stamped(base, u);
      StampedInjective(base, t, base, u);
    }
  }

  /** This is the first timestamp at which the search ends, and it is within the tries. */
  predicate FirstEnd(a: Area, h: Handle, base: string, reserved: set<string>, fails: set<nat>, ts: nat, end: nat,
                     t: nat)
  {
    && ts <= t < end && Chosen(a, h, base, reserved, fails, t)
    && forall u :: ts <= u < t ==> Passed(a, h, base, reserved, fails, u)
  }

  lemma FirstEndStep(a: Area, h: Handle, base: string, reserved: set<string>, fails: set<nat>, ts: nat, end: nat,
                     t: nat)
    requires ts <= t
    ensures FirstEnd(a, h, base, reserved, fails, ts, end, t)
       <==> if ts == t then ts < end && Chosen(a, h, base, reserved, fails, ts)
            else Passed(a, h, base, reserved, fails, ts) && FirstEnd(a, h, base, reserved, fails, ts + 1, end, t)
  {
    hide Chosen, Passed;
  }

  /** One try of the search. */
  lemma OneTry(a: Area, h: Handle, base: string, ts: nat, end: nat, reserved: set<string>, fails: set<nat>)
    requires ts < end
    ensures var r := UsableId(a, h, base, ts, end, reserved, fails);
      && (Chosen(a, h, base, reserved, fails, ts) ==> r == Success(Stamped(base, ts)))
      && (Passed(a, h, base, reserved, fails, ts) ==> r == UsableId(a, h, base, ts + 1, end, reserved, fails))
      && (!Chosen(a, h, base, reserved, fails, ts) && !Passed(a, h, base, reserved, fails, ts) ==> r.Failure?)
  {
    NextTry(a, h, base, ts, end, reserved, fails);
    TakenIsOccupied(a, h.record.space, base, ts);
    hide UsableId, Occupied, Decimal, Taken;
  }

  /** The search for a new name finds the first timestamp at which it ends, if it gets there. */
  lemma {:induction false} UsableIdIff(a: Area, h: Handle, base: string, ts: nat, end: nat, reserved: set<string>,
                                       fails: set<nat>, t: nat)
    requires ts <= t
    ensures UsableId(a, h, base, ts, end, reserved, fails) == Success(Stamped(base, t))
       <==> FirstEnd(a, h, base, reserved, fails, ts, end, t)
    decreases end - ts
  {
    if ts < end {
      OneTry(a, h, base, ts, end, reserved, fails);
      FirstEndStep(a, h, base, reserved, fails, ts, end, t);
      hide UsableId, FirstEnd, Chosen, Passed, Stamped;
      if ts == t {
        NotPassedTwice(a, h, base, ts + 1, end, reserved, fails, t);
      } else {
        if Stamped(base, ts) == Stamped(base, t) {
          StampedInjective(base, ts, base, t);
        }
        UsableIdIff(a, h, base, ts + 1, end, reserved, fails, t);
      }
    }
  }

  // ----- rename -----

  /** An entry and, if there is one, its directory are at a name. */
  predicate BothAt(a: Area, space: string, name: string, r: Record, data: Option<nat>) {
    && name in a.deletedDb && a.deletedDb[name] == r
    && (if data.Some? then (space, name) in a.deletedDirs && a.deletedDirs[(space, name)] == data.value
        else (space, name) !in a.deletedDirs)
  }

  /** What is at other names of the deleted area, and all that is live, is the same in both. */
  predicate SameElsewhere(a: Area, b: Area, space: string, names: set<string>) {
    && b.liveDb == a.liveDb && b.liveDirs == a.liveDirs
    && a.deletedDb - names == b.deletedDb - names
    && var places := set n | n in names :: (space, n);
      a.deletedDirs - places == b.deletedDirs - places
  }

  /**
   Under any failures a rename ends with entry and directory both under the new name, or with nothing
   changed at all, or with the explicit error that the roll back failed. On every exit the entry
   object names the file that exists, and a missing directory means that only the entry moves.
   */
  lemma RenameIsAtomic(a: Area, h: Handle, newId: string, f: RenameFaults)
    requires ReadsDeleted(a, h)
    ensures var o, r, data := AfterRename(a, h, newId, f), a.deletedDb[h.id], DirAt(a, h.record.space, h.id);
      && o.entry.path == Deleted(o.entry.id) && o.entry.record == h.record && ReadsDeleted(o.area, o.entry)
      && SameElsewhere(a, o.area, h.record.space, {h.id, newId})
      && (match o.result
          case None =>
            o.entry.id == newId && BothAt(o.area, h.record.space, newId, r, data)
            && (newId != h.id ==> h.id !in o.area.deletedDb && (h.record.space, h.id) !in o.area.deletedDirs)
          case Some(RollbackFailed) =>
            o.entry.id == newId && data.Some? && h.id !in o.area.deletedDb
            && newId in o.area.deletedDb && o.area.deletedDb[newId] == r && o.area.deletedDirs == a.deletedDirs
          case Some(_) => o.entry == h && o.area == a)
  {
    hide RenameAllowed;
    if newId !in a.deletedDb && (h.record.space, newId) !in a.deletedDirs {
      MoveBothIsAtomic(a, h, newId, f);
    }
    hide MoveBoth;
  }

  lemma MoveBothIsAtomic(a: Area, h: Handle, newId: string, f: RenameFaults)
    requires ReadsDeleted(a, h) && newId !in a.deletedDb && (h.record.space, newId) !in a.deletedDirs
    ensures var o, r, data := MoveBoth(a, h, newId, f), a.deletedDb[h.id], DirAt(a, h.record.space, h.id);
      && o.entry.path == Deleted(o.entry.id) && o.entry.record == h.record && ReadsDeleted(o.area, o.entry)
      && SameElsewhere(a, o.area, h.record.space, {h.id, newId})
      && (match o.result
          case None =>
            o.entry.id == newId && BothAt(o.area, h.record.space, newId, r, data)
            && h.id !in o.area.deletedDb && (h.record.space, h.id) !in o.area.deletedDirs
          case Some(RollbackFailed) =>
            o.entry.id == newId && data.Some? && h.id !in o.area.deletedDb
            && newId in o.area.deletedDb && o.area.deletedDb[newId] == r && o.area.deletedDirs == a.deletedDirs
          case Some(_) => o.entry == h && o.area == a)
  {
    RolledBackIsSame(a, h, newId);
    MovesAreLocal(a.deletedDb, h.id, newId, {h.id, newId});
    var from, to := (h.record.space, h.id), (h.record.space, newId);
    if from in a.deletedDirs {
      MovesAreLocal(a.deletedDirs, from, to, set n | n in {h.id, newId} :: (h.record.space, n));
    }
  }

  lemma RolledBackIsSame(a: Area, h: Handle, newId: string)
    requires ReadsDeleted(a, h) && newId !in a.deletedDb
    ensures MoveDb(MoveDb(a, h.path, Deleted(newId)), Deleted(newId), h.path) == a
  {
    var there := MoveDb(a, h.path, Deleted(newId));
    assert MoveDb(there, Deleted(newId), h.path).deletedDb == a.deletedDb;
  }

  lemma MovesAreLocal<K, V>(m: map<K, V>, from: K, to: K, names: set<K>)
    requires from in m && from in names && to in names
    ensures (m - {from})[to := m[from]] - names == m - names
  {
  }

  /** Both names are a base, a dash and a timestamp, with the same base, and the new timestamp is positive. */
  predicate SameBase(id: string, newId: string) {
    && SplitExpiredId(id).Some? && SplitExpiredId(newId).Some?
    && SplitExpiredId(id).value.0 == SplitExpiredId(newId).value.0 && 0 < SplitExpiredId(newId).value.1
  }

  /** The entry gets to its new name: it is no released one, nothing is there, and its own calls work. */
  predicate EntryMoves(a: Area, h: Handle, newId: string, f: RenameFaults) {
    && h.record.times.released <= 1000000000 && SameBase(h.id, newId) && newId != h.id
    && newId !in a.deletedDb && (h.record.space, newId) !in a.deletedDirs && f.lookup > 2 && !f.db
  }

  /**
   A rename succeeds exactly if the entry gets to its new name, and its directory is missing or follows; or
   if it has that name already. Then both are under the new name and nothing is under the old one.
   */
  lemma RenameSucceedsIff(a: Area, h: Handle, newId: string, f: RenameFaults)
    requires ReadsDeleted(a, h)
    ensures var o, place := AfterRename(a, h, newId, f), (h.record.space, h.id);
      && (o.result == None
          <==> || (h.record.times.released <= 1000000000 && SameBase(h.id, newId) && newId == h.id)
               || (EntryMoves(a, h, newId, f) && (place !in a.deletedDirs || !f.directory)))
      && (o.result == None ==>
            && o.entry.id == newId && o.entry.path == Deleted(newId)
            && BothAt(o.area, h.record.space, newId, a.deletedDb[h.id], DirAt(a, h.record.space, h.id))
            && (newId != h.id ==> h.id !in o.area.deletedDb && place !in o.area.deletedDirs))
  {
    RenameIsAtomic(a, h, newId, f);
    hide SplitExpiredId, BothAt, SameElsewhere;
  }

  /** It is rolled back exactly if the entry moves, the directory does not, and the entry gets back. */
  lemma RolledBackIff(a: Area, h: Handle, newId: string, f: RenameFaults)
    requires ReadsDeleted(a, h)
    ensures var o := AfterRename(a, h, newId, f);
      && (o.result == Some(RolledBack)
          <==> EntryMoves(a, h, newId, f) && (h.record.space, h.id) in a.deletedDirs && f.directory && !f.rollback)
      && (o.result == Some(RolledBack) ==> o.area == a && o.entry == h)
  {
    RenameIsAtomic(a, h, newId, f);
    hide SplitExpiredId, BothAt, SameElsewhere;
  }

  /** All checks pass and the entry moves, but then its directory does not, nor the entry back. */
  predicate RollbackDue(a: Area, h: Handle, newId: string, f: RenameFaults) {
    EntryMoves(a, h, newId, f) && (h.record.space, h.id) in a.deletedDirs && f.directory && f.rollback
  }

  lemma RollbackFailsIff(a: Area, h: Handle, newId: string, f: RenameFaults)
    requires ReadsDeleted(a, h)
    ensures AfterRename(a, h, newId, f).result == Some(RollbackFailed) <==> RollbackDue(a, h, newId, f)
  {
  }

  /** A rename loses nothing and keeps identities unique. */
  lemma RenameLosesNothing(a: Area, h: Handle, newId: string, f: RenameFaults)
    requires Unique(a) && ReadsDeleted(a, h)
    ensures var o := AfterRename(a, h, newId, f);
      Unique(o.area) && NothingLost(a, o.area) && o.area.liveDb == a.liveDb
  {
    hide RenameAllowed;
    var o := AfterRename(a, h, newId, f);
    RenameIsAtomic(a, h, newId, f);
    if o.entry.id != h.id {
      IdsOfStored(a.deletedDb, h.id, a.deletedDb[h.id]);
      IdsOfStored(a.deletedDb - {h.id}, newId, a.deletedDb[h.id]);
      MovedValues(Ids(a.deletedDb), h.id, newId);
      var from, to := (h.record.space, h.id), (h.record.space, newId);
      if from in a.deletedDirs {
        MovedValues(a.deletedDirs, from, to);
      }
    }
    hide Ids, SameElsewhere;
  }
}
