/**
 Phase 3 of the stray cleanup against everything else that works on the deleted area. The cleanup
 lists the directories there, then reads the names of the entries, and removes each listed directory
 without an entry, unless its name says that it was moved there during this run. Meanwhile others
 retire workspaces, entry first and directory second, each under a name of its own, and drop and rename
 entries and directories.

 A workspace is a number, new for each retirement. `used`, `apart` and `late` record history and are
 not read by any step: the numbers in use; those whose entry was renamed since the listing began or was
 not at the directory's name when that was listed; and the entries that came to a listed name only after
 the reading of names had begun, with a timestamp that does not defer the directory.
 */
module StrayProtocol {
  import opened Names

  datatype Phase =
    | Idle
    | Listing(seen: map<string, nat>)
    | Reading(seen: map<string, nat>, stable: set<string>)
    | Removing(seen: map<string, nat>, names: set<string>)

  datatype State = State(
    entries: map<string, nat>,
    dirs: map<string, nat>,
    pending: map<nat, string>,
    runStart: int,
    phase: Phase,
    used: set<nat>,
    apart: set<nat>,
    late: map<string, nat>)

  datatype Event =
    | RetireEntry(workspace: nat, name: string, place: string)
    | RetireDirectory(workspace: nat)
    | DropEntry(name: string)
    | DropDirectory(name: string)
    | MoveStray(workspace: nat, name: string)
    | RenameEntry(name: string, newName: string)
    | RenameDirectory(name: string, newName: string)
    | BeginListing(now: int)
    | See(name: string)
    | BeginReading
    | EndReading(names: set<string>)
    | Remove(name: string)
    | EndRun

  /** A name whose timestamp keeps the directory for the next run. */
  predicate Deferred(name: string, runStart: int) {
    && TimestampFromId(name).Some?
    && 0 < TimestampFromId(name).value <= MAX_PLAUSIBLE
    && TimestampFromId(name).value >= runStart
  }

  /** The cleanup takes this directory for a stray. */
  predicate Stray(s: State, name: string) {
    s.phase.Removing? && name in s.phase.seen && name !in s.phase.names && !Deferred(name, s.runStart)
  }

  function Move(m: map<string, nat>, from: string, to: string): map<string, nat>
    requires from in m
  {
    (m - {from})[to := m[from]]
  }

  /** While the names are read, a name that goes away may be missed. */
  function Unstable(p: Phase, name: string): Phase {
    if p.Reading? then p.(stable := p.stable - {name}) else p
  }

  predicate Matched(s: State, name: string)
    requires name in s.dirs
  {
    name in s.entries && s.entries[name] == s.dirs[name]
  }

  function SeenIn(p: Phase): map<string, nat> {
    if p.Idle? then map[] else p.seen
  }

  /** The names the cleanup is bound to know if their entries stay. */
  predicate Known(p: Phase, name: string) {
    match p
    case Reading(_, stable) => name in stable
    case Removing(_, names) => name in names
    case _ => true
  }

  /** An entry that comes to this name now is not known, and its directory is not deferred. */
  predicate TooLate(s: State, name: string) {
    name in SeenIn(s.phase) && !Known(s.phase, name) && !Deferred(name, s.runStart)
  }

  function Arrives(s: State, late: map<string, nat>, name: string, workspace: nat): map<string, nat> {
    if TooLate(s, name) then late[name := workspace] else late - {name}
  }

  /** One step; an event that is not possible changes nothing. */
  function Next(s: State, e: Event): State {
    match e
    case RetireEntry(w, n, p) =>
      if w in s.used then s else
      s.(entries := s.entries[n := w], pending := s.pending[w := p], used := s.used + {w},
         late := Arrives(s, s.late, n, w))
    case RetireDirectory(w) =>
      if w !in s.pending then s else s.(dirs := s.dirs[s.pending[w] := w], pending := s.pending - {w})
    case DropEntry(n) => s.(entries := s.entries - {n}, phase := Unstable(s.phase, n), late := s.late - {n})
    case DropDirectory(n) => s.(dirs := s.dirs - {n})
    case MoveStray(w, n) => if w in s.used then s else s.(dirs := s.dirs[n := w], used := s.used + {w})
    case RenameEntry(n, m) =>
      if n !in s.entries then s else
      var w := s.entries[n];
      s.(entries := Move(s.entries, n, m), phase := Unstable(s.phase, n), apart := s.apart + {w},
         late := Arrives(s.(phase := Unstable(s.phase, n)), s.late - {n}, m, w))
    case RenameDirectory(n, m) => if n !in s.dirs then s else s.(dirs := Move(s.dirs, n, m))
    case BeginListing(now) =>
      if !s.phase.Idle? then s else s.(phase := Listing(map[]), runStart := now, apart := {}, late := map[])
    case See(n) =>
      if !s.phase.Listing? || n !in s.dirs || n in s.phase.seen then s else
      s.(phase := Listing(s.phase.seen[n := s.dirs[n]]),
         apart := if Matched(s, n) then s.apart else s.apart + {s.dirs[n]})
    case BeginReading => if s.phase.Listing? then s.(phase := Reading(s.phase.seen, s.entries.Keys)) else s
    case EndReading(names) =>
      if s.phase.Reading? && s.phase.stable <= names then s.(phase := Removing(s.phase.seen, names)) else s
    case Remove(n) => if Stray(s, n) then s.(dirs := s.dirs - {n}) else s
    case EndRun => if s.phase.Removing? then s.(phase := Idle) else s
  }

  function Run(s: State, events: seq<Event>): State
    decreases |events|
  {
    if events == [] then s else Next(Run(s, events[..|events| - 1]), events[|events| - 1])
  }

  /** No cleanup is under way, and no workspace has two entries or two directories. */
  predicate Initial(s: State) {
    && s.phase.Idle? && s.pending == map[] && s.late == map[]
    && s.entries.Values + s.dirs.Values <= s.used
    && Single(s.entries) && Single(s.dirs)
  }

  predicate Single(names: map<string, nat>) {
    forall n, m :: n in names && m in names && names[n] == names[m] ==> n == m
  }

  // ----- what was listed -----

  /** A listed workspace that still has an entry has it under the listed name, unless it came apart. */
  predicate SeenInv(s: State) {
    forall n :: n in SeenIn(s.phase) ==> SeenWell(s, n)
  }

  predicate Inv(s: State) {
    && s.entries.Values <= s.used && s.dirs.Values <= s.used && s.pending.Keys <= s.used
    && Single(s.entries)
    && SeenInv(s)
  }

  lemma MoveValues(m: map<string, nat>, from: string, to: string)
    requires from in m && Single(m)
    ensures Single(Move(m, from, to)) && Move(m, from, to).Values <= m.Values
  {
  }

  /** What the invariant says about one listed name. */
  predicate SeenWell(s: State, n: string)
    requires n in SeenIn(s.phase)
  {
    var w := SeenIn(s.phase)[n];
    && w in s.used
    && (w !in s.apart && w in s.entries.Values ==> n in s.entries && s.entries[n] == w && Known(s.phase, n))
  }

  lemma NextInv(s: State, e: Event)
    requires Inv(s)
    ensures Inv(Next(s, e))
  {
    var s' := Next(s, e);
    forall n | n in SeenIn(s'.phase)
      ensures SeenWell(s', n)
    {
      if e.RetireEntry? || e.DropEntry? || e.RenameEntry? {
        EntrySeen(s, e, n);
      } else {
        OtherSeen(s, e, n);
      }
    }
    hide Next, SeenIn, Known;
    if e.RenameEntry? && e.name in s.entries {
      RenameSingle(s, e);
    } else {
      EntriesSingle(s, e);
    }
  }

  lemma RenameSingle(s: State, e: Event)
    requires Inv(s) && e.RenameEntry? && e.name in s.entries
    ensures var s' := Next(s, e);
      && Single(s'.entries) && s'.entries.Values <= s'.used && s'.dirs.Values <= s'.used && s'.pending.Keys <= s'.used
  {
    MoveValues(s.entries, e.name, e.newName);
  }

  lemma EntriesSingle(s: State, e: Event)
    requires Inv(s) && !(e.RenameEntry? && e.name in s.entries)
    ensures var s' := Next(s, e);
      && Single(s'.entries) && s'.entries.Values <= s'.used && s'.dirs.Values <= s'.used && s'.pending.Keys <= s'.used
  {
    hide SeenInv, Deferred;
  }

  lemma EntrySeen(s: State, e: Event, n: string)
    requires Inv(s) && (e.RetireEntry? || e.DropEntry? || e.RenameEntry?) && n in SeenIn(Next(s, e).phase)
    ensures SeenWell(Next(s, e), n)
  {
    assert SeenIn(Next(s, e).phase) == SeenIn(s.phase) && SeenWell(s, n);
    hide SeenInv, Deferred;
  }

  lemma OtherSeen(s: State, e: Event, n: string)
    requires Inv(s) && !(e.RetireEntry? || e.DropEntry? || e.RenameEntry?) && n in SeenIn(Next(s, e).phase)
    ensures SeenWell(Next(s, e), n)
  {
    hide SeenInv, Deferred, Single;
    if n in SeenIn(s.phase) {
      ListedIsWell(s, n);
    } else {
      assert s.dirs[n] in s.dirs.Values;
    }
  }

  lemma ListedIsWell(s: State, n: string)
    requires SeenInv(s) && n in SeenIn(s.phase)
    ensures SeenWell(s, n)
  {
  }

  lemma {:induction false} RunInv(s: State, events: seq<Event>)
    requires Initial(s)
    ensures Inv(Run(s, events))
    decreases |events|
  {
    if events != [] {
      RunInv(s, events[..|events| - 1]);
      NextInv(Run(s, events[..|events| - 1]), events[|events| - 1]);
    }
  }

  /**
   In every interleaving, a directory that is removed as stray and is the one that was listed has no
   entry any more, under any name, unless its entry was renamed while the cleanup was under way, or
   was elsewhere when the directory was listed.
   */
  lemma ListedStrayHasNoEntry(s: State, events: seq<Event>, n: string)
    requires Initial(s) && Stray(Run(s, events), n)
    requires var t := Run(s, events); n in t.dirs && t.dirs[n] == t.phase.seen[n] && t.dirs[n] !in t.apart
    ensures Run(s, events).dirs[n] !in Run(s, events).entries.Values
  {
    RunInv(s, events);
    ListedIsWell(Run(s, events), n);
  }

  // ----- late entries -----

  /** Late entries are entries, and an entry at a listed name is known, or deferred, or late. */
  predicate LateInv(s: State) {
    && (forall n :: n in s.late ==> n in s.entries && s.entries[n] == s.late[n])
    && (forall n :: n in s.entries && n in SeenIn(s.phase) ==>
          Known(s.phase, n) || Deferred(n, s.runStart) || n in s.late)
  }

  lemma NextLate(s: State, e: Event)
    requires LateInv(s)
    ensures LateInv(Next(s, e))
  {
    hide Deferred;
  }

  lemma {:induction false} RunLate(s: State, events: seq<Event>)
    requires Initial(s)
    ensures LateInv(Run(s, events))
    decreases |events|
  {
    if events != [] {
      RunLate(s, events[..|events| - 1]);
      NextLate(Run(s, events[..|events| - 1]), events[|events| - 1]);
    }
  }

  // ----- entries and directories under different names -----

  /** The directory of the workspace has this name, or will have it once it is retired. */
  predicate PlacedAt(s: State, w: nat, name: string) {
    (name in s.dirs && s.dirs[name] == w) || (w in s.pending && s.pending[w] == name)
  }

  predicate HasEntryAt(s: State, w: nat, name: string) {
    name in s.entries && s.entries[name] == w
  }

  /** This step gives entry or directory of the workspace a name that the other does not have. */
  predicate Parts(s: State, e: Event, w: nat) {
    match e
    case RetireEntry(v, n, p) => v == w && w !in s.used && n != p
    case RenameEntry(n, m) => HasEntryAt(s, w, n) && !PlacedAt(s, w, m)
    case RenameDirectory(n, m) => n in s.dirs && s.dirs[n] == w && w in s.entries.Values && !HasEntryAt(s, w, m)
    case _ => false
  }

  /** This step brings entry and directory of the workspace under one name, or takes its entry away. */
  predicate Joins(s: State, e: Event, w: nat) {
    match e
    case RetireEntry(v, n, _) => v !in s.used && HasEntryAt(s, w, n)
    case DropEntry(n) => HasEntryAt(s, w, n)
    case RenameEntry(n, m) =>
      n in s.entries && (if s.entries[n] == w then PlacedAt(s, w, m) else HasEntryAt(s, w, m))
    case RenameDirectory(n, m) => n in s.dirs && s.dirs[n] == w && HasEntryAt(s, w, m)
    case _ => false
  }

  /** Some step has parted entry and directory of the workspace, and none has joined them since. */
  ghost predicate Parted(s: State, events: seq<Event>, w: nat)
    decreases |events|
  {
    if events == [] then w in s.entries.Values && exists n :: n in s.dirs && s.dirs[n] == w && !Matched(s, n) else
    var earlier, e := events[..|events| - 1], events[|events| - 1];
    Parts(Run(s, earlier), e, w) || (Parted(s, earlier, w) && !Joins(Run(s, earlier), e, w))
  }

  /** No workspace has two directories, counting one that is still to be retired. */
  predicate PlacesInv(s: State) {
    && s.entries.Values <= s.used && s.dirs.Values <= s.used && s.pending.Keys <= s.used
    && Single(s.entries) && Single(s.dirs)
    && s.pending.Keys !! s.dirs.Values
  }

  lemma NextPlaces(s: State, e: Event)
    requires PlacesInv(s)
    ensures PlacesInv(Next(s, e))
  {
    hide Deferred, SeenIn;
    match e
    case RenameEntry(n, m) =>
      if n in s.entries {
        MoveValues(s.entries, n, m);
      }
    case RenameDirectory(n, m) =>
      if n in s.dirs {
        MoveValues(s.dirs, n, m);
      }
    case _ =>
  }

  /** What being parted means in one state: the workspace has an entry, and not where its directory is. */
  ghost predicate PartedWell(s: State, w: nat, parted: bool) {
    && (parted ==> w in s.entries.Values)
    && forall n :: w in s.entries.Values && PlacedAt(s, w, n) ==> (parted <==> !HasEntryAt(s, w, n))
  }

  lemma NextParted(s: State, e: Event, w: nat, parted: bool)
    requires PlacesInv(s) && PartedWell(s, w, parted)
    ensures PartedWell(Next(s, e), w, Parts(s, e, w) || (parted && !Joins(s, e, w)))
  {
    hide PlacesInv, Next, Parts, Joins, PartedWell;
    if e.RetireEntry? || e.DropEntry? {
      EntryReplaced(s, e, w, parted);
    } else if e.RenameEntry? {
      EntryRenamed(s, e, w, parted);
    } else {
      EntryStays(s, e, w, parted);
    }
  }

  lemma EntryReplaced(s: State, e: Event, w: nat, parted: bool)
    requires PlacesInv(s) && PartedWell(s, w, parted) && (e.RetireEntry? || e.DropEntry?)
    ensures PartedWell(Next(s, e), w, Parts(s, e, w) || (parted && !Joins(s, e, w)))
  {
    hide Deferred, SeenIn;
    var s' := Next(s, e);
    if w in s.entries.Values {
      var k :| k in s.entries && s.entries[k] == w;
      assert Joins(s, e, w) || HasEntryAt(s', w, k);
    }
    assert Parts(s, e, w) ==> HasEntryAt(s', w, e.name);
    forall n | PlacedAt(s', w, n) && w in s'.entries.Values
      ensures (Parts(s, e, w) || (parted && !Joins(s, e, w))) <==> !HasEntryAt(s', w, n)
    {
      assert PlacedAt(s, w, n) || e.RetireEntry?;
      assert HasEntryAt(s, w, n) ==> n == e.name || HasEntryAt(s', w, n);
    }
  }

  lemma EntryRenamed(s: State, e: Event, w: nat, parted: bool)
    requires PlacesInv(s) && PartedWell(s, w, parted) && e.RenameEntry?
    ensures PartedWell(Next(s, e), w, Parts(s, e, w) || (parted && !Joins(s, e, w)))
  {
    hide Deferred, SeenIn;
    var s' := Next(s, e);
    if w in s.entries.Values {
      var k :| k in s.entries && s.entries[k] == w;
      assert HasEntryAt(s', w, e.newName) || Joins(s, e, w) || HasEntryAt(s', w, k);
    }
    forall n | PlacedAt(s', w, n) && w in s'.entries.Values
      ensures (Parts(s, e, w) || (parted && !Joins(s, e, w))) <==> !HasEntryAt(s', w, n)
    {
      assert PlacedAt(s, w, n);
    }
  }

  lemma EntryStays(s: State, e: Event, w: nat, parted: bool)
    requires PlacesInv(s) && PartedWell(s, w, parted) && !e.RetireEntry? && !e.DropEntry? && !e.RenameEntry?
    ensures PartedWell(Next(s, e), w, Parts(s, e, w) || (parted && !Joins(s, e, w)))
  {
    hide Deferred, SeenIn;
    var s' := Next(s, e);
    assert s'.entries == s.entries;
    forall n | PlacedAt(s', w, n) && w in s'.entries.Values
      ensures (Parts(s, e, w) || (parted && !Joins(s, e, w))) <==> !HasEntryAt(s', w, n)
    {
      assert PlacedAt(s, w, n) || e.RenameDirectory?;
      assert HasEntryAt(s, w, n) <==> HasEntryAt(s', w, n);
    }
  }

  lemma {:induction false} RunParted(s: State, events: seq<Event>, w: nat)
    requires Initial(s)
    ensures PlacesInv(Run(s, events)) && PartedWell(Run(s, events), w, Parted(s, events, w))
    decreases |events|
  {
    if events != [] {
      var earlier, e := events[..|events| - 1], events[|events| - 1];
      RunParted(s, earlier, w);
      NextPlaces(Run(s, earlier), e);
      NextParted(Run(s, earlier), e, w, Parted(s, earlier, w));
      hide Next, Parts, Joins, PartedWell, PlacesInv;
    }
  }

  /**
   In every interleaving of everything, a directory that the cleanup takes for a stray still has its entry
   exactly if some retirement or rename gave the two different names, and nothing has brought them together
   or taken the entry away since; or the entry came late: to a listed name, after the reading of names had
   begun, with a timestamp that does not defer the directory.
   */
  lemma StrayHasEntryIff(s: State, events: seq<Event>, n: string)
    requires Initial(s) && Stray(Run(s, events), n) && n in Run(s, events).dirs
    ensures var t := Run(s, events);
      t.dirs[n] in t.entries.Values
      <==> (Parted(s, events, t.dirs[n]) || (n in t.late && t.late[n] == t.dirs[n]))
  {
    var t := Run(s, events);
    RunLate(s, events);
    RunParted(s, events, t.dirs[n]);
    assert PlacedAt(t, t.dirs[n], n);
    hide Deferred, Parted, Run;
  }

  // ----- without renames -----

  /** Directories carry the names of their entries. */
  predicate Together(s: State) {
    forall n :: n in s.dirs && s.dirs[n] in s.entries.Values ==> Matched(s, n)
  }

  /** Nobody renames, and every workspace is retired under one name. */
  predicate KeepTogether(events: seq<Event>) {
    forall e <- events :: !e.RenameEntry? && !e.RenameDirectory? && (e.RetireEntry? ==> e.place == e.name)
  }

  lemma {:induction false} TogetherIsNotParted(s: State, events: seq<Event>, w: nat)
    requires Together(s) && KeepTogether(events)
    ensures !Parted(s, events, w)
    decreases |events|
  {
    if events != [] {
      TogetherIsNotParted(s, events[..|events| - 1], w);
      assert events[|events| - 1] in events;
    }
  }

  /**
   While nobody renames entries or retires entry and directory under different names, a directory taken for
   a stray still has its entry exactly if that came late. A release or expire whose clock reading precedes
   the run is harmless as long as it does not reuse the name of a directory that this run has listed.
   */
  lemma UnrenamedStrayHasEntryIff(s: State, events: seq<Event>, n: string)
    requires Initial(s) && Together(s) && KeepTogether(events)
    requires Stray(Run(s, events), n) && n in Run(s, events).dirs
    ensures var t := Run(s, events);
      t.dirs[n] in t.entries.Values <==> n in t.late && t.late[n] == t.dirs[n]
  {
    StrayHasEntryIff(s, events, n);
    TogetherIsNotParted(s, events, Run(s, events).dirs[n]);
  }

  /** No entry of the run comes late. */
  predicate NoneLate(s: State, events: seq<Event>)
    decreases |events|
  {
    events == [] ||
    var earlier, e := events[..|events| - 1], events[|events| - 1];
    NoneLate(s, earlier) && (e.RetireEntry? ==> !TooLate(Run(s, earlier), e.name))
  }

  lemma {:induction false} NoneLateMeansNone(s: State, events: seq<Event>)
    requires Initial(s) && KeepTogether(events) && NoneLate(s, events)
    ensures Run(s, events).late == map[]
    decreases |events|
  {
    if events != [] {
      NoneLateMeansNone(s, events[..|events| - 1]);
      assert events[|events| - 1] in events;
      hide TooLate;
    }
  }

  /**
   So as long as no entry comes late, and nobody renames or retires under different names, no interleaving
   removes a directory whose entry remains.
   */
  lemma NothingWithAnEntryIsRemoved(s: State, events: seq<Event>, n: string)
    requires Initial(s) && Together(s) && KeepTogether(events) && NoneLate(s, events)
    requires Stray(Run(s, events), n) && n in Run(s, events).dirs
    ensures Run(s, events).dirs[n] !in Run(s, events).entries.Values
  {
    UnrenamedStrayHasEntryIff(s, events, n);
    NoneLateMeansNone(s, events);
  }

  // ----- each assumption is needed -----

  lemma RunExtends(s: State, events: seq<Event>, e: Event)
    ensures Run(s, events + [e]) == Next(Run(s, events), e)
  {
    assert (events + [e])[..|events|] == events;
  }

  const NAME := "ann-ws-5"
  const LATER := "ann-ws-9"

  const RENAME_RACE := [BeginListing(100), See(NAME), RenameEntry(NAME, LATER), BeginReading, EndReading({LATER}),
                        Remove(NAME)]

  const EXPIRED := State(map[NAME := 1], map[NAME := 1], map[], 0, Idle, {1}, {}, map[])

  /** A rename by ws_editdb between the listing and the reading: entry moved, directory not yet, and now gone. */
  lemma RenameRacesWithCleanup()
    ensures Initial(EXPIRED) && Together(EXPIRED)
    ensures var t := Run(EXPIRED, RENAME_RACE);
      1 in EXPIRED.entries.Values && 1 in EXPIRED.dirs.Values && 1 in t.entries.Values && 1 !in t.dirs.Values
  {
    hide Deferred;
    assert NAME[7] != LATER[7];
    assert EXPIRED.entries[NAME] == 1 && EXPIRED.dirs[NAME] == 1;
    var seen, moved := map[NAME := 1], map[LATER := 1];
    var s2 := Next(Next(EXPIRED, BeginListing(100)), See(NAME));
    assert s2 == State(seen, seen, map[], 100, Listing(seen), {1}, {}, map[]);
    var s3 := Next(s2, RenameEntry(NAME, LATER));
    assert s3 == State(moved, seen, map[], 100, Listing(seen), {1}, {1}, map[]);
    var s5 := Next(Next(s3, BeginReading), EndReading({LATER}));
    assert s5 == State(moved, seen, map[], 100, Removing(seen, {LATER}), {1}, {1}, map[]);
    StampIsFive();
    var s6 := Next(s5, Remove(NAME));
    assert s6.dirs == map[] && s6.entries[LATER] == 1;
    RunOfSix(EXPIRED, RENAME_RACE);
    hide Next;
  }

  const REUSED_NAME := [BeginListing(100), See(NAME), BeginReading, EndReading({}), DropDirectory(NAME),
                        RetireEntry(2, NAME, NAME), RetireDirectory(2), Remove(NAME)]

  const ORPHANED := State(map[], map[NAME := 1], map[], 0, Idle, {1}, {}, map[])

  const LISTED := State(map[], map[NAME := 1], map[], 100, Removing(map[NAME := 1], {}), {1}, {1}, map[])

  lemma OrphanIsListed()
    ensures Next(Next(Next(Next(ORPHANED, BeginListing(100)), See(NAME)), BeginReading), EndReading({})) == LISTED
  {
  }

  lemma NameIsReused()
    ensures var u := Next(Next(Next(LISTED, DropDirectory(NAME)), RetireEntry(2, NAME, NAME)), RetireDirectory(2));
      && u.entries == map[NAME := 2] == u.dirs
      && Next(u, Remove(NAME)).entries == u.entries && Next(u, Remove(NAME)).dirs == map[]
  {
    hide Deferred;
    StampIsFive();
    var s6 := Next(Next(LISTED, DropDirectory(NAME)), RetireEntry(2, NAME, NAME));
    assert s6 == State(map[NAME := 2], map[], map[2 := NAME], 100, LISTED.phase, {1, 2}, {1}, map[NAME := 2]);
  }

  /** A workspace retired under a listed name, by a clock that lags behind the start of the cleanup. */
  lemma LateRetirementIsRemoved()
    ensures Initial(ORPHANED) && Together(ORPHANED)
    ensures var u, t := Run(ORPHANED, REUSED_NAME[..7]), Run(ORPHANED, REUSED_NAME);
      2 in u.entries.Values && 2 in u.dirs.Values && 2 in t.entries.Values && 2 !in t.dirs.Values
  {
    assert ORPHANED.dirs[NAME] == 1;
    OrphanIsListed();
    NameIsReused();
    hide Next;
    RunOfSix(ORPHANED, REUSED_NAME[..6]);
    RunExtends(ORPHANED, REUSED_NAME[..6], REUSED_NAME[6]);
    RunExtends(ORPHANED, REUSED_NAME[..7], REUSED_NAME[7]);
    assert REUSED_NAME[..7] == REUSED_NAME[..6] + [REUSED_NAME[6]];
    assert REUSED_NAME == REUSED_NAME[..7] + [REUSED_NAME[7]];
    var u := Run(ORPHANED, REUSED_NAME[..7]);
    assert u.entries[NAME] == 2 && u.dirs[NAME] == 2;
  }

  const OTHER_NAME := "root-ws-5"

  const DIFFERENT_NAMES := [RetireEntry(1, OTHER_NAME, NAME), RetireDirectory(1), BeginListing(100), See(NAME),
                            BeginReading, EndReading({OTHER_NAME}), Remove(NAME)]

  const NOTHING_YET := State(map[], map[], map[], 0, Idle, {}, {}, map[])

  const APART := State(map[OTHER_NAME := 1], map[NAME := 1], map[], 0, Idle, {1}, {}, map[])

  lemma RetiredApart()
    ensures Next(Next(NOTHING_YET, RetireEntry(1, OTHER_NAME, NAME)), RetireDirectory(1)) == APART
  {
    var s1 := Next(NOTHING_YET, RetireEntry(1, OTHER_NAME, NAME));
    assert s1 == State(map[OTHER_NAME := 1], map[], map[1 := NAME], 0, Idle, {1}, {}, map[]);
  }

  const LISTED_APART := State(map[OTHER_NAME := 1], map[NAME := 1], map[], 100,
                              Removing(map[NAME := 1], {OTHER_NAME}), {1}, {1}, map[])

  lemma ApartIsListed()
    ensures var s := Next(Next(APART, BeginListing(100)), See(NAME));
      Next(Next(s, BeginReading), EndReading({OTHER_NAME})) == LISTED_APART
  {
    assert NAME[0] != OTHER_NAME[0];
    var s := Next(Next(APART, BeginListing(100)), See(NAME));
    assert s == State(map[OTHER_NAME := 1], map[NAME := 1], map[], 100, Listing(map[NAME := 1]), {1}, {1}, map[]);
  }

  /** A workspace retired under different names is removed by the next cleanup, with no race at all. */
  lemma DifferentNamesAreRemoved()
    ensures Initial(NOTHING_YET) && Together(NOTHING_YET)
    ensures var u, t := Run(NOTHING_YET, DIFFERENT_NAMES[..6]), Run(NOTHING_YET, DIFFERENT_NAMES);
      1 in u.entries.Values && 1 in u.dirs.Values && 1 in t.entries.Values && 1 !in t.dirs.Values && t.late == map[]
  {
    RetiredApart();
    ApartIsListed();
    StampIsFive();
    assert NAME[0] != OTHER_NAME[0];
    assert Next(LISTED_APART, Remove(NAME)) == LISTED_APART.(dirs := map[]);
    assert LISTED_APART.entries[OTHER_NAME] == 1 && LISTED_APART.dirs[NAME] == 1;
    hide Next;
    RunOfSix(NOTHING_YET, DIFFERENT_NAMES[..6]);
    assert DIFFERENT_NAMES == DIFFERENT_NAMES[..6] + [DIFFERENT_NAMES[6]];
    RunExtends(NOTHING_YET, DIFFERENT_NAMES[..6], DIFFERENT_NAMES[6]);
  }

  lemma StampIsFive()
    ensures !Deferred(NAME, 100)
  {
    assert Decimal(5) == "5";
    assert NAME == Stamped("ann-ws", 5);
    StampedSplits("ann-ws", 5);
  }

  lemma RunOfSix(s: State, e: seq<Event>)
    requires |e| == 6
    ensures Run(s, e) == Next(Next(Next(Next(Next(Next(s, e[0]), e[1]), e[2]), e[3]), e[4]), e[5])
  {
    hide Next;
    assert e == [] + [e[0]] + [e[1]] + [e[2]] + [e[3]] + [e[4]] + [e[5]];
    RunExtends(s, [], e[0]);
    RunExtends(s, [] + [e[0]], e[1]);
    RunExtends(s, [] + [e[0]] + [e[1]], e[2]);
    RunExtends(s, [] + [e[0]] + [e[1]] + [e[2]], e[3]);
    RunExtends(s, [] + [e[0]] + [e[1]] + [e[2]] + [e[3]], e[4]);
    RunExtends(s, [] + [e[0]] + [e[1]] + [e[2]] + [e[3]] + [e[4]], e[5]);
  }
}
