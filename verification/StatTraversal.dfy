/**
 The parallel directory count of ws_stat: workers with one queue each, batch stealing, and one
 shared atomic counter that decides when the traversal is over. Queues are exactly-once
 double-ended queues here; QueueProtocol says when the lock-free ones are. Every step of a worker
 that touches shared state is one event, and an interleaving is a sequence of events.
 */
module StatTraversal {
  import opened Wrappers

  /** A directory tree as its iteration shows it: the entries delivered before the end or an error. */
  datatype Dir = Dir(path: string, entries: seq<Entry>)

  datatype Entry =
    | Symlink
    | Subdir(dir: Dir)
    | File(bytes: nat, blocks: nat)
    | Special

  const UINT64: nat := 0x1_0000_0000_0000_0000

  function Wrap(x: nat): nat {
    x % UINT64
  }

  /** The counters of StatResult, 64-bit and unsigned, and the directories processed so far. */
  datatype Tally = Tally(files: nat, softlinks: nat, directories: nat, bytes: nat, blocks: nat,
                         visited: multiset<string>)

  const ZERO: Tally := Tally(0, 0, 0, 0, 0, multiset{})

  predicate Wrapped(a: Tally) {
    a.files < UINT64 && a.softlinks < UINT64 && a.directories < UINT64 && a.bytes < UINT64 && a.blocks < UINT64
  }

  /** StatResult::operator+=. */
  function Plus(a: Tally, b: Tally): (c: Tally)
    ensures Wrapped(c)
  {
    Tally(Wrap(a.files + b.files), Wrap(a.softlinks + b.softlinks), Wrap(a.directories + b.directories),
          Wrap(a.bytes + b.bytes), Wrap(a.blocks + b.blocks), a.visited + b.visited)
  }

  /** What one entry of a directory contributes by itself. */
  function EntryTally(e: Entry): Tally {
    match e
    case Symlink => ZERO.(softlinks := 1)
    case Subdir(_) => ZERO.(directories := 1)
    case File(bytes, blocks) => ZERO.(files := 1, bytes := Wrap(bytes), blocks := Wrap(blocks))
    case Special => ZERO
  }

  // ----- the sequential count -----

  /** The recursive count of everything below a directory, which itself counts as visited. */
  function Count(d: Dir): (total: Tally)
    ensures Wrapped(total)
    decreases d, 1
  {
    Plus(Visit(d), CountEntries(d.entries))
  }

  function CountEntries(es: seq<Entry>): (total: Tally)
    ensures Wrapped(total)
    decreases es, 0
  {
    if es == [] then ZERO else Plus(CountEntry(es[0]), CountEntries(es[1..]))
  }

  function CountEntry(e: Entry): (total: Tally)
    ensures Wrapped(total)
    decreases e, 2
  {
    if e.Subdir? then Plus(EntryTally(e), Count(e.dir)) else EntryTally(e)
  }

  function Visit(d: Dir): Tally {
    ZERO.(visited := multiset{d.path})
  }

  // ----- the monoid of tallies -----

  lemma PlusCommutes(a: Tally, b: Tally)
    ensures Plus(a, b) == Plus(b, a)
  {
  }

  lemma WrapAssociates(a: nat, b: nat, c: nat)
    ensures Wrap(Wrap(a + b) + c) == Wrap(a + Wrap(b + c))
  {
  }

  lemma PlusAssociates(a: Tally, b: Tally, c: Tally)
    ensures Plus(Plus(a, b), c) == Plus(a, Plus(b, c))
  {
    hide Wrap;
    WrapAssociates(a.files, b.files, c.files);
    WrapAssociates(a.softlinks, b.softlinks, c.softlinks);
    WrapAssociates(a.directories, b.directories, c.directories);
    WrapAssociates(a.bytes, b.bytes, c.bytes);
    WrapAssociates(a.blocks, b.blocks, c.blocks);
  }

  lemma PlusZero(a: Tally)
    requires Wrapped(a)
    ensures Plus(a, ZERO) == a == Plus(ZERO, a)
  {
  }

  lemma PlusExchange(a: Tally, b: Tally, c: Tally)
    ensures Plus(Plus(a, b), c) == Plus(Plus(a, c), b)
  {
    hide Plus;
    PlusAssociates(a, b, c);
    PlusCommutes(b, c);
    PlusAssociates(a, c, b);
  }

  function Sum(xs: seq<Tally>): (total: Tally)
    ensures Wrapped(total)
  {
    if xs == [] then ZERO else Plus(Sum(xs[..|xs| - 1]), xs[|xs| - 1])
  }

  /** Changing one summand. */
  lemma {:induction false} SumAt(xs: seq<Tally>, i: nat, a: Tally)
    requires i < |xs|
    ensures Sum(xs[i := a]) == Plus(Sum(xs[i := ZERO]), a)
  {
    hide Plus;
    var n := |xs| - 1;
    if i == n {
      assert xs[i := a][..n] == xs[..n] == xs[i := ZERO][..n];
      PlusZero(Sum(xs[..n]));
    } else {
      assert xs[i := a][..n] == xs[..n][i := a] && xs[i := ZERO][..n] == xs[..n][i := ZERO];
      SumAt(xs[..n], i, a);
      PlusExchange(Sum(xs[..n][i := ZERO]), a, xs[n]);
    }
  }

  /** Moving an amount between two summands. */
  lemma SumMoves(xs: seq<Tally>, i: nat, j: nat, a: Tally, b: Tally)
    requires i < |xs| && j < |xs| && i != j && Plus(a, b) == Plus(xs[i], xs[j])
    ensures Sum(xs[i := a][j := b]) == Sum(xs)
  {
    hide Plus;
    SumAt(xs[i := a], j, b);
    SumAt(xs[j := ZERO], i, a);
    assert xs[i := a][j := ZERO] == xs[j := ZERO][i := a];
    SumAt(xs, j, xs[j]);
    SumAt(xs[j := ZERO], i, xs[i]);
    assert xs == xs[j := xs[j]] && xs[j := ZERO] == xs[j := ZERO][i := xs[i]];
    var r := Sum(xs[j := ZERO][i := ZERO]);
    PlusAssociates(r, a, b);
    PlusAssociates(r, xs[i], xs[j]);
  }

  /** The count of everything in the trees of a queue. */
  function CountAll(q: seq<Dir>): (total: Tally)
    ensures Wrapped(total)
  {
    if q == [] then ZERO else Plus(CountAll(q[..|q| - 1]), Count(q[|q| - 1]))
  }

  lemma {:induction false} CountAllAppend(q: seq<Dir>, r: seq<Dir>)
    ensures CountAll(q + r) == Plus(CountAll(q), CountAll(r))
  {
    hide Plus;
    if r == [] {
      assert q + r == q;
      PlusZero(CountAll(q));
    } else {
      var n := |r| - 1;
      assert (q + r)[..|q + r| - 1] == q + r[..n];
      CountAllAppend(q, r[..n]);
      PlusAssociates(CountAll(q), CountAll(r[..n]), Count(r[n]));
    }
  }

  lemma CountAllOne(d: Dir)
    ensures CountAll([d]) == Count(d)
  {
    hide Plus;
    PlusZero(Count(d));
    assert [d][..0] == [];
  }

  // ----- the workers -----

  /** Program points of a worker. */
  datatype Point =
    | Ready
    | NoWork
    | Exited
    | Stolen(work: Dir, rest: seq<Dir>)
    | Processing(dir: Dir, i: nat)
    | Pushing(dir: Dir, i: nat)

  datatype State = State(counter: int, queues: seq<seq<Dir>>, points: seq<Point>, results: seq<Tally>)

  /**
   Pop and Steal find work; GiveUp is a round that found none, which may happen at any time as a
   steal can lose its race; Check is the load of the counter. PushStolen keeps the rest of a stolen
   batch and then begins; Step handles one directory entry, or ends the directory; Push puts a
   subdirectory that has been counted into the queue of the worker.
   */
  datatype Action = Pop | Steal(victim: nat, n: nat) | GiveUp | Check | PushStolen | Step | Push

  datatype Event = Event(worker: nat, action: Action)

  predicate Valid(s: State) {
    |s.queues| == |s.points| == |s.results| > 0
    && (forall w :: 0 <= w < |s.points| ==> s.points[w].Processing? ==> s.points[w].i <= |s.points[w].dir.entries|)
    && (forall w :: 0 <= w < |s.points| ==> s.points[w].Pushing? ==>
          s.points[w].i < |s.points[w].dir.entries| && s.points[w].dir.entries[s.points[w].i].Subdir?)
    && (forall w :: 0 <= w < |s.results| ==> Wrapped(s.results[w]))
  }

  function Begin(s: State, w: nat, d: Dir): State
    requires Valid(s) && w < |s.points|
  {
    s.(points := s.points[w := Processing(d, 0)], results := s.results[w := Plus(s.results[w], Visit(d))])
  }

  function StepEntry(s: State, w: nat): State
    requires Valid(s) && w < |s.points| && s.points[w].Processing?
  {
    var Processing(d, i) := s.points[w];
    if i == |d.entries| then s.(counter := s.counter - 1, points := s.points[w := Ready])
    else
      var results := s.results[w := Plus(s.results[w], EntryTally(d.entries[i]))];
      if d.entries[i].Subdir? then
        s.(counter := s.counter + 1, results := results, points := s.points[w := Pushing(d, i)])
      else
        s.(results := results, points := s.points[w := Processing(d, i + 1)])
  }

  function Next(s: State, e: Event): (s': State)
    requires Valid(s)
    ensures Valid(s') && |s'.points| == |s.points|
  {
    var w := e.worker;
    if w >= |s.points| then s else
    match (s.points[w], e.action)
    case (Ready, Pop) =>
      var q := s.queues[w];
      if q == [] then s else Begin(s.(queues := s.queues[w := q[..|q| - 1]]), w, q[|q| - 1])
    case (Ready, Steal(v, n)) =>
      if v >= |s.queues| || v == w || !(1 <= n <= 16) || n > |s.queues[v]| then s else
      var q := s.queues[v];
      s.(queues := s.queues[v := q[n..]], points := s.points[w := Stolen(q[n - 1], q[..n - 1])])
    case (Ready, GiveUp) => s.(points := s.points[w := NoWork])
    case (NoWork, Check) => s.(points := s.points[w := if s.counter == 0 then Exited else Ready])
    case (Stolen(work, rest), PushStolen) =>
      if rest == [] then Begin(s, w, work)
      else s.(queues := s.queues[w := s.queues[w] + [rest[0]]], points := s.points[w := Stolen(work, rest[1..])])
    case (Processing(_, _), Step) => StepEntry(s, w)
    case (Pushing(d, i), Push) =>
      s.(queues := s.queues[w := s.queues[w] + [d.entries[i].dir]], points := s.points[w := Processing(d, i + 1)])
    case _ => s
  }

  function Run(s: State, events: seq<Event>): (s': State)
    requires Valid(s)
    ensures Valid(s') && |s'.points| == |s.points|
    decreases |events|
  {
    if events == [] then s else Run(Next(s, events[0]), events[1..])
  }

  // ----- the invariant -----

  /** Directories that count as outstanding because of what a worker is doing. */
  function Weight(p: Point): nat {
    match p
    case Stolen(_, rest) => 1 + |rest|
    case Processing(_, _) => 1
    case Pushing(_, _) => 2
    case _ => 0
  }

  /** What a worker has still to count, apart from its queue. */
  function Remaining(p: Point): (total: Tally)
    requires p.Processing? ==> p.i <= |p.dir.entries|
    requires p.Pushing? ==> p.i < |p.dir.entries| && p.dir.entries[p.i].Subdir?
    ensures Wrapped(total)
  {
    match p
    case Stolen(work, rest) => Plus(CountAll(rest), Count(work))
    case Processing(d, i) => CountEntries(d.entries[i..])
    case Pushing(d, i) => Plus(Count(d.entries[i].dir), CountEntries(d.entries[i + 1..]))
    case _ => ZERO
  }

  /** The share of a worker in the final total: counted, in hand, and queued. */
  function Share(s: State, w: nat): Tally
    requires Valid(s) && w < |s.points|
  {
    Plus(Plus(s.results[w], Remaining(s.points[w])), CountAll(s.queues[w]))
  }

  function Shares(s: State): seq<Tally>
    requires Valid(s)
  {
    seq(|s.points|, w requires 0 <= w < |s.points| => Share(s, w))
  }

  function Load(s: State, n: nat): nat
    requires |s.queues| == |s.points| && n <= |s.points|
  {
    if n == 0 then 0 else Load(s, n - 1) + |s.queues[n - 1]| + Weight(s.points[n - 1])
  }

  ghost predicate Inv(s: State, total: Tally) {
    && Valid(s)
    && s.counter == Load(s, |s.points|)
    && Sum(Shares(s)) == total
    && (Exited in s.points ==> s.counter == 0)
  }

  /** Only worker w and its queue change. */
  ghost predicate LocalStep(s: State, s': State, w: nat) {
    && Valid(s) && Valid(s') && w < |s.points| == |s'.points|
    && s'.points == s.points[w := s'.points[w]]
    && s'.queues == s.queues[w := s'.queues[w]]
    && s'.results == s.results[w := s'.results[w]]
  }

  lemma LocalShares(s: State, s': State, w: nat)
    requires LocalStep(s, s', w) && Share(s', w) == Share(s, w)
    ensures Shares(s') == Shares(s)
  {
    hide Plus;
    forall k | 0 <= k < |s.points|
      ensures Share(s', k) == Share(s, k)
    {
    }
  }

  lemma {:induction false} LocalLoad(s: State, s': State, w: nat, n: nat)
    requires LocalStep(s, s', w) && n <= |s.points|
    ensures Load(s', n) - Load(s, n)
         == if w < n then |s'.queues[w]| + Weight(s'.points[w]) - |s.queues[w]| - Weight(s.points[w]) else 0
  {
    if n > 0 {
      LocalLoad(s, s', w, n - 1);
    }
  }

  lemma {:induction false} LoadDominates(s: State, w: nat, n: nat)
    requires |s.queues| == |s.points| && w < n <= |s.points|
    ensures Weight(s.points[w]) + |s.queues[w]| <= Load(s, n)
  {
    if w < n - 1 {
      LoadDominates(s, w, n - 1);
    }
  }

  /** Starting on a directory turns its count into its visit and the count of its entries. */
  lemma BeginShare(s: State, w: nat, d: Dir)
    requires Valid(s) && w < |s.points|
    ensures Share(Begin(s, w, d), w) == Plus(Plus(s.results[w], Count(d)), CountAll(s.queues[w]))
  {
    hide Plus;
    assert d.entries[0..] == d.entries;
    PlusAssociates(s.results[w], Visit(d), CountEntries(d.entries));
  }

  lemma PopShare(s: State, w: nat)
    requires Valid(s) && w < |s.points| && s.points[w].Ready? && s.queues[w] != []
    ensures Share(Next(s, Event(w, Pop)), w) == Share(s, w)
  {
    hide Plus;
    var q := s.queues[w];
    var rest, d := q[..|q| - 1], q[|q| - 1];
    BeginShare(s.(queues := s.queues[w := rest]), w, d);
    PlusZero(s.results[w]);
    PlusAssociates(s.results[w], CountAll(rest), Count(d));
    PlusExchange(s.results[w], CountAll(rest), Count(d));
  }

  lemma KeepStolenShare(s: State, w: nat)
    requires Valid(s) && w < |s.points| && s.points[w].Stolen?
    ensures Share(Next(s, Event(w, PushStolen)), w) == Share(s, w)
  {
    hide Plus;
    var r, work, rest, q := s.results[w], s.points[w].work, s.points[w].rest, s.queues[w];
    if rest == [] {
      BeginShare(s, w, work);
      PlusZero(Count(work));
    } else {
      var d, more := rest[0], rest[1..];
      assert rest == [d] + more;
      CountAllAppend([d], more);
      CountAllAppend(q, [d]);
      CountAllOne(d);
      PlusAssociates(Count(d), CountAll(more), Count(work));
      var b := Plus(CountAll(more), Count(work));
      PlusCommutes(Count(d), b);
      PlusAssociates(r, b, Count(d));
      PlusExchange(Plus(r, b), Count(d), CountAll(q));
      PlusAssociates(Plus(r, b), CountAll(q), Count(d));
    }
  }

  lemma StepShare(s: State, w: nat)
    requires Valid(s) && w < |s.points| && s.points[w].Processing?
    ensures Share(StepEntry(s, w), w) == Share(s, w)
  {
    hide Plus;
    var Processing(d, i) := s.points[w];
    var es, r := d.entries, s.results[w];
    if i < |es| {
      var e, rest := es[i], CountEntries(es[i + 1..]);
      assert es[i..][0] == e && es[i..][1..] == es[i + 1..];
      assert CountEntries(es[i..]) == Plus(CountEntry(e), rest);
      if e.Subdir? {
        PlusAssociates(EntryTally(e), Count(e.dir), rest);
        PlusAssociates(r, EntryTally(e), Plus(Count(e.dir), rest));
      } else {
        PlusAssociates(r, EntryTally(e), rest);
      }
    }
  }

  lemma PushShare(s: State, w: nat)
    requires Valid(s) && w < |s.points| && s.points[w].Pushing?
    ensures Share(Next(s, Event(w, Push)), w) == Share(s, w)
  {
    hide Plus, Count, CountEntries, CountAll;
    var Pushing(d, i) := s.points[w];
    var child, below, q, r := d.entries[i].dir, CountEntries(d.entries[i + 1..]), s.queues[w], s.results[w];
    CountAllAppend(q, [child]);
    CountAllOne(child);
    PlusCommutes(Count(child), below);
    PlusAssociates(r, below, Count(child));
    PlusExchange(Plus(r, below), Count(child), CountAll(q));
    PlusAssociates(Plus(r, below), CountAll(q), Count(child));
  }

  ghost predicate CanSteal(s: State, w: nat, v: nat, n: nat) {
    && Valid(s) && w < |s.points| && v < |s.points| && v != w && s.points[w].Ready?
    && 1 <= n <= 16 && n <= |s.queues[v]|
  }

  /** A steal moves the count of its batch from the share of the victim to that of the thief. */
  lemma StealMovesShare(s: State, w: nat, v: nat, n: nat)
    requires CanSteal(s, w, v, n)
    ensures var s', batch := Next(s, Event(w, Steal(v, n))), CountAll(s.queues[v][..n]);
      Share(s, v) == Plus(Share(s', v), batch) && Share(s', w) == Plus(Share(s, w), batch)
  {
    hide Plus;
    var s', q := Next(s, Event(w, Steal(v, n))), s.queues[v];
    var batch := CountAll(q[..n]);
    assert q[..n][..n - 1] == q[..n - 1] && q == q[..n] + q[n..];
    assert Remaining(s'.points[w]) == batch;
    CountAllAppend(q[..n], q[n..]);
    PlusCommutes(batch, CountAll(q[n..]));
    PlusAssociates(Plus(s.results[v], Remaining(s.points[v])), CountAll(q[n..]), batch);
    PlusZero(s.results[w]);
    PlusExchange(s.results[w], batch, CountAll(s.queues[w]));
  }

  lemma StealLeavesOthers(s: State, w: nat, v: nat, n: nat)
    requires CanSteal(s, w, v, n)
    ensures var s' := Next(s, Event(w, Steal(v, n)));
      Shares(s') == Shares(s)[w := Share(s', w)][v := Share(s', v)]
  {
    hide Plus;
    var s' := Next(s, Event(w, Steal(v, n)));
    forall k | 0 <= k < |s.points| && k != w && k != v
      ensures Share(s', k) == Share(s, k)
    {
    }
  }

  lemma StealShares(s: State, w: nat, v: nat, n: nat)
    requires CanSteal(s, w, v, n)
    ensures Sum(Shares(Next(s, Event(w, Steal(v, n))))) == Sum(Shares(s))
  {
    hide Plus, Share, Sum, Next;
    var s', batch := Next(s, Event(w, Steal(v, n))), CountAll(s.queues[v][..n]);
    StealMovesShare(s, w, v, n);
    PlusAssociates(Share(s, w), batch, Share(s', v));
    PlusCommutes(batch, Share(s', v));
    StealLeavesOthers(s, w, v, n);
    SumMoves(Shares(s), w, v, Share(s', w), Share(s', v));
  }

  lemma {:induction false} StealLoad(s: State, w: nat, v: nat, n: nat, k: nat)
    requires CanSteal(s, w, v, n) && k <= |s.points|
    ensures Load(Next(s, Event(w, Steal(v, n))), k)
         == Load(s, k) + (if w < k then n else 0) - (if v < k then n else 0)
  {
    if k > 0 {
      StealLoad(s, w, v, n, k - 1);
    }
  }

  // ----- every step keeps the invariant -----

  /** A worker that is in the middle of something keeps the counter above zero, so nobody has left. */
  lemma BusyMeansNobodyLeft(s: State, total: Tally, w: nat)
    requires Inv(s, total) && w < |s.points| && Weight(s.points[w]) + |s.queues[w]| > 0
    ensures s.counter > 0 && Exited !in s.points
  {
    LoadDominates(s, w, |s.points|);
  }

  lemma LocalExits(s: State, s': State, w: nat)
    requires LocalStep(s, s', w) && Exited in s'.points && s'.points[w] != Exited
    ensures Exited in s.points
  {
    var k :| 0 <= k < |s'.points| && s'.points[k] == Exited;
    assert s.points[k] == Exited;
  }

  lemma LocalInv(s: State, s': State, w: nat, total: Tally)
    requires Inv(s, total) && LocalStep(s, s', w) && Share(s', w) == Share(s, w)
    requires s'.counter - s.counter
          == |s'.queues[w]| + Weight(s'.points[w]) - |s.queues[w]| - Weight(s.points[w])
    requires s'.points[w] == Exited ==> s'.counter == 0
    requires Exited in s.points ==> s'.counter == 0
    ensures Inv(s', total)
  {
    hide Share, Shares, Sum;
    LocalShares(s, s', w);
    LocalLoad(s, s', w, |s.points|);
    if Exited in s'.points && s'.points[w] != Exited {
      LocalExits(s, s', w);
    }
  }

  lemma StealInv(s: State, total: Tally, w: nat, v: nat, n: nat)
    requires Inv(s, total) && CanSteal(s, w, v, n)
    ensures Inv(Next(s, Event(w, Steal(v, n))), total)
  {
    hide Share, Shares, Sum, Plus;
    StealShares(s, w, v, n);
    StealLoad(s, w, v, n, |s.points|);
    BusyMeansNobodyLeft(s, total, v);
  }

  /** A local step that moves work around: its share stays and the counter follows the load. */
  ghost predicate WorkStep(s: State, s': State, w: nat) {
    && LocalStep(s, s', w)
    && s'.counter - s.counter == |s'.queues[w]| + Weight(s'.points[w]) - |s.queues[w]| - Weight(s.points[w])
    && s'.points[w] != Exited
  }

  lemma WorkInv(s: State, s': State, total: Tally, w: nat)
    requires Inv(s, total) && WorkStep(s, s', w) && Share(s', w) == Share(s, w)
    requires Weight(s.points[w]) + |s.queues[w]| > 0
    ensures Inv(s', total)
  {
    BusyMeansNobodyLeft(s, total, w);
    LocalInv(s, s', w, total);
  }

  lemma PopWorks(s: State, w: nat)
    requires Valid(s) && w < |s.points| && s.points[w].Ready? && s.queues[w] != []
    ensures WorkStep(s, Next(s, Event(w, Pop)), w)
  {
  }

  lemma KeepStolenWorks(s: State, w: nat)
    requires Valid(s) && w < |s.points| && s.points[w].Stolen?
    ensures WorkStep(s, Next(s, Event(w, PushStolen)), w)
  {
  }

  lemma StepWorks(s: State, w: nat)
    requires Valid(s) && w < |s.points| && s.points[w].Processing?
    ensures WorkStep(s, StepEntry(s, w), w)
  {
  }

  lemma PushWorks(s: State, w: nat)
    requires Valid(s) && w < |s.points| && s.points[w].Pushing?
    ensures WorkStep(s, Next(s, Event(w, Push)), w)
  {
  }

  lemma BusyInv(s: State, total: Tally, w: nat, a: Action)
    requires Inv(s, total) && w < |s.points| && Weight(s.points[w]) > 0
    ensures Inv(Next(s, Event(w, a)), total)
  {
    match (s.points[w], a)
    case (Stolen(_, _), PushStolen) =>
      KeepStolenWorks(s, w);
      KeepStolenShare(s, w);
      WorkInv(s, Next(s, Event(w, a)), total, w);
    case (Processing(_, _), Step) =>
      StepWorks(s, w);
      StepShare(s, w);
      WorkInv(s, Next(s, Event(w, a)), total, w);
    case (Pushing(_, _), Push) =>
      PushWorks(s, w);
      PushShare(s, w);
      WorkInv(s, Next(s, Event(w, a)), total, w);
    case _ =>
  }

  lemma WaitLocal(s: State, w: nat, a: Action)
    requires Valid(s) && w < |s.points|
    requires (s.points[w].Ready? && a.GiveUp?) || (s.points[w].NoWork? && a.Check?)
    ensures var s' := Next(s, Event(w, a));
      && LocalStep(s, s', w) && Share(s', w) == Share(s, w)
      && s'.counter == s.counter && s'.queues == s.queues && Weight(s'.points[w]) == Weight(s.points[w])
      && (s'.points[w] == Exited ==> s.counter == 0)
  {
    hide Plus;
  }

  lemma WaitInv(s: State, total: Tally, w: nat, a: Action)
    requires Inv(s, total) && w < |s.points|
    requires (s.points[w].Ready? && a.GiveUp?) || (s.points[w].NoWork? && a.Check?)
    ensures Inv(Next(s, Event(w, a)), total)
  {
    hide Share, Shares, Sum, Next;
    WaitLocal(s, w, a);
    LocalInv(s, Next(s, Event(w, a)), w, total);
  }

  lemma IdleInv(s: State, total: Tally, w: nat, a: Action)
    requires Inv(s, total) && w < |s.points| && Weight(s.points[w]) == 0
    ensures Inv(Next(s, Event(w, a)), total)
  {
    match (s.points[w], a)
    case (Ready, Pop) =>
      if s.queues[w] != [] {
        PopWorks(s, w);
        PopShare(s, w);
        WorkInv(s, Next(s, Event(w, a)), total, w);
      }
    case (Ready, Steal(v, n)) =>
      if v < |s.queues| && v != w && 1 <= n <= 16 && n <= |s.queues[v]| {
        StealInv(s, total, w, v, n);
      }
    case (Ready, GiveUp) => WaitInv(s, total, w, a);
    case (NoWork, Check) => WaitInv(s, total, w, a);
    case _ =>
  }

  lemma NextInv(s: State, total: Tally, e: Event)
    requires Inv(s, total)
    ensures Inv(Next(s, e), total)
  {
    if e.worker < |s.points| {
      if Weight(s.points[e.worker]) == 0 {
        IdleInv(s, total, e.worker, e.action);
      } else {
        BusyInv(s, total, e.worker, e.action);
      }
    }
  }

  lemma {:induction false} RunInv(s: State, total: Tally, events: seq<Event>)
    requires Inv(s, total)
    ensures Inv(Run(s, events), total)
    decreases |events|
  {
    if events != [] {
      NextInv(s, total, events[0]);
      RunInv(Next(s, events[0]), total, events[1..]);
    }
  }

  // ----- what the sequential count means -----

  /** All directories of a tree, itself included. */
  function Paths(d: Dir): (paths: multiset<string>)
    ensures |paths| >= 1
    decreases d, 1
  {
    multiset{d.path} + PathsBelow(d.entries)
  }

  function PathsBelow(es: seq<Entry>): multiset<string>
    decreases es, 0
  {
    if es == [] then multiset{} else EntryPaths(es[0]) + PathsBelow(es[1..])
  }

  function EntryPaths(e: Entry): multiset<string>
    decreases e, 2
  {
    if e.Subdir? then Paths(e.dir) else multiset{}
  }

  /** The number of files below a list of entries. */
  function FilesBelow(es: seq<Entry>): nat
    decreases es, 0
  {
    if es == [] then 0 else FilesIn(es[0]) + FilesBelow(es[1..])
  }

  function FilesIn(e: Entry): nat
    decreases e, 1
  {
    match e case File(_, _) => 1 case Subdir(d) => FilesBelow(d.entries) case _ => 0
  }

  /** The number of symbolic links, which are not followed. */
  function LinksBelow(es: seq<Entry>): nat
    decreases es, 0
  {
    if es == [] then 0 else LinksIn(es[0]) + LinksBelow(es[1..])
  }

  function LinksIn(e: Entry): nat
    decreases e, 1
  {
    match e case Symlink => 1 case Subdir(d) => LinksBelow(d.entries) case _ => 0
  }

  /** The sizes of all files, added up. */
  function BytesBelow(es: seq<Entry>): nat
    decreases es, 0
  {
    if es == [] then 0 else BytesIn(es[0]) + BytesBelow(es[1..])
  }

  function BytesIn(e: Entry): nat
    decreases e, 1
  {
    match e case File(bytes, _) => bytes case Subdir(d) => BytesBelow(d.entries) case _ => 0
  }

  /** The blocks of all files, added up. */
  function BlocksBelow(es: seq<Entry>): nat
    decreases es, 0
  {
    if es == [] then 0 else BlocksIn(es[0]) + BlocksBelow(es[1..])
  }

  function BlocksIn(e: Entry): nat
    decreases e, 1
  {
    match e case File(_, blocks) => blocks case Subdir(d) => BlocksBelow(d.entries) case _ => 0
  }

  /** What is to be reported about a tree: plain sums over everything in it, reduced to 64 bits at the end. */
  function Report(d: Dir): Tally {
    Tally(Low64(FilesBelow(d.entries)), Low64(LinksBelow(d.entries)), Low64(|Paths(d)| - 1),
          Low64(BytesBelow(d.entries)), Low64(BlocksBelow(d.entries)), Paths(d))
  }

  function Low64(x: nat): nat {
    x % 18446744073709551616
  }

  /** The count visits every directory of the tree as often as it occurs, and counts all but the root. */
  lemma {:induction false} CountVisitsAll(d: Dir)
    ensures Count(d).visited == Paths(d) && Count(d).directories == Wrap(|Paths(d)| - 1)
    decreases d, 1
  {
    CountVisitsBelow(d.entries);
    WrapAdds(0, |PathsBelow(d.entries)|);
  }

  lemma WrapOfNothing()
    ensures Wrap(0) == 0
  {
  }

  lemma WrapAdds(a: nat, b: nat)
    ensures Wrap(Wrap(a) + Wrap(b)) == Wrap(a + b)
    ensures Wrap(0 + Wrap(b)) == Wrap(b)
  {
  }

  lemma {:induction false} CountVisitsBelow(es: seq<Entry>)
    ensures CountEntries(es).visited == PathsBelow(es) && CountEntries(es).directories == Wrap(|PathsBelow(es)|)
    decreases es, 0
  {
    hide CountEntry, EntryPaths, Wrap;
    if es == [] {
      WrapOfNothing();
    } else {
      CountVisitsEntry(es[0]);
      CountVisitsBelow(es[1..]);
      WrapAdds(|EntryPaths(es[0])|, |PathsBelow(es[1..])|);
    }
  }

  lemma {:induction false} CountVisitsEntry(e: Entry)
    ensures CountEntry(e).visited == EntryPaths(e) && CountEntry(e).directories == Wrap(|EntryPaths(e)|)
    decreases e, 2
  {
    if e.Subdir? {
      CountVisitsAll(e.dir);
      WrapAdds(1, |Paths(e.dir)| - 1);
    }
  }

  /** The counters that CountVisitsAll does not speak about are the plain sums, reduced to 64 bits. */
  predicate SumsUp(total: Tally, files: nat, links: nat, bytes: nat, blocks: nat) {
    && total.files == Wrap(files) && total.softlinks == Wrap(links)
    && total.bytes == Wrap(bytes) && total.blocks == Wrap(blocks)
  }

  lemma SumsAdd(a: Tally, b: Tally, files: nat, links: nat, bytes: nat, blocks: nat, files': nat, links': nat,
                bytes': nat, blocks': nat)
    requires SumsUp(a, files, links, bytes, blocks) && SumsUp(b, files', links', bytes', blocks')
    ensures SumsUp(Plus(a, b), files + files', links + links', bytes + bytes', blocks + blocks')
  {
    hide Wrap;
    WrapAdds(files, files');
    WrapAdds(links, links');
    WrapAdds(bytes, bytes');
    WrapAdds(blocks, blocks');
  }

  lemma {:induction false} EntriesSumUp(es: seq<Entry>)
    ensures SumsUp(CountEntries(es), FilesBelow(es), LinksBelow(es), BytesBelow(es), BlocksBelow(es))
    decreases es, 0
  {
    hide SumsUp, CountEntry, CountEntries, FilesIn, LinksIn, BytesIn, BlocksIn;
    hide FilesBelow, LinksBelow, BytesBelow, BlocksBelow;
    if es == [] {
      NothingAtAll();
    } else {
      EntrySumsUp(es[0]);
      EntriesSumUp(es[1..]);
      FirstAndRestSumUp(es);
    }
  }

  lemma NothingAtAll()
    ensures SumsUp(CountEntries([]), FilesBelow([]), LinksBelow([]), BytesBelow([]), BlocksBelow([]))
  {
    NothingSumsUp(ZERO);
  }

  lemma FirstAndRestSumUp(es: seq<Entry>)
    requires es != []
    requires var e := es[0]; SumsUp(CountEntry(e), FilesIn(e), LinksIn(e), BytesIn(e), BlocksIn(e))
    requires var rest := es[1..];
      SumsUp(CountEntries(rest), FilesBelow(rest), LinksBelow(rest), BytesBelow(rest), BlocksBelow(rest))
    ensures SumsUp(CountEntries(es), FilesBelow(es), LinksBelow(es), BytesBelow(es), BlocksBelow(es))
  {
    hide SumsUp, CountEntry, CountEntries, FilesIn, LinksIn, BytesIn, BlocksIn, Plus;
    hide FilesBelow, LinksBelow, BytesBelow, BlocksBelow;
    var e, rest := es[0], es[1..];
    FirstAndRest(es);
    SumsAdd(CountEntry(e), CountEntries(rest), FilesIn(e), LinksIn(e), BytesIn(e), BlocksIn(e),
            FilesBelow(rest), LinksBelow(rest), BytesBelow(rest), BlocksBelow(rest));
  }

  lemma FirstAndRest(es: seq<Entry>)
    requires es != []
    ensures CountEntries(es) == Plus(CountEntry(es[0]), CountEntries(es[1..]))
    ensures FilesBelow(es) == FilesIn(es[0]) + FilesBelow(es[1..])
    ensures LinksBelow(es) == LinksIn(es[0]) + LinksBelow(es[1..])
    ensures BytesBelow(es) == BytesIn(es[0]) + BytesBelow(es[1..])
    ensures BlocksBelow(es) == BlocksIn(es[0]) + BlocksBelow(es[1..])
  {
    hide Plus, CountEntry, FilesIn, LinksIn, BytesIn, BlocksIn;
  }

  lemma {:induction false} EntrySumsUp(e: Entry)
    ensures SumsUp(CountEntry(e), FilesIn(e), LinksIn(e), BytesIn(e), BlocksIn(e))
    decreases e, 1
  {
    if e.Subdir? {
      EntriesSumUp(e.dir.entries);
      SubdirSumsUp(e);
    } else {
      PlainEntrySumsUp(e);
    }
  }

  lemma PlainEntrySumsUp(e: Entry)
    requires !e.Subdir?
    ensures SumsUp(CountEntry(e), FilesIn(e), LinksIn(e), BytesIn(e), BlocksIn(e))
  {
  }

  lemma SubdirSumsUp(e: Entry)
    requires e.Subdir?
    requires var es := e.dir.entries;
      SumsUp(CountEntries(es), FilesBelow(es), LinksBelow(es), BytesBelow(es), BlocksBelow(es))
    ensures SumsUp(CountEntry(e), FilesIn(e), LinksIn(e), BytesIn(e), BlocksIn(e))
  {
    var es := e.dir.entries;
    var files, links, bytes, blocks := FilesBelow(es), LinksBelow(es), BytesBelow(es), BlocksBelow(es);
    NothingSumsUp(Visit(e.dir));
    NothingSumsUp(EntryTally(e));
    hide SumsUp, Plus, Visit, EntryTally, CountEntries, FilesBelow, LinksBelow, BytesBelow, BlocksBelow;
    SumsAdd(Visit(e.dir), CountEntries(es), 0, 0, 0, 0, files, links, bytes, blocks);
    SumsAdd(EntryTally(e), Count(e.dir), 0, 0, 0, 0, files, links, bytes, blocks);
  }

  lemma NothingSumsUp(a: Tally)
    requires a.files == a.softlinks == a.bytes == a.blocks == 0
    ensures SumsUp(a, 0, 0, 0, 0)
  {
  }

  /** The sequential count of a tree reports the plain sums over everything in it. */
  lemma CountIsReport(d: Dir)
    ensures Count(d) == Report(d)
  {
    CountVisitsAll(d);
    EntriesSumUp(d.entries);
    NothingSumsUp(Visit(d));
    SumsAdd(Visit(d), CountEntries(d.entries), 0, 0, 0, 0, FilesBelow(d.entries), LinksBelow(d.entries),
            BytesBelow(d.entries), BlocksBelow(d.entries));
    hide CountEntries, Plus;
  }

  // ----- the whole count -----

  /** The first level of a workspace, counted before any worker exists. */
  method CollectLevel(root: Dir) returns (result: Tally, subdirs: seq<Dir>)
    ensures Wrapped(result)
    ensures Plus(result, CountAll(subdirs)) == Report(root)
  {
    hide Plus, Report;
    CountIsReport(root);
    result, subdirs := Visit(root), [];
    var es := root.entries;
    PlusZero(result);
    assert es[0..] == es;
    for i := 0 to |es|
      invariant Wrapped(result)
      invariant Plus(Plus(result, CountAll(subdirs)), CountEntries(es[i..])) == Count(root)
    {
      ghost var before, level := CountAll(subdirs), result;
      ghost var rest := CountEntries(es[i + 1..]);
      assert es[i..][0] == es[i] && es[i..][1..] == es[i + 1..];
      result := Plus(result, EntryTally(es[i]));
      if es[i].Subdir? {
        CountAllAppend(subdirs, [es[i].dir]);
        CountAllOne(es[i].dir);
        subdirs := subdirs + [es[i].dir];
      }
      CollectStep(level, before, es[i], rest);
    }
    PlusZero(Plus(result, CountAll(subdirs)));
  }

  /** One entry moves from what remains to what is counted or listed. */
  lemma CollectStep(level: Tally, listed: Tally, e: Entry, rest: Tally)
    requires Wrapped(listed)
    ensures var listed' := if e.Subdir? then Plus(listed, Count(e.dir)) else listed;
      Plus(Plus(Plus(level, EntryTally(e)), listed'), rest) == Plus(Plus(level, listed), Plus(CountEntry(e), rest))
  {
    hide Plus;
    var own := EntryTally(e);
    if e.Subdir? {
      PlusAssociates(Plus(level, own), listed, Count(e.dir));
      PlusExchange(level, own, listed);
      PlusAssociates(Plus(level, listed), own, Count(e.dir));
    } else {
      PlusExchange(level, own, listed);
    }
    PlusAssociates(Plus(level, listed), CountEntry(e), rest);
  }

  /** Round-robin distribution of the first level over the queues. */
  function Distribute(subdirs: seq<Dir>, workers: nat): (queues: seq<seq<Dir>>)
    requires workers > 0
    ensures |queues| == workers
  {
    if subdirs == [] then seq(workers, _ => []) else
    var queues, i := Distribute(subdirs[..|subdirs| - 1], workers), (|subdirs| - 1) % workers;
    queues[i := queues[i] + [subdirs[|subdirs| - 1]]]
  }

  /** The number of the directory at position k of queue w. */
  function NumberAt(k: nat, workers: nat, w: nat): nat {
    k * workers + w
  }

  /** A queue holds what it was dealt: every directory whose number is its own modulo the number of workers. */
  predicate Dealt(q: seq<Dir>, subdirs: seq<Dir>, workers: nat, w: nat) {
    && |subdirs| <= NumberAt(|q|, workers, w)
    && forall k :: 0 <= k < |q| ==> DealtAt(q, subdirs, workers, w, k)
  }

  predicate DealtAt(q: seq<Dir>, subdirs: seq<Dir>, workers: nat, w: nat, k: nat)
    requires k < |q|
  {
    NumberAt(k, workers, w) < |subdirs| && q[k] == subdirs[NumberAt(k, workers, w)]
  }

  /** The round-robin loop deals every directory to one queue, in order. */
  lemma {:induction false} RoundRobin(subdirs: seq<Dir>, workers: nat, w: nat)
    requires w < workers
    ensures Dealt(Distribute(subdirs, workers)[w], subdirs, workers, w)
  {
    if subdirs != [] {
      var n := |subdirs| - 1;
      RoundRobin(subdirs[..n], workers, w);
      DealOne(subdirs, Distribute(subdirs[..n], workers)[w], workers, w);
      hide Dealt;
    }
  }

  lemma DealOne(subdirs: seq<Dir>, q: seq<Dir>, workers: nat, w: nat)
    requires w < workers && subdirs != [] && Dealt(q, subdirs[..|subdirs| - 1], workers, w)
    ensures var n := |subdirs| - 1;
      Dealt(if n % workers == w then q + [subdirs[n]] else q, subdirs, workers, w)
  {
    var n := |subdirs| - 1;
    var q' := if n % workers == w then q + [subdirs[n]] else q;
    if q != [] {
      assert DealtAt(q, subdirs[..n], workers, w, |q| - 1);
    }
    NextPlace(n, workers, w, |q|);
    hide NumberAt;
    forall k | 0 <= k < |q'|
      ensures DealtAt(q', subdirs, workers, w, k)
    {
      if k < |q| {
        assert DealtAt(q, subdirs[..n], workers, w, k);
      }
    }
  }

  lemma Multiples(d: int, m: nat)
    ensures d >= 1 ==> d * m >= m
    ensures d <= -1 ==> d * m + m <= 0
  {
  }

  /** The first number of a queue that is not below n is n itself exactly if the remainders agree. */
  lemma NextPlace(n: nat, m: nat, w: nat, k: nat)
    requires w < m && n <= NumberAt(k, m, w) && (k > 0 ==> NumberAt(k - 1, m, w) < n)
    ensures n % m == w <==> NumberAt(k, m, w) == n
    ensures NumberAt(k + 1, m, w) == NumberAt(k, m, w) + m
  {
    hide NumberAt;
    NumberGrows(k, m, w);
    if k > 0 {
      NumberGrows(k - 1, m, w);
    } else {
      NumberIs(0, m, w);
    }
    var q, r := QuotientAndRemainder(n, m);
    SamePlace(n, m, r, w, q, k);
  }

  lemma QuotientAndRemainder(n: nat, m: nat) returns (q: nat, r: nat)
    requires m > 0
    ensures r == n % m < m && NumberAt(q, m, r) == n
  {
    q, r := n / m, n % m;
  }

  lemma NumberIs(q: nat, m: nat, r: nat)
    ensures NumberAt(q, m, r) == q * m + r
  {
  }

  lemma NumberGrows(k: nat, m: nat, w: nat)
    ensures NumberAt(k + 1, m, w) == NumberAt(k, m, w) + m
  {
    assert (k + 1) * m == k * m + m;
  }

  lemma SamePlace(n: nat, m: nat, r: nat, w: nat, q: nat, k: nat)
    requires r < m && w < m && n == NumberAt(q, m, r) <= NumberAt(k, m, w) < n + m
    ensures r == w <==> NumberAt(k, m, w) == n
  {
    var d := k - q;
    assert d * m == NumberAt(k, m, w) - w - (NumberAt(q, m, r) - r) by {
      assert d * m == k * m - q * m;
    }
    hide NumberAt;
    Multiples(d, m);
  }

  function Start(subdirs: seq<Dir>, workers: nat): State
    requires workers > 0
  {
    State(|subdirs|, Distribute(subdirs, workers), seq(workers, _ => Ready), seq(workers, _ => ZERO))
  }

  /** Adding one directory to the distribution adds it to one queue. */
  lemma DistributeOne(less: seq<Dir>, d: Dir, workers: nat) returns (i: nat)
    requires workers > 0
    ensures var s0, s1 := Start(less, workers), Start(less + [d], workers);
      && i < workers && LocalStep(s0, s1, i)
      && s1.queues[i] == s0.queues[i] + [d] && s1.points[i] == s0.points[i]
      && Share(s1, i) == Plus(Share(s0, i), Count(d))
  {
    hide Plus;
    i := |less| % workers;
    assert (less + [d])[..|less|] == less;
    var s0 := Start(less, workers);
    CountAllAppend(s0.queues[i], [d]);
    CountAllOne(d);
    PlusAssociates(Plus(ZERO, ZERO), CountAll(s0.queues[i]), Count(d));
  }

  lemma LocalShareAdds(s0: State, s1: State, i: nat, d: Dir)
    requires LocalStep(s0, s1, i) && Share(s1, i) == Plus(Share(s0, i), Count(d))
    ensures Sum(Shares(s1)) == Plus(Sum(Shares(s0)), Count(d))
  {
    hide Plus;
    forall k | 0 <= k < |s0.points| && k != i
      ensures Share(s1, k) == Share(s0, k)
    {
    }
    assert Shares(s1) == Shares(s0)[i := Share(s1, i)];
    SumAt(Shares(s0), i, Share(s1, i));
    SumAt(Shares(s0), i, Share(s0, i));
    assert Shares(s0) == Shares(s0)[i := Share(s0, i)];
    PlusAssociates(Sum(Shares(s0)[i := ZERO]), Share(s0, i), Count(d));
  }

  lemma DistributeMore(less: seq<Dir>, d: Dir, workers: nat)
    requires workers > 0
    ensures var s0, s1 := Start(less, workers), Start(less + [d], workers);
      && Sum(Shares(s1)) == Plus(Sum(Shares(s0)), Count(d))
      && Load(s1, workers) == Load(s0, workers) + 1
  {
    hide Plus, Sum, Shares, Share;
    var i := DistributeOne(less, d, workers);
    LocalLoad(Start(less, workers), Start(less + [d], workers), i, workers);
    LocalShareAdds(Start(less, workers), Start(less + [d], workers), i, d);
  }

  lemma {:induction false} DistributeCounts(subdirs: seq<Dir>, workers: nat)
    requires workers > 0
    ensures Sum(Shares(Start(subdirs, workers))) == CountAll(subdirs)
    ensures Load(Start(subdirs, workers), workers) == |subdirs|
  {
    if subdirs == [] {
      var s := Start(subdirs, workers);
      NothingToDo(s, workers);
      assert Shares(s)[..workers] == Shares(s);
    } else {
      hide Plus, Sum, Shares, Load, Start;
      var less, d := subdirs[..|subdirs| - 1], subdirs[|subdirs| - 1];
      assert subdirs == less + [d];
      DistributeCounts(less, workers);
      DistributeMore(less, d, workers);
    }
  }

  lemma {:induction false} NothingToDo(s: State, n: nat)
    requires Valid(s) && n <= |s.points|
    requires forall w :: 0 <= w < |s.points| ==> s.points[w].Ready? && s.queues[w] == [] && s.results[w] == ZERO
    ensures Sum(Shares(s)[..n]) == ZERO && Load(s, n) == 0
  {
    hide Plus;
    if n > 0 {
      NothingToDo(s, n - 1);
      assert Shares(s)[..n][..n - 1] == Shares(s)[..n - 1];
      PlusZero(ZERO);
      assert Share(s, n - 1) == ZERO;
    }
  }

  lemma StartInv(subdirs: seq<Dir>, workers: nat)
    requires workers > 0
    ensures Inv(Start(subdirs, workers), CountAll(subdirs)) && |Start(subdirs, workers).points| == workers
  {
    hide Sum, Shares, Share, Load, CountAll, Plus;
    DistributeCounts(subdirs, workers);
  }

  predicate AllExited(s: State) {
    forall w :: 0 <= w < |s.points| ==> s.points[w].Exited?
  }

  /** Once every worker has left, nothing is queued and the local results are all there is. */
  lemma ExitedMeansDone(s: State, total: Tally)
    requires Inv(s, total) && AllExited(s)
    ensures Sum(s.results) == total
    ensures forall w :: 0 <= w < |s.queues| ==> s.queues[w] == []
  {
    assert s.points[0] == Exited;
    forall w | 0 <= w < |s.queues|
      ensures s.queues[w] == [] && Share(s, w) == s.results[w]
    {
      LoadDominates(s, w, |s.points|);
      PlusZero(s.results[w]);
    }
    assert Shares(s) == s.results;
  }

  /**
   Work stealing counts what the recursion counts: for every tree, every number of workers and
   every interleaving, if all workers have left the loop then the first level plus the local
   results is the sequential count, and every directory was processed exactly once.
   */
  lemma TraversalIsExact(subdirs: seq<Dir>, workers: nat, events: seq<Event>)
    requires workers > 0
    ensures var s := Run(Start(subdirs, workers), events);
      && s.counter == Load(s, workers)
      && (AllExited(s) ==> Sum(s.results) == CountAll(subdirs))
      && (AllExited(s) ==> s.counter == 0 && forall w :: 0 <= w < workers ==> s.queues[w] == [])
  {
    var s0 := Start(subdirs, workers);
    StartInv(subdirs, workers);
    hide Start;
    RunInv(s0, CountAll(subdirs), events);
    var s := Run(s0, events);
    if AllExited(s) {
      ExitedMeansDone(s, CountAll(subdirs));
      assert s.points[0] == Exited;
    }
  }

  /** The results of the workers are added to that of the first level. */
  method Aggregate(level: Tally, results: seq<Tally>) returns (result: Tally)
    requires Wrapped(level)
    ensures result == Plus(level, Sum(results))
  {
    hide Plus;
    result := level;
    PlusZero(level);
    for i := 0 to |results|
      invariant Wrapped(result) && result == Plus(level, Sum(results[..i]))
    {
      assert results[..i + 1][..i] == results[..i];
      PlusAssociates(level, Sum(results[..i]), results[i]);
      result := Plus(result, results[i]);
    }
    assert results[..|results|] == results;
  }

  /**
   The whole tool: the first level, then the workers in the interleaving that the scheduler picks.
   There is no result while some worker is still in its loop; any result reports the plain sums.
   */
  method StatWorkspace(root: Dir, workers: nat, schedule: seq<Event>) returns (result: Option<Tally>)
    requires workers > 0
    ensures result.Some? ==> result.value == Report(root)
  {
    hide Plus, Report;
    var level, subdirs := CollectLevel(root);
    if subdirs == [] {
      PlusZero(level);
      return Some(level);
    }
    TraversalIsExact(subdirs, workers, schedule);
    var s := Run(Start(subdirs, workers), schedule);
    if !AllExited(s) {
      return None;
    }
    var total := Aggregate(level, s.results);
    result := Some(total);
  }
}
