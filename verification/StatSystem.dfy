/**
 The whole traversal: the workers of ws_stat on the lock-free queues themselves. An event is one atomic
 step of one worker, inside a queue operation or between two. As long as successful steals stay within
 the tail and pushes fill free slots, which QueueSlots shows to be what the queues need, every step is a
 step of the workers on exactly-once queues, so that the result is the sequential count.
 */
module StatSystem {
  import opened Wrappers
  import Q = QueueProtocol
  import S = QueueSlots
  import R = QueueRefinement
  import T = StatTraversal

  /**
   Program points of a worker. While it is Popping, Refilling its queue from a stolen batch or Publishing
   a subdirectory, its own queue is inside an operation of the owner; while Stealing, it is a thief of
   the victim's queue and has got some items so far.
   */
  datatype Point =
    | Ready
    | NoWork
    | Exited
    | Popping
    | Stealing(victim: nat, got: seq<T.Dir>)
    | Stolen(work: T.Dir, rest: seq<T.Dir>)
    | Refilling(work: T.Dir, rest: seq<T.Dir>)
    | Processing(dir: T.Dir, i: nat)
    | Pushing(dir: T.Dir, i: nat)
    | Publishing(dir: T.Dir, i: nat)

  /** `items[v][k]` is the directory that push number k put into queue v. */
  datatype State = State(
    counter: int,
    queues: seq<Q.State>,
    items: seq<seq<T.Dir>>,
    points: seq<Point>,
    results: seq<T.Tally>)

  datatype Action =
    | StartPop
    | OwnerStep
    | StartSteal(victim: nat)
    | ThiefStep
    | GiveUp
    | Check
    | Begin
    | StartPush
    | Step

  datatype Event = Event(worker: nat, action: Action)

  const BATCH: nat := 16

  /** What is moved out of a slot from which somebody has already moved: an empty path. */
  const NOTHING: T.Dir := T.Dir("", [])

  predicate Sized(c: State) {
    |c.queues| == |c.items| == |c.points| == |c.results| > 0
  }

  function ItemAt(items: seq<T.Dir>, k: nat): T.Dir {
    if k < |items| then items[k] else NOTHING
  }

  function ItemIn(items: seq<T.Dir>, cell: Q.Cell): T.Dir {
    if cell.Holds? then ItemAt(items, cell.push) else NOTHING
  }

  function ItemsAt(items: seq<T.Dir>, ks: seq<nat>): (ds: seq<T.Dir>)
    ensures |ds| == |ks|
  {
    seq(|ks|, j requires 0 <= j < |ks| => ItemAt(items, ks[j]))
  }

  predicate AtSubdir(d: T.Dir, i: nat) {
    i < |d.entries| && d.entries[i].Subdir?
  }

  // ----- steps -----

  /** The queue an event works on, and what it does there. */
  function QueueEvent(c: State, e: Event): Option<(nat, Q.Event)>
    requires Sized(c) && e.worker < |c.points|
  {
    var w := e.worker;
    match (c.points[w], e.action)
    case (Ready, StartPop) => Some((w, Q.StartPop))
    case (Ready, StartSteal(v)) => if v < |c.queues| && v != w then Some((v, Q.StartSteal(w, Some(BATCH)))) else None
    case (Popping, OwnerStep) => Some((w, Q.Owner))
    case (Stealing(v, _), ThiefStep) => if v < |c.queues| then Some((v, Q.Thief(w))) else None
    case (Stolen(_, rest), StartPush) => if rest != [] then Some((w, Q.StartPush)) else None
    case (Refilling(_, _), OwnerStep) => Some((w, Q.Owner))
    case (Pushing(_, _), StartPush) => Some((w, Q.StartPush))
    case (Publishing(_, _), OwnerStep) => Some((w, Q.Owner))
    case _ => None
  }

  function BeginAt(c: State, w: nat, d: T.Dir): State
    requires Sized(c) && w < |c.points|
  {
    c.(points := c.points[w := Processing(d, 0)], results := c.results[w := T.Plus(c.results[w], T.Visit(d))])
  }

  function FromBatch(got: seq<T.Dir>): Point {
    if got == [] then Ready else Stolen(got[|got| - 1], got[..|got| - 1])
  }

  /** What a thief has got after a step of its steal. */
  function GotNow(items: seq<T.Dir>, q: Q.State, w: nat, got: seq<T.Dir>): seq<T.Dir> {
    if w in q.thieves && S.MovesNow(q.thieves[w])
    then got + [ItemIn(items, Q.Read(q, q.thieves[w].t + q.thieves[w].i))]
    else got
  }

  /** A worker after an atomic step on queue v has made that queue q'. */
  function Settle(c: State, w: nat, v: nat, q': Q.State): (c': State)
    requires Sized(c) && w < |c.points| && v < |c.points|
    ensures Sized(c') && |c'.points| == |c.points|
  {
    var q, c1 := c.queues[v], c.(queues := c.queues[v := q']);
    match c.points[w]
    case Ready => c1.(points := c.points[w := if v == w then Popping else Stealing(v, [])])
    case Popping =>
      if q.owner.PopTake? then BeginAt(c1, w, ItemIn(c.items[v], Q.Read(q, q.owner.b)))
      else if q'.owner.Idle? then c1.(points := c.points[w := Ready])
      else c1
    case Stealing(_, got) =>
      var point := if w in q'.thieves then Stealing(v, GotNow(c.items[v], q, w, got)) else FromBatch(got);
      c1.(points := c.points[w := point])
    case Stolen(work, rest) => c1.(points := c.points[w := Refilling(work, rest)])
    case Refilling(work, rest) =>
      if !q.owner.PushWritten? || rest == [] then c1
      else c1.(items := c.items[v := c.items[v] + [rest[0]]], points := c.points[w := Stolen(work, rest[1..])])
    case Pushing(d, i) => c1.(points := c.points[w := Publishing(d, i)])
    case Publishing(d, i) =>
      if !q.owner.PushWritten? || !AtSubdir(d, i) then c1
      else c1.(items := c.items[v := c.items[v] + [d.entries[i].dir]], points := c.points[w := Processing(d, i + 1)])
    case _ => c1
  }

  /** A step of a worker outside the queues. */
  function LocalNext(c: State, e: Event): (c': State)
    requires Sized(c) && e.worker < |c.points|
    ensures Sized(c') && |c'.points| == |c.points|
  {
    var w := e.worker;
    match (c.points[w], e.action)
    case (Ready, GiveUp) => c.(points := c.points[w := NoWork])
    case (NoWork, Check) => c.(points := c.points[w := if c.counter == 0 then Exited else Ready])
    case (Stolen(work, rest), Begin) => if rest == [] then BeginAt(c, w, work) else c
    case (Processing(d, i), Step) =>
      if i >= |d.entries| then c.(counter := c.counter - 1, points := c.points[w := Ready])
      else
        var results := c.results[w := T.Plus(c.results[w], T.EntryTally(d.entries[i]))];
        if d.entries[i].Subdir? then
          c.(counter := c.counter + 1, results := results, points := c.points[w := Pushing(d, i)])
        else c.(results := results, points := c.points[w := Processing(d, i + 1)])
    case _ => c
  }

  function Next(c: State, e: Event): (c': State)
    requires Sized(c)
    ensures Sized(c') && |c'.points| == |c.points|
  {
    if e.worker >= |c.points| then c else
    match QueueEvent(c, e)
    case None => LocalNext(c, e)
    case Some((v, qe)) => Settle(c, e.worker, v, Q.Next(c.queues[v], qe))
  }

  function Run(c: State, events: seq<Event>): (c': State)
    requires Sized(c)
    ensures Sized(c') && |c'.points| == |c.points|
    decreases |events|
  {
    if events == [] then c else Run(Next(c, events[0]), events[1..])
  }

  /** What the queues need: the steal stays within the tail, the push fills a free slot. */
  ghost predicate Safe(c: State, e: Event)
    requires Sized(c)
  {
    e.worker < |c.points| && QueueEvent(c, e).Some? ==>
      var (v, qe) := QueueEvent(c, e).value;
      Q.WithinTail(c.queues[v], qe) && S.WritesFree(c.queues[v], qe)
  }

  ghost predicate SafeRun(c: State, events: seq<Event>)
    requires Sized(c)
    decreases |events|
  {
    events == [] || (Safe(c, events[0]) && SafeRun(Next(c, events[0]), events[1..]))
  }

  // ----- the workers on exactly-once queues -----

  function QueueOf(c: State, v: nat): seq<T.Dir>
    requires Sized(c) && v < |c.points|
  {
    ItemsAt(c.items[v], R.Live(c.queues[v]))
  }

  function BatchPoint(got: seq<T.Dir>): T.Point {
    if got == [] then T.Ready else T.Stolen(got[|got| - 1], got[..|got| - 1])
  }

  /** A claim counts at once, though the item is moved out later. */
  function PointOf(c: State, w: nat): T.Point
    requires Sized(c) && w < |c.points|
  {
    match c.points[w]
    case Ready => T.Ready
    case NoWork => T.NoWork
    case Exited => T.Exited
    case Popping =>
      if S.OwnerTook(c.queues[w]) then T.Processing(ItemAt(c.items[w], c.queues[w].owner.push), 0) else T.Ready
    case Stealing(v, got) =>
      if v < |c.queues| && w in c.queues[v].thieves && c.queues[v].thieves[w].StealMoving?
         && c.queues[v].thieves[w].i <= |c.queues[v].thieves[w].pushes|
      then BatchPoint(got + ItemsAt(c.items[v], c.queues[v].thieves[w].pushes[c.queues[v].thieves[w].i..]))
      else T.Ready
    case Stolen(work, rest) => T.Stolen(work, rest)
    case Refilling(work, rest) => T.Stolen(work, rest)
    case Processing(d, i) => T.Processing(d, i)
    case Pushing(d, i) => T.Pushing(d, i)
    case Publishing(d, i) => T.Pushing(d, i)
  }

  function ResultOf(c: State, w: nat): T.Tally
    requires Sized(c) && w < |c.points|
  {
    if c.points[w].Popping? && S.OwnerTook(c.queues[w])
    then T.Plus(c.results[w], T.Visit(ItemAt(c.items[w], c.queues[w].owner.push)))
    else c.results[w]
  }

  function Abstract(c: State): T.State
    requires Sized(c)
  {
    T.State(c.counter,
            seq(|c.points|, v requires 0 <= v < |c.points| => QueueOf(c, v)),
            seq(|c.points|, w requires 0 <= w < |c.points| => PointOf(c, w)),
            seq(|c.points|, w requires 0 <= w < |c.points| => ResultOf(c, w)))
  }

  // ----- how workers and queues fit together -----

  ghost predicate QueueOk(c: State, v: nat)
    requires Sized(c) && v < |c.points|
  {
    var q := c.queues[v];
    && Q.Inv(q) && S.SlotInv(q) && |c.items[v]| == |q.index|
    && forall id <- q.thieves :: id < |c.points| && c.points[id].Stealing? && c.points[id].victim == v
  }

  /** A thief and what it has got so far. */
  predicate StealOk(items: seq<T.Dir>, got: seq<T.Dir>, thief: Q.ThiefPoint) {
    match thief
    case StealLoaded(_, limit) => limit == Some(BATCH) && got == []
    case StealReady(_, n) => n <= BATCH && got == []
    case StealMoving(_, pushes, i) =>
      && i <= |pushes| && 1 <= |pushes| && (forall j :: 0 <= j < |pushes| ==> pushes[j] < |items|)
      && got == ItemsAt(items, pushes[..i])
  }

  predicate WorkerOk(c: State, w: nat)
    requires Sized(c) && w < |c.points|
  {
    var owner := c.queues[w].owner;
    && T.Wrapped(c.results[w])
    && match c.points[w]
      case Popping => !owner.Idle? && !Q.Pushing(owner)
      case Stealing(v, got) =>
        && owner.Idle? && v < |c.points| && v != w && w in c.queues[v].thieves
        && StealOk(c.items[v], got, c.queues[v].thieves[w])
      case Refilling(_, rest) => Q.Pushing(owner) && rest != []
      case Publishing(d, i) => Q.Pushing(owner) && AtSubdir(d, i)
      case Processing(d, i) => owner.Idle? && i <= |d.entries|
      case Pushing(d, i) => owner.Idle? && AtSubdir(d, i)
      case _ => owner.Idle?
  }

  ghost predicate Coherent(c: State) {
    && Sized(c)
    && (forall v | 0 <= v < |c.points| :: QueueOk(c, v))
    && (forall w | 0 <= w < |c.points| :: WorkerOk(c, w))
  }
}
