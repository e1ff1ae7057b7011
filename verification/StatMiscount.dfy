/**
 A run of ws_stat whose result is wrong: a batch steal beyond the tail makes a directory vanish that was
 counted and queued. An empty path that the thief gets instead lowers the counter in its place, so that all
 workers leave their loops and nobody notices.

 The run is given piece by piece. Rounds in which a worker finds nothing are left out where they change
 nothing.
 */
module StatMiscount {
  import opened Wrappers
  import opened RingIndex
  import Q = QueueProtocol
  import S = QueueSlots
  import T = StatTraversal
  import opened StatSystem
  import opened StatRefinement

  // ----- pieces of a run -----

  ghost predicate Reaches(c: State, c': State) {
    Sized(c) && exists events :: Run(c, events) == c'
  }

  lemma {:induction false} RunAppend(c: State, first: seq<Event>, rest: seq<Event>)
    requires Sized(c)
    ensures Run(c, first + rest) == Run(Run(c, first), rest)
    decreases |first|
  {
    hide Next;
    if first == [] {
      assert first + rest == rest;
    } else {
      assert (first + rest)[0] == first[0] && (first + rest)[1..] == first[1..] + rest;
      RunAppend(Next(c, first[0]), first[1..], rest);
    }
  }

  lemma Then(c: State, c1: State, c2: State)
    requires Reaches(c, c1) && Reaches(c1, c2)
    ensures Reaches(c, c2)
  {
    var first :| Run(c, first) == c1;
    var rest :| Run(c1, rest) == c2;
    RunAppend(c, first, rest);
  }

  lemma One(c: State, e: Event)
    requires Sized(c)
    ensures Reaches(c, Next(c, e))
  {
    hide Next;
    assert Run(c, [e]) == Run(Next(c, e), []);
  }

  /** A step of a worker on a queue. */
  lemma OnQueue(c: State, w: nat, a: Action, v: nat, qe: Q.Event) returns (c': State)
    requires Sized(c) && w < |c.points| && QueueEvent(c, Event(w, a)) == Some((v, qe)) && v < |c.points|
    ensures c' == Settle(c, w, v, Q.Next(c.queues[v], qe)) && Reaches(c, c')
  {
    c' := Next(c, Event(w, a));
    hide QueueEvent, Settle;
    One(c, Event(w, a));
  }

  /** The first step of an operation on the worker's own queue. */
  lemma Starts(c: State, w: nat, q': Q.State)
    requires Sized(c) && w < |c.points| && (c.points[w].Ready? || c.points[w].Pushing? || c.points[w].Stolen?)
    ensures Settle(c, w, w, q') == c.(queues := c.queues[w := q'], points := c.points[w := Started(c.points[w])])
  {
  }

  function Started(p: Point): Point
    requires p.Ready? || p.Pushing? || p.Stolen?
  {
    match p
    case Ready => Popping
    case Pushing(d, i) => Publishing(d, i)
    case Stolen(work, rest) => Refilling(work, rest)
  }

  /** A step inside such an operation. */
  lemma Continues(c: State, w: nat, q': Q.State)
    requires Sized(c) && w < |c.points|
    requires var p, owner := c.points[w], c.queues[w].owner;
      || ((p.Publishing? || p.Refilling?) && !owner.PushWritten?)
      || (p.Popping? && !owner.PopTake? && !q'.owner.Idle?)
    ensures Settle(c, w, w, q') == c.(queues := c.queues[w := q'])
  {
  }

  // ----- what a queue looks like -----

  /** The counters of a queue, how many pushes it has seen, and what is in its first cells. */
  predicate Looks(q: Q.State, bottom: int, top: int, at: seq<nat>, pushes: nat, cells: seq<Q.Cell>) {
    && q.bottom == bottom && q.top == top && q.at == at && |q.index| == pushes && |cells| <= q.capacity
    && forall j :: 0 <= j < |cells| ==> Q.Read(q, j) == cells[j]
  }

  lemma LooksWritten(q: Q.State, q': Q.State, cells: seq<Q.Cell>, i: nat, cell: Q.Cell)
    requires i < |cells| <= q.capacity && forall j :: 0 <= j < |cells| ==> Q.Read(q, j) == cells[j]
    requires q'.slots == Q.Write(q, i, cell) && q'.capacity == q.capacity
    ensures forall j :: 0 <= j < |cells| ==> Q.Read(q', j) == cells[i := cell][j]
  {
    S.WriteElsewhere(q, q', i, cell);
    SlotsDistinct(q.capacity);
    hide Slot, Q.Read, Q.Write;
    forall j | 0 <= j < |cells|
      ensures Q.Read(q', j) == cells[i := cell][j]
    {
      assert j == i || Slot(j, q.capacity) != Slot(i, q.capacity);
    }
  }

  lemma LooksSame(q: Q.State, q': Q.State, cells: seq<Q.Cell>)
    requires q'.slots == q.slots && q'.capacity == q.capacity
    requires forall j :: 0 <= j < |cells| ==> Q.Read(q, j) == cells[j]
    ensures forall j :: 0 <= j < |cells| ==> Q.Read(q', j) == cells[j]
  {
  }

  /** A state in which one worker and its queue have moved on. */
  predicate OnlyQueue(c: State, c': State, w: nat)
    requires Sized(c) && w < |c.points|
  {
    Sized(c') && |c'.points| == |c.points| && c'.queues == c.queues[w := c'.queues[w]]
  }

  // ----- pushes -----

  lemma RoomSteps(q: Q.State)
    requires q.owner.Idle? && 0 <= q.bottom - q.top < Limit(q.capacity)
    ensures Q.Next(q, Q.StartPush) == q.(owner := Q.PushStart)
    ensures Q.Next(q.(owner := Q.PushStart), Q.Owner) == q.(owner := Q.PushLoaded(q.bottom))
    ensures Q.Next(q.(owner := Q.PushLoaded(q.bottom)), Q.Owner) == q.(owner := Q.PushReady(q.bottom))
  {
    hide Slot, Q.Read, Q.Write, Limit;
  }

  /** A push of a subdirectory, or of the rest of a batch, up to its load of bottom_. */
  lemma LoadBottom(c: State, w: nat) returns (c': State)
    requires Sized(c) && w < |c.points| && (c.points[w].Pushing? || (c.points[w].Stolen? && c.points[w].rest != []))
    requires var q := c.queues[w]; q.owner.Idle? && 0 <= q.bottom - q.top < Limit(q.capacity)
    ensures Reaches(c, c')
    ensures var q := c.queues[w];
      c' == c.(queues := c.queues[w := q.(owner := Q.PushLoaded(q.bottom))],
               points := c.points[w := Started(c.points[w])])
  {
    var q := c.queues[w];
    RoomSteps(q);
    hide Limit, Q.Next, Settle;
    var c1 := OnQueue(c, w, StartPush, w, Q.StartPush);
    Starts(c, w, Q.Next(q, Q.StartPush));
    c' := OnQueue(c1, w, OwnerStep, w, Q.Owner);
    Continues(c1, w, Q.Next(c1.queues[w], Q.Owner));
    Then(c, c1, c');
  }

  /** The same push once it has found room. */
  lemma FindRoom(c: State, w: nat) returns (c': State)
    requires Sized(c) && w < |c.points| && (c.points[w].Pushing? || (c.points[w].Stolen? && c.points[w].rest != []))
    requires var q := c.queues[w]; q.owner.Idle? && 0 <= q.bottom - q.top < Limit(q.capacity)
    ensures Reaches(c, c')
    ensures var q := c.queues[w];
      c' == c.(queues := c.queues[w := q.(owner := Q.PushReady(q.bottom))],
               points := c.points[w := Started(c.points[w])])
  {
    RoomSteps(c.queues[w]);
    hide Limit, Q.Next, Settle;
    var c1 := LoadBottom(c, w);
    c' := OnQueue(c1, w, OwnerStep, w, Q.Owner);
    Continues(c1, w, Q.Next(c1.queues[w], Q.Owner));
    Then(c, c1, c');
  }

  /** The two stores of a push. */
  lemma Publish(c: State, w: nat, top: int, at: seq<nat>, n: nat, cells: seq<Q.Cell>) returns (c': State)
    requires Sized(c) && w < |c.points| && c.queues[w].owner.PushReady?
    requires var q := c.queues[w];
      q.owner.b == q.bottom && Looks(q, q.bottom, top, at, n, cells) && 0 <= q.bottom < |cells|
    requires || (c.points[w].Publishing? && AtSubdir(c.points[w].dir, c.points[w].i))
             || (c.points[w].Refilling? && c.points[w].rest != [])
    ensures Reaches(c, c') && OnlyQueue(c, c', w)
    ensures var q, b, p := c'.queues[w], c.queues[w].bottom, c.points[w];
      && q.owner.Idle? && q.thieves == c.queues[w].thieves && q.capacity == c.queues[w].capacity
      && Looks(q, b + 1, top, Q.PublishAt(at, b, n), n + 1, cells[b := Q.Holds(n)])
      && c'.counter == c.counter && c'.results == c.results
      && c'.items == c.items[w := c.items[w] + [if p.Publishing? then p.dir.entries[p.i].dir else p.rest[0]]]
      && c'.points == c.points[w := if p.Publishing? then Processing(p.dir, p.i + 1) else Stolen(p.work, p.rest[1..])]
  {
    hide Slot, Q.Read, Q.Write, Limit, Q.PublishAt;
    var q, b := c.queues[w], c.queues[w].bottom;
    var q1 := q.(slots := Q.Write(q, b, Q.Holds(n)), owner := Q.PushWritten(b));
    var c1 := OnQueue(c, w, OwnerStep, w, Q.Owner);
    assert c1 == c.(queues := c.queues[w := q1]);
    LooksWritten(q, q1, cells, b, Q.Holds(n));
    var q' := q1.(bottom := b + 1, owner := Q.Idle, index := q1.index + [b], at := Q.PublishAt(at, b, n));
    assert Q.Next(q1, Q.Owner) == q';
    LooksSame(q1, q', cells[b := Q.Holds(n)]);
    hide Q.Next;
    c' := OnQueue(c1, w, OwnerStep, w, Q.Owner);
    Then(c, c1, c');
  }

  // ----- pops -----

  /** What begins with an item: the worker processes its directory. */
  predicate Begun(c: State, c': State, w: nat, d: T.Dir)
    requires Sized(c) && w < |c.points|
  {
    && c'.counter == c.counter && c'.items == c.items && c'.points == c.points[w := Processing(d, 0)]
    && c'.results == c.results[w := T.Plus(c.results[w], T.Visit(d))]
  }

  /** The owner moves out an item that it has claimed. */
  lemma TakeOut(c: State, w: nat, at: seq<nat>, n: nat, cells: seq<Q.Cell>) returns (c': State)
    requires Sized(c) && w < |c.points| && c.points[w].Popping? && c.queues[w].owner.PopTake?
    requires var q := c.queues[w]; Looks(q, q.bottom, q.top, at, n, cells) && 0 <= q.owner.b < |cells|
    ensures Reaches(c, c') && OnlyQueue(c, c', w)
    ensures var q, q' := c.queues[w], c'.queues[w];
      && q'.owner.Idle? && q'.thieves == q.thieves && q'.capacity == q.capacity
      && Looks(q', q.bottom, q.top, at, n, cells[q.owner.b := Q.Vacant])
      && Begun(c, c', w, ItemIn(c.items[w], cells[q.owner.b]))
  {
    hide Slot, Q.Read, Q.Write, ItemIn, T.Plus;
    var q := c.queues[w];
    c' := OnQueue(c, w, OwnerStep, w, Q.Owner);
    LooksWritten(q, c'.queues[w], cells, q.owner.b, Q.Vacant);
  }

  /** A pop from a queue with more than one item. */
  lemma PopNewest(c: State, w: nat, bottom: int, top: int, at: seq<nat>, n: nat, cells: seq<Q.Cell>) returns (c': State)
    requires Sized(c) && w < |c.points| && c.points[w].Ready? && c.queues[w].owner.Idle?
    requires Looks(c.queues[w], bottom, top, at, n, cells) && 0 <= top < bottom - 1 < |cells|
    ensures Reaches(c, c') && OnlyQueue(c, c', w)
    ensures var q, q', b := c.queues[w], c'.queues[w], bottom - 1;
      && q'.owner.Idle? && q'.thieves == q.thieves && q'.capacity == q.capacity
      && Looks(q', b, top, at, n, cells[b := Q.Vacant])
      && Begun(c, c', w, ItemIn(c.items[w], cells[b]))
  {
    hide Slot, Q.Read, Q.Next, ItemIn, T.Plus;
    var q, b := c.queues[w], bottom - 1;
    PopSteps(q);
    var c1 := LowerBottom(c, w);
    var c2 := OnQueue(c1, w, OwnerStep, w, Q.Owner);
    LooksSame(q, c2.queues[w], cells);
    Then(c, c1, c2);
    c' := TakeOut(c2, w, at, n, cells);
    Then(c, c2, c');
  }

  /** What a pop does up to its claim, or its compare-and-swap. */
  lemma PopSteps(q: Q.State)
    requires q.owner.Idle? && q.top < q.bottom
    ensures var b := q.bottom - 1;
      var q2 := q.(bottom := b, owner := Q.PopStored(b));
      && Q.Next(q, Q.StartPop) == q.(owner := Q.PopLoaded(b))
      && Q.Next(q.(owner := Q.PopLoaded(b)), Q.Owner) == q2
      && Q.Next(q2, Q.Owner)
         == if q.top == b then q2.(owner := Q.PopCas(b))
            else q2.(owner := Q.PopTake(b, Q.Published(q2, b)), claims := q2.claims + [Q.Published(q2, b)])
  {
    hide Slot, Q.Read, Q.Write, Q.Published;
  }

  /** A pop up to its store of bottom_. */
  lemma LowerBottom(c: State, w: nat) returns (c': State)
    requires Sized(c) && w < |c.points| && c.points[w].Ready? && c.queues[w].owner.Idle?
    requires c.queues[w].top < c.queues[w].bottom
    ensures var q, b := c.queues[w], c.queues[w].bottom - 1;
      && Reaches(c, c')
      && c' == c.(queues := c.queues[w := q.(bottom := b, owner := Q.PopStored(b))], points := c.points[w := Popping])
  {
    PopSteps(c.queues[w]);
    hide Q.Next, Q.Published, Settle;
    var c1 := OnQueue(c, w, StartPop, w, Q.StartPop);
    Starts(c, w, Q.Next(c.queues[w], Q.StartPop));
    c' := OnQueue(c1, w, OwnerStep, w, Q.Owner);
    Continues(c1, w, Q.Next(c1.queues[w], Q.Owner));
    Then(c, c1, c');
  }

  /** A pop of the last item. */
  lemma PopLast(c: State, w: nat, bottom: int, at: seq<nat>, n: nat, cells: seq<Q.Cell>) returns (c': State)
    requires Sized(c) && w < |c.points| && c.points[w].Ready? && c.queues[w].owner.Idle?
    requires Looks(c.queues[w], bottom, bottom - 1, at, n, cells) && 0 <= bottom - 1 < |cells|
    ensures Reaches(c, c') && OnlyQueue(c, c', w)
    ensures var q, q', b := c.queues[w], c'.queues[w], bottom - 1;
      && q'.owner.Idle? && q'.thieves == q.thieves && q'.capacity == q.capacity
      && Looks(q', bottom, bottom, at, n, cells[b := Q.Vacant])
      && Begun(c, c', w, ItemIn(c.items[w], cells[b]))
  {
    hide Slot, Q.Read, Q.Next, ItemIn, T.Plus;
    var q := c.queues[w];
    PopSteps(q);
    var c1 := LowerBottom(c, w);
    var c2 := OnQueue(c1, w, OwnerStep, w, Q.Owner);
    var c3 := WinLast(c2, w);
    LooksSame(q, c3.queues[w], cells);
    Then(c, c1, c2);
    Then(c, c2, c3);
    c' := TakeOut(c3, w, at, n, cells);
    Then(c, c3, c');
  }

  /** The compare-and-swap for the last item, and bottom_ put back. */
  lemma WinLast(c: State, w: nat) returns (c': State)
    requires Sized(c) && w < |c.points| && c.points[w].Popping?
    requires c.queues[w].owner.PopCas? && c.queues[w].owner.b == c.queues[w].top
    ensures Reaches(c, c') && c' == c.(queues := c.queues[w := c'.queues[w]])
    ensures var q, q' := c.queues[w], c'.queues[w];
      && q'.owner.PopTake? && q'.owner.b == q.top
      && q' == q.(bottom := q.top + 1, top := q.top + 1, owner := q'.owner, claims := q'.claims)
  {
    hide Slot, Q.Read, Q.Write, Q.Published;
    var c1 := OnQueue(c, w, OwnerStep, w, Q.Owner);
    assert c1.queues[w].owner.PopWon?;
    c' := OnQueue(c1, w, OwnerStep, w, Q.Owner);
    Then(c, c1, c');
  }

  // ----- steps outside the queues -----

  /** The end of a directory. */
  lemma Finish(c: State, w: nat) returns (c': State)
    requires Sized(c) && w < |c.points| && c.points[w].Processing? && c.points[w].i == |c.points[w].dir.entries|
    ensures Reaches(c, c') && c' == c.(counter := c.counter - 1, points := c.points[w := Ready])
  {
    c' := Next(c, Event(w, Step));
    One(c, Event(w, Step));
  }

  /** A subdirectory is counted, and will be pushed. */
  lemma CountSubdir(c: State, w: nat) returns (c': State)
    requires Sized(c) && w < |c.points| && c.points[w].Processing? && AtSubdir(c.points[w].dir, c.points[w].i)
    ensures Reaches(c, c')
    ensures var Processing(d, i) := c.points[w];
      c' == c.(counter := c.counter + 1, points := c.points[w := Pushing(d, i)],
               results := c.results[w := T.Plus(c.results[w], T.EntryTally(d.entries[i]))])
  {
    c' := Next(c, Event(w, Step));
    hide T.Plus;
    One(c, Event(w, Step));
  }

  /** A worker whose stolen batch is used up begins with the item it kept. */
  lemma BeginStolen(c: State, w: nat) returns (c': State)
    requires Sized(c) && w < |c.points| && c.points[w].Stolen? && c.points[w].rest == []
    ensures Reaches(c, c') && c'.queues == c.queues && Begun(c, c', w, c.points[w].work)
  {
    c' := Next(c, Event(w, Begin));
    hide T.Plus;
    One(c, Event(w, Begin));
  }

  // ----- a steal -----

  lemma StealStarts(c: State, w: nat, v: nat, q': Q.State)
    requires Sized(c) && w < |c.points| && v < |c.points| && v != w && c.points[w].Ready?
    ensures Settle(c, w, v, q') == c.(queues := c.queues[v := q'], points := c.points[w := Stealing(v, [])])
  {
  }

  lemma StealContinues(c: State, w: nat, v: nat, q': Q.State)
    requires Sized(c) && w < |c.points| && v < |c.points| && c.points[w].Stealing? && c.points[w].victim == v
    requires w in q'.thieves && (w in c.queues[v].thieves ==> !S.MovesNow(c.queues[v].thieves[w]))
    ensures Settle(c, w, v, q') == c.(queues := c.queues[v := q'])
  {
  }

  lemma PlanSteps(q: Q.State, w: nat)
    requires w !in q.thieves && q.top < q.bottom
    ensures var q1 := q.(thieves := q.thieves[w := Q.StealLoaded(q.top, Some(BATCH))]);
      && Q.Next(q, Q.StartSteal(w, Some(BATCH))) == q1
      && Q.Next(q1, Q.Thief(w))
         == q.(thieves := q.thieves[w := Q.StealReady(q.top, BatchLength(q.bottom - q.top, BATCH))])
  {
    hide BatchLength;
    var q1 := q.(thieves := q.thieves[w := Q.StealLoaded(q.top, Some(BATCH))]);
    var ready := Q.StealReady(q.top, BatchLength(q.bottom - q.top, BATCH));
    assert q1.thieves[w := ready] == q.thieves[w := ready];
  }

  /** A thief reads top_. */
  lemma Arrive(c: State, w: nat, v: nat) returns (c': State)
    requires Sized(c) && w < |c.points| && v < |c.points| && v != w && c.points[w].Ready?
    requires var q := c.queues[v]; w !in q.thieves && q.top < q.bottom
    ensures Reaches(c, c')
    ensures var q := c.queues[v];
      c' == c.(queues := c.queues[v := q.(thieves := q.thieves[w := Q.StealLoaded(q.top, Some(BATCH))])],
               points := c.points[w := Stealing(v, [])])
  {
    PlanSteps(c.queues[v], w);
    hide Q.Next, Settle;
    c' := OnQueue(c, w, Action.StartSteal(v), v, Q.StartSteal(w, Some(BATCH)));
    StealStarts(c, w, v, Q.Next(c.queues[v], Q.StartSteal(w, Some(BATCH))));
  }

  /** The thief reads bottom_ as well and plans its batch. */
  lemma Plan(c: State, w: nat, v: nat) returns (c': State)
    requires Sized(c) && w < |c.points| && v < |c.points| && v != w && c.points[w].Ready?
    requires var q := c.queues[v]; w !in q.thieves && q.top < q.bottom
    ensures Reaches(c, c')
    ensures var q := c.queues[v];
      c' == c.(queues := c.queues[v := q.(thieves :=
                           q.thieves[w := Q.StealReady(q.top, BatchLength(q.bottom - q.top, BATCH))])],
               points := c.points[w := Stealing(v, [])])
  {
    PlanSteps(c.queues[v], w);
    hide Q.Next, BatchLength, Settle;
    var c1 := Arrive(c, w, v);
    c' := OnQueue(c1, w, ThiefStep, v, Q.Thief(w));
    StealContinues(c1, w, v, Q.Next(c1.queues[v], Q.Thief(w)));
    Then(c, c1, c');
  }

  /** The compare-and-swap over the batch. */
  lemma Commit(c: State, w: nat, v: nat, n: nat) returns (c': State)
    requires Sized(c) && w < |c.points| && v < |c.points| && v != w && c.points[w].Stealing? && c.points[w].victim == v
    requires w in c.queues[v].thieves && c.queues[v].thieves[w] == Q.StealReady(c.queues[v].top, n) && n > 0
    ensures Reaches(c, c') && c' == c.(queues := c.queues[v := c'.queues[v]])
    ensures var q, q' := c.queues[v], c'.queues[v];
      && q' == q.(top := q.top + n, claims := q'.claims, thieves := q'.thieves)
      && q'.thieves == q.thieves[w := Q.StealMoving(q.top, Q.PublishedRange(q, q.top, n), 0)]
  {
    hide Q.PublishedRange;
    c' := OnQueue(c, w, ThiefStep, v, Q.Thief(w));
    assert c'.points == c.points;
  }

  predicate Moving(c: State, w: nat, v: nat, got: seq<T.Dir>, thief: Q.ThiefPoint) {
    && Sized(c) && w < |c.points| && v < |c.points| && v != w && c.points[w] == Stealing(v, got)
    && w in c.queues[v].thieves && c.queues[v].thieves[w] == thief && thief.StealMoving?
  }

  /** One item of the batch is moved out of its cell. */
  lemma MoveOut(c: State, w: nat, v: nat, got: seq<T.Dir>, thief: Q.ThiefPoint, at: seq<nat>, n: nat,
                cells: seq<Q.Cell>) returns (c': State)
    requires Moving(c, w, v, got, thief) && thief.i < |thief.pushes| && 0 <= thief.t + thief.i < |cells|
    requires var q := c.queues[v]; Looks(q, q.bottom, q.top, at, n, cells)
    ensures Reaches(c, c') && OnlyQueue(c, c', v)
    ensures var q, q', i, i' := c.queues[v], c'.queues[v], thief.t + thief.i, thief.i + 1;
      && q'.owner == q.owner && q'.thieves == q.thieves[w := thief.(i := i')] && q'.capacity == q.capacity
      && Looks(q', q.bottom, q.top, at, n, cells[i := Q.Vacant])
      && c' == c.(queues := c'.queues,
                  points := c.points[w := Stealing(v, got + [ItemIn(c.items[v], cells[i])])])
  {
    hide Slot, Q.Read, Q.Write, ItemIn;
    c' := OnQueue(c, w, ThiefStep, v, Q.Thief(w));
    LooksWritten(c.queues[v], c'.queues[v], cells, thief.t + thief.i, Q.Vacant);
  }

  /** All items are moved out; the thief keeps the last one as its work. */
  lemma Depart(c: State, w: nat, v: nat, got: seq<T.Dir>, thief: Q.ThiefPoint) returns (c': State)
    requires Moving(c, w, v, got, thief) && thief.i == |thief.pushes|
    ensures Reaches(c, c')
    ensures var q := c.queues[v];
      c' == c.(queues := c.queues[v := q.(thieves := q.thieves - {w})], points := c.points[w := FromBatch(got)])
  {
    c' := OnQueue(c, w, ThiefStep, v, Q.Thief(w));
  }

  // ----- the end -----

  /** A worker that finds no work and the counter at zero leaves. */
  lemma LeaveOne(c: State, w: nat) returns (c': State)
    requires Sized(c) && w < |c.points| && c.points[w].Ready? && c.counter == 0
    ensures Reaches(c, c') && c' == c.(points := c.points[w := Exited])
  {
    var c1 := Next(c, Event(w, GiveUp));
    c' := Next(c1, Event(w, Check));
    One(c, Event(w, GiveUp));
    One(c1, Event(w, Check));
    Then(c, c1, c');
  }

  lemma {:induction false} LeaveAll(c: State, n: nat) returns (c': State)
    requires Sized(c) && n <= |c.points| && c.counter == 0 && forall w :: 0 <= w < n ==> c.points[w].Ready?
    ensures Reaches(c, c') && c' == c.(points := c'.points) && |c'.points| == |c.points|
    ensures forall w :: 0 <= w < |c.points| ==> c'.points[w] == if w < n then Exited else c.points[w]
    decreases n
  {
    if n == 0 {
      c' := c;
      assert Run(c, []) == c;
    } else {
      var c1 := LeaveOne(c, n - 1);
      c' := LeaveAll(c1, n - 1);
      Then(c, c1, c');
    }
  }

  // ----- the run -----

  const A := T.Dir("d/a", [])
  const B := T.Dir("d/b", [T.Subdir(X)])
  const C := T.Dir("d/c", [])
  const E := T.Dir("d/e", [])
  const X := T.Dir("d/b/x", [T.File(1, 1)])
  const D := T.Dir("d", [T.Subdir(A), T.Subdir(B), T.Subdir(C), T.Subdir(E)])

  const EMPTY := Q.Vacant

  predicate NoFiles(c: State) {
    forall w :: 0 <= w < |c.results| ==> c.results[w].files == 0
  }

  /** Where the first two workers are; all others have nothing to do. */
  predicate Stage(c: State, counter: int, p0: Point, p1: Point) {
    && Sized(c) && |c.points| >= 2 && NoFiles(c)
    && c.counter == counter && c.points[0] == p0 && c.points[1] == p1
    && forall w :: 2 <= w < |c.points| ==> c.points[w] == Ready
  }

  /** A queue between two operations of its owner, and the directories pushed into it. */
  predicate Holding(c: State, w: nat, bottom: int, top: int, at: seq<nat>, items: seq<T.Dir>, cells: seq<Q.Cell>) {
    && Sized(c) && w < |c.points| && c.queues[w].owner.Idle? && c.items[w] == items
    && Looks(c.queues[w], bottom, top, at, |items|, cells)
  }

  /** The other queue is as it was, and thieves and capacity are. */
  predicate Otherwise(c: State, c': State, w: nat, other: nat) {
    && Sized(c) && Sized(c') && |c'.points| == |c.points| && w < |c.points| && other < |c.points|
    && c'.queues[other] == c.queues[other] && c'.items[other] == c.items[other]
    && c'.queues[w].thieves == c.queues[w].thieves && c'.queues[w].capacity == c.queues[w].capacity
  }

  /** The first worker counts a subdirectory and puts it into its queue. */
  lemma PushChild(c: State, counter: int, d: T.Dir, i: nat, p1: Point, bottom: int, top: int, at: seq<nat>,
                  items: seq<T.Dir>, cells: seq<Q.Cell>) returns (c': State)
    requires Stage(c, counter, Processing(d, i), p1) && AtSubdir(d, i) && Holding(c, 0, bottom, top, at, items, cells)
    requires 0 <= top <= bottom < |cells| && bottom - top < Limit(c.queues[0].capacity)
    ensures Reaches(c, c') && Otherwise(c, c', 0, 1) && Stage(c', counter + 1, Processing(d, i + 1), p1)
    ensures Holding(c', 0, bottom + 1, top, Q.PublishAt(at, bottom, |items|), items + [d.entries[i].dir],
                    cells[bottom := Q.Holds(|items|)])
  {
    hide Slot, Q.Read, Limit, Q.PublishAt, Reaches;
    var c1 := CountSubdir(c, 0);
    var c2 := FindRoom(c1, 0);
    LooksSame(c.queues[0], c2.queues[0], cells);
    c' := Publish(c2, 0, top, at, |items|, cells);
    Then(c, c1, c2);
    Then(c, c2, c');
  }

  /** The first worker pops its newest directory. */
  lemma PopChild(c: State, counter: int, p1: Point, bottom: int, top: int, at: seq<nat>, items: seq<T.Dir>,
                 cells: seq<Q.Cell>, k: nat) returns (c': State)
    requires Stage(c, counter, Ready, p1) && Holding(c, 0, bottom, top, at, items, cells)
    requires 0 <= top < bottom - 1 < |cells| && cells[bottom - 1] == Q.Holds(k) && k < |items|
    ensures Reaches(c, c') && Otherwise(c, c', 0, 1) && Stage(c', counter, Processing(items[k], 0), p1)
    ensures Holding(c', 0, bottom - 1, top, at, items, cells[bottom - 1 := EMPTY])
  {
    hide Slot, Q.Read, Reaches;
    c' := PopNewest(c, 0, bottom, top, at, |items|, cells);
  }

  /** The first worker pops a directory in which there is nothing. */
  lemma PopLeaf(c: State, counter: int, p1: Point, bottom: int, top: int, at: seq<nat>, items: seq<T.Dir>,
                cells: seq<Q.Cell>, k: nat) returns (c': State)
    requires Stage(c, counter, Ready, p1) && Holding(c, 0, bottom, top, at, items, cells)
    requires 0 <= top < bottom - 1 < |cells| && cells[bottom - 1] == Q.Holds(k) && k < |items| && items[k].entries == []
    ensures Reaches(c, c') && Otherwise(c, c', 0, 1) && Stage(c', counter - 1, Ready, p1)
    ensures Holding(c', 0, bottom - 1, top, at, items, cells[bottom - 1 := EMPTY])
  {
    hide Slot, Q.Read, Reaches, Looks;
    var c1 := PopChild(c, counter, p1, bottom, top, at, items, cells, k);
    c' := Finish(c1, 0);
    Then(c, c1, c');
  }

  /** The cells of the first queue while the subdirectories numbered from first to last are in it. */
  function Cells(first: nat, last: nat): seq<Q.Cell> {
    seq(5, j => if first <= j <= last then Q.Holds(j) else EMPTY)
  }

  /** The first n directories that go into the first queue. */
  function Pushed(n: nat): seq<T.Dir>
    requires n <= 5
  {
    [D, A, B, C, E][..n]
  }

  function Upto(n: nat): seq<nat> {
    seq(n, k => k)
  }

  /** The first worker queues the i-th subdirectory. */
  lemma QueueNext(c: State, i: nat) returns (c': State)
    requires i < 4 && Stage(c, 1 + i, Processing(D, i), Ready) && c.queues[0].capacity >= 8
    requires Holding(c, 0, 1 + i, 1, Upto(1 + i), Pushed(1 + i), Cells(1, i))
    ensures Reaches(c, c') && Otherwise(c, c', 0, 1) && Stage(c', 2 + i, Processing(D, i + 1), Ready)
    ensures Holding(c', 0, 2 + i, 1, Upto(2 + i), Pushed(2 + i), Cells(1, i + 1))
  {
    hide Slot, Q.Read, Reaches, Looks;
    c' := PushChild(c, 1 + i, D, i, Ready, 1 + i, 1, Upto(1 + i), Pushed(1 + i), Cells(1, i));
    assert Q.PublishAt(Upto(1 + i), 1 + i, 1 + i) == Upto(2 + i);
    assert Pushed(1 + i) + [D.entries[i].dir] == Pushed(2 + i);
    assert Cells(1, i)[1 + i := Q.Holds(1 + i)] == Cells(1, i + 1);
  }

  /** The first worker takes the one directory there is, and queues its four subdirectories. */
  lemma QueueFour(c: State) returns (c': State)
    requires Stage(c, 1, Ready, Ready) && c.queues[0].capacity >= 8
    requires Holding(c, 0, 1, 0, Upto(1), Pushed(1), Cells(0, 0))
    ensures Reaches(c, c') && Otherwise(c, c', 0, 1) && Stage(c', 4, Ready, Ready)
    ensures Holding(c', 0, 5, 1, Upto(5), Pushed(5), Cells(1, 4))
  {
    hide Slot, Q.Read, Reaches, Looks;
    var c1 := PopLast(c, 0, 1, Upto(1), 1, Cells(0, 0));
    assert Cells(0, 0)[0 := EMPTY] == Cells(1, 0);
    hide Cells, Upto;
    var c2 := QueueNext(c1, 0);
    var c3 := QueueNext(c2, 1);
    var c4 := QueueNext(c3, 2);
    var c5 := QueueNext(c4, 3);
    c' := Finish(c5, 0);
    Then(c, c1, c2);
    Then(c, c2, c3);
    Then(c, c3, c4);
    Then(c, c4, c5);
    Then(c, c5, c');
  }

  /** The second worker plans to take two of the four. */
  lemma PlanTwo(c: State) returns (c': State)
    requires Stage(c, 4, Ready, Ready) && c.queues[0].thieves == map[]
    requires Holding(c, 0, 5, 1, Upto(5), Pushed(5), Cells(1, 4))
    ensures Reaches(c, c') && Stage(c', 4, Ready, Stealing(0, []))
    ensures c'.queues[0].thieves == map[1 := Q.StealReady(1, 2)]
    ensures Holding(c', 0, 5, 1, Upto(5), Pushed(5), Cells(1, 4)) && c'.queues[0].capacity == c.queues[0].capacity
    ensures |c'.points| == |c.points| && c'.queues[1] == c.queues[1] && c'.items[1] == c.items[1]
  {
    hide Slot, Q.Read, Reaches, Cells, Upto, Pushed;
    c' := Plan(c, 1, 0);
    LooksSame(c.queues[0], c'.queues[0], Cells(1, 4));
  }

  /** The first worker pops three, and finds a subdirectory in the third. */
  lemma PopThree(c: State) returns (c': State)
    requires Stage(c, 4, Ready, Stealing(0, [])) && Holding(c, 0, 5, 1, Upto(5), Pushed(5), Cells(1, 4))
    ensures Reaches(c, c') && Otherwise(c, c', 0, 1) && Stage(c', 2, Processing(B, 0), Stealing(0, []))
    ensures Holding(c', 0, 2, 1, Upto(5), Pushed(5), Cells(1, 1))
  {
    hide Slot, Q.Read, Reaches, Looks, Upto;
    var c1 := PopLeaf(c, 4, Stealing(0, []), 5, 1, Upto(5), Pushed(5), Cells(1, 4), 4);
    assert Cells(1, 4)[4 := EMPTY] == Cells(1, 3);
    var c2 := PopLeaf(c1, 3, Stealing(0, []), 4, 1, Upto(5), Pushed(5), Cells(1, 3), 3);
    assert Cells(1, 3)[3 := EMPTY] == Cells(1, 2);
    c' := PopChild(c2, 2, Stealing(0, []), 3, 1, Upto(5), Pushed(5), Cells(1, 2), 2);
    assert Cells(1, 2)[2 := EMPTY] == Cells(1, 1);
    Then(c, c1, c2);
    Then(c, c2, c');
  }

  /** The first queue while the first worker is about to write the last subdirectory into it. */
  predicate AboutToPush(c: State, top: int, cells: seq<Q.Cell>) {
    && Sized(c) && c.queues[0].owner == Q.PushReady(2) && c.items[0] == Pushed(5)
    && Looks(c.queues[0], 2, top, Upto(5), 5, cells)
  }

  lemma FindRoomForX(c: State) returns (c': State)
    requires Stage(c, 2, Processing(B, 0), Stealing(0, [])) && c.queues[0].capacity >= 8
    requires Holding(c, 0, 2, 1, Upto(5), Pushed(5), Cells(1, 1))
    ensures Reaches(c, c') && Otherwise(c, c', 0, 1) && Stage(c', 3, Publishing(B, 0), Stealing(0, []))
    ensures AboutToPush(c', 1, Cells(1, 1))
  {
    hide Slot, Q.Read, Reaches, Upto, Cells;
    var c1 := CountSubdir(c, 0);
    c' := FindRoom(c1, 0);
    LooksSame(c.queues[0], c'.queues[0], Cells(1, 1));
    Then(c, c1, c');
  }

  /** What the second worker is about to move out: the second and third directory, by their numbers. */
  const BATCH_OF_TWO := Q.StealMoving(1, [1, 2], 0)

  /** Now the second worker commits. */
  lemma CommitTwo(c: State) returns (c': State)
    requires Stage(c, 3, Publishing(B, 0), Stealing(0, [])) && AboutToPush(c, 1, Cells(1, 1))
    requires c.queues[0].thieves == map[1 := Q.StealReady(1, 2)]
    ensures Reaches(c, c') && Stage(c', 3, Publishing(B, 0), Stealing(0, [])) && AboutToPush(c', 3, Cells(1, 1))
    ensures Moving(c', 1, 0, [], BATCH_OF_TWO)
    ensures |c'.points| == |c.points| && c'.queues[1] == c.queues[1] && c'.items[1] == c.items[1]
  {
    hide Slot, Q.Read, Reaches, Cells;
    c' := Commit(c, 1, 0, 2);
    LooksSame(c.queues[0], c'.queues[0], Cells(1, 1));
    assert Q.PublishedRange(c.queues[0], 1, 2) == [1, 2];
  }

  /** It gets one directory, and one empty path. */
  lemma MoveTwo(c: State) returns (c': State)
    requires Stage(c, 3, Publishing(B, 0), Stealing(0, [])) && AboutToPush(c, 3, Cells(1, 1))
    requires Moving(c, 1, 0, [], BATCH_OF_TWO)
    ensures Reaches(c, c') && Stage(c', 3, Publishing(B, 0), Stolen(NOTHING, [A])) && AboutToPush(c', 3, Cells(1, 0))
    ensures |c'.points| == |c.points| && c'.queues[1] == c.queues[1] && c'.items[1] == c.items[1]
  {
    hide Slot, Q.Read, Reaches, Upto;
    var c1 := MoveOut(c, 1, 0, [], BATCH_OF_TWO, Upto(5), 5, Cells(1, 1));
    assert Cells(1, 1)[1 := EMPTY] == Cells(1, 0);
    assert ItemIn(c.items[0], Cells(1, 1)[1]) == A;
    var c2 := MoveOut(c1, 1, 0, [A], BATCH_OF_TWO.(i := 1), Upto(5), 5, Cells(1, 0));
    assert Cells(1, 0)[2 := EMPTY] == Cells(1, 0);
    hide Cells, Pushed;
    c' := Depart(c2, 1, 0, [A, NOTHING], BATCH_OF_TWO.(i := 2));
    LooksSame(c2.queues[0], c'.queues[0], Cells(1, 0));
    Then(c, c1, c2);
    Then(c, c2, c');
  }

  /** The first worker completes its push, which is below top_ and so never found again. */
  lemma PushX(c: State) returns (c': State)
    requires Stage(c, 3, Publishing(B, 0), Stolen(NOTHING, [A])) && AboutToPush(c, 3, Cells(1, 0))
    ensures Reaches(c, c') && Otherwise(c, c', 0, 1) && Stage(c', 2, Ready, Stolen(NOTHING, [A]))
    ensures c'.queues[0].owner.Idle? && c'.queues[0].bottom == c'.queues[0].top && X in c'.items[0]
  {
    hide Slot, Q.Read, Reaches, Upto;
    var c1 := Publish(c, 0, 3, Upto(5), 5, Cells(1, 0));
    assert c1.items[0] == Pushed(5) + [X] && c1.items[0][5] == X;
    c' := Finish(c1, 0);
    Then(c, c1, c');
  }

  /** The second worker queues what it got, spends the counter of the lost directory on the empty path, and ends. */
  lemma UseBatch(c: State) returns (c': State)
    requires Stage(c, 2, Ready, Stolen(NOTHING, [A])) && Holding(c, 1, 0, 0, [], [], [EMPTY])
    ensures Reaches(c, c') && Otherwise(c, c', 1, 0) && Stage(c', 0, Ready, Ready)
  {
    hide Slot, Q.Read, Reaches;
    var c1 := FindRoom(c, 1);
    LooksSame(c.queues[1], c1.queues[1], [EMPTY]);
    var c2 := Publish(c1, 1, 0, [], 0, [EMPTY]);
    assert [EMPTY][0 := Q.Holds(0)] == [Q.Holds(0)];
    hide Looks;
    var c3 := BeginStolen(c2, 1);
    var c4 := Finish(c3, 1);
    var c5 := PopLast(c4, 1, 1, Q.PublishAt([], 0, 0), 1, [Q.Holds(0)]);
    c' := Finish(c5, 1);
    Then(c, c1, c2);
    Then(c, c2, c3);
    Then(c, c3, c4);
    Then(c, c4, c5);
    Then(c, c5, c');
  }

  lemma AtStart(workers: nat, capacity: Capacity)
    requires workers >= 2 && capacity >= 8
    ensures var c := Start([D], workers, capacity);
      && Fits([D], workers, capacity) && Stage(c, 1, Ready, Ready) && |c.points| == workers
      && Holding(c, 0, 1, 0, Upto(1), Pushed(1), Cells(0, 0)) && Holding(c, 1, 0, 0, [], [], [EMPTY])
      && c.queues[0].thieves == map[] && c.queues[0].capacity == capacity == c.queues[1].capacity
  {
    hide Slot, Q.Read, Q.Write, Q.Next;
    assert [D][..0] == [];
    var q0 := Q.Init(capacity);
    InitialCells(capacity);
    Q.PushAlone(q0);
    assert Pushes(1) == Pushes(0) + Q.PUSH == Q.PUSH;
    LooksWritten(q0, Filled(capacity, 1), [EMPTY, EMPTY, EMPTY, EMPTY, EMPTY], 0, Q.Holds(0));
    assert [EMPTY, EMPTY, EMPTY, EMPTY, EMPTY][0 := Q.Holds(0)] == Cells(0, 0);
    assert T.Distribute([D], workers)[0] == [] + [D];
    assert T.Distribute([D], workers)[1] == [];
    hide Q.Run, Cells;
  }

  lemma InitialCells(capacity: Capacity)
    ensures forall j :: Q.Read(Q.Init(capacity), j) == EMPTY
  {
  }

  lemma {:induction false} SumWithoutFiles(results: seq<T.Tally>)
    requires forall w :: 0 <= w < |results| ==> results[w].files == 0
    ensures T.Sum(results).files == 0
  {
    if results != [] {
      SumWithoutFiles(results[..|results| - 1]);
    }
  }

  /** The files below an entry of a directory. */
  function FilesBelow(e: T.Entry): nat {
    if e.Subdir? then T.CountEntries(e.dir.entries).files else T.EntryTally(e).files
  }

  lemma SmallIsWrapped(x: nat)
    requires x < T.UINT64
    ensures T.Wrap(x) == x
  {
  }

  lemma InDirectory(e: T.Entry, es: seq<T.Entry>, k: nat, n: nat)
    requires FilesBelow(e) == k && T.CountEntries(es).files == n && k + n < T.UINT64
    ensures T.CountEntries([e] + es).files == k + n
  {
    hide T.CountEntry, T.Wrap;
    assert ([e] + es)[1..] == es;
    assert T.CountEntries([e] + es) == T.Plus(T.CountEntry(e), T.CountEntries(es));
    hide T.CountEntries;
    EntryFiles(e);
    SmallIsWrapped(k + n);
  }

  lemma EntryFiles(e: T.Entry)
    ensures T.CountEntry(e).files == FilesBelow(e)
  {
    if e.Subdir? {
      CountFiles(e.dir);
      hide T.Wrap;
      assert T.CountEntry(e) == T.Plus(T.EntryTally(e), T.Count(e.dir));
      SmallIsWrapped(T.Count(e.dir).files);
    }
  }

  lemma CountFiles(d: T.Dir)
    ensures T.Count(d).files == T.CountEntries(d.entries).files
  {
    hide T.Wrap, T.CountEntries;
    assert T.Count(d) == T.Plus(T.Visit(d), T.CountEntries(d.entries));
    SmallIsWrapped(T.CountEntries(d.entries).files);
  }

  lemma OneFileInX()
    ensures T.CountEntries([]).files == 0 && T.CountEntries(X.entries).files == 1
  {
    assert X.entries == [T.File(1, 1)] + [];
    InDirectory(T.File(1, 1), [], 1, 0);
  }

  lemma OneFileInB()
    ensures T.CountEntries(B.entries).files == 1
  {
    OneFileInX();
    assert B.entries == [T.Subdir(X)] + [];
    hide T.CountEntries;
    InDirectory(T.Subdir(X), [], 1, 0);
  }

  lemma OneFile()
    ensures T.CountAll([D]).files == 1
  {
    T.CountAllOne(D);
    CountFiles(D);
    OneFileInX();
    OneFileInB();
    hide T.CountEntries, T.CountAll, T.Count;
    var es1, es2, es3 := [T.Subdir(E)], [T.Subdir(C), T.Subdir(E)], [T.Subdir(B), T.Subdir(C), T.Subdir(E)];
    assert es1 == [T.Subdir(E)] + [] && es2 == [T.Subdir(C)] + es1;
    assert es3 == [T.Subdir(B)] + es2 && D.entries == [T.Subdir(A)] + es3;
    InDirectory(T.Subdir(E), [], 0, 0);
    InDirectory(T.Subdir(C), es1, 0, 0);
    InDirectory(T.Subdir(B), es2, 1, 0);
    InDirectory(T.Subdir(A), es3, 0, 1);
  }

  /** Up to the moment in which the owner is to write, and the thief to commit. */
  lemma UpToTheRace(c: State) returns (c': State)
    requires Stage(c, 1, Ready, Ready) && c.queues[0].capacity >= 8 && c.queues[0].thieves == map[]
    requires Holding(c, 0, 1, 0, Upto(1), Pushed(1), Cells(0, 0))
    ensures Reaches(c, c') && Stage(c', 3, Publishing(B, 0), Stealing(0, [])) && AboutToPush(c', 1, Cells(1, 1))
    ensures c'.queues[0].thieves == map[1 := Q.StealReady(1, 2)]
    ensures |c'.points| == |c.points| && c'.queues[1] == c.queues[1] && c'.items[1] == c.items[1]
  {
    hide Looks, Cells, Upto, Pushed, AboutToPush, Reaches;
    var c1 := QueueFour(c);
    var c2 := PlanTwo(c1);
    var c3 := PopThree(c2);
    c' := FindRoomForX(c3);
    Then(c, c1, c2);
    Then(c, c2, c3);
    Then(c, c3, c');
  }

  /** From there to the end. */
  lemma FromTheRace(c: State) returns (c': State)
    requires Stage(c, 3, Publishing(B, 0), Stealing(0, [])) && AboutToPush(c, 1, Cells(1, 1))
    requires c.queues[0].thieves == map[1 := Q.StealReady(1, 2)] && Holding(c, 1, 0, 0, [], [], [EMPTY])
    ensures Reaches(c, c') && |c'.points| == |c.points| && AllExited(c') && c'.counter == 0 && NoFiles(c')
  {
    hide Looks, Cells, AboutToPush, Reaches;
    var c1 := CommitTwo(c);
    var c2 := MoveTwo(c1);
    var c3 := PushX(c2);
    var c4 := UseBatch(c3);
    c' := LeaveAll(c4, |c4.points|);
    Then(c, c1, c2);
    Then(c, c2, c3);
    Then(c, c3, c4);
    Then(c, c4, c');
  }

  /**
   For every number of workers from two on and every ring from eight cells on, there is a tree with one file and
   an interleaving after which all workers have left their loops, the counter is zero, and no file is counted.
   */
  lemma SystemCanMissADirectory(workers: nat, capacity: Capacity)
    requires workers >= 2 && capacity >= 8
    ensures Fits([D], workers, capacity) && T.CountAll([D]).files == 1
    ensures exists events :: var c := Run(Start([D], workers, capacity), events);
              AllExited(c) && c.counter == 0 && T.Sum(c.results).files == 0
  {
    hide Looks, Start, Cells, Upto, Pushed, AboutToPush, T.CountAll;
    var c := Start([D], workers, capacity);
    AtStart(workers, capacity);
    OneFile();
    var c1 := UpToTheRace(c);
    var c2 := FromTheRace(c1);
    Then(c, c1, c2);
    SumWithoutFiles(c2.results);
  }
}
