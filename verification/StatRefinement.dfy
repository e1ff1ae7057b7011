/**
 Every step of the traversal on the lock-free queues is a step of the workers on exactly-once queues, or
 none: a claim is where a pop or a steal happens, the store to bottom_ is where a push does.
 */
module StatRefinement {
  import opened Wrappers
  import opened RingIndex
  import Q = QueueProtocol
  import S = QueueSlots
  import R = QueueRefinement
  import T = StatTraversal
  import opened StatSystem

  // ----- what a step leaves alone -----

  predicate ByOwner(e: Q.Event) {
    e.StartPop? || e.StartPush? || e.Owner?
  }

  lemma OwnerFrame(q: Q.State, e: Q.Event)
    requires ByOwner(e)
    ensures Q.Next(q, e).thieves == q.thieves
  {
    hide Slot, Q.Read, Q.Write, Q.Published, Limit;
  }

  lemma ThiefFrame(q: Q.State, w: nat, e: Q.Event)
    requires e == Q.Thief(w) || (e.StartSteal? && e.thief == w)
    ensures var q' := Q.Next(q, e);
      && q'.owner == q.owner && q'.index == q.index && q'.at == q.at
      && forall id | id != w :: (id in q.thieves <==> id in q'.thieves)
                                && (id in q.thieves ==> q'.thieves[id] == q.thieves[id])
  {
    hide Slot, Q.Read, Q.Write, Q.Published, Q.PublishedRange, Limit;
  }

  /** Worker w works on queue v, and nothing else changes. */
  ghost predicate Moves(c: State, c': State, w: nat, v: nat) {
    && Sized(c) && Sized(c') && |c'.points| == |c.points| && w < |c.points| && v < |c.points|
    && c'.queues == c.queues[v := c'.queues[v]]
    && c'.items == c.items[v := c'.items[v]] && c.items[v] <= c'.items[v]
    && c'.points == c.points[w := c'.points[w]]
    && c'.results == c.results[w := c'.results[w]]
    && (c.points[w].Stealing? ==> c.points[w].victim == v)
    && (v != w ==> c'.queues[v].owner == c.queues[v].owner && c'.items[v] == c.items[v])
    && SameThieves(c.queues[v], c'.queues[v], w)
  }

  ghost predicate SameThieves(q: Q.State, q': Q.State, w: nat) {
    forall id | id != w :: (id in q.thieves <==> id in q'.thieves)
                           && (id in q.thieves ==> q'.thieves[id] == q.thieves[id])
  }

  lemma ItemsExtend(items: seq<T.Dir>, items': seq<T.Dir>, ks: seq<nat>)
    requires items <= items' && forall j :: 0 <= j < |ks| ==> ks[j] < |items|
    ensures ItemsAt(items', ks) == ItemsAt(items, ks)
  {
    forall j | 0 <= j < |ks|
      ensures ItemAt(items', ks[j]) == ItemAt(items, ks[j])
    {
      assert items'[ks[j]] == items[ks[j]];
    }
  }

  /** Other workers do not notice. */
  lemma FrameWorker(c: State, c': State, w: nat, v: nat, u: nat)
    requires Moves(c, c', w, v) && u < |c.points| && u != w && WorkerOk(c, u)
    ensures WorkerOk(c', u) && PointOf(c', u) == PointOf(c, u) && ResultOf(c', u) == ResultOf(c, u)
  {
    hide ItemsAt;
    if c.points[u].Stealing? {
      var x := c.points[u].victim;
      var thief := c.queues[x].thieves[u];
      if x == v && thief.StealMoving? {
        ItemsExtend(c.items[v], c'.items[v], thief.pushes[..thief.i]);
        ItemsExtend(c.items[v], c'.items[v], thief.pushes[thief.i..]);
      }
    }
  }

  /** Other queues do not notice either. */
  lemma FrameQueue(c: State, c': State, w: nat, v: nat, x: nat)
    requires Moves(c, c', w, v) && x < |c.points| && x != v && QueueOk(c, x)
    ensures QueueOk(c', x) && QueueOf(c', x) == QueueOf(c, x)
  {
    hide Q.Inv, S.SlotInv, ItemsAt;
  }

  /** The abstract state after a step, put together. */
  lemma Compose(c: State, c': State, w: nat, v: nat, a: T.State)
    requires Coherent(c) && Moves(c, c', w, v) && QueueOk(c', v) && WorkerOk(c', w)
    requires a.counter == c'.counter && a.queues == Abstract(c).queues[v := QueueOf(c', v)]
    requires a.points == Abstract(c).points[w := PointOf(c', w)]
    requires a.results == Abstract(c).results[w := ResultOf(c', w)]
    ensures Coherent(c') && Abstract(c') == a
  {
    hide QueueOk, WorkerOk, QueueOf, PointOf, ResultOf;
    forall u | 0 <= u < |c.points| && u != w
      ensures WorkerOk(c', u) && PointOf(c', u) == PointOf(c, u) && ResultOf(c', u) == ResultOf(c, u)
    {
      FrameWorker(c, c', w, v, u);
    }
    forall x | 0 <= x < |c.points| && x != v
      ensures QueueOk(c', x) && QueueOf(c', x) == QueueOf(c, x)
    {
      FrameQueue(c, c', w, v, x);
    }
  }

  // ----- queues stay in order -----

  /** The queue an event works on stays in order, if the event is safe. */
  lemma QueueStepOk(q: Q.State, e: Q.Event)
    requires Q.Inv(q) && S.SlotInv(q) && Q.WithinTail(q, e) && S.WritesFree(q, e)
    ensures Q.Inv(Q.Next(q, e)) && S.SlotInv(Q.Next(q, e))
  {
    Q.NextInv(q, e);
    S.NextSlots(q, e);
  }

  lemma QuietStep(q: Q.State, e: Q.Event)
    requires Q.Inv(q) && !R.Publishes(q, e) && !R.Pops(q, e) && !Q.StealsNow(q, e)
    ensures R.Live(Q.Next(q, e)) == R.Live(q) && Q.Next(q, e).index == q.index
  {
    R.OtherStepsKeepLive(q, e);
  }

  lemma AbstractValid(c: State)
    requires Coherent(c)
    ensures T.Valid(Abstract(c))
  {
    hide QueueOk, QueueOf;
    forall w | 0 <= w < |c.points|
      ensures T.Wrapped(ResultOf(c, w))
      ensures PointOf(c, w).Processing? ==> PointOf(c, w).i <= |PointOf(c, w).dir.entries|
      ensures PointOf(c, w).Pushing? ==> AtSubdir(PointOf(c, w).dir, PointOf(c, w).i)
    {
      assert WorkerOk(c, w);
    }
  }

  /** A step that the abstract workers do not see. */
  lemma ComposeSame(c: State, c': State, w: nat, v: nat)
    requires Coherent(c) && Moves(c, c', w, v) && QueueOk(c', v) && WorkerOk(c', w) && c'.counter == c.counter
    requires QueueOf(c', v) == QueueOf(c, v) && PointOf(c', w) == PointOf(c, w) && ResultOf(c', w) == ResultOf(c, w)
    ensures Coherent(c') && Abstract(c') == Abstract(c)
  {
    hide QueueOk, WorkerOk, QueueOf, PointOf, ResultOf, Moves;
    var a := Abstract(c);
    MovesSized(c, c', w, v);
    assert a.queues == a.queues[v := QueueOf(c', v)] && a.points == a.points[w := PointOf(c', w)];
    assert a.results == a.results[w := ResultOf(c', w)];
    Compose(c, c', w, v, a);
  }

  lemma MovesSized(c: State, c': State, w: nat, v: nat)
    requires Moves(c, c', w, v)
    ensures Sized(c) && Sized(c') && |c'.points| == |c.points| && w < |c.points| && v < |c.points|
  {
  }

  // ----- beginning an operation -----

  lemma StartPopRefines(c: State, w: nat)
    requires Coherent(c) && w < |c.points| && c.points[w].Ready?
    requires Q.WithinTail(c.queues[w], Q.StartPop) && S.WritesFree(c.queues[w], Q.StartPop)
    ensures var c' := Settle(c, w, w, Q.Next(c.queues[w], Q.StartPop));
      Coherent(c') && Abstract(c') == Abstract(c)
  {
    hide Q.Inv, S.SlotInv, R.Live, ItemsAt;
    var q := c.queues[w];
    assert QueueOk(c, w) && WorkerOk(c, w);
    QueueStepOk(q, Q.StartPop);
    QuietStep(q, Q.StartPop);
    OwnerFrame(q, Q.StartPop);
    ComposeSame(c, Settle(c, w, w, Q.Next(q, Q.StartPop)), w, w);
  }

  lemma StartStealRefines(c: State, w: nat, v: nat)
    requires Coherent(c) && w < |c.points| && c.points[w].Ready? && v < |c.points| && v != w
    requires var e := Q.StartSteal(w, Some(BATCH)); Q.WithinTail(c.queues[v], e) && S.WritesFree(c.queues[v], e)
    ensures var c' := Settle(c, w, v, Q.Next(c.queues[v], Q.StartSteal(w, Some(BATCH))));
      Coherent(c') && Abstract(c') == Abstract(c)
  {
    hide Q.Inv, S.SlotInv, R.Live, ItemsAt;
    var q, e := c.queues[v], Q.StartSteal(w, Some(BATCH));
    assert QueueOk(c, v) && WorkerOk(c, w);
    QueueStepOk(q, e);
    QuietStep(q, e);
    ThiefFrame(q, w, e);
    ComposeSame(c, Settle(c, w, v, Q.Next(q, e)), w, v);
  }

  lemma StartPushRefines(c: State, w: nat)
    requires Coherent(c) && w < |c.points|
    requires (c.points[w].Stolen? && c.points[w].rest != []) || c.points[w].Pushing?
    requires Q.WithinTail(c.queues[w], Q.StartPush) && S.WritesFree(c.queues[w], Q.StartPush)
    ensures var c' := Settle(c, w, w, Q.Next(c.queues[w], Q.StartPush));
      Coherent(c') && Abstract(c') == Abstract(c)
  {
    hide Q.Inv, S.SlotInv, R.Live, ItemsAt;
    var q := c.queues[w];
    assert QueueOk(c, w) && WorkerOk(c, w);
    QueueStepOk(q, Q.StartPush);
    QuietStep(q, Q.StartPush);
    OwnerFrame(q, Q.StartPush);
    ComposeSame(c, Settle(c, w, w, Q.Next(q, Q.StartPush)), w, w);
  }

  // ----- inside a pop -----

  /** What a worker does to its own queue, or a thief to that of its victim, while the live items stay. */
  lemma SameQueue(c: State, c': State, v: nat)
    requires Sized(c) && Sized(c') && |c'.points| == |c.points| && v < |c.points|
    requires c'.items == c.items && R.Live(c'.queues[v]) == R.Live(c.queues[v])
    ensures QueueOf(c', v) == QueueOf(c, v)
  {
    hide R.Live;
  }

  /** The steps of a pop between its loads, stores and compare-and-swap. */
  lemma PopPoints(q: Q.State)
    requires !q.owner.Idle? && !Q.Pushing(q.owner) && !R.Pops(q, Q.Owner) && !q.owner.PopTake?
    ensures var q' := Q.Next(q, Q.Owner);
      && !Q.Pushing(q'.owner) && S.OwnerTook(q') == S.OwnerTook(q)
      && (S.OwnerTook(q) ==> q'.owner.push == q.owner.push && !q'.owner.Idle?)
  {
    hide Slot, Q.Read, Q.Write, Q.Published;
  }

  /** A queue in the middle of a pop, after one more step of its owner. */
  lemma PopFacts(q: Q.State)
    requires Q.Inv(q) && S.SlotInv(q) && Q.WithinTail(q, Q.Owner) && S.WritesFree(q, Q.Owner)
    requires !q.owner.Idle? && !Q.Pushing(q.owner)
    ensures var q' := Q.Next(q, Q.Owner);
      && Q.Inv(q') && S.SlotInv(q') && q'.thieves == q.thieves && q'.index == q.index && !Q.Pushing(q'.owner)
      && (if R.Pops(q, Q.Owner) then
            && !S.OwnerTook(q) && S.OwnerTook(q') && !q'.owner.Idle? && !q.owner.PopTake?
            && R.Live(q) == R.Live(q') + [q'.owner.push]
          else if q.owner.PopTake? then
            && R.Live(q') == R.Live(q) && q'.owner.Idle? && S.OwnerTook(q)
            && Q.Read(q, q.owner.b) == Q.Holds(q.owner.push)
          else
            && R.Live(q') == R.Live(q) && S.OwnerTook(q') == S.OwnerTook(q)
            && (S.OwnerTook(q) ==> q'.owner.push == q.owner.push && !q'.owner.Idle?))
  {
    QueueStepOk(q, Q.Owner);
    OwnerFrame(q, Q.Owner);
    if R.Pops(q, Q.Owner) {
      R.PopShortens(q);
    } else {
      QuietStep(q, Q.Owner);
      if !q.owner.PopTake? {
        PopPoints(q);
      }
    }
    hide R.Live, Q.Read, Q.Write, Q.Published;
  }

  lemma QuietPopRefines(c: State, w: nat)
    requires Coherent(c) && w < |c.points| && c.points[w].Popping?
    requires !R.Pops(c.queues[w], Q.Owner) && !c.queues[w].owner.PopTake?
    requires Q.WithinTail(c.queues[w], Q.Owner) && S.WritesFree(c.queues[w], Q.Owner)
    ensures var c' := Settle(c, w, w, Q.Next(c.queues[w], Q.Owner));
      Coherent(c') && Abstract(c') == Abstract(c)
  {
    hide Q.Inv, S.SlotInv, R.Live, ItemsAt, Q.Next, R.Pops, Q.Read;
    var c' := Settle(c, w, w, Q.Next(c.queues[w], Q.Owner));
    assert QueueOk(c, w) && WorkerOk(c, w);
    PopFacts(c.queues[w]);
    SameQueue(c, c', w);
    ComposeSame(c, c', w, w);
  }

  /** Moving the item out ends a pop: it is the one that was claimed. */
  lemma TakeRefines(c: State, w: nat)
    requires Coherent(c) && w < |c.points| && c.points[w].Popping? && c.queues[w].owner.PopTake?
    requires Q.WithinTail(c.queues[w], Q.Owner) && S.WritesFree(c.queues[w], Q.Owner)
    ensures var c' := Settle(c, w, w, Q.Next(c.queues[w], Q.Owner));
      Coherent(c') && Abstract(c') == Abstract(c)
  {
    hide Q.Inv, S.SlotInv, R.Live, ItemsAt, Q.Next, R.Pops, Q.Read, T.Plus;
    var c' := Settle(c, w, w, Q.Next(c.queues[w], Q.Owner));
    assert QueueOk(c, w) && WorkerOk(c, w);
    PopFacts(c.queues[w]);
    NoPopAtTake(c.queues[w]);
    SameQueue(c, c', w);
    ComposeSame(c, c', w, w);
  }

  lemma NoPopAtTake(q: Q.State)
    requires q.owner.PopTake?
    ensures !R.Pops(q, Q.Owner)
  {
  }

  /** The abstract pop. */
  lemma AbstractPop(a: T.State, w: nat)
    requires T.Valid(a) && w < |a.points| && a.points[w] == T.Ready && a.queues[w] != []
    ensures var a', q := T.Next(a, T.Event(w, T.Pop)), a.queues[w];
      && a'.counter == a.counter && a'.queues == a.queues[w := q[..|q| - 1]]
      && a'.points == a.points[w := T.Processing(q[|q| - 1], 0)]
      && a'.results == a.results[w := T.Plus(a.results[w], T.Visit(q[|q| - 1]))]
  {
    hide T.Plus;
  }

  /** Claiming the newest item is the abstract pop. */
  lemma ClaimRefines(c: State, w: nat)
    requires Coherent(c) && w < |c.points| && c.points[w].Popping? && R.Pops(c.queues[w], Q.Owner)
    requires Q.WithinTail(c.queues[w], Q.Owner) && S.WritesFree(c.queues[w], Q.Owner)
    ensures T.Valid(Abstract(c))
    ensures var c' := Settle(c, w, w, Q.Next(c.queues[w], Q.Owner));
      Coherent(c') && Abstract(c') == T.Next(Abstract(c), T.Event(w, T.Pop))
  {
    hide Q.Inv, S.SlotInv, R.Live, Q.Next, R.Pops, Q.Read, T.Plus, T.Next;
    var q' := Q.Next(c.queues[w], Q.Owner);
    var c' := Settle(c, w, w, q');
    assert QueueOk(c, w) && WorkerOk(c, w);
    PopFacts(c.queues[w]);
    AbstractValid(c);
    ItemsConcat(c.items[w], R.Live(q'), q'.owner.push);
    hide ItemsAt;
    AbstractPop(Abstract(c), w);
    Compose(c, c', w, w, T.Next(Abstract(c), T.Event(w, T.Pop)));
  }

  lemma ItemsConcat(items: seq<T.Dir>, ks: seq<nat>, k: nat)
    ensures ItemsAt(items, ks + [k]) == ItemsAt(items, ks) + [ItemAt(items, k)]
  {
  }

  // ----- inside a steal -----

  /** A queue after one more step of one of its thieves. */
  lemma ThiefFacts(q: Q.State, w: nat)
    requires Q.Inv(q) && S.SlotInv(q) && Q.WithinTail(q, Q.Thief(w)) && w in q.thieves
    ensures var q' := Q.Next(q, Q.Thief(w));
      && Q.Inv(q') && S.SlotInv(q') && q'.owner == q.owner && q'.index == q.index && SameThieves(q, q', w)
  {
    QueueStepOk(q, Q.Thief(w));
    ThiefFrame(q, w, Q.Thief(w));
    hide Q.Next, Q.Inv, S.SlotInv;
  }

  lemma ReadingThief(q: Q.State, w: nat)
    requires Q.Inv(q) && w in q.thieves && !q.thieves[w].StealMoving? && !Q.StealsNow(q, Q.Thief(w))
    ensures var q' := Q.Next(q, Q.Thief(w));
      && R.Live(q') == R.Live(q)
      && (w in q'.thieves ==> q.thieves[w].StealLoaded? && q'.thieves[w].StealReady?
                              && (q.thieves[w].limit == Some(BATCH) ==> q'.thieves[w].n <= BATCH))
  {
    QuietStep(q, Q.Thief(w));
    hide R.Live, Q.Read, Q.Write, Q.Published, Q.PublishedRange;
  }

  lemma CommittingThief(q: Q.State, w: nat)
    requires Q.Inv(q) && Q.StealsNow(q, Q.Thief(w)) && Q.WithinTail(q, Q.Thief(w))
    ensures var q', n := Q.Next(q, Q.Thief(w)), q.thieves[w].n;
      && 1 <= n <= |R.Live(q)| && R.Live(q') == R.Live(q)[n..]
      && w in q'.thieves && q'.thieves[w] == Q.StealMoving(q.top, R.Live(q)[..n], 0)
      && forall j :: 0 <= j < |R.Live(q)| ==> R.Live(q)[j] < |q.index|
  {
    R.StealTakesOldest(q, w);
    R.LiveIsPublished(q);
    hide R.Live, Q.Read, Q.Write, Q.Published, Q.PublishedRange;
    forall j | 0 <= j < |R.Live(q)|
      ensures R.Live(q)[j] < |q.index|
    {
      assert R.Live(q)[j] in R.Live(q);
    }
  }

  lemma MovingThief(q: Q.State, w: nat)
    requires Q.Inv(q) && S.SlotInv(q) && w in q.thieves && q.thieves[w].StealMoving?
    ensures var q', thief := Q.Next(q, Q.Thief(w)), q.thieves[w];
      && thief.i <= |thief.pushes| && R.Live(q') == R.Live(q)
      && (if thief.i < |thief.pushes| then
            && w in q'.thieves && q'.thieves[w] == thief.(i := thief.i + 1)
            && Q.Read(q, thief.t + thief.i) == Q.Holds(thief.pushes[thief.i])
          else w !in q'.thieves)
  {
    var thief := q.thieves[w];
    assert Q.ThiefInv(q, thief) && S.ThiefSlots(q, thief);
    assert thief.i < |thief.pushes| ==> S.ItemInSlot(q, thief, thief.i);
    QuietStep(q, Q.Thief(w));
    hide R.Live, Q.Read, Q.Write, Q.Published, Q.PublishedRange;
  }

  lemma ReadingRefines(c: State, w: nat)
    requires Coherent(c) && w < |c.points| && c.points[w].Stealing?
    requires var v := c.points[w].victim;
      && v < |c.points| && w in c.queues[v].thieves && !c.queues[v].thieves[w].StealMoving?
      && !Q.StealsNow(c.queues[v], Q.Thief(w)) && Q.WithinTail(c.queues[v], Q.Thief(w))
    ensures var v := c.points[w].victim;
      var c' := Settle(c, w, v, Q.Next(c.queues[v], Q.Thief(w)));
      Coherent(c') && Abstract(c') == Abstract(c)
  {
    hide Q.Inv, S.SlotInv, R.Live, ItemsAt, Q.Next, Q.Read, Q.StealsNow;
    var v := c.points[w].victim;
    var q := c.queues[v];
    var c' := Settle(c, w, v, Q.Next(q, Q.Thief(w)));
    assert QueueOk(c, v) && WorkerOk(c, w);
    ThiefFacts(q, w);
    ReadingThief(q, w);
    SameQueue(c, c', v);
    ComposeSame(c, c', w, v);
  }

  /** Moving items out one by one does not change what the batch will be. */
  lemma BatchStays(items: seq<T.Dir>, pushes: seq<nat>, i: nat)
    requires i < |pushes|
    ensures ItemsAt(items, pushes[..i + 1]) == ItemsAt(items, pushes[..i]) + [ItemAt(items, pushes[i])]
    ensures ItemsAt(items, pushes[..i]) + ItemsAt(items, pushes[i..])
         == ItemsAt(items, pushes[..i + 1]) + ItemsAt(items, pushes[i + 1..])
  {
  }

  lemma MovingRefines(c: State, w: nat)
    requires Coherent(c) && w < |c.points| && c.points[w].Stealing?
    requires var v := c.points[w].victim;
      && v < |c.points| && w in c.queues[v].thieves && c.queues[v].thieves[w].StealMoving?
      && c.queues[v].thieves[w].i < |c.queues[v].thieves[w].pushes| && Q.WithinTail(c.queues[v], Q.Thief(w))
    ensures var v := c.points[w].victim;
      var c' := Settle(c, w, v, Q.Next(c.queues[v], Q.Thief(w)));
      Coherent(c') && Abstract(c') == Abstract(c)
  {
    hide Q.Inv, S.SlotInv, R.Live, Q.Next, Q.Read, Q.StealsNow;
    var v := c.points[w].victim;
    var q := c.queues[v];
    var thief, c' := q.thieves[w], Settle(c, w, v, Q.Next(q, Q.Thief(w)));
    assert QueueOk(c, v) && WorkerOk(c, w);
    ThiefFacts(q, w);
    MovingThief(q, w);
    BatchStays(c.items[v], thief.pushes, thief.i);
    hide ItemsAt;
    SameQueue(c, c', v);
    ComposeSame(c, c', w, v);
  }

  lemma LeavingRefines(c: State, w: nat)
    requires Coherent(c) && w < |c.points| && c.points[w].Stealing?
    requires var v := c.points[w].victim;
      && v < |c.points| && w in c.queues[v].thieves && c.queues[v].thieves[w].StealMoving?
      && c.queues[v].thieves[w].i >= |c.queues[v].thieves[w].pushes| && Q.WithinTail(c.queues[v], Q.Thief(w))
    ensures var v := c.points[w].victim;
      var c' := Settle(c, w, v, Q.Next(c.queues[v], Q.Thief(w)));
      Coherent(c') && Abstract(c') == Abstract(c)
  {
    hide Q.Inv, S.SlotInv, R.Live, Q.Next, Q.Read, Q.StealsNow;
    var v := c.points[w].victim;
    var q := c.queues[v];
    var thief, c' := q.thieves[w], Settle(c, w, v, Q.Next(q, Q.Thief(w)));
    assert QueueOk(c, v) && WorkerOk(c, w);
    ThiefFacts(q, w);
    MovingThief(q, w);
    var got := c.points[w].got;
    assert thief.pushes[..thief.i] == thief.pushes && got != [];
    assert got + ItemsAt(c.items[v], thief.pushes[thief.i..]) == got;
    hide ItemsAt;
    SameQueue(c, c', v);
    ComposeSame(c, c', w, v);
  }

  /** The abstract steal. */
  lemma AbstractSteal(a: T.State, w: nat, v: nat, n: nat)
    requires T.Valid(a) && w < |a.points| && v < |a.points| && v != w && a.points[w] == T.Ready
    requires 1 <= n <= BATCH && n <= |a.queues[v]|
    ensures var a', q := T.Next(a, T.Event(w, T.Steal(v, n))), a.queues[v];
      && a'.counter == a.counter && a'.queues == a.queues[v := q[n..]]
      && a'.points == a.points[w := T.Stolen(q[n - 1], q[..n - 1])] && a'.results == a.results
  {
  }

  lemma BatchOfLive(items: seq<T.Dir>, live: seq<nat>, n: nat)
    requires 1 <= n <= |live|
    ensures ItemsAt(items, live[n..]) == ItemsAt(items, live)[n..]
    ensures ItemsAt(items, live[..n]) == ItemsAt(items, live)[..n]
    ensures ItemsAt(items, live[..n][..0]) == []
    ensures BatchPoint([] + ItemsAt(items, live[..n][0..]))
         == T.Stolen(ItemsAt(items, live)[n - 1], ItemsAt(items, live)[..n - 1])
  {
    assert live[..n][0..] == live[..n];
    var batch := ItemsAt(items, live[..n]);
    assert [] + batch == batch && batch[..n - 1] == ItemsAt(items, live)[..n - 1];
  }

  /** What the successful compare-and-swap of a thief does to its victim's queue and to itself. */
  lemma CommitShape(c: State, w: nat, v: nat)
    requires Coherent(c) && w < |c.points| && c.points[w].Stealing? && c.points[w].victim == v < |c.points|
    requires w in c.queues[v].thieves && c.queues[v].thieves[w].StealReady? && c.queues[v].thieves[w].n >= 0
    requires Q.StealsNow(c.queues[v], Q.Thief(w)) && Q.WithinTail(c.queues[v], Q.Thief(w))
    ensures var n: nat, c' := c.queues[v].thieves[w].n, Settle(c, w, v, Q.Next(c.queues[v], Q.Thief(w)));
      && Moves(c, c', w, v) && QueueOk(c', v) && WorkerOk(c', w) && c'.counter == c.counter
      && 1 <= n <= BATCH && n <= |QueueOf(c, v)| && QueueOf(c', v) == QueueOf(c, v)[n..]
      && PointOf(c, w) == T.Ready && PointOf(c', w) == T.Stolen(QueueOf(c, v)[n - 1], QueueOf(c, v)[..n - 1])
      && ResultOf(c', w) == ResultOf(c, w)
  {
    hide Q.Inv, S.SlotInv, R.Live, Q.Next, Q.Read, Q.StealsNow;
    var q := c.queues[v];
    assert QueueOk(c, v) && WorkerOk(c, w);
    ThiefFacts(q, w);
    CommittingThief(q, w);
    BatchOfLive(c.items[v], R.Live(q), q.thieves[w].n);
    hide ItemsAt, SameThieves, BatchPoint;
  }

  /** The successful compare-and-swap of a thief is the abstract steal. */
  lemma CommitRefines(c: State, w: nat, v: nat)
    requires Coherent(c) && w < |c.points| && c.points[w].Stealing? && c.points[w].victim == v < |c.points|
    requires w in c.queues[v].thieves && c.queues[v].thieves[w].StealReady? && c.queues[v].thieves[w].n >= 0
    requires Q.StealsNow(c.queues[v], Q.Thief(w)) && Q.WithinTail(c.queues[v], Q.Thief(w))
    ensures T.Valid(Abstract(c))
    ensures var c' := Settle(c, w, v, Q.Next(c.queues[v], Q.Thief(w)));
      Coherent(c') && Abstract(c') == T.Next(Abstract(c), T.Event(w, T.Steal(v, c.queues[v].thieves[w].n)))
  {
    CommitShape(c, w, v);
    AbstractValid(c);
    assert WorkerOk(c, w);
    hide QueueOk, QueueOf, PointOf, ResultOf, Moves, T.Next, Settle, Q.StealsNow, Q.WithinTail, Q.Next;
    var n: nat := c.queues[v].thieves[w].n;
    var c' := Settle(c, w, v, Q.Next(c.queues[v], Q.Thief(w)));
    AbstractSteal(Abstract(c), w, v, n);
    assert Abstract(c).results == Abstract(c).results[w := ResultOf(c', w)];
    Compose(c, c', w, v, T.Next(Abstract(c), T.Event(w, T.Steal(v, n))));
    hide WorkerOk, Coherent;
  }

  // ----- inside a push -----

  /** A queue in the middle of a push, after one more step of its owner. */
  lemma PushFacts(q: Q.State)
    requires Q.Inv(q) && S.SlotInv(q) && Q.WithinTail(q, Q.Owner) && S.WritesFree(q, Q.Owner) && Q.Pushing(q.owner)
    ensures var q' := Q.Next(q, Q.Owner);
      && Q.Inv(q') && S.SlotInv(q') && q'.thieves == q.thieves
      && (forall j :: 0 <= j < |R.Live(q)| ==> R.Live(q)[j] < |q.index|)
      && (if q.owner.PushWritten?
          then q'.owner.Idle? && |q'.index| == |q.index| + 1 && R.Live(q') == R.Live(q) + [|q.index|]
          else Q.Pushing(q'.owner) && q'.index == q.index && R.Live(q') == R.Live(q))
  {
    QueueStepOk(q, Q.Owner);
    OwnerFrame(q, Q.Owner);
    R.LiveIsPublished(q);
    if q.owner.PushWritten? {
      R.PublishExtends(q);
    } else {
      QuietStep(q, Q.Owner);
    }
    hide R.Live, Q.Read, Q.Write, Q.Published;
    forall j | 0 <= j < |R.Live(q)|
      ensures R.Live(q)[j] < |q.index|
    {
      assert R.Live(q)[j] in R.Live(q);
    }
  }

  lemma QuietPushRefines(c: State, w: nat)
    requires Coherent(c) && w < |c.points| && (c.points[w].Refilling? || c.points[w].Publishing?)
    requires !c.queues[w].owner.PushWritten?
    requires Q.WithinTail(c.queues[w], Q.Owner) && S.WritesFree(c.queues[w], Q.Owner)
    ensures var c' := Settle(c, w, w, Q.Next(c.queues[w], Q.Owner));
      Coherent(c') && Abstract(c') == Abstract(c)
  {
    hide Q.Inv, S.SlotInv, R.Live, ItemsAt, Q.Next, Q.Read;
    var c' := Settle(c, w, w, Q.Next(c.queues[w], Q.Owner));
    assert QueueOk(c, w) && WorkerOk(c, w);
    PushFacts(c.queues[w]);
    SameQueue(c, c', w);
    ComposeSame(c, c', w, w);
  }

  lemma ItemsPublished(items: seq<T.Dir>, d: T.Dir, live: seq<nat>)
    requires forall j :: 0 <= j < |live| ==> live[j] < |items|
    ensures ItemsAt(items + [d], live + [|items|]) == ItemsAt(items, live) + [d]
  {
    ItemsExtend(items, items + [d], live);
    ItemsConcat(items + [d], live, |items|);
  }

  /** What the store to bottom_ does, for a worker that pushes d and goes on at a point. */
  lemma PublishShape(c: State, w: nat)
    requires Coherent(c) && w < |c.points| && (c.points[w].Refilling? || c.points[w].Publishing?)
    requires c.queues[w].owner.PushWritten?
    requires Q.WithinTail(c.queues[w], Q.Owner) && S.WritesFree(c.queues[w], Q.Owner)
    ensures WorkerOk(c, w)
    ensures var c' := Settle(c, w, w, Q.Next(c.queues[w], Q.Owner));
      var d := if c.points[w].Refilling? then c.points[w].rest[0] else c.points[w].dir.entries[c.points[w].i].dir;
      && Moves(c, c', w, w) && QueueOk(c', w) && WorkerOk(c', w) && c'.counter == c.counter
      && QueueOf(c', w) == QueueOf(c, w) + [d] && ResultOf(c', w) == ResultOf(c, w)
      && PointOf(c', w) == if c.points[w].Refilling? then T.Stolen(c.points[w].work, c.points[w].rest[1..])
                           else T.Processing(c.points[w].dir, c.points[w].i + 1)
  {
    hide Q.Inv, S.SlotInv, R.Live, Q.Next, Q.Read;
    assert QueueOk(c, w) && WorkerOk(c, w);
    PushFacts(c.queues[w]);
    var d := if c.points[w].Refilling? then c.points[w].rest[0] else c.points[w].dir.entries[c.points[w].i].dir;
    ItemsPublished(c.items[w], d, R.Live(c.queues[w]));
    hide ItemsAt, SameThieves;
  }

  function PushEvent(c: State, w: nat): T.Event
    requires Sized(c) && w < |c.points|
  {
    T.Event(w, if c.points[w].Refilling? then T.PushStolen else T.Push)
  }

  /** The abstract pushes. */
  lemma AbstractPush(a: T.State, w: nat)
    requires T.Valid(a) && w < |a.points|
    ensures a.points[w].Stolen? && a.points[w].rest != [] ==>
      T.Next(a, T.Event(w, T.PushStolen))
      == a.(queues := a.queues[w := a.queues[w] + [a.points[w].rest[0]]],
            points := a.points[w := T.Stolen(a.points[w].work, a.points[w].rest[1..])])
    ensures a.points[w].Pushing? ==>
      T.Next(a, T.Event(w, T.Push))
      == a.(queues := a.queues[w := a.queues[w] + [a.points[w].dir.entries[a.points[w].i].dir]],
            points := a.points[w := T.Processing(a.points[w].dir, a.points[w].i + 1)])
  {
  }

  /** The store to bottom_ is the abstract push. */
  lemma PublishRefines(c: State, w: nat)
    requires Coherent(c) && w < |c.points| && (c.points[w].Refilling? || c.points[w].Publishing?)
    requires c.queues[w].owner.PushWritten?
    requires Q.WithinTail(c.queues[w], Q.Owner) && S.WritesFree(c.queues[w], Q.Owner)
    ensures T.Valid(Abstract(c))
    ensures var c' := Settle(c, w, w, Q.Next(c.queues[w], Q.Owner));
      Coherent(c') && Abstract(c') == T.Next(Abstract(c), PushEvent(c, w))
  {
    PublishShape(c, w);
    AbstractValid(c);
    assert PointOf(c, w) == if c.points[w].Refilling? then T.Stolen(c.points[w].work, c.points[w].rest)
                            else T.Pushing(c.points[w].dir, c.points[w].i);
    hide QueueOk, QueueOf, PointOf, ResultOf, Moves, T.Next, Settle, Q.WithinTail, S.WritesFree, Q.Next;
    var c' := Settle(c, w, w, Q.Next(c.queues[w], Q.Owner));
    AbstractPush(Abstract(c), w);
    assert Abstract(c).results == Abstract(c).results[w := ResultOf(c', w)];
    Compose(c, c', w, w, T.Next(Abstract(c), PushEvent(c, w)));
    hide WorkerOk, Coherent;
  }

  // ----- between the queues -----

  /** The abstract event of a step outside the queues. */
  function LocalEvent(e: Event): T.Event {
    T.Event(e.worker, match e.action
      case GiveUp => T.GiveUp
      case Check => T.Check
      case Begin => T.PushStolen
      case _ => T.Step)
  }

  lemma AbstractLocal(a: T.State, w: nat)
    requires T.Valid(a) && w < |a.points|
    ensures a.points[w].Ready? ==> T.Next(a, T.Event(w, T.GiveUp)) == a.(points := a.points[w := T.NoWork])
    ensures a.points[w].NoWork? ==>
      T.Next(a, T.Event(w, T.Check)) == a.(points := a.points[w := if a.counter == 0 then T.Exited else T.Ready])
    ensures a.points[w].Stolen? && a.points[w].rest == [] ==>
      T.Next(a, T.Event(w, T.PushStolen)) == T.Begin(a, w, a.points[w].work)
    ensures a.points[w].Processing? ==> T.Next(a, T.Event(w, T.Step)) == T.StepEntry(a, w)
  {
    hide T.Begin, T.StepEntry;
  }

  /** The steps that the workers take by themselves. */
  predicate IsLocal(c: State, e: Event)
    requires Sized(c) && e.worker < |c.points|
  {
    var p := c.points[e.worker];
    || (p.Ready? && e.action.GiveUp?) || (p.NoWork? && e.action.Check?)
    || (p.Stolen? && p.rest == [] && e.action.Begin?) || (p.Processing? && e.action.Step?)
  }

  /** A step outside the queues changes no queue. */
  lemma LocalMoves(c: State, e: Event)
    requires Coherent(c) && e.worker < |c.points| && IsLocal(c, e)
    ensures var c', w := LocalNext(c, e), e.worker;
      Moves(c, c', w, w) && QueueOk(c', w) && QueueOf(c', w) == QueueOf(c, w)
  {
    hide Q.Inv, S.SlotInv, R.Live, ItemsAt, T.Plus, T.EntryTally;
    assert QueueOk(c, e.worker) && WorkerOk(c, e.worker);
  }

  lemma LocalWorker(c: State, e: Event)
    requires Coherent(c) && e.worker < |c.points| && IsLocal(c, e)
    ensures WorkerOk(LocalNext(c, e), e.worker)
    ensures var c', w := LocalNext(c, e), e.worker;
      ResultOf(c', w) == c'.results[w] && ResultOf(c, w) == c.results[w]
  {
    hide QueueOk, T.Plus, T.EntryTally;
    assert WorkerOk(c, e.worker);
  }

  lemma LocalAbstract(c: State, e: Event)
    requires Coherent(c) && e.worker < |c.points| && IsLocal(c, e) && T.Valid(Abstract(c))
    requires ResultOf(c, e.worker) == c.results[e.worker]
    ensures var c', a, w := LocalNext(c, e), T.Next(Abstract(c), LocalEvent(e)), e.worker;
      && a.counter == c'.counter && a.queues == Abstract(c).queues
      && a.points == Abstract(c).points[w := PointOf(c', w)] && a.results == Abstract(c).results[w := c'.results[w]]
  {
    hide QueueOk, QueueOf, T.Plus, T.EntryTally, T.Next;
    var w := e.worker;
    assert WorkerOk(c, w);
    AbstractLocal(Abstract(c), w);
    assert Abstract(c).results[w] == c.results[w];
    assert Abstract(c).results == Abstract(c).results[w := c.results[w]];
    hide ResultOf;
  }

  lemma LocalShape(c: State, e: Event)
    requires Coherent(c) && e.worker < |c.points| && IsLocal(c, e)
    ensures T.Valid(Abstract(c))
    ensures var c', a, w := LocalNext(c, e), T.Next(Abstract(c), LocalEvent(e)), e.worker;
      && Moves(c, c', w, w) && QueueOk(c', w) && WorkerOk(c', w) && QueueOf(c', w) == QueueOf(c, w)
      && a.counter == c'.counter && a.queues == Abstract(c).queues
      && a.points == Abstract(c).points[w := PointOf(c', w)] && a.results == Abstract(c).results[w := ResultOf(c', w)]
  {
    AbstractValid(c);
    LocalMoves(c, e);
    LocalWorker(c, e);
    LocalAbstract(c, e);
    hide QueueOk, QueueOf, PointOf, ResultOf, Moves, WorkerOk, T.Next, LocalNext, IsLocal, Coherent, Abstract;
  }

  lemma LocalRefines(c: State, e: Event)
    requires Coherent(c) && e.worker < |c.points| && IsLocal(c, e)
    ensures T.Valid(Abstract(c))
    ensures var c' := LocalNext(c, e);
      Coherent(c') && Abstract(c') == T.Next(Abstract(c), LocalEvent(e))
  {
    LocalShape(c, e);
    hide QueueOk, QueueOf, PointOf, ResultOf, Moves, WorkerOk, T.Next, LocalNext, IsLocal;
    var c', w := LocalNext(c, e), e.worker;
    assert Abstract(c).queues == Abstract(c).queues[w := QueueOf(c', w)];
    Compose(c, c', w, w, T.Next(Abstract(c), LocalEvent(e)));
  }

  // ----- every step -----

  ghost predicate Simulated(a: T.State, a': T.State) {
    T.Valid(a) && (a' == a || exists e: T.Event :: a' == T.Next(a, e))
  }

  lemma ThiefStepRefines(c: State, w: nat)
    requires Coherent(c) && w < |c.points| && c.points[w].Stealing?
    requires c.points[w].victim < |c.points| && Q.WithinTail(c.queues[c.points[w].victim], Q.Thief(w))
    ensures var v := c.points[w].victim;
      var c' := Settle(c, w, v, Q.Next(c.queues[v], Q.Thief(w)));
      Coherent(c') && Simulated(Abstract(c), Abstract(c'))
  {
    var v := c.points[w].victim;
    assert WorkerOk(c, w) && QueueOk(c, v);
    AbstractValid(c);
    hide Abstract, Coherent, Settle, Q.Next, Q.Inv, S.SlotInv, T.Next;
    var q := c.queues[v];
    if Q.StealsNow(q, Q.Thief(w)) {
      CommitRefines(c, w, v);
    } else if !q.thieves[w].StealMoving? {
      ReadingRefines(c, w);
    } else if q.thieves[w].i < |q.thieves[w].pushes| {
      MovingRefines(c, w);
    } else {
      LeavingRefines(c, w);
    }
  }

  lemma OwnerStepRefines(c: State, w: nat)
    requires Coherent(c) && w < |c.points|
    requires c.points[w].Popping? || c.points[w].Refilling? || c.points[w].Publishing?
    requires Q.WithinTail(c.queues[w], Q.Owner) && S.WritesFree(c.queues[w], Q.Owner)
    ensures var c' := Settle(c, w, w, Q.Next(c.queues[w], Q.Owner));
      Coherent(c') && Simulated(Abstract(c), Abstract(c'))
  {
    AbstractValid(c);
    hide Abstract, Coherent, Settle, Q.Next, T.Next, Q.WithinTail, S.WritesFree, R.Pops;
    if c.points[w].Popping? {
      if R.Pops(c.queues[w], Q.Owner) {
        ClaimRefines(c, w);
      } else if c.queues[w].owner.PopTake? {
        TakeRefines(c, w);
      } else {
        QuietPopRefines(c, w);
      }
    } else if c.queues[w].owner.PushWritten? {
      PublishRefines(c, w);
    } else {
      QuietPushRefines(c, w);
    }
  }

  /** A step inside or on the edge of a queue operation. */
  lemma QueueEventRefines(c: State, e: Event)
    requires Coherent(c) && Safe(c, e) && e.worker < |c.points| && QueueEvent(c, e).Some?
    ensures Coherent(Next(c, e)) && Simulated(Abstract(c), Abstract(Next(c, e)))
  {
    AbstractValid(c);
    hide Abstract, Coherent, Settle, Q.Next, T.Next, Q.WithinTail, S.WritesFree;
    var w := e.worker;
    match c.points[w]
    case Ready =>
      if e.action.StartPop? {
        StartPopRefines(c, w);
      } else {
        StartStealRefines(c, w, e.action.victim);
      }
    case Stealing(_, _) => ThiefStepRefines(c, w);
    case Stolen(_, _) => StartPushRefines(c, w);
    case Pushing(_, _) => StartPushRefines(c, w);
    case _ => OwnerStepRefines(c, w);
  }

  /** Every safe step of the system is a step of the abstract workers, or none. */
  lemma NextRefines(c: State, e: Event)
    requires Coherent(c) && Safe(c, e)
    ensures Coherent(Next(c, e)) && Simulated(Abstract(c), Abstract(Next(c, e)))
  {
    AbstractValid(c);
    hide Abstract, QueueOk, WorkerOk, Settle, T.Next, Safe;
    if e.worker < |c.points| {
      if QueueEvent(c, e).Some? {
        QueueEventRefines(c, e);
      } else if IsLocal(c, e) {
        LocalRefines(c, e);
      }
    }
  }

  lemma {:induction false} RunRefines(c: State, total: T.Tally, events: seq<Event>)
    requires Coherent(c) && T.Inv(Abstract(c), total) && SafeRun(c, events)
    ensures Coherent(Run(c, events)) && T.Inv(Abstract(Run(c, events)), total)
    decreases |events|
  {
    hide QueueOk, WorkerOk, Abstract, Next, Safe, T.Next, T.Inv;
    if events != [] {
      NextRefines(c, events[0]);
      var a, a' := Abstract(c), Abstract(Next(c, events[0]));
      if a' != a {
        var e: T.Event :| a' == T.Next(a, e);
        T.NextInv(a, total, e);
      }
      RunRefines(Next(c, events[0]), total, events[1..]);
    }
  }

  // ----- a single worker -----

  /** With one worker nobody steals, and every step is safe. */
  lemma OneWorkerIsSafe(c: State, e: Event)
    requires Coherent(c) && |c.points| == 1
    ensures Safe(c, e)
  {
    hide Q.Inv, S.SlotInv;
    assert QueueOk(c, 0) && WorkerOk(c, 0);
    assert forall id :: id !in c.queues[0].thieves;
  }

  lemma {:induction false} OneWorkerRunIsSafe(c: State, events: seq<Event>)
    requires Coherent(c) && |c.points| == 1
    ensures SafeRun(c, events)
    decreases |events|
  {
    hide QueueOk, WorkerOk, Next, Safe;
    if events != [] {
      OneWorkerIsSafe(c, events[0]);
      NextRefines(c, events[0]);
      OneWorkerRunIsSafe(Next(c, events[0]), events[1..]);
    }
  }

  // ----- the start -----

  /** The initial distribution pushes the items of a queue one after the other, before there is any worker. */
  function Pushes(n: nat): seq<Q.Event> {
    if n == 0 then [] else Pushes(n - 1) + Q.PUSH
  }

  function Filled(capacity: Capacity, n: nat): Q.State {
    Q.Run(Q.Init(capacity), Pushes(n))
  }

  lemma {:induction false} FilledShape(capacity: Capacity, n: nat)
    requires n <= Limit(capacity)
    ensures var q := Filled(capacity, n);
      && q.owner.Idle? && q.thieves == map[] && q.top == 0 && q.bottom == n && q.capacity == capacity
      && q.at == seq(n, k => k) && |q.index| == n
  {
    hide Slot, Q.Next, Q.Write, Q.Read, Limit;
    if n > 0 {
      FilledShape(capacity, n - 1);
      Q.RunAppend(Q.Init(capacity), Pushes(n - 1), Q.PUSH);
      Q.PushAlone(Filled(capacity, n - 1));
      hide Q.Run;
    }
  }

  lemma {:induction false} OwnerAloneIsSafe(q: Q.State, events: seq<Q.Event>)
    requires q.thieves == map[] && forall e <- events :: ByOwner(e)
    ensures Q.WithinTailRun(q, events) && S.WritesFreeRun(q, events)
    decreases |events|
  {
    if events != [] {
      OwnerFrame(q, events[0]);
      hide Q.Next;
      OwnerAloneIsSafe(Q.Next(q, events[0]), events[1..]);
    }
  }

  lemma {:induction false} PushesAreByOwner(n: nat)
    ensures forall e <- Pushes(n) :: ByOwner(e)
  {
    if n > 0 {
      PushesAreByOwner(n - 1);
    }
  }

  lemma FilledOk(capacity: Capacity, n: nat)
    ensures Q.Inv(Filled(capacity, n)) && S.SlotInv(Filled(capacity, n))
  {
    hide Q.Next;
    Q.InitInv(capacity);
    S.InitSlots(capacity);
    PushesAreByOwner(n);
    OwnerAloneIsSafe(Q.Init(capacity), Pushes(n));
    hide Q.Run, Q.Inv, S.SlotInv;
    S.RunSlots(Q.Init(capacity), Pushes(n));
  }

  /** The state in which the workers start. */
  function Start(subdirs: seq<T.Dir>, workers: nat, capacity: Capacity): (c: State)
    requires workers > 0
    ensures Sized(c)
  {
    var items := T.Distribute(subdirs, workers);
    State(|subdirs|, seq(workers, w requires 0 <= w < workers => Filled(capacity, |items[w]|)), items,
          seq(workers, _ => Ready), seq(workers, _ => T.ZERO))
  }

  /** The initial distribution got through: no queue is filled beyond its limit, where push waits for thieves. */
  predicate Fits(subdirs: seq<T.Dir>, workers: nat, capacity: Capacity)
    requires workers > 0
  {
    forall w :: 0 <= w < workers ==> |T.Distribute(subdirs, workers)[w]| <= Limit(capacity)
  }

  lemma StartCoherent(subdirs: seq<T.Dir>, workers: nat, capacity: Capacity)
    requires workers > 0 && Fits(subdirs, workers, capacity)
    ensures var c := Start(subdirs, workers, capacity);
      Coherent(c) && Abstract(c) == T.Start(subdirs, workers)
  {
    var c, items := Start(subdirs, workers, capacity), T.Distribute(subdirs, workers);
    hide Filled, Limit, T.Distribute;
    forall w | 0 <= w < workers
      ensures QueueOk(c, w) && WorkerOk(c, w) && QueueOf(c, w) == items[w]
    {
      FilledShape(capacity, |items[w]|);
      FilledOk(capacity, |items[w]|);
      FilledQueue(c, w);
      hide Q.Inv, S.SlotInv, QueueOf;
    }
    assert Abstract(c).queues == items;
  }

  lemma FilledQueue(c: State, w: nat)
    requires Sized(c) && w < |c.points|
    requires var q, n := c.queues[w], |c.items[w]|;
      q.owner.Idle? && q.top == 0 && q.bottom == n && q.at == seq(n, k => k)
    ensures QueueOf(c, w) == c.items[w]
  {
    var q := c.queues[w];
    forall j | 0 <= j < |c.items[w]|
      ensures |R.Live(q)| == |c.items[w]| && R.Live(q)[j] == j
    {
      R.LiveAt(q, j);
    }
  }

  // ----- the whole count -----

  predicate AllExited(c: State) {
    forall w :: 0 <= w < |c.points| ==> c.points[w].Exited?
  }

  /**
   The tool on its lock-free queues: for every tree, every number of workers and every interleaving of
   atomic steps in which successful steals stay within the tail and pushes fill free slots, once all workers
   have left the loop, the first level plus their results reports the plain sums over the tree.
   */
  lemma SystemIsExact(root: T.Dir, level: T.Tally, subdirs: seq<T.Dir>, workers: nat, capacity: Capacity,
                      events: seq<Event>)
    requires workers > 0 && T.Plus(level, T.CountAll(subdirs)) == T.Report(root)
    requires Fits(subdirs, workers, capacity) && SafeRun(Start(subdirs, workers, capacity), events)
    ensures var c := Run(Start(subdirs, workers, capacity), events);
      AllExited(c) ==> T.Plus(level, T.Sum(c.results)) == T.Report(root)
  {
    hide T.Report;
    var s, c := Start(subdirs, workers, capacity), Run(Start(subdirs, workers, capacity), events);
    StartCoherent(subdirs, workers, capacity);
    T.StartInv(subdirs, workers);
    hide Coherent, T.Inv, T.Plus, T.Sum, T.Count, T.CountAll, Run, SafeRun;
    RunRefines(s, T.CountAll(subdirs), events);
    if AllExited(c) {
      ExitedResults(c);
      T.ExitedMeansDone(Abstract(c), T.CountAll(subdirs));
    }
  }

  /** With one worker there is no condition on the interleaving. */
  lemma OneWorkerIsExact(root: T.Dir, level: T.Tally, subdirs: seq<T.Dir>, capacity: Capacity, events: seq<Event>)
    requires T.Plus(level, T.CountAll(subdirs)) == T.Report(root) && Fits(subdirs, 1, capacity)
    ensures var c := Run(Start(subdirs, 1, capacity), events);
      AllExited(c) ==> T.Plus(level, T.Sum(c.results)) == T.Report(root)
  {
    hide Coherent, T.Report, T.Plus, T.Sum, T.Count, T.CountAll, Run, SafeRun;
    StartCoherent(subdirs, 1, capacity);
    OneWorkerRunIsSafe(Start(subdirs, 1, capacity), events);
    SystemIsExact(root, level, subdirs, 1, capacity, events);
  }

  lemma ExitedResults(c: State)
    requires Sized(c) && AllExited(c)
    ensures T.AllExited(Abstract(c)) && Abstract(c).results == c.results
  {
    forall w | 0 <= w < |c.points|
      ensures PointOf(c, w) == T.Exited && ResultOf(c, w) == c.results[w]
    {
    }
  }
}
