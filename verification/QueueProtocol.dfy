/**
 The work-stealing queue under concurrency. One owner pushes and pops, any number of thieves
 steal one item or a batch. Every load, store, compare-and-swap and move of a slot is one event,
 and an interleaving is a sequence of events, so a statement about `Run(Init(c), events)` is a
 statement about every interleaving. Atomics are sequentially consistent.

 Items are named by the number of the push that published them. `index`, `at`, `claims` and
 `delivered` record history and are never read by a transition other than to extend them.
 */
module QueueProtocol {
  import opened Integers
  import opened Sequences
  import opened Wrappers
  import opened RingIndex

  datatype Cell = Vacant | Holds(push: nat)

  /** Program points of the owner; b and t are its local copies of bottom_ and top_. */
  datatype OwnerPoint =
    | Idle
    | PushStart
    | PushLoaded(b: int)
    | PushReady(b: int)
    | PushWritten(b: int)
    | PopLoaded(b: int)
    | PopStored(b: int)
    | PopRestore(b: int)
    | PopCas(b: int)
    | PopWon(b: int, push: nat)
    | PopTake(b: int, push: nat)

  /** Program points of a thief; a single steal is a steal without a batch limit. */
  datatype ThiefPoint =
    | StealLoaded(t: int, limit: Option<nat>)
    | StealReady(t: int, n: int)
    | StealMoving(t: int, pushes: seq<nat>, i: nat)

  datatype State = State(
    capacity: Capacity,
    bottom: int,
    top: int,
    slots: map<nat, Cell>,
    owner: OwnerPoint,
    thieves: map<nat, ThiefPoint>,
    index: seq<int>,
    at: seq<nat>,
    claims: seq<nat>,
    delivered: map<nat, Cell>)

  datatype Event =
    | StartPush
    | StartPop
    | Owner
    | StartSteal(thief: nat, limit: Option<nat>)
    | Thief(thief: nat)

  function Init(capacity: Capacity): State {
    State(capacity, 0, 0, map[], Idle, map[], [], [], [], map[])
  }

  function Read(s: State, i: int): Cell {
    var slot := Slot(i, s.capacity);
    if slot in s.slots then s.slots[slot] else Vacant
  }

  function Write(s: State, i: int, cell: Cell): map<nat, Cell> {
    s.slots[Slot(i, s.capacity) := cell]
  }

  function Published(s: State, i: int): nat {
    if 0 <= i < |s.at| then s.at[i] else 0
  }

  function PublishedRange(s: State, t: int, n: int): (pushes: seq<nat>)
    ensures |pushes| == if n > 0 then n else 0
    ensures forall j :: 0 <= j < |pushes| ==> pushes[j] == Published(s, t + j)
  {
    seq<nat>(if n > 0 then n else 0, j => Published(s, t + j))
  }

  /** The batch size, from a possibly stale distance between bottom_ and top_. */
  function BatchSize(available: int, limit: Option<nat>): (n: int)
    requires available > 0
    ensures limit.None? ==> n == 1
    ensures 0 <= n <= available
    ensures limit.Some? ==> n <= limit.value
  {
    match limit
    case None => 1
    case Some(max) => BatchLength(available, max)
  }

  function PublishAt(at: seq<nat>, b: int, push: nat): seq<nat> {
    if 0 <= b < |at| then at[b := push] else at + [push]
  }

  predicate Pushing(owner: OwnerPoint) {
    owner.PushStart? || owner.PushLoaded? || owner.PushReady? || owner.PushWritten?
  }

  function PushStep(s: State): State
    requires Pushing(s.owner)
  {
    match s.owner
    case PushStart => s.(owner := PushLoaded(s.bottom))
    case PushLoaded(b) =>
      if SizeT(b - s.top) >= Limit(s.capacity) then s.(owner := PushStart) else s.(owner := PushReady(b))
    case PushReady(b) => s.(slots := Write(s, b, Holds(|s.index|)), owner := PushWritten(b))
    case PushWritten(b) =>
      s.(bottom := b + 1, owner := Idle, index := s.index + [b], at := PublishAt(s.at, b, |s.index|))
  }

  function PopStep(s: State): State
    requires !Pushing(s.owner)
  {
    match s.owner
    case Idle => s
    case PopLoaded(b) => s.(bottom := b, owner := PopStored(b))
    case PopStored(b) =>
      if s.top > b then s.(owner := PopRestore(b))
      else if s.top == b then s.(owner := PopCas(b))
      else s.(owner := PopTake(b, Published(s, b)), claims := s.claims + [Published(s, b)])
    case PopRestore(b) => s.(bottom := b + 1, owner := Idle)
    case PopCas(b) =>
      if s.top != b then s.(owner := PopRestore(b))
      else s.(top := b + 1, owner := PopWon(b, Published(s, b)), claims := s.claims + [Published(s, b)])
    case PopWon(b, push) => s.(bottom := b + 1, owner := PopTake(b, push))
    case PopTake(b, push) =>
      s.(slots := Write(s, b, Vacant), owner := Idle, delivered := s.delivered[push := Read(s, b)])
  }

  function OwnerStep(s: State): State {
    if Pushing(s.owner) then PushStep(s) else PopStep(s)
  }

  /** A thief loads bottom_ and leaves if the queue looks empty. */
  function StealRead(s: State, id: nat): State
    requires id in s.thieves && s.thieves[id].StealLoaded?
  {
    var StealLoaded(t, limit) := s.thieves[id];
    if t < s.bottom then s.(thieves := s.thieves[id := StealReady(t, BatchSize(s.bottom - t, limit))])
    else s.(thieves := s.thieves - {id})
  }

  /** A thief tries to advance top_ over its batch. */
  function StealCas(s: State, id: nat): State
    requires id in s.thieves && s.thieves[id].StealReady?
  {
    var StealReady(t, n) := s.thieves[id];
    if s.top != t || n <= 0 then s.(thieves := s.thieves - {id})
    else
      var pushes := PublishedRange(s, t, n);
      s.(top := t + n, claims := s.claims + pushes, thieves := s.thieves[id := StealMoving(t, pushes, 0)])
  }

  /** A thief moves one claimed item out of its slot. */
  function StealMove(s: State, id: nat): State
    requires id in s.thieves && s.thieves[id].StealMoving?
  {
    var thief := s.thieves[id];
    if thief.i >= |thief.pushes| then s.(thieves := s.thieves - {id})
    else s.(slots := Write(s, thief.t + thief.i, Vacant),
            delivered := s.delivered[thief.pushes[thief.i] := Read(s, thief.t + thief.i)],
            thieves := s.thieves[id := thief.(i := thief.i + 1)])
  }

  function ThiefStep(s: State, id: nat): State
    requires id in s.thieves
  {
    match s.thieves[id]
    case StealLoaded(_, _) => StealRead(s, id)
    case StealReady(_, _) => StealCas(s, id)
    case StealMoving(_, _, _) => StealMove(s, id)
  }

  /** One event; an event that is not possible in this state changes nothing. */
  function Next(s: State, e: Event): State {
    match e
    case StartPush => if s.owner.Idle? then s.(owner := PushStart) else s
    case StartPop => if s.owner.Idle? then s.(owner := PopLoaded(s.bottom - 1)) else s
    case Owner => OwnerStep(s)
    case StartSteal(id, limit) =>
      if id in s.thieves then s else s.(thieves := s.thieves[id := StealLoaded(s.top, limit)])
    case Thief(id) => if id in s.thieves then ThiefStep(s, id) else s
  }

  function Run(s: State, events: seq<Event>): State
    decreases |events|
  {
    if events == [] then s else Run(Next(s, events[0]), events[1..])
  }

  // ----- the invariant of claims -----

  /** One past the last index that is still unclaimed: a pop in flight counts as not yet claimed. */
  function Tail(s: State): int {
    match s.owner
    case PopStored(b) => b + 1
    case PopRestore(b) => b + 1
    case PopCas(b) => b + 1
    case PopWon(b, _) => b + 1
    case _ => s.bottom
  }

  ghost predicate Unclaimed(s: State, push: nat)
    requires push < |s.index|
  {
    s.top <= s.index[push] < Tail(s) && Published(s, s.index[push]) == push
  }

  ghost predicate OwnerInv(s: State) {
    match s.owner
    case Idle => true
    case PushStart => true
    case PushLoaded(b) => b == s.bottom
    case PushReady(b) => b == s.bottom && b - s.top < Limit(s.capacity)
    case PushWritten(b) => b == s.bottom && b - s.top < Limit(s.capacity)
    case PopLoaded(b) => b == s.bottom - 1
    case PopStored(b) => b == s.bottom
    case PopRestore(b) => b == s.bottom && s.top == b + 1
    case PopCas(b) => b == s.bottom && b <= s.top
    case PopWon(b, push) => 0 <= b == s.bottom && s.top == b + 1 && Published(s, b) == push
    case PopTake(b, push) =>
      && 0 <= b < |s.at| && s.bottom <= b + 1 && b - s.top < Limit(s.capacity)
      && (s.bottom == b || s.top == b + 1) && s.bottom >= b
      && Published(s, b) == push
  }

  ghost predicate ThiefInv(s: State, thief: ThiefPoint) {
    match thief
    case StealLoaded(t, _) => 0 <= t <= s.top
    case StealReady(t, n) => 0 <= t <= s.top && 0 <= n && t + n <= |s.at| && (t == s.top ==> s.top < Tail(s))
    case StealMoving(t, pushes, i) => 0 <= t && t + |pushes| <= s.top && i <= |pushes|
  }

  ghost predicate CountersInv(s: State) {
    0 <= s.top <= Tail(s) <= |s.at| && Tail(s) - s.top <= Limit(s.capacity)
  }

  ghost predicate HistoryInv(s: State) {
    && (forall i :: 0 <= i < |s.at| ==> s.at[i] < |s.index| && s.index[s.at[i]] == i)
    && (forall k :: 0 <= k < |s.index| ==> 0 <= s.index[k] < |s.at|)
  }

  /** No push is claimed twice, and a push is claimed or still in the queue but not both. */
  ghost predicate ExactlyOnce(s: State) {
    && NoDuplicates(s.claims)
    && (forall k <- s.claims :: k < |s.index|)
    && (forall k :: 0 <= k < |s.index| ==> (k in s.claims <==> !Unclaimed(s, k)))
  }

  ghost predicate Inv(s: State) {
    && CountersInv(s) && OwnerInv(s) && HistoryInv(s) && ExactlyOnce(s)
    && (forall id <- s.thieves :: ThiefInv(s, s.thieves[id]))
  }

  /** The compare-and-swap of a thief is about to succeed. */
  predicate StealsNow(s: State, e: Event) {
    e.Thief? && e.thief in s.thieves && s.thieves[e.thief].StealReady?
    && s.thieves[e.thief].t == s.top && s.thieves[e.thief].n > 0
  }

  /** What a batch steal would have to check, but does not: its items are all still unclaimed. */
  predicate WithinTail(s: State, e: Event) {
    StealsNow(s, e) ==> s.thieves[e.thief].t + s.thieves[e.thief].n <= Tail(s)
  }

  lemma InitInv(capacity: Capacity)
    ensures Inv(Init(capacity))
  {
  }

  /** Claiming unclaimed items, at either end of the queue, keeps claims exactly-once. */
  lemma ClaimRange(s: State, s': State, t: int, n: nat)
    requires HistoryInv(s) && ExactlyOnce(s) && s.top <= t && t + n <= Tail(s) && 0 <= s.top && Tail(s) <= |s.at|
    requires s'.index == s.index && s'.at == s.at && s'.claims == s.claims + PublishedRange(s, t, n)
    requires || (t == s.top && s'.top == t + n && Tail(s') == Tail(s))
             || (t + n == Tail(s) && s'.top == s.top && Tail(s') == t)
    ensures ExactlyOnce(s')
  {
    var range := PublishedRange(s, t, n);
    forall j | 0 <= j < n
      ensures range[j] == s.at[t + j] < |s.index| && s.index[range[j]] == t + j && range[j] !in s.claims
    {
      assert Unclaimed(s, s.at[t + j]);
    }
    forall k | 0 <= k < |s.index|
      ensures k in s'.claims <==> !Unclaimed(s', k)
    {
      var i := s.index[k];
      if t <= i < t + n && s.at[i] == k {
        assert range[i - t] == k;
      } else {
        assert k !in range;
        assert k in s.claims <==> !Unclaimed(s, k);
      }
    }
  }

  /** A step that neither publishes nor claims. */
  lemma ClaimsUnaffected(s: State, s': State)
    requires ExactlyOnce(s) && s'.index == s.index && s'.at == s.at && s'.claims == s.claims
    requires s'.top == s.top && Tail(s') == Tail(s)
    ensures ExactlyOnce(s')
  {
    assert forall k | 0 <= k < |s.index| :: Unclaimed(s', k) <==> Unclaimed(s, k);
  }

  /** A pop that claims index b, whether or not it needed the compare-and-swap. */
  lemma PopClaims(s: State, b: int)
    requires Inv(s) && ((s.owner == PopStored(b) && s.top < b) || (s.owner == PopCas(b) && s.top == b))
    ensures ExactlyOnce(PopStep(s))
  {
    assert PublishedRange(s, b, 1) == [Published(s, b)];
    ClaimRange(s, PopStep(s), b, 1);
  }

  lemma PushPublishes(s: State, b: int)
    requires Inv(s) && s.owner == PushWritten(b)
    ensures ExactlyOnce(PushStep(s))
  {
    var s' := PushStep(s);
    forall k | 0 <= k < |s'.index|
      ensures k in s'.claims <==> !Unclaimed(s', k)
    {
      assert k < |s.index| ==> (k in s.claims <==> !Unclaimed(s, k));
    }
  }

  lemma PushStepCounters(s: State)
    requires CountersInv(s) && OwnerInv(s) && Pushing(s.owner)
    ensures CountersInv(PushStep(s)) && OwnerInv(PushStep(s)) && |s.at| <= |PushStep(s).at|
  {
    hide Slot, Read, Write, Limit;
  }

  lemma PushStepHistory(s: State)
    requires HistoryInv(s) && (s.owner.PushWritten? ==> 0 <= s.owner.b <= |s.at|) && Pushing(s.owner)
    ensures HistoryInv(PushStep(s))
  {
    hide Slot, Read, Write, Limit;
  }

  lemma PushStepInv(s: State)
    requires Inv(s) && Pushing(s.owner)
    ensures Inv(PushStep(s))
  {
    hide Slot, Read, Write, Limit;
    PushStepCounters(s);
    PushStepHistory(s);
    if s.owner.PushWritten? {
      PushPublishes(s, s.owner.b);
    } else {
      ClaimsUnaffected(s, PushStep(s));
    }
    hide CountersInv, OwnerInv, HistoryInv, ExactlyOnce;
  }

  lemma PopStepCounters(s: State)
    requires CountersInv(s) && OwnerInv(s) && !Pushing(s.owner)
    ensures CountersInv(PopStep(s)) && OwnerInv(PopStep(s))
  {
  }

  lemma PopStepInv(s: State)
    requires Inv(s) && !Pushing(s.owner)
    ensures Inv(PopStep(s))
  {
    hide Slot, Read, Write, Limit;
    PopStepCounters(s);
    if (s.owner.PopStored? && s.top < s.owner.b) || (s.owner.PopCas? && s.top == s.owner.b) {
      PopClaims(s, s.owner.b);
    } else {
      ClaimsUnaffected(s, PopStep(s));
    }
  }

  lemma StealReadInv(s: State, id: nat)
    requires Inv(s) && id in s.thieves && s.thieves[id].StealLoaded?
    ensures Inv(StealRead(s, id))
  {
    ClaimsUnaffected(s, StealRead(s, id));
  }

  lemma StealMoveInv(s: State, id: nat)
    requires Inv(s) && id in s.thieves && s.thieves[id].StealMoving?
    ensures Inv(StealMove(s, id))
  {
    ClaimsUnaffected(s, StealMove(s, id));
  }

  lemma StealCasInv(s: State, id: nat)
    requires Inv(s) && id in s.thieves && s.thieves[id].StealReady? && WithinTail(s, Thief(id))
    ensures Inv(StealCas(s, id))
  {
    if StealsNow(s, Thief(id)) {
      ClaimRange(s, StealCas(s, id), s.thieves[id].t, s.thieves[id].n);
    } else {
      ClaimsUnaffected(s, StealCas(s, id));
    }
  }

  lemma NextInv(s: State, e: Event)
    requires Inv(s) && WithinTail(s, e)
    ensures Inv(Next(s, e))
  {
    hide Slot, Read, Write, PublishedRange, PublishAt;
    match e
    case Owner =>
      if Pushing(s.owner) {
        PushStepInv(s);
      } else {
        PopStepInv(s);
      }
    case Thief(id) =>
      if id in s.thieves {
        match s.thieves[id]
        case StealLoaded(_, _) => StealReadInv(s, id);
        case StealReady(_, _) => StealCasInv(s, id);
        case StealMoving(_, _, _) => StealMoveInv(s, id);
      }
    case _ => ClaimsUnaffected(s, Next(s, e));
  }

  // ----- whole interleavings -----

  /** Every successful steal of the interleaving finds all of its items still unclaimed. */
  ghost predicate WithinTailRun(s: State, events: seq<Event>)
    decreases |events|
  {
    events == [] || (WithinTail(s, events[0]) && WithinTailRun(Next(s, events[0]), events[1..]))
  }

  lemma {:induction false} RunInv(s: State, events: seq<Event>)
    requires Inv(s) && WithinTailRun(s, events)
    ensures Inv(Run(s, events))
    decreases |events|
  {
    if events != [] {
      NextInv(s, events[0]);
      RunInv(Next(s, events[0]), events[1..]);
    }
  }

  lemma PushMonotone(s: State)
    requires Pushing(s.owner)
    ensures s.top == PushStep(s).top && s.claims == PushStep(s).claims
  {
  }

  lemma PopMonotone(s: State)
    requires !Pushing(s.owner)
    ensures s.top <= PopStep(s).top && s.claims <= PopStep(s).claims
  {
    hide Slot, Read, Write, Published;
    match s.owner
    case PopStored(b) => assert s.claims <= s.claims + [Published(s, b)];
    case PopCas(b) => assert s.claims <= s.claims + [Published(s, b)];
    case _ =>
  }

  lemma NextMonotone(s: State, e: Event)
    ensures s.top <= Next(s, e).top && s.claims <= Next(s, e).claims
  {
    if Pushing(s.owner) {
      PushMonotone(s);
    } else {
      PopMonotone(s);
    }
  }

  /** top_ never decreases and claims are never taken back, whatever happens. */
  lemma {:induction false} RunMonotone(s: State, events: seq<Event>)
    ensures s.top <= Run(s, events).top
    ensures s.claims <= Run(s, events).claims
    decreases |events|
  {
    if events != [] {
      NextMonotone(s, events[0]);
      RunMonotone(Next(s, events[0]), events[1..]);
    }
  }

  /** Reaching past the tail claims an item that a pop already has. */
  lemma StealPastTail(s: State, t: int, n: nat)
    requires HistoryInv(s) && ExactlyOnce(s) && 0 <= s.top <= t < Tail(s) < t + n <= |s.at|
    ensures !NoDuplicates(s.claims + PublishedRange(s, t, n))
  {
    var again := s.at[Tail(s)];
    assert !Unclaimed(s, again);
    var j :| 0 <= j < |s.claims| && s.claims[j] == again;
    var all, k := s.claims + PublishedRange(s, t, n), |s.claims| + Tail(s) - t;
    assert all[j] == again == all[k] && j < k;
  }

  /** A successful steal takes the oldest items, and each of them once, exactly if none has been popped meanwhile. */
  lemma StealIsExact(s: State, id: nat)
    requires Inv(s) && StealsNow(s, Thief(id))
    ensures var s', n := StealCas(s, id), s.thieves[id].n;
      && s'.claims == s.claims + s.at[s.top..s.top + n]
      && s'.top == s.top + n
      && (ExactlyOnce(s') <==> s.top + n <= Tail(s))
      && (NoDuplicates(s'.claims) <==> s.top + n <= Tail(s))
  {
    var n := s.thieves[id].n;
    assert ThiefInv(s, s.thieves[id]);
    assert PublishedRange(s, s.top, n) == s.at[s.top..s.top + n];
    if s.top + n <= Tail(s) {
      StealCasInv(s, id);
    } else {
      StealPastTail(s, s.top, n);
    }
  }

  /**
   Over any interleaving of pushes, pops, single and batch steals, every item is claimed exactly
   once if and only if each successful steal still found all of its items unclaimed.
   */
  lemma {:induction false} ExactlyOnceIffWithinTail(s: State, events: seq<Event>)
    requires Inv(s)
    ensures ExactlyOnce(Run(s, events)) <==> WithinTailRun(s, events)
    decreases |events|
  {
    if events != [] {
      var e, s' := events[0], Next(s, events[0]);
      if WithinTail(s, e) {
        NextInv(s, e);
        ExactlyOnceIffWithinTail(s', events[1..]);
      } else {
        StealIsExact(s, e.thief);
        RunMonotone(s', events[1..]);
        var i, j :| 0 <= i < j < |s'.claims| && s'.claims[i] == s'.claims[j];
        assert Run(s, events).claims[i] == Run(s, events).claims[j];
      }
    }
  }

  // ----- single steals -----

  /** Every steal of the interleaving that succeeds takes one item, be it a single steal or a small batch. */
  ghost predicate SinglesRun(s: State, events: seq<Event>)
    decreases |events|
  {
    events == [] || ((StealsNow(s, events[0]) ==> s.thieves[events[0].thief].n == 1)
                     && SinglesRun(Next(s, events[0]), events[1..]))
  }

  lemma {:induction false} SinglesStayWithinTail(s: State, events: seq<Event>)
    requires Inv(s) && SinglesRun(s, events)
    ensures WithinTailRun(s, events)
    decreases |events|
  {
    if events != [] {
      var e := events[0];
      assert WithinTail(s, e) by {
        if StealsNow(s, e) {
          assert ThiefInv(s, s.thieves[e.thief]);
        }
      }
      NextInv(s, e);
      SinglesStayWithinTail(Next(s, e), events[1..]);
    }
  }

  /** The queue with steals of one item only: safe in every interleaving, with no condition on the tail. */
  lemma SingleStealsAreSafe(capacity: Capacity, events: seq<Event>)
    requires SinglesRun(Init(capacity), events)
    ensures var s := Run(Init(capacity), events);
      && ExactlyOnce(s)
      && 0 <= s.top <= Tail(s)
      && (s.owner.Idle? ==> s.top <= s.bottom)
  {
    InitInv(capacity);
    SinglesStayWithinTail(Init(capacity), events);
    RunInv(Init(capacity), events);
  }

  /** A single steal, or a batch limited to one item. */
  ghost predicate NoBatch(e: Event) {
    e.StartSteal? ==> e.limit.None? || e.limit.value <= 1
  }

  ghost predicate NoBatchPending(s: State) {
    forall id <- s.thieves ::
      match s.thieves[id]
      case StealLoaded(_, limit) => limit.None? || limit.value <= 1
      case StealReady(_, n) => n <= 1
      case StealMoving(_, _, _) => true
  }

  lemma NoBatchNext(s: State, e: Event)
    requires NoBatchPending(s) && NoBatch(e)
    ensures NoBatchPending(Next(s, e))
  {
    hide Read, Write, PublishedRange;
    if e.Owner? {
      assert OwnerStep(s).thieves == s.thieves;
    }
  }

  /** Callers that ask for no more than one item at a time make such interleavings. */
  lemma {:induction false} NoBatchMeansSingles(s: State, events: seq<Event>)
    requires NoBatchPending(s) && forall e <- events :: NoBatch(e)
    ensures SinglesRun(s, events)
    decreases |events|
  {
    if events != [] {
      hide Next;
      NoBatchNext(s, events[0]);
      NoBatchMeansSingles(Next(s, events[0]), events[1..]);
    }
  }

  // ----- what a batch steal can do -----

  lemma {:induction false} RunAppend(s: State, first: seq<Event>, rest: seq<Event>)
    ensures Run(s, first + rest) == Run(Run(s, first), rest)
    decreases |first|
  {
    if first == [] {
      assert first + rest == rest;
    } else {
      assert (first + rest)[0] == first[0] && (first + rest)[1..] == first[1..] + rest;
      RunAppend(Next(s, first[0]), first[1..], rest);
    }
  }

  const PUSH: seq<Event> := [StartPush, Owner, Owner, Owner, Owner]
  const POP: seq<Event> := [StartPop, Owner, Owner, Owner]

  lemma RunFour(s: State, e0: Event, e1: Event, e2: Event, e3: Event)
    ensures Run(s, [e0, e1, e2, e3]) == Next(Next(Next(Next(s, e0), e1), e2), e3)
  {
    hide Next;
    var s1 := Next(s, e0);
    var s2 := Next(s1, e1);
    var s3 := Next(s2, e2);
    assert Run(s, [e0, e1, e2, e3]) == Run(s1, [e1, e2, e3]) == Run(s2, [e2, e3]) == Run(s3, [e3]);
    assert Run(s3, [e3]) == Run(Next(s3, e3), []);
  }

  /** An uninterrupted push. */
  lemma PushAlone(s: State)
    requires s.owner.Idle? && 0 <= s.bottom - s.top < Limit(s.capacity)
    ensures Run(s, PUSH) == s.(bottom := s.bottom + 1,
                               slots := Write(s, s.bottom, Holds(|s.index|)),
                               index := s.index + [s.bottom],
                               at := PublishAt(s.at, s.bottom, |s.index|))
  {
    RunPush(s);
    PushSteps(s);
    hide Next, Run, Write, PublishAt;
  }

  lemma RunPush(s: State)
    ensures Run(s, PUSH) == Next(Next(Next(Next(Next(s, StartPush), Owner), Owner), Owner), Owner)
  {
    hide Next;
    assert Run(s, PUSH) == Run(Next(s, StartPush), [Owner, Owner, Owner, Owner]);
    RunFour(Next(s, StartPush), Owner, Owner, Owner, Owner);
  }

  lemma PushSteps(s: State)
    requires s.owner.Idle? && 0 <= s.bottom - s.top < Limit(s.capacity)
    ensures Next(Next(Next(Next(Next(s, StartPush), Owner), Owner), Owner), Owner)
         == s.(bottom := s.bottom + 1,
               slots := Write(s, s.bottom, Holds(|s.index|)),
               index := s.index + [s.bottom],
               at := PublishAt(s.at, s.bottom, |s.index|))
  {
    var s3 := s.(owner := PushReady(s.bottom));
    PushStarts3(s);
    SameWrite(s3, s, s.bottom, Holds(|s.index|));
    hide Slot, Read, Write, PublishAt;
    assert Next(s3, Owner) == s.(slots := Write(s, s.bottom, Holds(|s.index|)), owner := PushWritten(s.bottom));
  }

  lemma PushStarts3(s: State)
    requires s.owner.Idle? && 0 <= s.bottom - s.top < Limit(s.capacity)
    ensures Next(Next(Next(s, StartPush), Owner), Owner) == s.(owner := PushReady(s.bottom))
  {
    hide Slot, Read, Write, PublishAt, Limit;
    assert Next(s, StartPush) == s.(owner := PushStart);
    assert Next(s.(owner := PushStart), Owner) == s.(owner := PushLoaded(s.bottom));
  }

  lemma SameWrite(s: State, s': State, i: int, cell: Cell)
    requires s'.slots == s.slots && s'.capacity == s.capacity
    ensures Write(s, i, cell) == Write(s', i, cell) && Read(s, i) == Read(s', i)
  {
  }

  /** An uninterrupted pop while the queue holds more than one item. */
  lemma PopAlone(s: State)
    requires s.owner.Idle? && s.bottom - s.top >= 2
    ensures var b := s.bottom - 1;
      Run(s, POP) == s.(bottom := b,
                        slots := Write(s, b, Vacant),
                        claims := s.claims + [Published(s, b)],
                        delivered := s.delivered[Published(s, b) := Read(s, b)])
  {
    RunFour(s, StartPop, Owner, Owner, Owner);
    PopSteps(s);
    hide Next, Run, Write, Read, Published;
  }

  lemma PopSteps(s: State)
    requires s.owner.Idle? && s.bottom - s.top >= 2
    ensures var b := s.bottom - 1;
      Next(Next(Next(Next(s, StartPop), Owner), Owner), Owner)
      == s.(bottom := b,
            slots := Write(s, b, Vacant),
            claims := s.claims + [Published(s, b)],
            delivered := s.delivered[Published(s, b) := Read(s, b)])
  {
    var b := s.bottom - 1;
    var s2 := s.(bottom := b, owner := PopStored(b));
    var s3 := s.(bottom := b, owner := PopTake(b, Published(s, b)), claims := s.claims + [Published(s, b)]);
    PopStarts(s);
    SamePublished(s2, s, b);
    SameWrite(s3, s, b, Vacant);
    hide Slot, Read, Write, Published;
    assert Next(s2, Owner) == s3;
  }

  lemma PopStarts(s: State)
    requires s.owner.Idle?
    ensures Next(Next(s, StartPop), Owner) == s.(bottom := s.bottom - 1, owner := PopStored(s.bottom - 1))
  {
    hide Slot, Read, Write, Published;
    assert Next(s, StartPop) == s.(owner := PopLoaded(s.bottom - 1));
  }

  lemma SamePublished(s: State, s': State, i: int)
    requires s'.at == s.at
    ensures Published(s', i) == Published(s, i)
  {
  }

  /** A batch thief arrives, reads bottom_ and plans its batch. */
  lemma PlanAlone(s: State, id: nat, max: nat)
    requires id !in s.thieves && s.top < s.bottom
    ensures Run(s, [StartSteal(id, Some(max)), Thief(id)])
         == s.(thieves := s.thieves[id := StealReady(s.top, BatchSize(s.bottom - s.top, Some(max)))])
  {
    var s1 := Next(s, StartSteal(id, Some(max)));
    var s2 := Next(s1, Thief(id));
    assert Run(s, [StartSteal(id, Some(max)), Thief(id)]) == Run(s1, [Thief(id)]) == Run(s2, []);
    assert s2.thieves == s.thieves[id := StealReady(s.top, BatchSize(s.bottom - s.top, Some(max)))];
  }

  const FOUR_PUSHES: seq<Event> := PUSH + PUSH + PUSH + PUSH
  const PLAN: seq<Event> := [StartSteal(0, Some(16)), Thief(0)]
  const THREE_POPS: seq<Event> := POP + POP + POP

  /** Four pushes; a batch thief sees four items and plans two; three pops; the thief commits. */
  const DOUBLE_CLAIM: seq<Event> := FOUR_PUSHES + PLAN + THREE_POPS + [Thief(0)]

  lemma FourPushes(capacity: Capacity) returns (s: State)
    requires capacity >= 4
    ensures s == Run(Init(capacity), FOUR_PUSHES)
    ensures s.bottom == 4 && s.top == 0 && s.owner.Idle? && s.thieves == map[]
    ensures s.at == [0, 1, 2, 3] && s.index == [0, 1, 2, 3] && s.claims == [] && s.capacity == capacity
  {
    hide Slot, Write, Read, Run, Next;
    var s0 := Init(capacity);
    PushAlone(s0);
    var s1 := Run(s0, PUSH);
    PushAlone(s1);
    var s2 := Run(s1, PUSH);
    PushAlone(s2);
    var s3 := Run(s2, PUSH);
    PushAlone(s3);
    s := Run(s3, PUSH);
    RunAppend(s0, PUSH + PUSH + PUSH, PUSH);
    RunAppend(s0, PUSH + PUSH, PUSH);
    RunAppend(s0, PUSH, PUSH);
  }

  lemma ThreePops(s: State) returns (s': State)
    requires s.owner.Idle? && s.bottom == 4 && s.top == 0 && s.at == [0, 1, 2, 3] && s.claims == []
    ensures s' == Run(s, THREE_POPS)
    ensures s'.bottom == 1 && s'.top == 0 && s'.owner.Idle? && s'.thieves == s.thieves
    ensures s'.at == s.at && s'.index == s.index && s'.claims == [3, 2, 1] && s'.capacity == s.capacity
  {
    hide Slot, Write, Read, Run, Next;
    PopAlone(s);
    var s1 := Run(s, POP);
    PopAlone(s1);
    var s2 := Run(s1, POP);
    PopAlone(s2);
    s' := Run(s2, POP);
    RunAppend(s, POP + POP, POP);
    RunAppend(s, POP, POP);
  }

  /** The interleaving claims item 1 twice and leaves top_ above bottom_. */
  lemma BatchStealCanDuplicate(capacity: Capacity)
    requires capacity >= 4
    ensures var s := Run(Init(capacity), DOUBLE_CLAIM);
      s.claims == [3, 2, 1, 0, 1] && !ExactlyOnce(s) && s.owner.Idle? && s.bottom == 1 && s.top == 2
  {
    var s0 := Init(capacity);
    var s1 := FourPushes(capacity);
    PlanAlone(s1, 0, 16);
    var s2 := Run(s1, PLAN);
    var s3 := ThreePops(s2);
    RunAppend(s0, FOUR_PUSHES + PLAN + THREE_POPS, [Thief(0)]);
    RunAppend(s0, FOUR_PUSHES + PLAN, THREE_POPS);
    RunAppend(s0, FOUR_PUSHES, PLAN);
    var s4 := Next(s3, Thief(0));
    assert Run(s3, [Thief(0)]) == Run(s4, []);
    assert PublishedRange(s3, 0, 2) == [0, 1];
    assert s4.claims[2] == s4.claims[4];
  }

  /** Without thieves a push into a queue at its limit waits forever. */
  lemma {:induction false} FullQueueBlocks(s: State, events: seq<Event>)
    requires s.owner.PushStart? || s.owner == PushLoaded(s.bottom)
    requires s.thieves == map[] && Limit(s.capacity) <= s.bottom - s.top < TWO_63
    requires forall e <- events :: !e.StartSteal?
    ensures var t := Run(s, events);
      (t.owner.PushStart? || t.owner == PushLoaded(t.bottom)) && t.bottom == s.bottom && t.index == s.index
    decreases |events|
  {
    hide Slot, Read, Write, Limit;
    if events != [] {
      assert events[0] in events;
      FullQueueBlocks(Next(s, events[0]), events[1..]);
    }
  }
}
