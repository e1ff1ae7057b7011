/**
 What a batch steal beyond the tail leaves behind. top_ is then above everything the owner has published.
 What happens next depends on the owner alone: if the batch reaches past the push that is under way, no
 later push ever gets through; if it ends exactly with that push, the owner goes on as if nothing had
 happened, but the item just pushed is never taken.
 */
module QueueAftermath {
  import opened Integers
  import opened RingIndex
  import opened QueueProtocol

  // ----- a push that finds top_ above bottom_ -----

  /** A push that has begun while top_ is above bottom_. */
  predicate PushBlocked(s: State) {
    (s.owner.PushStart? || s.owner == PushLoaded(s.bottom)) && s.bottom < s.top
  }

  lemma BlockedNext(s: State, e: Event)
    requires PushBlocked(s) && s.top - s.bottom < TWO_63
    ensures PushBlocked(Next(s, e)) && Next(s, e).bottom == s.bottom
  {
    hide Slot, Read, Write, PublishedRange, Published, Limit;
    NextMonotone(s, e);
  }

  /**
   The price of an unsafe batch: the cast of a negative distance is huge, so a push that starts
   with top_ above bottom_ waits in its loop in every continuation, as only its own owner could
   ever raise bottom_. Counters stay in the range of a signed 64-bit integer.
   */
  lemma {:induction false} PushBlocksForever(s: State, events: seq<Event>)
    requires PushBlocked(s) && 0 <= s.bottom
    requires Run(s, events).top < TWO_63
    ensures PushBlocked(Run(s, events)) && Run(s, events).index == s.index
    decreases |events|
  {
    if events != [] {
      RunMonotone(s, events);
      BlockedNext(s, events[0]);
      PushBlocksForever(Next(s, events[0]), events[1..]);
    }
  }

  // ----- the owner -----

  /** A push that has found room: nothing can stop it any more. */
  predicate PushInFlight(owner: OwnerPoint) {
    owner.PushReady? || owner.PushWritten?
  }

  function InFlight(s: State): nat {
    if PushInFlight(s.owner) then 1 else 0
  }

  /** Where bottom_ will be once the owner has finished what it is doing, unless it pops an item. */
  function Reach(s: State): int {
    Tail(s) + InFlight(s)
  }

  /** The owner's copy of bottom_ is right; this holds whatever the thieves do. */
  predicate OwnCopies(s: State) {
    match s.owner
    case PushLoaded(b) => b == s.bottom
    case PushReady(b) => b == s.bottom
    case PushWritten(b) => b == s.bottom
    case PopLoaded(b) => b == s.bottom - 1
    case PopStored(b) => b == s.bottom
    case PopRestore(b) => b == s.bottom
    case PopCas(b) => b == s.bottom
    case PopWon(b, _) => b == s.bottom
    case _ => true
  }

  predicate Stopped(s: State) {
    OwnCopies(s) && 0 <= Tail(s) && Reach(s) < s.top
  }

  lemma StoppedNext(s: State, e: Event)
    requires Stopped(s) && s.top < TWO_63
    ensures var s' := Next(s, e);
      Stopped(s') && Reach(s') == Reach(s) && |s'.index| + InFlight(s') == |s.index| + InFlight(s)
  {
    hide Slot, Read, Write, PublishedRange, Published, PublishAt, Limit, BatchSize, PushStep, PopStep;
    if e.Owner? {
      StoppedOwner(s);
    }
  }

  lemma StoppedOwner(s: State)
    requires Stopped(s) && s.top < TWO_63
    ensures var s' := OwnerStep(s);
      Stopped(s') && Reach(s') == Reach(s) && |s'.index| + InFlight(s') == |s.index| + InFlight(s)
  {
    hide PopStep, Write, PublishAt, Slot;
    if !Pushing(s.owner) {
      StoppedPop(s);
    }
  }

  lemma StoppedPop(s: State)
    requires Stopped(s) && !Pushing(s.owner)
    ensures Stopped(PopStep(s)) && Reach(PopStep(s)) == Reach(s) && PopStep(s).index == s.index
    ensures InFlight(PopStep(s)) == 0
  {
    hide Slot, Read, Write, Published;
  }

  lemma {:induction false} StoppedRun(s: State, events: seq<Event>)
    requires Stopped(s) && Run(s, events).top < TWO_63
    ensures var t := Run(s, events);
      Stopped(t) && |t.index| + InFlight(t) == |s.index| + InFlight(s)
    decreases |events|
  {
    if events != [] {
      RunMonotone(s, events);
      StoppedNext(s, events[0]);
      StoppedRun(Next(s, events[0]), events[1..]);
    }
  }

  /** No continuation publishes more than the first k pushes. Counters stay in the range of a signed 64-bit integer. */
  ghost predicate NoPushBeyond(s: State, k: nat) {
    forall events :: Run(s, events).top < TWO_63 ==> |Run(s, events).index| <= k
  }

  /** The rest of a push that has found room. */
  function FinishPush(s: State): seq<Event> {
    if s.owner.PushReady? then [Owner, Owner] else [Owner]
  }

  lemma PushFinishes(s: State)
    requires PushInFlight(s.owner)
    ensures var t, b := Run(s, FinishPush(s)), s.owner.b;
      && t.owner.Idle? && t.bottom == b + 1 && t.top == s.top && t.capacity == s.capacity
      && t.claims == s.claims && t.index == s.index + [b]
  {
    hide Slot, Read, Write, PublishAt;
    var s1 := Next(s, Owner);
    if s.owner.PushReady? {
      assert Run(s, [Owner, Owner]) == Run(s1, [Owner]) == Run(Next(s1, Owner), []);
    } else {
      assert Run(s, [Owner]) == Run(s1, []);
    }
  }

  /**
   After a batch beyond the tail: no push that has not found room yet is ever published, whatever anybody
   does, exactly if the batch reaches past the push that is under way, if there is one.
   */
  lemma UnsafeBatchStopsTheOwner(s: State, id: nat)
    requires Inv(s) && StealsNow(s, Thief(id)) && !WithinTail(s, Thief(id))
    requires s.top + s.thieves[id].n < TWO_63
    ensures NoPushBeyond(Next(s, Thief(id)), |s.index| + InFlight(s)) <==> s.top + s.thieves[id].n > Reach(s)
  {
    var s' := Next(s, Thief(id));
    hide Slot, Read, Write, PublishedRange;
    if s'.top > Reach(s') {
      forall events | Run(s', events).top < TWO_63
        ensures |Run(s', events).index| <= |s.index| + InFlight(s)
      {
        StoppedRun(s', events);
      }
    } else {
      var t := Run(s', FinishPush(s'));
      PushFinishes(s');
      PushAlone(t);
      RunAppend(s', FinishPush(s'), PUSH);
      hide Run, Next;
      assert |Run(s', FinishPush(s') + PUSH).index| == |s.index| + 2;
    }
  }

  // ----- the push under way -----

  /** A push is, or will be, published at an index below top_, and is not claimed. */
  ghost predicate Stranded(s: State, k: nat, i: int) {
    && 0 <= i < s.top && k !in s.claims
    && (if k < |s.index| then s.index[k] == i else k == |s.index| && PushInFlight(s.owner) && s.owner.b == i)
  }

  /** What holds of counters and history even after a batch beyond the tail. */
  ghost predicate Sane(s: State) {
    && SaneCounters(s) && HistoryInv(s)
    && (forall k <- s.claims :: k < |s.index|)
    && (forall id <- s.thieves :: SaneThief(s, s.thieves[id]))
  }

  predicate SaneCounters(s: State) {
    OwnCopies(s) && 0 <= s.top && 0 <= Tail(s) <= |s.at|
  }

  predicate SaneThief(s: State, thief: ThiefPoint) {
    match thief
    case StealLoaded(t, _) => 0 <= t
    case StealReady(t, n) => 0 <= t && 0 <= n && t + n <= |s.at|
    case _ => true
  }

  lemma SanePush(s: State)
    requires Sane(s) && Pushing(s.owner)
    ensures Sane(PushStep(s))
  {
    hide Slot, Read, Write, Limit, SizeT;
    var s' := PushStep(s);
    assert forall id <- s.thieves :: SaneThief(s, s.thieves[id]) ==> SaneThief(s', s.thieves[id]);
    if s.owner.PushWritten? {
      assert HistoryInv(s');
    }
  }

  lemma SanePop(s: State)
    requires Sane(s) && !Pushing(s.owner)
    ensures Sane(PopStep(s))
  {
    SanePopCounters(s);
    SanePopClaims(s);
    SameHistory(s, PopStep(s));
    hide PopStep, SaneCounters, HistoryInv, SaneThief;
  }

  lemma SanePopCounters(s: State)
    requires SaneCounters(s) && !Pushing(s.owner)
    ensures SaneCounters(PopStep(s))
  {
    hide Slot, Read, Write, Published;
  }

  lemma SanePopClaims(s: State)
    requires SaneCounters(s) && HistoryInv(s) && !Pushing(s.owner)
    requires forall k <- s.claims :: k < |s.index|
    ensures var s' := PopStep(s);
      && s'.at == s.at && s'.index == s.index && s'.thieves == s.thieves
      && forall k <- s'.claims :: k < |s'.index|
  {
    if s.owner.PopStored? || s.owner.PopCas? {
      PublishedIsPush(s, s.owner.b);
    }
    hide Slot, Read, Write, Published, HistoryInv;
  }

  lemma PublishedIsPush(s: State, i: int)
    requires HistoryInv(s)
    ensures 0 <= i < |s.at| ==> Published(s, i) < |s.index|
  {
  }

  /** The history and what it says about thieves, when nothing is published and no thief moves on. */
  lemma SameHistory(s: State, s': State)
    requires s'.at == s.at && s'.index == s.index && s'.thieves == s.thieves
    requires HistoryInv(s) && forall id <- s.thieves :: SaneThief(s, s.thieves[id])
    ensures HistoryInv(s') && forall id <- s'.thieves :: SaneThief(s', s'.thieves[id])
  {
  }

  lemma SaneSteal(s: State, id: nat)
    requires Sane(s) && id in s.thieves
    ensures Sane(ThiefStep(s, id))
  {
    var s', thief := ThiefStep(s, id), s.thieves[id];
    assert SaneThief(s, thief);
    SaneStealCounters(s, id);
    forall other | other in s'.thieves
      ensures SaneThief(s', s'.thieves[other])
    {
      if other != id {
        assert SaneThief(s, s.thieves[other]);
      }
      hide Slot, Read, Write, PublishedRange, HistoryInv;
    }
    if thief.StealReady? {
      SaneClaims(s, thief.t, thief.n);
    }
    hide Slot, Read, Write, PublishedRange, SaneCounters, SaneThief;
  }

  lemma SaneStealCounters(s: State, id: nat)
    requires SaneCounters(s) && id in s.thieves && SaneThief(s, s.thieves[id])
    ensures SaneCounters(ThiefStep(s, id)) && ThiefStep(s, id).at == s.at && ThiefStep(s, id).index == s.index
  {
    hide Slot, Read, Write, PublishedRange;
  }

  lemma SaneClaims(s: State, t: int, n: int)
    requires HistoryInv(s) && 0 <= t && t + n <= |s.at|
    ensures forall k <- PublishedRange(s, t, n) :: k < |s.index| && t <= s.index[k] < t + n
  {
  }

  lemma SaneNext(s: State, e: Event)
    requires Sane(s)
    ensures Sane(Next(s, e))
  {
    hide PushStep, PopStep, ThiefStep;
    match e
    case Owner =>
      if Pushing(s.owner) {
        SanePush(s);
      } else {
        SanePop(s);
      }
    case Thief(id) =>
      if id in s.thieves {
        SaneSteal(s, id);
      }
    case _ =>
  }

  lemma StrandedPush(s: State, k: nat, i: int)
    requires Sane(s) && Stranded(s, k, i) && Pushing(s.owner)
    ensures Stranded(PushStep(s), k, i)
  {
    hide Slot, Read, Write, Limit, HistoryInv;
  }

  lemma StrandedPop(s: State, k: nat, i: int)
    requires Sane(s) && Stranded(s, k, i) && !Pushing(s.owner)
    ensures Stranded(PopStep(s), k, i)
  {
    hide Slot, Read, Write, Limit;
  }

  lemma StrandedSteal(s: State, id: nat, k: nat, i: int)
    requires Sane(s) && Stranded(s, k, i) && id in s.thieves
    ensures Stranded(ThiefStep(s, id), k, i)
  {
    assert SaneThief(s, s.thieves[id]);
    if s.thieves[id].StealReady? {
      SaneClaims(s, s.thieves[id].t, s.thieves[id].n);
    }
    hide Slot, Read, Write, PublishedRange, Sane;
  }

  lemma StrandedNext(s: State, e: Event, k: nat, i: int)
    requires Sane(s) && Stranded(s, k, i)
    ensures Stranded(Next(s, e), k, i)
  {
    hide PushStep, PopStep, ThiefStep, Sane;
    match e
    case Owner =>
      if Pushing(s.owner) {
        StrandedPush(s, k, i);
      } else {
        StrandedPop(s, k, i);
      }
    case Thief(id) =>
      if id in s.thieves {
        StrandedSteal(s, id, k, i);
      }
    case _ =>
  }

  lemma {:induction false} StrandedRun(s: State, events: seq<Event>, k: nat, i: int)
    requires Sane(s) && Stranded(s, k, i)
    ensures Stranded(Run(s, events), k, i)
    decreases |events|
  {
    if events != [] {
      SaneNext(s, events[0]);
      StrandedNext(s, events[0], k, i);
      StrandedRun(Next(s, events[0]), events[1..], k, i);
    }
  }

  /** In no continuation is this push claimed, or published where it could still be claimed. */
  ghost predicate NeverTaken(s: State, k: nat) {
    forall events :: Missing(Run(s, events), k)
  }

  ghost predicate Missing(s: State, k: nat) {
    k !in s.claims && (k < |s.index| ==> !Unclaimed(s, k))
  }

  /** A batch that commits while a push is under way makes that push vanish exactly if it reaches beyond the tail. */
  lemma UnsafeBatchStrandsThePush(s: State, id: nat)
    requires Inv(s) && StealsNow(s, Thief(id)) && PushInFlight(s.owner)
    ensures NeverTaken(Next(s, Thief(id)), |s.index|) <==> !WithinTail(s, Thief(id))
  {
    var s', k := Next(s, Thief(id)), |s.index|;
    hide Slot, Read, Write, Run;
    if WithinTail(s, Thief(id)) {
      NextInv(s, Thief(id));
      FinishedIsThere(s');
    } else {
      SaneNext(s, Thief(id));
      StrandedAtOnce(s, id);
      forall events
        ensures Missing(Run(s', events), k)
      {
        StrandedRun(s', events, k, s.owner.b);
      }
    }
  }

  lemma StrandedAtOnce(s: State, id: nat)
    requires Inv(s) && StealsNow(s, Thief(id)) && PushInFlight(s.owner) && !WithinTail(s, Thief(id))
    ensures Stranded(Next(s, Thief(id)), |s.index|, s.owner.b)
  {
    hide Slot, Read, Write;
    assert ThiefInv(s, s.thieves[id]);
  }

  lemma FinishedIsThere(s: State)
    requires Inv(s) && PushInFlight(s.owner)
    ensures !Missing(Run(s, FinishPush(s)), |s.index|)
  {
    hide Inv, Next;
    PushFinishes(s);
    OwnerKeepsInv(s);
    assert Inv(Run(s, FinishPush(s))) ==> ExactlyOnce(Run(s, FinishPush(s)));
  }

  lemma OwnerKeepsInv(s: State)
    requires Inv(s)
    ensures Inv(Run(s, FinishPush(s)))
  {
    assert WithinTailRun(s, FinishPush(s));
    RunInv(s, FinishPush(s));
  }

  // ----- both happen -----

  /** As in DOUBLE_CLAIM, but the owner has found room for another push when the thief commits. */
  const STRANDING: seq<Event> := FOUR_PUSHES + PLAN + THREE_POPS + [StartPush, Owner, Owner, Thief(0)]

  lemma {:induction false} SaneRun(s: State, events: seq<Event>)
    requires Sane(s)
    ensures Sane(Run(s, events))
    decreases |events|
  {
    if events != [] {
      SaneNext(s, events[0]);
      SaneRun(Next(s, events[0]), events[1..]);
    }
  }

  lemma UpToTheCommit(capacity: Capacity) returns (s: State)
    requires capacity >= 4
    ensures s == Run(Init(capacity), STRANDING)
    ensures s.claims == [3, 2, 1, 0, 1] && s.index == [0, 1, 2, 3] && s.capacity == capacity
    ensures s.owner == PushReady(1) && s.bottom == 1 && s.top == 2
  {
    hide Slot, Read, Write, Limit;
    var s0 := Init(capacity);
    var s1 := FourPushes(capacity);
    PlanAlone(s1, 0, 16);
    var s2 := Run(s1, PLAN);
    var s3 := ThreePops(s2);
    RunAppend(s0, FOUR_PUSHES + PLAN + THREE_POPS, [StartPush, Owner, Owner, Thief(0)]);
    RunAppend(s0, FOUR_PUSHES + PLAN, THREE_POPS);
    RunAppend(s0, FOUR_PUSHES, PLAN);
    RunFour(s3, StartPush, Owner, Owner, Thief(0));
    RoomFor(s3);
    s := Next(s3.(owner := PushReady(1)), Thief(0));
    assert PublishedRange(s3.(owner := PushReady(1)), 0, 2) == [0, 1];
  }

  lemma RoomFor(s: State)
    requires s.owner.Idle? && s.bottom == 1 && s.top == 0 && s.capacity >= 4
    ensures Next(Next(Next(s, StartPush), Owner), Owner) == s.(owner := PushReady(1))
  {
    PushStarts3(s);
  }

  /**
   The interleaving in which the owner goes on: item 1 is claimed twice, item 4 never, the next push gets
   through, and nothing looks wrong to anybody.
   */
  lemma BatchStealCanStrand(capacity: Capacity)
    requires capacity >= 4
    ensures var s := Run(Init(capacity), STRANDING + [Owner, Owner] + PUSH);
      s.claims == [3, 2, 1, 0, 1] && s.owner.Idle? && |s.index| == 6 && s.bottom == 3 && s.top == 2 && NeverTaken(s, 4)
  {
    hide Slot, Read, Write, Limit, Next, Run, Sane;
    var s := UpToTheCommit(capacity);
    PushFinishes(s);
    var t := Run(s, [Owner, Owner]);
    PushAlone(t);
    var u := Run(t, PUSH);
    RunAppend(Init(capacity), STRANDING + [Owner, Owner], PUSH);
    RunAppend(Init(capacity), STRANDING, [Owner, Owner]);
    SaneStart(capacity);
    SaneRun(Init(capacity), STRANDING + [Owner, Owner] + PUSH);
    assert Stranded(u, 4, 1);
    forall events
      ensures Missing(Run(u, events), 4)
    {
      StrandedRun(u, events, 4, 1);
    }
  }

  lemma SaneStart(capacity: Capacity)
    ensures Sane(Init(capacity))
  {
  }
}
