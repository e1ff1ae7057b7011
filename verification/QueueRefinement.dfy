/**
 The lock-free queue is a double-ended queue: seen from outside, every atomic step of the protocol
 appends an item at the new end, takes the newest one, takes some of the oldest, or does nothing, as
 long as successful steals stay within the tail.
 */
module QueueRefinement {
  import opened RingIndex
  import opened QueueProtocol

  /** The queue as its users see it: the unclaimed pushes, oldest first. */
  function Live(s: State): (live: seq<nat>)
    ensures |live| == if Tail(s) > s.top then Tail(s) - s.top else 0
  {
    PublishedRange(s, s.top, Tail(s) - s.top)
  }

  lemma LiveAt(s: State, j: nat)
    requires j < |Live(s)|
    ensures Live(s)[j] == Published(s, s.top + j)
  {
  }

  predicate Publishes(s: State, e: Event) {
    e.Owner? && s.owner.PushWritten?
  }

  /** The step of a pop that claims the newest item, with or without a compare-and-swap. */
  predicate Pops(s: State, e: Event) {
    e.Owner? && ((s.owner.PopStored? && s.top < s.owner.b) || (s.owner.PopCas? && s.top == s.owner.b))
  }

  lemma LiveIsPublished(s: State)
    requires CountersInv(s) && HistoryInv(s)
    ensures forall k <- Live(s) :: k < |s.index|
  {
    forall j | 0 <= j < |Live(s)|
      ensures Live(s)[j] < |s.index|
    {
      LiveAt(s, j);
    }
  }

  /** A step that changes neither end nor the history. */
  lemma SameLive(s: State, s': State)
    requires s'.top == s.top && Tail(s') == Tail(s) && s'.at == s.at
    ensures Live(s') == Live(s)
  {
    forall j | 0 <= j < |Live(s)|
      ensures Live(s')[j] == Live(s)[j]
    {
      LiveAt(s, j);
      LiveAt(s', j);
    }
  }

  lemma PublishExtends(s: State)
    requires CountersInv(s) && OwnerInv(s) && s.owner.PushWritten?
    ensures Live(PushStep(s)) == Live(s) + [|s.index|] && PushStep(s).index == s.index + [s.owner.b]
  {
    hide Slot, Read, Write;
    var s' := PushStep(s);
    forall j | 0 <= j < |Live(s')|
      ensures Live(s')[j] == (Live(s) + [|s.index|])[j]
    {
      LiveAt(s', j);
      if j < |Live(s)| {
        LiveAt(s, j);
      }
    }
  }

  lemma PopShortens(s: State)
    requires CountersInv(s) && OwnerInv(s) && Pops(s, Owner)
    ensures var s' := PopStep(s);
      && (s'.owner.PopTake? || s'.owner.PopWon?) && Live(s) == Live(s') + [s'.owner.push]
      && s'.index == s.index && s'.thieves == s.thieves
  {
    hide Slot, Read, Write;
    var s' := PopStep(s);
    forall j | 0 <= j < |Live(s)|
      ensures Live(s)[j] == (Live(s') + [s'.owner.push])[j]
    {
      LiveAt(s, j);
      if j < |Live(s')| {
        LiveAt(s', j);
      }
    }
  }

  lemma StealTakesOldest(s: State, id: nat)
    requires CountersInv(s) && StealsNow(s, Thief(id)) && WithinTail(s, Thief(id))
    ensures var s', n := StealCas(s, id), s.thieves[id].n;
      && n <= |Live(s)| && Live(s') == Live(s)[n..]
      && s'.thieves == s.thieves[id := StealMoving(s.top, Live(s)[..n], 0)]
      && s'.index == s.index && s'.owner == s.owner
  {
    hide Slot, Read, Write;
    var s', n := StealCas(s, id), s.thieves[id].n;
    forall j | 0 <= j < |Live(s')|
      ensures Live(s')[j] == Live(s)[n..][j]
    {
      LiveAt(s', j);
      LiveAt(s, j + n);
    }
    assert PublishedRange(s, s.top, n) == Live(s)[..n];
  }

  lemma OtherPushKeepsLive(s: State)
    requires CountersInv(s) && OwnerInv(s) && Pushing(s.owner) && !s.owner.PushWritten?
    ensures Live(PushStep(s)) == Live(s) && PushStep(s).index == s.index
  {
    hide Slot, Read, Write, Live, Limit;
    SameLive(s, PushStep(s));
  }

  lemma OtherPopKeepsLive(s: State)
    requires CountersInv(s) && OwnerInv(s) && !Pushing(s.owner) && !Pops(s, Owner)
    ensures Live(PopStep(s)) == Live(s) && PopStep(s).index == s.index
  {
    hide Slot, Read, Write, Live, Limit, Published;
    SameLive(s, PopStep(s));
  }

  lemma OtherThiefKeepsLive(s: State, id: nat)
    requires CountersInv(s) && id in s.thieves && !StealsNow(s, Thief(id))
    ensures Live(ThiefStep(s, id)) == Live(s) && ThiefStep(s, id).index == s.index
  {
    hide Slot, Read, Write, Live, PublishedRange;
    SameLive(s, ThiefStep(s, id));
  }

  lemma OtherStepsKeepLive(s: State, e: Event)
    requires CountersInv(s) && OwnerInv(s) && !Publishes(s, e) && !Pops(s, e) && !StealsNow(s, e)
    ensures Live(Next(s, e)) == Live(s) && Next(s, e).index == s.index
  {
    if e.Owner? && Pushing(s.owner) {
      OtherPushKeepsLive(s);
    } else if e.Owner? {
      OtherPopKeepsLive(s);
    } else if e.Thief? && e.thief in s.thieves {
      OtherThiefKeepsLive(s, e.thief);
    } else {
      SameLive(s, Next(s, e));
    }
    hide Live, PushStep, PopStep, ThiefStep;
  }

  /** Every step of the protocol is one of the operations of a double-ended queue, or none. */
  lemma QueueIsADeque(s: State, e: Event)
    requires Inv(s) && WithinTail(s, e)
    ensures var s' := Next(s, e);
      if Publishes(s, e) then Live(s') == Live(s) + [|s.index|]
      else if Pops(s, e) then (s'.owner.PopTake? || s'.owner.PopWon?) && Live(s) == Live(s') + [s'.owner.push]
      else if StealsNow(s, e) then
        && s.thieves[e.thief].n <= |Live(s)| && Live(s') == Live(s)[s.thieves[e.thief].n..]
        && e.thief in s'.thieves && s'.thieves[e.thief] == StealMoving(s.top, Live(s)[..s.thieves[e.thief].n], 0)
      else Live(s') == Live(s)
  {
    hide Slot, Read, Write, Live;
    if Publishes(s, e) {
      PublishExtends(s);
    } else if Pops(s, e) {
      PopShortens(s);
    } else if StealsNow(s, e) {
      StealTakesOldest(s, e.thief);
    } else {
      OtherStepsKeepLive(s, e);
    }
  }
}
