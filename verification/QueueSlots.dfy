/**
 What the claimers of the work-stealing queue actually get out of the ring. A claim fixes which
 item a thread owns, but the item is moved out of its slot later, and a push may reuse the slot by
 then. Every claimer gets its item exactly if no push does; the tenth of the capacity that push keeps
 free is a margin that guarantees it.
 */
module QueueSlots {
  import opened Wrappers
  import opened RingIndex
  import opened QueueProtocol

  /** A thief that still has items to move out. */
  predicate MovesNow(thief: ThiefPoint) {
    thief.StealMoving? && thief.i < |thief.pushes|
  }

  ghost predicate Waits(thief: ThiefPoint, push: nat) {
    thief.StealMoving? && exists j :: thief.i <= j < |thief.pushes| && thief.pushes[j] == push
  }

  /** None of the items that a thief has still to move lies in the slot of this index. */
  ghost predicate LeavesFree(thief: ThiefPoint, b: int, c: Capacity) {
    thief.StealMoving? ==> forall i :: thief.t + thief.i <= i < thief.t + |thief.pushes| ==> Slot(i, c) != Slot(b, c)
  }

  /** What push would have to check, but does not: nobody has still to move an item out of the slot it fills. */
  ghost predicate WritesFree(s: State, e: Event) {
    e.Owner? && s.owner.PushReady? ==> forall id <- s.thieves :: LeavesFree(s.thieves[id], s.owner.b, s.capacity)
  }

  /** The owner has claimed an item and not yet moved it out. */
  predicate OwnerTook(s: State) {
    s.owner.PopWon? || s.owner.PopTake?
  }

  /** Claimed, but not yet moved out of the ring. */
  ghost predicate Pending(s: State, push: nat) {
    || (OwnerTook(s) && s.owner.push == push)
    || (exists id <- s.thieves :: Waits(s.thieves[id], push))
  }

  ghost predicate LiveSlots(s: State) {
    && (forall i :: s.top <= i < Tail(s) ==> Read(s, i) == Holds(Published(s, i)))
    && (s.owner.PushWritten? ==> Read(s, s.owner.b) == Holds(|s.index|))
    && (OwnerTook(s) ==> Read(s, s.owner.b) == Holds(s.owner.push))
  }

  ghost predicate ThiefSlots(s: State, thief: ThiefPoint) {
    thief.StealMoving? ==> forall j :: thief.i <= j < |thief.pushes| ==> ItemInSlot(s, thief, j)
  }

  /** The j-th item of a thief lies in the slot it was claimed from. */
  ghost predicate ItemInSlot(s: State, thief: ThiefPoint, j: nat)
    requires thief.StealMoving? && j < |thief.pushes|
  {
    && Read(s, thief.t + j) == Holds(thief.pushes[j])
    && Published(s, thief.t + j) == thief.pushes[j]
    && thief.pushes[j] in s.claims
  }

  ghost predicate Apart(one: ThiefPoint, other: ThiefPoint) {
    one.StealMoving? && other.StealMoving? ==> one.t + |one.pushes| <= other.t || other.t + |other.pushes| <= one.t
  }

  /** No two threads ever own the same index. */
  ghost predicate Disjoint(s: State) {
    && (forall id, other | id in s.thieves && other in s.thieves && id != other ::
          Apart(s.thieves[id], s.thieves[other]))
    && (OwnerTook(s) ==> forall id <- s.thieves ::
          s.thieves[id].StealMoving? ==> s.thieves[id].t + |s.thieves[id].pushes| <= s.owner.b)
  }

  /** Each claimed push is either still pending or has been delivered, and what was delivered is that push. */
  ghost predicate Deliveries(s: State) {
    && (forall k <- s.delivered :: k in s.claims && s.delivered[k] == Holds(k))
    && (forall k <- s.claims :: k in s.delivered <==> !Pending(s, k))
    && (OwnerTook(s) ==> s.owner.push in s.claims)
  }

  ghost predicate SlotInv(s: State) {
    LiveSlots(s) && Disjoint(s) && Deliveries(s) && (forall id <- s.thieves :: ThiefSlots(s, s.thieves[id]))
  }

  // ----- writing to the ring -----

  /** A write changes what is read from its own slot only, and so nothing that was different before. */
  lemma WriteElsewhere(s: State, s': State, i: int, cell: Cell)
    requires s'.slots == Write(s, i, cell) && s'.capacity == s.capacity
    ensures Read(s', i) == cell
    ensures forall j {:trigger Read(s', j)} :: Slot(j, s.capacity) != Slot(i, s.capacity) ==> Read(s', j) == Read(s, j)
    ensures forall j {:trigger Read(s', j)} :: Read(s, j) != Read(s, i) ==> Read(s', j) == Read(s, j)
  {
    hide Slot;
  }

  /** Nothing changes hands: same claims, same pending items, same deliveries. */
  lemma DeliveriesUnaffected(s: State, s': State)
    requires Deliveries(s) && s'.claims == s.claims && s'.delivered == s.delivered && s'.thieves == s.thieves
    requires OwnerTook(s) == OwnerTook(s') && (OwnerTook(s) ==> s.owner.push == s'.owner.push)
    ensures Deliveries(s')
  {
    assert forall k <- s.claims :: Pending(s', k) <==> Pending(s, k);
  }

  lemma SameRing(s: State, s': State)
    requires s'.slots == s.slots && s'.capacity == s.capacity
    ensures forall i {:trigger Read(s', i)} :: Read(s', i) == Read(s, i)
  {
  }

  /** A thief keeps its items if their slots keep what they hold, and the history below top_ stays. */
  lemma ThiefSlotsFrame(s: State, s': State, thief: ThiefPoint)
    requires ThiefSlots(s, thief) && ThiefInv(s, thief) && s.claims <= s'.claims
    requires thief.StealMoving? ==>
      forall j :: thief.i <= j < |thief.pushes| && ItemInSlot(s, thief, j) ==>
        Read(s', thief.t + j) == Read(s, thief.t + j)
    requires forall i {:trigger Published(s', i)} :: 0 <= i < s.top ==> Published(s', i) == Published(s, i)
    ensures ThiefSlots(s', thief)
  {
    hide Read;
    if thief.StealMoving? {
      forall j | thief.i <= j < |thief.pushes|
        ensures ItemInSlot(s', thief, j)
      {
        assert ItemInSlot(s, thief, j);
      }
    }
  }

  /** A thief keeps its items if the ring and the history stay. */
  lemma ThiefSlotsSameRing(s: State, s': State, thief: ThiefPoint)
    requires ThiefSlots(s, thief) && s.claims <= s'.claims && s'.at == s.at
    requires s'.slots == s.slots && s'.capacity == s.capacity
    ensures ThiefSlots(s', thief)
  {
    SameRing(s, s');
    if thief.StealMoving? {
      forall j | thief.i <= j < |thief.pushes|
        ensures ItemInSlot(s', thief, j)
      {
        assert ItemInSlot(s, thief, j);
      }
    }
  }

  /** A step that leaves the ring, the queue and the thieves alone, and moves no item to the owner. */
  lemma SlotsUnaffected(s: State, s': State)
    requires SlotInv(s)
    requires s'.slots == s.slots && s'.capacity == s.capacity && s'.at == s.at && s'.thieves == s.thieves
    requires s'.top == s.top && Tail(s') == Tail(s)
    requires s'.claims == s.claims && s'.delivered == s.delivered && s'.index == s.index
    requires OwnerTook(s) == OwnerTook(s') && (s'.owner.PushWritten? ==> s'.owner == s.owner)
    requires OwnerTook(s) ==> s.owner.push == s'.owner.push && s.owner.b == s'.owner.b
    ensures SlotInv(s')
  {
    DeliveriesUnaffected(s, s');
    SameRing(s, s');
    forall id <- s.thieves
      ensures ThiefSlots(s', s.thieves[id])
    {
      ThiefSlotsSameRing(s, s', s.thieves[id]);
    }
  }

  /** The slot that push fills is not live, and nobody has still to move an item out of it. */
  lemma PushWriteSlots(s: State)
    requires Inv(s) && SlotInv(s) && WritesFree(s, Owner) && s.owner.PushReady?
    ensures SlotInv(PushStep(s))
  {
    var s', b := PushStep(s), s.owner.b;
    DeliveriesUnaffected(s, s');
    WriteElsewhere(s, s', b, Holds(|s.index|));
    SlotsDistinct(s.capacity);
    hide Read, Write, Slot;
    forall i | s.top <= i < Tail(s)
      ensures Read(s', i) == Read(s, i)
    {
      assert Slot(i, s.capacity) != Slot(b, s.capacity);
    }
    forall id <- s.thieves
      ensures ThiefSlots(s', s.thieves[id])
    {
      assert LeavesFree(s.thieves[id], b, s.capacity);
      ThiefSlotsFrame(s, s', s.thieves[id]);
    }
  }

  lemma PublishSlots(s: State)
    requires Inv(s) && SlotInv(s) && s.owner.PushWritten?
    ensures SlotInv(PushStep(s))
  {
    var s' := PushStep(s);
    DeliveriesUnaffected(s, s');
    SameRing(s, s');
    hide Read, Write;
    forall id <- s.thieves
      ensures ThiefSlots(s', s.thieves[id])
    {
      ThiefSlotsFrame(s, s', s.thieves[id]);
    }
  }

  lemma PushStepSlots(s: State)
    requires Inv(s) && SlotInv(s) && WritesFree(s, Owner) && Pushing(s.owner)
    ensures SlotInv(PushStep(s))
  {
    hide Read, Write;
    if s.owner.PushReady? {
      PushWriteSlots(s);
    } else if s.owner.PushWritten? {
      PublishSlots(s);
    } else {
      SlotsUnaffected(s, PushStep(s));
    }
  }

  lemma UnclaimedDoesNotWait(s: State, thief: ThiefPoint, push: nat)
    requires ThiefSlots(s, thief) && push !in s.claims
    ensures !Waits(thief, push)
  {
    if thief.StealMoving? {
      forall j | thief.i <= j < |thief.pushes|
        ensures thief.pushes[j] != push
      {
        assert ItemInSlot(s, thief, j);
      }
    }
  }

  /** An item that a pop claims was live, so it is in its slot and no thief is after it. */
  lemma PopClaimsSlot(s: State, b: int)
    requires Inv(s) && SlotInv(s)
    requires (s.owner == PopStored(b) && s.top < b) || (s.owner == PopCas(b) && s.top == b)
    ensures SlotInv(PopStep(s))
  {
    var s', k := PopStep(s), s.at[b];
    assert Unclaimed(s, k) && k !in s.claims;
    SameRing(s, s');
    forall id <- s.thieves
      ensures ThiefSlots(s', s.thieves[id]) && !Waits(s.thieves[id], k)
      ensures s.thieves[id].StealMoving? ==> s.thieves[id].t + |s.thieves[id].pushes| <= b
    {
      assert ThiefInv(s, s.thieves[id]);
      ThiefSlotsSameRing(s, s', s.thieves[id]);
      UnclaimedDoesNotWait(s, s.thieves[id], k);
    }
    assert forall c <- s.claims :: Pending(s', c) <==> Pending(s, c);
    assert Pending(s', k);
  }

  /** Two indices of the history hold different pushes. */
  lemma PublishedDiffer(s: State, i: int, j: int)
    requires HistoryInv(s) && 0 <= i < |s.at| && 0 <= j < |s.at| && i != j
    ensures Published(s, i) != Published(s, j)
  {
    assert s.index[s.at[i]] == i && s.index[s.at[j]] == j;
  }

  /** What a thief has still to move is another item than that of the owner, and so in another slot. */
  lemma PopTakeKeepsItem(s: State, thief: ThiefPoint, j: nat)
    requires CountersInv(s) && OwnerInv(s) && HistoryInv(s) && LiveSlots(s) && s.owner.PopTake?
    requires thief.StealMoving? && ThiefInv(s, thief) && thief.i <= j < |thief.pushes| && ItemInSlot(s, thief, j)
    requires thief.t + |thief.pushes| <= s.owner.b
    ensures thief.pushes[j] != s.owner.push && ItemInSlot(PopStep(s), thief, j)
  {
    WriteElsewhere(s, PopStep(s), s.owner.b, Vacant);
    PublishedDiffer(s, thief.t + j, s.owner.b);
    hide Read, Write;
  }

  lemma PopTakeKeepsThief(s: State, thief: ThiefPoint)
    requires CountersInv(s) && OwnerInv(s) && HistoryInv(s) && LiveSlots(s) && s.owner.PopTake?
    requires ThiefInv(s, thief) && ThiefSlots(s, thief)
    requires thief.StealMoving? ==> thief.t + |thief.pushes| <= s.owner.b
    ensures ThiefSlots(PopStep(s), thief) && !Waits(thief, s.owner.push)
  {
    hide Read, Write;
    if thief.StealMoving? {
      forall j | thief.i <= j < |thief.pushes|
        ensures thief.pushes[j] != s.owner.push && ItemInSlot(PopStep(s), thief, j)
      {
        PopTakeKeepsItem(s, thief, j);
      }
    }
  }

  lemma PopTakeLive(s: State)
    requires CountersInv(s) && OwnerInv(s) && HistoryInv(s) && LiveSlots(s) && s.owner.PopTake?
    ensures LiveSlots(PopStep(s))
  {
    var s', b := PopStep(s), s.owner.b;
    WriteElsewhere(s, s', b, Vacant);
    hide Read, Write;
    forall i | s'.top <= i < Tail(s')
      ensures Read(s', i) == Holds(Published(s', i))
    {
      assert i != b;
      PublishedDiffer(s, i, b);
    }
  }

  /** The owner moves its item out. */
  lemma PopTakesSlot(s: State)
    requires Inv(s) && SlotInv(s) && s.owner.PopTake?
    ensures SlotInv(PopStep(s))
  {
    var s', k := PopStep(s), s.owner.push;
    PopTakeLive(s);
    hide Read, Write;
    forall id <- s.thieves
      ensures ThiefSlots(s', s.thieves[id]) && !Waits(s.thieves[id], k)
    {
      PopTakeKeepsThief(s, s.thieves[id]);
    }
    assert Read(s, s.owner.b) == Holds(k) && k in s.claims && !Pending(s', k);
    assert forall c <- s.claims :: c != k ==> (Pending(s', c) <==> Pending(s, c));
  }

  lemma PopStepSlots(s: State)
    requires Inv(s) && SlotInv(s) && !Pushing(s.owner)
    ensures SlotInv(PopStep(s))
  {
    hide Read, Write;
    if (s.owner.PopStored? && s.top < s.owner.b) || (s.owner.PopCas? && s.top == s.owner.b) {
      PopClaimsSlot(s, s.owner.b);
    } else if s.owner.PopTake? {
      PopTakesSlot(s);
    } else {
      SlotsUnaffected(s, PopStep(s));
    }
  }

  ghost predicate OtherThievesSame(s: State, s': State, id: nat) {
    forall other | other != id :: && (other in s.thieves <==> other in s'.thieves)
                                  && (other in s.thieves ==> s'.thieves[other] == s.thieves[other])
  }

  /** What is pending changes with the thief that moves, and with nobody else. */
  lemma PendingFrame(s: State, s': State, id: nat, push: nat)
    requires OtherThievesSame(s, s', id) && s'.owner == s.owner
    requires (id in s.thieves && Waits(s.thieves[id], push)) <==> (id in s'.thieves && Waits(s'.thieves[id], push))
    ensures Pending(s', push) <==> Pending(s, push)
  {
    if other :| other in s.thieves && Waits(s.thieves[other], push) {
      assert other in s'.thieves && Waits(s'.thieves[other], push);
    }
    if other :| other in s'.thieves && Waits(s'.thieves[other], push) {
      assert other in s.thieves && Waits(s.thieves[other], push);
    }
  }

  /** A thief that has nothing to move out starts, reads or leaves. */
  lemma IdleThiefSlots(s: State, s': State, id: nat)
    requires SlotInv(s)
    requires s' == s.(thieves := s'.thieves) && OtherThievesSame(s, s', id)
    requires id in s.thieves ==> !MovesNow(s.thieves[id])
    requires id in s'.thieves ==> !s'.thieves[id].StealMoving?
    ensures SlotInv(s')
  {
    SameRing(s, s');
    forall c <- s.claims
      ensures Pending(s', c) <==> Pending(s, c)
    {
      PendingFrame(s, s', id, c);
    }
    forall other, another | other in s'.thieves && another in s'.thieves && other != another
      ensures Apart(s'.thieves[other], s'.thieves[another])
    {
      assert other != id && another != id ==> Apart(s.thieves[other], s.thieves[another]);
    }
    forall other <- s'.thieves
      ensures ThiefSlots(s', s'.thieves[other])
    {
      if other != id {
        ThiefSlotsSameRing(s, s', s.thieves[other]);
      }
    }
  }

  lemma StealClaimsDisjoint(s: State, id: nat)
    requires Inv(s) && Disjoint(s) && StealsNow(s, Thief(id)) && WithinTail(s, Thief(id))
    ensures Disjoint(StealCas(s, id))
  {
    forall other <- s.thieves
      ensures ThiefInv(s, s.thieves[other])
    {
    }
  }

  lemma StealClaimsDeliveries(s: State, id: nat)
    requires Inv(s) && Deliveries(s) && StealsNow(s, Thief(id)) && WithinTail(s, Thief(id))
    ensures Deliveries(StealCas(s, id))
  {
    var s', t, n := StealCas(s, id), s.top, s.thieves[id].n;
    var range := PublishedRange(s, t, n);
    forall j | 0 <= j < n
      ensures range[j] == s.at[t + j] && range[j] !in s.claims
    {
      assert Unclaimed(s, s.at[t + j]);
    }
    forall c <- s'.claims
      ensures c in s'.delivered <==> !Pending(s', c)
    {
      if c in range {
        assert Waits(s'.thieves[id], c);
      } else {
        PendingFrame(s, s', id, c);
      }
    }
  }

  /** The items a successful steal claims were live, so they are in their slots and nobody else is after them. */
  lemma StealClaimsSlots(s: State, id: nat)
    requires Inv(s) && SlotInv(s) && StealsNow(s, Thief(id)) && WithinTail(s, Thief(id))
    ensures SlotInv(StealCas(s, id))
  {
    hide Read, Write;
    var s' := StealCas(s, id);
    StealClaimsDisjoint(s, id);
    StealClaimsDeliveries(s, id);
    StealClaimsLive(s, id);
    forall other <- s.thieves
      ensures ThiefSlots(s', s'.thieves[other])
    {
      if other != id {
        ThiefSlotsSameRing(s, s', s.thieves[other]);
      } else {
        StealClaimsOwn(s, id);
      }
    }
    hide Disjoint, Deliveries, LiveSlots, ThiefSlots;
  }

  lemma StealClaimsLive(s: State, id: nat)
    requires Inv(s) && LiveSlots(s) && StealsNow(s, Thief(id)) && WithinTail(s, Thief(id))
    ensures LiveSlots(StealCas(s, id))
  {
    SameRing(s, StealCas(s, id));
    hide Read;
  }

  lemma StealClaimsOwn(s: State, id: nat)
    requires Inv(s) && LiveSlots(s) && StealsNow(s, Thief(id)) && WithinTail(s, Thief(id))
    ensures var s' := StealCas(s, id); ThiefSlots(s', s'.thieves[id])
  {
    var s', t, n := StealCas(s, id), s.top, s.thieves[id].n;
    SameRing(s, s');
    hide Read;
    forall j | 0 <= j < n
      ensures ItemInSlot(s', s'.thieves[id], j)
    {
      assert Read(s, t + j) == Holds(Published(s, t + j));
    }
  }

  /** Any other item that waits to be moved is another item than this one, and so in another slot. */
  lemma StealMoveKeepsItem(s: State, id: nat, thief: ThiefPoint, j: nat)
    requires HistoryInv(s) && CountersInv(s) && id in s.thieves && MovesNow(s.thieves[id])
    requires ThiefInv(s, s.thieves[id]) && ThiefSlots(s, s.thieves[id])
    requires thief.StealMoving? && ThiefInv(s, thief) && thief.i <= j < |thief.pushes| && ItemInSlot(s, thief, j)
    requires thief.t + j != s.thieves[id].t + s.thieves[id].i
    ensures thief.pushes[j] != s.thieves[id].pushes[s.thieves[id].i] && ItemInSlot(StealMove(s, id), thief, j)
  {
    var mover := s.thieves[id];
    assert ItemInSlot(s, mover, mover.i);
    PublishedDiffer(s, thief.t + j, mover.t + mover.i);
    WriteElsewhere(s, StealMove(s, id), mover.t + mover.i, Vacant);
    hide Read, Write;
  }

  /** What the mover has still to move after this step. */
  lemma StealMoveKeepsOwn(s: State, id: nat)
    requires HistoryInv(s) && CountersInv(s) && id in s.thieves && MovesNow(s.thieves[id])
    requires ThiefInv(s, s.thieves[id]) && ThiefSlots(s, s.thieves[id])
    ensures var s', mover := StealMove(s, id), s.thieves[id];
      ThiefSlots(s', s'.thieves[id]) && !Waits(s'.thieves[id], mover.pushes[mover.i])
  {
    hide Read, Write;
    var s', mover := StealMove(s, id), s.thieves[id];
    forall j | mover.i < j < |mover.pushes|
      ensures mover.pushes[j] != mover.pushes[mover.i] && ItemInSlot(s', s'.thieves[id], j)
    {
      assert ItemInSlot(s, mover, j);
      StealMoveKeepsItem(s, id, mover, j);
    }
  }

  lemma StealMoveKeepsOther(s: State, id: nat, thief: ThiefPoint)
    requires HistoryInv(s) && CountersInv(s) && id in s.thieves && MovesNow(s.thieves[id])
    requires ThiefInv(s, s.thieves[id]) && ThiefSlots(s, s.thieves[id])
    requires ThiefInv(s, thief) && ThiefSlots(s, thief) && Apart(thief, s.thieves[id])
    ensures ThiefSlots(StealMove(s, id), thief) && !Waits(thief, s.thieves[id].pushes[s.thieves[id].i])
  {
    hide Read, Write, StealMove;
    if thief.StealMoving? {
      forall j | thief.i <= j < |thief.pushes|
        ensures thief.pushes[j] != s.thieves[id].pushes[s.thieves[id].i] && ItemInSlot(StealMove(s, id), thief, j)
      {
        assert ItemInSlot(s, thief, j);
        StealMoveKeepsItem(s, id, thief, j);
      }
    }
  }

  lemma StealMoveKeepsThief(s: State, id: nat, other: nat)
    requires Inv(s) && SlotInv(s) && id in s.thieves && MovesNow(s.thieves[id]) && other in s.thieves
    ensures var s' := StealMove(s, id);
      && ThiefSlots(s', s'.thieves[other]) && !Waits(s'.thieves[other], s.thieves[id].pushes[s.thieves[id].i])
      && (other != id ==> s'.thieves[other] == s.thieves[other])
  {
    hide Read, Write;
    if other == id {
      StealMoveKeepsOwn(s, id);
    } else {
      StealMoveKeepsOther(s, id, s.thieves[other]);
    }
  }

  lemma StealMoveLive(s: State, id: nat)
    requires CountersInv(s) && OwnerInv(s) && HistoryInv(s) && LiveSlots(s) && Disjoint(s)
    requires id in s.thieves && MovesNow(s.thieves[id]) && ThiefInv(s, s.thieves[id]) && ThiefSlots(s, s.thieves[id])
    ensures LiveSlots(StealMove(s, id))
  {
    var s', mover := StealMove(s, id), s.thieves[id];
    var i := mover.t + mover.i;
    assert ItemInSlot(s, mover, mover.i);
    WriteElsewhere(s, s', i, Vacant);
    hide Read, Write;
    forall j | s.top <= j < Tail(s)
      ensures Read(s', j) == Holds(Published(s, j))
    {
      PublishedDiffer(s, i, j);
    }
    if OwnerTook(s) {
      PublishedDiffer(s, i, s.owner.b);
    }
  }

  lemma StealMoveDisjoint(s: State, id: nat)
    requires Disjoint(s) && id in s.thieves && MovesNow(s.thieves[id])
    ensures Disjoint(StealMove(s, id))
  {
    hide Read, Write;
  }

  lemma StealMoveDeliveries(s: State, id: nat)
    requires Inv(s) && SlotInv(s) && id in s.thieves && MovesNow(s.thieves[id])
    ensures Deliveries(StealMove(s, id))
  {
    hide Read, Write;
    var s', mover := StealMove(s, id), s.thieves[id];
    var k := mover.pushes[mover.i];
    assert ThiefInv(s, mover) && ItemInSlot(s, mover, mover.i);
    NobodyWaitsFor(s, id);
    assert Pending(s, k) && !Pending(s', k);
    forall c | c in s.claims && c != k
      ensures Pending(s', c) <==> Pending(s, c)
    {
      MoverStillWaits(mover, c);
      PendingFrame(s, s', id, c);
    }
    hide ThiefSlots, Waits;
  }

  lemma MoverStillWaits(mover: ThiefPoint, c: nat)
    requires MovesNow(mover) && mover.pushes[mover.i] != c
    ensures Waits(mover, c) <==> Waits(mover.(i := mover.i + 1), c)
  {
  }

  /** After the move nobody has still to move this item. */
  lemma NobodyWaitsFor(s: State, id: nat)
    requires Inv(s) && SlotInv(s) && id in s.thieves && MovesNow(s.thieves[id])
    ensures !Pending(StealMove(s, id), s.thieves[id].pushes[s.thieves[id].i])
  {
    hide Read, Write;
    var s', mover := StealMove(s, id), s.thieves[id];
    var k := mover.pushes[mover.i];
    assert ThiefInv(s, mover) && ItemInSlot(s, mover, mover.i);
    forall other <- s'.thieves
      ensures !Waits(s'.thieves[other], k)
    {
      StealMoveKeepsThief(s, id, other);
    }
    if OwnerTook(s) {
      PublishedDiffer(s, mover.t + mover.i, s.owner.b);
    }
  }

  /** A thief moves one item out. */
  lemma StealMoveSlots(s: State, id: nat)
    requires Inv(s) && SlotInv(s) && id in s.thieves && MovesNow(s.thieves[id])
    ensures SlotInv(StealMove(s, id))
  {
    hide Read, Write;
    assert ThiefInv(s, s.thieves[id]);
    StealMoveLive(s, id);
    StealMoveDisjoint(s, id);
    StealMoveDeliveries(s, id);
    forall other <- s.thieves
      ensures ThiefSlots(StealMove(s, id), StealMove(s, id).thieves[other])
    {
      StealMoveKeepsThief(s, id, other);
    }
    hide Disjoint, Deliveries, LiveSlots, ThiefSlots;
  }

  lemma ThiefStepSlots(s: State, id: nat)
    requires Inv(s) && SlotInv(s) && id in s.thieves && WithinTail(s, Thief(id))
    ensures SlotInv(ThiefStep(s, id))
  {
    if StealsNow(s, Thief(id)) {
      StealClaimsSlots(s, id);
    } else if MovesNow(s.thieves[id]) {
      StealMoveSlots(s, id);
    } else {
      IdleThiefSlots(s, ThiefStep(s, id), id);
    }
  }

  lemma OwnerStepSlots(s: State)
    requires Inv(s) && SlotInv(s) && WritesFree(s, Owner)
    ensures SlotInv(OwnerStep(s))
  {
    if Pushing(s.owner) {
      PushStepSlots(s);
    } else {
      PopStepSlots(s);
    }
  }

  /** Every step keeps each item that is not moved out in its slot, unless a push fills a slot that is waited for. */
  lemma NextSlots(s: State, e: Event)
    requires Inv(s) && SlotInv(s) && WithinTail(s, e) && WritesFree(s, e)
    ensures SlotInv(Next(s, e))
  {
    if e.Owner? {
      OwnerStepSlots(s);
    } else if e.Thief? && e.thief in s.thieves {
      ThiefStepSlots(s, e.thief);
    } else if e.StartSteal? && e.thief !in s.thieves {
      IdleThiefSlots(s, Next(s, e), e.thief);
    } else {
      SlotsUnaffected(s, Next(s, e));
    }
  }

  // ----- what an overwritten item comes to -----

  /** A cell holds an item only in the slot of the item's index, or of the index being pushed. */
  ghost predicate Homes(s: State) {
    forall x <- s.slots :: s.slots[x].Holds? ==> AtHome(s, s.slots[x].push, x)
  }

  ghost predicate AtHome(s: State, k: nat, x: nat) {
    || (k < |s.index| && x == Slot(s.index[k], s.capacity))
    || (k == |s.index| && s.owner.PushWritten? && x == Slot(s.owner.b, s.capacity))
  }

  /** Homes stay if one cell is emptied, or nothing is written, and no push is published or begun. */
  lemma HomesFrame(s: State, s': State)
    requires Homes(s) && s'.index == s.index && s'.capacity == s.capacity
    requires s'.owner == s.owner || (!s.owner.PushWritten? && !s'.owner.PushWritten?)
    requires forall x <- s'.slots :: s'.slots[x].Holds? ==> x in s.slots && s.slots[x] == s'.slots[x]
    ensures Homes(s')
  {
    hide Slot;
    forall x | x in s'.slots && s'.slots[x].Holds?
      ensures AtHome(s', s'.slots[x].push, x)
    {
      assert AtHome(s, s.slots[x].push, x);
    }
  }

  lemma PushHomes(s: State)
    requires Homes(s) && Pushing(s.owner)
    ensures Homes(PushStep(s))
  {
    hide Slot;
    var s' := PushStep(s);
    forall x | x in s'.slots && s'.slots[x].Holds?
      ensures AtHome(s', s'.slots[x].push, x)
    {
      assert x in s.slots && s'.slots[x] == s.slots[x] ==> AtHome(s, s.slots[x].push, x);
    }
  }

  lemma NextHomes(s: State, e: Event)
    requires Homes(s)
    ensures Homes(Next(s, e))
  {
    hide Slot;
    if e.Owner? && Pushing(s.owner) {
      PushHomes(s);
    } else {
      hide Published, PublishedRange, Read;
      HomesFrame(s, Next(s, e));
    }
  }

  /** A claimed item that was not delivered, and is nowhere in the ring. */
  ghost predicate Lost(s: State, k: nat) {
    && k < |s.index| && k in s.claims && (k in s.delivered ==> s.delivered[k] != Holds(k))
    && forall x <- s.slots :: s.slots[x] != Holds(k)
  }

  /** It stays lost: only its own push ever wrote it. */
  lemma NextLost(s: State, e: Event, k: nat)
    requires Lost(s, k)
    ensures Lost(Next(s, e), k)
  {
    hide Slot, Published, PublishedRange;
    NextMonotone(s, e);
    if e.Owner? && Pushing(s.owner) {
      PushLost(s, k);
    } else if e.Owner? {
      PopLost(s, k);
    } else if e.Thief? && e.thief in s.thieves {
      ThiefLost(s, e.thief, k);
    }
  }

  lemma PushLost(s: State, k: nat)
    requires Lost(s, k) && Pushing(s.owner)
    ensures Lost(PushStep(s), k)
  {
    hide Slot;
  }

  lemma PopLost(s: State, k: nat)
    requires Lost(s, k) && !Pushing(s.owner)
    ensures Lost(PopStep(s), k)
  {
    hide Slot, Published;
  }

  lemma ThiefLost(s: State, id: nat, k: nat)
    requires Lost(s, k) && id in s.thieves
    ensures Lost(ThiefStep(s, id), k)
  {
    hide Slot, PublishedRange;
  }

  lemma {:induction false} RunLost(s: State, events: seq<Event>, k: nat)
    requires Lost(s, k)
    ensures Lost(Run(s, events), k)
    decreases |events|
  {
    if events != [] {
      NextLost(s, events[0], k);
      RunLost(Next(s, events[0]), events[1..], k);
    }
  }

  /** A push that fills a slot with an item that waits to be moved out loses that item. */
  lemma OverwriteLoses(s: State, e: Event)
    requires Inv(s) && SlotInv(s) && Homes(s) && !WritesFree(s, e)
    ensures exists k :: Lost(Next(s, e), k)
  {
    hide Slot;
    var id :| id in s.thieves && !LeavesFree(s.thieves[id], s.owner.b, s.capacity);
    var thief := s.thieves[id];
    var i :| thief.t + thief.i <= i < thief.t + |thief.pushes| && Slot(i, s.capacity) == Slot(s.owner.b, s.capacity);
    var j := i - thief.t;
    var k, s' := thief.pushes[j], Next(s, e);
    assert ThiefInv(s, thief) && ItemInSlot(s, thief, j) && Waits(thief, k);
    assert Pending(s, k) && s.index[k] == thief.t + j;
    forall x | x in s'.slots
      ensures s'.slots[x] != Holds(k)
    {
      if x in s.slots && s.slots[x] == Holds(k) {
        assert AtHome(s, k, x);
      }
    }
    assert Lost(s', k);
  }

  /** Every claimed item has been delivered to its claimer or is still in the ring. */
  ghost predicate NothingLost(s: State) {
    forall k <- s.claims :: (k in s.delivered && s.delivered[k] == Holds(k)) || InRing(s, k)
  }

  ghost predicate InRing(s: State, k: nat) {
    exists x <- s.slots :: s.slots[x] == Holds(k)
  }

  lemma SlotInvLosesNothing(s: State)
    requires SlotInv(s)
    ensures NothingLost(s)
  {
    forall k | k in s.claims && k !in s.delivered
      ensures InRing(s, k)
    {
      assert Pending(s, k);
      if !(OwnerTook(s) && s.owner.push == k) {
        var id :| id in s.thieves && Waits(s.thieves[id], k);
        var thief := s.thieves[id];
        var j :| thief.i <= j < |thief.pushes| && thief.pushes[j] == k;
        assert ThiefSlots(s, thief) && ItemInSlot(s, thief, j);
        ReadIsInRing(s, thief.t + j, k);
      } else {
        ReadIsInRing(s, s.owner.b, k);
      }
    }
  }

  lemma ReadIsInRing(s: State, i: int, k: nat)
    requires Read(s, i) == Holds(k)
    ensures InRing(s, k)
  {
    hide Slot;
    assert s.slots[Slot(i, s.capacity)] == Holds(k);
  }

  // ----- whole interleavings -----

  /** No push of the interleaving fills a slot that somebody has still to empty. */
  ghost predicate WritesFreeRun(s: State, events: seq<Event>)
    decreases |events|
  {
    events == [] || (WritesFree(s, events[0]) && WritesFreeRun(Next(s, events[0]), events[1..]))
  }

  lemma InitSlots(capacity: Capacity)
    ensures SlotInv(Init(capacity)) && Homes(Init(capacity))
  {
  }

  lemma {:induction false} RunSlots(s: State, events: seq<Event>)
    requires Inv(s) && SlotInv(s) && WithinTailRun(s, events) && WritesFreeRun(s, events)
    ensures Inv(Run(s, events)) && SlotInv(Run(s, events))
    decreases |events|
  {
    if events != [] {
      NextInv(s, events[0]);
      NextSlots(s, events[0]);
      RunSlots(Next(s, events[0]), events[1..]);
    }
  }

  lemma {:induction false} NothingLostIffWritesFree(s: State, events: seq<Event>)
    requires Inv(s) && SlotInv(s) && Homes(s) && WithinTailRun(s, events)
    ensures NothingLost(Run(s, events)) <==> WritesFreeRun(s, events)
    decreases |events|
  {
    hide Inv, SlotInv, Homes, WithinTail, WritesFree, Lost, NothingLost, Next;
    if events == [] {
      SlotInvLosesNothing(s);
    } else {
      var e, s' := events[0], Next(s, events[0]);
      if WritesFree(s, e) {
        NextInv(s, e);
        NextSlots(s, e);
        NextHomes(s, e);
        NothingLostIffWritesFree(s', events[1..]);
      } else {
        OverwriteLoses(s, e);
        var k :| Lost(s', k);
        RunLost(s', events[1..], k);
        LostIsLost(Run(s', events[1..]), k);
      }
    }
  }

  lemma LostIsLost(s: State, k: nat)
    requires Lost(s, k)
    ensures !NothingLost(s)
  {
  }

  /**
   Over every interleaving of pushes, pops, single and batch steals: each item is claimed exactly once
   and is with its claimer or still in the ring, if and only if each successful steal found all of its
   items unclaimed and each push filled a slot that nobody had still to empty.
   */
  lemma QueueWorksIff(capacity: Capacity, events: seq<Event>)
    ensures var s, s0 := Run(Init(capacity), events), Init(capacity);
      (ExactlyOnce(s) && NothingLost(s)) <==> (WithinTailRun(s0, events) && WritesFreeRun(s0, events))
  {
    var s0 := Init(capacity);
    InitInv(capacity);
    InitSlots(capacity);
    ExactlyOnceIffWithinTail(s0, events);
    if WithinTailRun(s0, events) {
      NothingLostIffWritesFree(s0, events);
    }
  }

  /**
   In such interleavings whatever was moved out of the ring for a push is the item of that push, once
   nobody holds a claim any more every claimed push has been delivered, and live indices have distinct slots.
   */
  lemma ClaimersGetTheirItems(capacity: Capacity, events: seq<Event>)
    requires WithinTailRun(Init(capacity), events) && WritesFreeRun(Init(capacity), events)
    ensures var s := Run(Init(capacity), events);
      && (forall k <- s.delivered :: k in s.claims && s.delivered[k] == Holds(k))
      && (s.owner.Idle? && s.thieves == map[] ==> forall k <- s.claims :: k in s.delivered)
      && (forall i, j :: s.top <= i < j < Tail(s) ==> Slot(i, capacity) != Slot(j, capacity))
  {
    hide Slot, Read;
    var s := Run(Init(capacity), events);
    InitInv(capacity);
    RunSlots(Init(capacity), events);
    RunCapacity(Init(capacity), events);
    SlotsDistinct(capacity);
  }

  lemma {:induction false} RunCapacity(s: State, events: seq<Event>)
    ensures Run(s, events).capacity == s.capacity
    decreases |events|
  {
    if events != [] {
      RunCapacity(Next(s, events[0]), events[1..]);
    }
  }

  // ----- the reserve -----

  /** When push is about to write, no thief with items to move is further behind top_ than the reserve. */
  ghost predicate WithinReserve(s: State, e: Event) {
    e.Owner? && s.owner.PushReady? ==>
      forall id <- s.thieves :: MovesNow(s.thieves[id]) ==> s.top <= s.thieves[id].t + s.thieves[id].i + s.capacity / 10
  }

  ghost predicate WithinReserveRun(s: State, events: seq<Event>)
    decreases |events|
  {
    events == [] || (WithinReserve(s, events[0]) && WithinReserveRun(Next(s, events[0]), events[1..]))
  }

  /** The tenth of the ring that push keeps free is enough for that, although push works from a stale top_. */
  lemma ReserveSuffices(s: State, e: Event)
    requires Inv(s) && WithinReserve(s, e)
    ensures WritesFree(s, e)
  {
    hide Slot;
    if e.Owner? && s.owner.PushReady? {
      forall id <- s.thieves
        ensures LeavesFree(s.thieves[id], s.owner.b, s.capacity)
      {
        assert ThiefInv(s, s.thieves[id]);
        SlotsDistinct(s.capacity);
      }
    }
  }

  lemma {:induction false} ReserveSufficesRun(s: State, events: seq<Event>)
    requires Inv(s) && WithinTailRun(s, events) && WithinReserveRun(s, events)
    ensures WritesFreeRun(s, events)
    decreases |events|
  {
    hide Inv, WithinReserve, WithinTail, WritesFree, Next;
    if events != [] {
      ReserveSuffices(s, events[0]);
      NextInv(s, events[0]);
      ReserveSufficesRun(Next(s, events[0]), events[1..]);
    }
  }

  // ----- a thief that is overtaken -----

  const STEAL_AND_STALL: seq<Event> := [StartSteal(0, None), Thief(0), Thief(0)]
  const STEAL: seq<Event> := [StartSteal(1, None), Thief(1), Thief(1), Thief(1), Thief(1)]

  /** The owner pushes one item and another thief takes it, n times. */
  function Rounds(n: nat): seq<Event> {
    if n == 0 then [] else Rounds(n - 1) + (PUSH + STEAL)
  }

  /** A thief claims the first item and is descheduled, the queue goes once around the ring, the thief moves. */
  function Overtaking(capacity: Capacity): seq<Event> {
    PUSH + STEAL_AND_STALL + Rounds(capacity - 1) + PUSH + [Thief(0)]
  }

  lemma StealAndStall(s: State)
    requires 0 !in s.thieves && s.top < s.bottom
    ensures var s' := Run(s, STEAL_AND_STALL);
      s' == s.(top := s.top + 1,
               claims := s.claims + [Published(s, s.top)],
               thieves := s.thieves[0 := StealMoving(s.top, [Published(s, s.top)], 0)])
  {
    var s1 := s.(thieves := s.thieves[0 := StealLoaded(s.top, None)]);
    var s2 := s.(thieves := s.thieves[0 := StealReady(s.top, 1)]);
    assert Run(s, STEAL_AND_STALL) == Run(s1, [Thief(0), Thief(0)]);
    assert Next(s1, Thief(0)) == s2 by {
      assert s1.thieves[0 := StealReady(s.top, 1)] == s2.thieves;
    }
    assert Run(s1, [Thief(0), Thief(0)]) == Run(s2, [Thief(0)]) == Run(Next(s2, Thief(0)), []);
    assert PublishedRange(s2, s.top, 1) == [Published(s, s.top)];
    assert s2.thieves[0 := StealMoving(s.top, [Published(s, s.top)], 0)]
        == s.thieves[0 := StealMoving(s.top, [Published(s, s.top)], 0)];
  }

  /** An uninterrupted steal by the other thief. */
  lemma StealAlone(s: State)
    requires 1 !in s.thieves && s.top < s.bottom
    ensures var s', k := Run(s, STEAL), Published(s, s.top);
      s' == s.(top := s.top + 1,
               claims := s.claims + [k],
               slots := Write(s, s.top, Vacant),
               delivered := s.delivered[k := Read(s, s.top)])
  {
    var k, top := Published(s, s.top), s.top;
    var s1 := s.(thieves := s.thieves[1 := StealLoaded(top, None)]);
    assert Next(s, StartSteal(1, None)) == s1;
    hide Next, Slot, Read, Write, Published;
    var s3 := s.(top := top + 1, claims := s.claims + [k], thieves := s.thieves[1 := StealMoving(top, [k], 0)]);
    StealReads(s);
    StealCommits(s);
    StealEnds(s3, top, k);
    assert s3.thieves[1 := StealMoving(top, [k], 1)] - {1} == s.thieves;
    SameReadWrite(s, s3, top);
    RunSteal(s);
    hide Run;
  }

  lemma RunSteal(s: State)
    ensures Run(s, STEAL)
         == Next(Next(Next(Next(Next(s, StartSteal(1, None)), Thief(1)), Thief(1)), Thief(1)), Thief(1))
  {
    hide Next;
    assert Run(s, STEAL) == Run(Next(s, StartSteal(1, None)), [Thief(1), Thief(1), Thief(1), Thief(1)]);
    RunFour(Next(s, StartSteal(1, None)), Thief(1), Thief(1), Thief(1), Thief(1));
  }

  lemma SameReadWrite(s: State, s': State, i: int)
    requires s'.slots == s.slots && s'.capacity == s.capacity
    ensures Read(s', i) == Read(s, i) && Write(s', i, Vacant) == Write(s, i, Vacant)
  {
  }

  lemma StealReads(s: State)
    requires s.top < s.bottom
    ensures Next(s.(thieves := s.thieves[1 := StealLoaded(s.top, None)]), Thief(1))
         == s.(thieves := s.thieves[1 := StealReady(s.top, 1)])
  {
    assert s.thieves[1 := StealLoaded(s.top, None)][1 := StealReady(s.top, 1)] == s.thieves[1 := StealReady(s.top, 1)];
  }

  lemma StealCommits(s: State)
    ensures var k := Published(s, s.top);
      Next(s.(thieves := s.thieves[1 := StealReady(s.top, 1)]), Thief(1))
      == s.(top := s.top + 1, claims := s.claims + [k], thieves := s.thieves[1 := StealMoving(s.top, [k], 0)])
  {
    var k, s2 := Published(s, s.top), s.(thieves := s.thieves[1 := StealReady(s.top, 1)]);
    assert PublishedRange(s2, s.top, 1) == [k];
    assert s2.thieves[1 := StealMoving(s.top, [k], 0)] == s.thieves[1 := StealMoving(s.top, [k], 0)];
  }

  lemma StealEnds(s: State, t: int, k: nat)
    requires 1 in s.thieves && s.thieves[1] == StealMoving(t, [k], 0)
    ensures Next(Next(s, Thief(1)), Thief(1))
         == s.(slots := Write(s, t, Vacant), delivered := s.delivered[k := Read(s, t)],
               thieves := s.thieves[1 := StealMoving(t, [k], 1)] - {1})
  {
    hide Read, Write;
  }

  /** The first thief is stalled, and everything pushed since has been taken. */
  predicate Stalled(s: State, c: Capacity, n: nat) {
    && s.capacity == c && s.owner.Idle? && s.bottom == s.top == n && |s.index| == n
    && s.thieves == map[0 := StealMoving(0, [0], 0)]
  }

  lemma OneRound(s: State, c: Capacity, n: nat)
    requires Stalled(s, c, n)
    ensures Stalled(Run(s, PUSH + STEAL), c, n + 1)
  {
    hide Write, Read, Run, Next, Published;
    RunAppend(s, PUSH, STEAL);
    PushAlone(s);
    StealAlone(Run(s, PUSH));
  }

  lemma {:induction false} StalledRounds(s: State, c: Capacity, n: nat)
    requires Stalled(s, c, 1)
    ensures Stalled(Run(s, Rounds(n)), c, n + 1)
  {
    hide Stalled, Next;
    if n > 0 {
      hide Run;
      StalledRounds(s, c, n - 1);
      RunAppend(s, Rounds(n - 1), PUSH + STEAL);
      OneRound(Run(s, Rounds(n - 1)), c, n);
    }
  }

  lemma StalledAtOnce(c: Capacity)
    ensures Stalled(Run(Init(c), PUSH + STEAL_AND_STALL), c, 1)
  {
    RunAppend(Init(c), PUSH, STEAL_AND_STALL);
    PushAlone(Init(c));
    hide Write, Read, Run;
    StealAndStall(Run(Init(c), PUSH));
  }

  /** After the last push the slot of the stalled thief holds that push. */
  lemma BeforeTheMove(c: Capacity) returns (s: State)
    ensures s == Run(Init(c), PUSH + STEAL_AND_STALL + Rounds(c - 1) + PUSH)
    ensures s.thieves == map[0 := StealMoving(0, [0], 0)] && Read(s, 0) == Holds(c)
  {
    var s0, first := Init(c), PUSH + STEAL_AND_STALL;
    StalledAtOnce(c);
    StalledRounds(Run(s0, first), c, c - 1);
    RunAppend(s0, first, Rounds(c - 1));
    RunAppend(s0, first + Rounds(c - 1), PUSH);
    var t := Run(s0, first + Rounds(c - 1));
    PushAlone(t);
    s := Run(t, PUSH);
    SlotWraps(0, c);
    hide Slot, Run;
  }

  lemma {:induction false} RoundsAreSingle(n: nat)
    ensures forall e <- Rounds(n) :: NoBatch(e)
  {
    if n > 0 {
      RoundsAreSingle(n - 1);
      forall e | e in Rounds(n)
        ensures NoBatch(e)
      {
        assert e in Rounds(n - 1) || e in PUSH || e in STEAL;
      }
    }
  }

  /**
   In a ring of any capacity, with single steals only, every item is claimed exactly once and yet the
   stalled thief of the first item moves out another one: the first item is lost.
   */
  lemma OvertakenThiefLosesItsItem(capacity: Capacity)
    ensures (forall e <- Overtaking(capacity) :: NoBatch(e))
    ensures var s := Run(Init(capacity), Overtaking(capacity));
      && ExactlyOnce(s) && 0 in s.delivered && s.delivered[0] == Holds(capacity)
      && !WritesFreeRun(Init(capacity), Overtaking(capacity))
  {
    hide Slot, Read, Write, ExactlyOnce;
    RoundsAreSingle(capacity - 1);
    var first := PUSH + STEAL_AND_STALL + Rounds(capacity - 1) + PUSH;
    forall e | e in Overtaking(capacity)
      ensures NoBatch(e)
    {
      assert e in PUSH || e in STEAL_AND_STALL || e in Rounds(capacity - 1);
    }
    NoBatchMeansSingles(Init(capacity), Overtaking(capacity));
    SingleStealsAreSafe(capacity, Overtaking(capacity));
    var s := BeforeTheMove(capacity);
    RunAppend(Init(capacity), first, [Thief(0)]);
    assert Run(s, [Thief(0)]) == Run(Next(s, Thief(0)), []) == StealMove(s, 0);
    assert StealMove(s, 0).delivered[0] == Holds(capacity);
    InitInv(capacity);
    SinglesStayWithinTail(Init(capacity), Overtaking(capacity));
    if WritesFreeRun(Init(capacity), Overtaking(capacity)) {
      ClaimersGetTheirItems(capacity, Overtaking(capacity));
    }
  }
}
