/**
 The work-stealing queue as a data structure: its fields, its ring, and its four operations run
 without interruption. `Contents` is the queue from the oldest item to the newest. What holds
 when operations interleave is the subject of QueueProtocol and QueueSlots.
 */
module WorkStealingQueue {
  import opened Integers
  import opened Wrappers
  import opened RingIndex

  /** The items of a ring between two indices, oldest first. */
  function Window<T>(ring: seq<T>, top: int, bottom: int): (items: seq<T>)
    requires 0 < |ring| <= TWO_63 && IsPowerOfTwo(|ring|) && top <= bottom
    ensures |items| == bottom - top
  {
    SlotsInRange(|ring|);
    seq(bottom - top, k => ring[Slot(top + k, |ring|)])
  }

  /** Storing at one index changes no other index less than one capacity below. */
  lemma StoreKeeps<T>(ring: seq<T>, i: int, j: int, item: T)
    requires 0 < |ring| <= TWO_63 && IsPowerOfTwo(|ring|) && i < j < i + |ring|
    ensures Slot(i, |ring|) < |ring| && Slot(j, |ring|) < |ring|
    ensures ring[Slot(j, |ring|) := item][Slot(i, |ring|)] == ring[Slot(i, |ring|)]
  {
    hide Slot;
    SlotsInRange(|ring|);
    TwoSlotsDiffer(i, j, |ring|);
  }

  lemma WindowStore<T>(ring: seq<T>, top: int, bottom: int, item: T)
    requires 0 < |ring| <= TWO_63 && IsPowerOfTwo(|ring|) && top <= bottom < top + |ring|
    ensures Slot(bottom, |ring|) < |ring|
    ensures Window(ring[Slot(bottom, |ring|) := item], top, bottom + 1) == Window(ring, top, bottom) + [item]
  {
    WindowStoreAt(ring, top, bottom, item, bottom - top);
    hide Slot, IsPowerOfTwo, Window;
    var before, after := Window(ring, top, bottom), Window(ring[Slot(bottom, |ring|) := item], top, bottom + 1);
    forall k | 0 <= k < |before|
      ensures after[k] == before[k]
    {
      WindowStoreAt(ring, top, bottom, item, k);
    }
    assert after == before + [item];
  }

  lemma WindowStoreAt<T>(ring: seq<T>, top: int, bottom: int, item: T, k: nat)
    requires 0 < |ring| <= TWO_63 && IsPowerOfTwo(|ring|) && top + k <= bottom < top + |ring|
    ensures Slot(bottom, |ring|) < |ring|
    ensures var after := Window(ring[Slot(bottom, |ring|) := item], top, bottom + 1);
      after[k] == if top + k < bottom then Window(ring, top, bottom)[k] else item
  {
    hide Slot, IsPowerOfTwo, Window;
    SlotsInRange(|ring|);
    WindowAt(ring[Slot(bottom, |ring|) := item], top, bottom + 1, k);
    if top + k < bottom {
      StoreKeeps(ring, top + k, bottom, item);
      WindowAt(ring, top, bottom, k);
    }
  }

  lemma WindowAt<T>(ring: seq<T>, top: int, bottom: int, k: nat)
    requires 0 < |ring| <= TWO_63 && IsPowerOfTwo(|ring|) && top + k < bottom
    ensures Slot(top + k, |ring|) < |ring| && Window(ring, top, bottom)[k] == ring[Slot(top + k, |ring|)]
  {
    hide Slot;
    SlotsInRange(|ring|);
  }

  class PathWorkStealingQueue<T(0)> {
    var bottom: int
    var top: int
    const slots: array<T>

    ghost predicate Valid()
      reads this
    {
      && 0 < slots.Length <= TWO_63 && IsPowerOfTwo(slots.Length)
      && 0 <= top <= bottom && bottom - top <= Limit(slots.Length)
    }

    ghost function Contents(): (items: seq<T>)
      requires Valid()
      reads this, slots
      ensures |items| == bottom - top
    {
      Window(slots[..], top, bottom)
    }

    constructor (capacity: nat)
      requires 0 < capacity <= TWO_63 && IsPowerOfTwo(capacity)
      ensures Valid() && Contents() == [] && slots.Length == capacity && fresh(slots)
    {
      bottom, top := 0, 0;
      slots := new T[capacity];
    }

    /**
     The loop at the head of push: the owner waits while the queue is nearly full. `thieves[k]` says
     how many items thieves take during the k-th yield, the oldest first; a push that outlasts this
     list has not returned.
     */
    method WaitForRoom(thieves: seq<nat>) returns (room: bool, ghost taken: nat)
      requires Valid()
      modifies this`top
      ensures Valid() && taken <= |old(Contents())| && Contents() == old(Contents())[taken..]
      ensures |old(Contents())| < Limit(slots.Length) ==> room && taken == 0
      ensures room <==> |Contents()| < Limit(slots.Length)
    {
      taken := 0;
      var b, t := bottom, top;
      var k := 0;
      while SizeT(b - t) >= Limit(slots.Length)
        invariant Valid() && k <= |thieves| && b == bottom && t == top == old(top) + taken
        invariant old(bottom - top) < Limit(slots.Length) ==> taken == 0
        decreases |thieves| - k
      {
        if k == |thieves| {
          return false, taken;
        }
        var steal := if thieves[k] < bottom - top then thieves[k] else bottom - top;
        top, taken, k := top + steal, taken + steal, k + 1;
        b, t := bottom, top;
      }
      room := true;
    }

    method Push(item: T, thieves: seq<nat>) returns (returned: bool, ghost taken: nat)
      requires Valid()
      modifies this`bottom, this`top, slots
      ensures Valid() && taken <= |old(Contents())|
      ensures Contents() == old(Contents())[taken..] + if returned then [item] else []
      ensures |old(Contents())| < Limit(slots.Length) ==> returned && taken == 0
      ensures !returned ==> |Contents()| == Limit(slots.Length)
    {
      returned, taken := WaitForRoom(thieves);
      if !returned {
        return;
      }
      var b := bottom;
      WindowStore(slots[..], top, b, item);
      ghost var ring := slots[..];
      slots[Slot(b, slots.Length)] := item;
      assert slots[..] == ring[Slot(b, slots.Length) := item];
      bottom := b + 1;
    }

    method Pop() returns (item: Option<T>)
      requires Valid()
      modifies this`bottom, this`top
      ensures Valid()
      ensures old(Contents()) == [] ==> item == None && Contents() == []
      ensures old(Contents()) != [] ==> item.Some? && Contents() + [item.value] == old(Contents())
    {
      var b := bottom - 1;
      bottom := b;
      var t := top;
      if t > b {
        bottom := b + 1;
        return None;
      }
      if t == b {
        top := t + 1;
        bottom := b + 1;
      }
      SlotsInRange(slots.Length);
      item := Some(slots[Slot(b, slots.Length)]);
      assert old(Contents())[b - t] == item.value;
      assert Contents() == old(Contents())[..b - t];
    }

    method Steal() returns (item: Option<T>)
      requires Valid()
      modifies this`top
      ensures Valid()
      ensures old(Contents()) == [] ==> item == None && Contents() == []
      ensures old(Contents()) != [] ==> item.Some? && [item.value] + Contents() == old(Contents())
    {
      var t, b := top, bottom;
      if t >= b {
        return None;
      }
      top := t + 1;
      SlotsInRange(slots.Length);
      item := Some(slots[Slot(t, slots.Length)]);
      assert old(Contents())[0] == item.value;
      assert Contents() == old(Contents())[1..];
    }

    method StealBatch(outItems: seq<T>, max: nat) returns (items: seq<T>, n: nat)
      requires Valid()
      modifies this`top
      ensures Valid() && n == BatchLength(|old(Contents())|, max)
      ensures items == outItems + old(Contents())[..n] && Contents() == old(Contents())[n..]
    {
      items, n := outItems, 0;
      SlotsInRange(slots.Length);
      var t, b := top, bottom;
      if t < b {
        n := BatchLength(b - t, max);
        top := t + n;
        for i := 0 to n
          invariant items == outItems + old(Contents())[..i]
        {
          assert old(Contents())[i] == slots[Slot(t + i, slots.Length)];
          items := items + [slots[Slot(t + i, slots.Length)]];
        }
      }
      assert Contents() == old(Contents())[n..];
    }
  }
}
