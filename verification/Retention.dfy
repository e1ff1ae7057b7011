/**
 How long an entry in the deleted area is kept. The expirer derives a boundary from the entry and
 its name, and ws_editdb derives the same boundary on its own to rename entries to match. The two
 agree on entries that were never released, and stay in step after an edit.
 All times are seconds since 1970 and fit the 64-bit types of the program.
 */
module Retention {
  import opened Integers
  import opened Wrappers
  import opened Names

  const DAY: int := 24 * 3600
  /** Release times up to here are taken for damage, not for a release by the user. */
  const RELEASED_AFTER: int := 1000000000
  /** What replaces the timestamp of the name when the release time is damaged. */
  const FAR_FUTURE: int := 3000000000
  const MAX_TRIES: nat := 1000

  datatype Times = Times(expiration: int, expired: int, released: int)

  /** What the database file gives back: times that are not positive are not written. */
  function Persisted(t: Times): Times {
    t.(expired := if t.expired > 0 then t.expired else 0, released := if t.released > 0 then t.released else 0)
  }

  function Max(a: int, b: int): int {
    if a >= b then a else b
  }

  // ----- ws_editdb -----

  /** boundary_of: v1 entries have no expired time, their name stands in for it. */
  function BoundaryOf(expiration: int, expired: int, nameTime: Option<nat>): int {
    if expired != 0 then Max(expiration, expired)
    else Max(expiration, if nameTime.Some? then nameTime.value else 0)
  }

  /** The boundary is the latest of the times that count: the expiration, and the expired time or what stands in. */
  lemma BoundaryIsLatest(expiration: int, expired: int, nameTime: Option<nat>)
    ensures var b, other := BoundaryOf(expiration, expired, nameTime),
                            if expired != 0 then expired else if nameTime.Some? then nameTime.value else 0;
      expiration <= b && other <= b && (b == expiration || b == other)
  {
  }

  // ----- ws_expirer -----

  /** The boundary from which the expirer counts the keep time of an entry that was not released. */
  function ExpirerBoundary(t: Times, nameTime: int): int {
    var releaseTime := if t.released != 0 then FAR_FUTURE else nameTime;
    if t.expired == 0 then Max(Max(t.expiration, t.expired), releaseTime) else Max(t.expiration, t.expired)
  }

  /** Likewise for the expirer; a damaged release time stands for a time in the far future. */
  lemma ExpirerBoundaryIsLatest(t: Times, nameTime: int)
    ensures var b, standIn := ExpirerBoundary(t, nameTime), if t.released != 0 then 3000000000 else nameTime;
      && t.expiration <= b && t.expired <= b && (t.expired == 0 ==> standIn <= b)
      && (b == t.expiration || b == t.expired || (t.expired == 0 && b == standIn))
  {
  }

  datatype Verdict = Skip | Keep(until: int) | Delete

  /** The decision of the expirer about one entry of the deleted area, as the loop body computes it. */
  method Decide(t: Times, id: string, now: int, keeptime: int, releasekeeptime: int, forceReleased: bool)
    returns (verdict: Verdict)
    ensures verdict.Skip? <==> ExpirerTimestamp(id).None?
    ensures !verdict.Skip? && t.released > 1000000000 ==>
      var until := t.released + (if forceReleased then 0 else releasekeeptime) * 86400;
      verdict == if now >= until then Delete else Keep(until)
    ensures !verdict.Skip? && t.released <= 1000000000 ==>
      var until := ExpirerBoundary(t, ExpirerTimestamp(id).value) + keeptime * 86400;
      verdict == if now > until then Delete else Keep(until)
  {
    var expiration := Max(t.expiration, t.expired);
    var keepReleased := if forceReleased then 0 else releasekeeptime;
    var stamp := ExpirerTimestamp(id);
    if stamp.None? {
      return Skip;
    }
    var releaseTime := stamp.value;
    if t.released > RELEASED_AFTER {
      releaseTime, expiration := t.released, t.released;
    } else if t.released != 0 {
      releaseTime := FAR_FUTURE;
    }
    var shouldDelete: bool;
    if t.released > RELEASED_AFTER {
      shouldDelete := now >= releaseTime + keepReleased * DAY;
    } else {
      if t.expired == 0 {
        expiration := Max(expiration, releaseTime);
      }
      shouldDelete := now > expiration + keeptime * DAY;
    }
    if shouldDelete {
      verdict := Delete;
    } else if t.released > RELEASED_AFTER {
      verdict := Keep(releaseTime + keepReleased * DAY);
    } else {
      verdict := Keep(expiration + keeptime * DAY);
    }
  }

  // ----- the two agree -----

  /** What the expirer uses in place of an expired time: the time in the name, unless the release time is damaged. */
  function StandIn(released: int, nameTime: int): int {
    if released != 0 then FAR_FUTURE else nameTime
  }

  /**
   For every entry that was not released, whatever its name, ws_editdb and the expirer compute the same
   boundary exactly if the entry has an expired time, or what stands in for it is the same for both, or
   its expiration is no earlier than either. To ws_editdb a name that it does not parse counts as zero.
   */
  lemma BoundariesAgree(t: Times, id: string)
    requires ExpirerTimestamp(id).Some? && t.released <= RELEASED_AFTER
    ensures var name := TimestampFromId(id);
      var theirs, ours := StandIn(t.released, ExpirerTimestamp(id).value), if name.Some? then name.value else 0;
      (ExpirerBoundary(t, ExpirerTimestamp(id).value) == BoundaryOf(t.expiration, t.expired, name))
      <==> (t.expired != 0 || ours == theirs || (ours <= t.expiration && theirs <= t.expiration))
  {
    hide ExpirerTimestamp, TimestampFromId;
    ExpirerTimeIsNatural(id);
  }

  /** In particular they agree on every name with a base and a digit suffix while no release time is damaged. */
  lemma BoundariesAgreeOnStamps(t: Times, id: string)
    requires TimestampFromId(id).Some? && t.released == 0
    ensures ExpirerTimestamp(id).Some?
    ensures ExpirerBoundary(t, ExpirerTimestamp(id).value) == BoundaryOf(t.expiration, t.expired, TimestampFromId(id))
  {
    ParsersAgree(id);
    BoundariesAgree(t, id);
    hide TimestampFromId, ExpirerTimestamp;
  }

  /** And they differ on a name whose number other characters follow. */
  lemma BoundariesDiffer()
    ensures ExpirerTimestamp("ann-7b") == Some(7) && TimestampFromId("ann-7b") == None
    ensures ExpirerBoundary(Times(3, 0, 0), 7) == 7 && BoundaryOf(3, 0, None) == 3
  {
    ParsersDiffer();
  }

  // ----- an edit keeps them in step -----

  /** The expirer reads from the times on file and the name the planned boundary, or up to 999 seconds later. */
  predicate Kept(planned: int, t: Times, id: string) {
    && ExpirerTimestamp(id).Some?
    && planned <= ExpirerBoundary(t, ExpirerTimestamp(id).value) <= planned + 999
  }

  /** The names an entry can have after an edit: its own, or one of those tried for the planned boundary. */
  ghost predicate PossibleName(id: string, planned: int, id': string) {
    id' == id || (planned > 0 && exists t: nat :: TriedName(id, planned, id', t))
  }

  predicate TriedName(id: string, planned: int, id': string, t: nat) {
    planned <= t < planned + MAX_TRIES && t < TWO_63 && SplitExpiredId(id).Some?
    && id' == Stamped(SplitExpiredId(id).value.0, t)
  }

  /**
   The condition on the new times and the old name. A damaged release time stands in for the expired
   time if there is none on file; a negative expired time is not written, and then the name counts.
   */
  predicate InStep(t: Times, nameTime: int) {
    || t.expired > 0
    || (t.released <= 0 && (t.expired == 0 || nameTime <= Max(t.expiration, t.expired) + 999))
    || (t.released > 0
        && var planned := if t.expired == 0 then Max(t.expiration, nameTime) else Max(t.expiration, t.expired);
        Max(t.expiration, FAR_FUTURE) - 999 <= planned <= Max(t.expiration, FAR_FUTURE))
  }

  lemma KeptUnderOldName(t: Times, id: string)
    requires TimestampFromId(id).Some? && t.released <= RELEASED_AFTER
    ensures Kept(BoundaryOf(t.expiration, t.expired, TimestampFromId(id)), Persisted(t), id)
      <==> InStep(t, TimestampFromId(id).value)
  {
    ParsersAgree(id);
    hide TimestampFromId, ExpirerTimestamp;
  }

  lemma KeptUnderNewName(t: Times, id: string, id': string, stamp: nat)
    requires TimestampFromId(id).Some? && t.released <= RELEASED_AFTER && InStep(t, TimestampFromId(id).value)
    requires var planned := BoundaryOf(t.expiration, t.expired, TimestampFromId(id));
      planned > 0 && TriedName(id, planned, id', stamp)
    ensures Kept(BoundaryOf(t.expiration, t.expired, TimestampFromId(id)), Persisted(t), id')
  {
    StampedSplits(SplitExpiredId(id).value.0, stamp);
    ParsersAgree(id');
    hide TimestampFromId, ExpirerTimestamp, SplitExpiredId;
  }

  /**
   After any edit of the times of an entry that was not released, the expirer's boundary is kept whatever
   becomes of the rename (done, failed or not needed), exactly if the new times are in step with the
   old name: if there is an expired time, or none and no damaged release time, for instance.
   */
  lemma EditKeepsBoundary(t: Times, id: string)
    requires TimestampFromId(id).Some? && t.released <= RELEASED_AFTER
    ensures var planned := BoundaryOf(t.expiration, t.expired, TimestampFromId(id));
      (forall id' :: PossibleName(id, planned, id') ==> Kept(planned, Persisted(t), id'))
      <==> InStep(t, TimestampFromId(id).value)
  {
    hide TimestampFromId, Kept, InStep, TriedName;
    var planned := BoundaryOf(t.expiration, t.expired, TimestampFromId(id));
    KeptUnderOldName(t, id);
    if InStep(t, TimestampFromId(id).value) {
      forall id' | PossibleName(id, planned, id')
        ensures Kept(planned, Persisted(t), id')
      {
        if id' != id {
          var stamp: nat :| TriedName(id, planned, id', stamp);
          KeptUnderNewName(t, id, id', stamp);
        }
      }
    } else {
      assert PossibleName(id, planned, id);
    }
  }

  /** A negative expired time in practice: the name of the entry keeps it for a year longer than planned. */
  lemma NegativeExpiredBreaksTheBound()
    ensures var id := Stamped("ann-ws", 1800000000);
      var planned := BoundaryOf(1768464000, -1, TimestampFromId(id));
      var actual := ExpirerBoundary(Persisted(Times(1768464000, -1, 0)), 1800000000);
      ExpirerTimestamp(id) == Some(1800000000) && actual > planned + 364 * DAY
  {
    StampedSplits("ann-ws", 1800000000);
    ParsersAgree(Stamped("ann-ws", 1800000000));
  }
}
