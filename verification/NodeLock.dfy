/** The leased lock one node grants to one locker at a time. */
module NodeLock {
  import opened Basics

  datatype LockEntry = LockEntry(locker: string, lockedUntil: real)

  datatype LockCall = Lock | Relock | Unlock

  /** HTTP outcome of a lock call: {"locked": true}, {"locked": false}, 409 or 403. */
  datatype LockReply = Locked | Unlocked | Conflict | Forbidden

  /** `is_locked`: nothing when free or expired, otherwise the holder. */
  function IsLocked(lock: Option<LockEntry>, t: real): Option<string> {
    if lock.None? then None
    else if t > lock.value.lockedUntil then None
    else Some(lock.value.locker)
  }

  /** Truth of `is_locked` as Python tests it: an empty locker counts as free. */
  predicate Truthy(holder: Option<string>) {
    holder.Some? && holder.value != ""
  }

  // ---------------------------------------------------------------- what the answers mean

  /** The lock is this locker's until the given time, and nobody's after it. */
  ghost predicate LeasedUntil(lock: Option<LockEntry>, locker: string, until: real) {
    forall t :: IsLocked(lock, t) == if t <= until then Some(locker) else None
  }

  /** Somebody with a name holds the lock. */
  ghost predicate Taken(lock: Option<LockEntry>, t: real) {
    exists owner: string :: owner != "" && IsLocked(lock, t) == Some(owner)
  }

  ghost predicate Free(lock: Option<LockEntry>) {
    forall t :: IsLocked(lock, t) == None
  }

  /** The locker's own lock is live at both readings of the clock. */
  ghost predicate Owns(lock: Option<LockEntry>, locker: string, t1: real, t2: real) {
    locker != "" && IsLocked(lock, t1) == Some(locker) == IsLocked(lock, t2)
  }

  /** The answer to a call that found `before` and left `after`, with three readings of the clock. */
  ghost predicate Answered(call: LockCall, before: Option<LockEntry>, locker: string, ttl: real, t1: real, t2: real, t3: real,
                           after: Option<LockEntry>, reply: LockReply)
  {
    && (reply == Locked ==> LeasedUntil(after, locker, t3 + ttl))
    && (reply == Unlocked ==> Free(after))
    && (reply == Conflict || reply == Forbidden ==> after == before)
    && (call.Lock? ==> (reply == Locked || reply == Conflict) && (reply == Conflict <==> Taken(before, t1)))
    && (!call.Lock? ==>
          && (reply == (if call.Relock? then Locked else Unlocked) <==> Owns(before, locker, t1, t2))
          && (reply == Conflict <==> !Taken(before, t1))
          && reply != (if call.Relock? then Unlocked else Locked))
  }

  /** No call of anybody else ends, shortens or extends a lock that is live while the call is handled. */
  lemma OthersLockStands(call: LockCall, before: Option<LockEntry>, locker: string, ttl: real, t1: real, t2: real, t3: real,
                         after: Option<LockEntry>, reply: LockReply, owner: string)
    requires Answered(call, before, locker, ttl, t1, t2, t3, after, reply)
    requires owner != locker && Owns(before, owner, t1, t2)
    ensures after == before && (reply == Conflict || reply == Forbidden)
  {
  }

  /** A lease that was granted is the next caller's obstacle for as long as it runs, and no longer. */
  lemma GrantedLeaseExcludes(before: Option<LockEntry>, locker: string, ttl: real, t1: real, t2: real, t3: real,
                             after: Option<LockEntry>, other: string, u1: real, u2: real, u3: real,
                             last: Option<LockEntry>, reply: LockReply)
    requires locker != "" && Answered(Lock, before, locker, ttl, t1, t2, t3, after, Locked)
    requires Answered(Lock, after, other, ttl, u1, u2, u3, last, reply)
    ensures reply == Conflict <==> u1 <= t3 + ttl
  {
    assert IsLocked(after, u1) == if u1 <= t3 + ttl then Some(locker) else None;
  }

  /** The node's lock field with the three handlers; each runs under the node's mutex. */
  class NodeState {
    var lock: Option<LockEntry>

    constructor ()
      ensures Free(lock)
    {
      lock := None;
    }

    method SetLock(locker: string, ttl: real, t: real)
      modifies this
      ensures LeasedUntil(lock, locker, t + ttl)
    {
      lock := Some(LockEntry(locker, t + ttl));
    }

    method ClearLock()
      requires lock.Some?
      modifies this
      ensures Free(lock)
    {
      lock := None;
    }

    /** Grants the lock exactly when nobody holds it. */
    method LockHandler(locker: string, ttl: real, t1: real, t2: real) returns (reply: LockReply)
      modifies this
      ensures Answered(Lock, old(lock), locker, ttl, t1, t1, t2, lock, reply)
    {
      if Truthy(IsLocked(lock, t1)) {
        return Conflict;
      }
      SetLock(locker, ttl, t2);
      return Locked;
    }

    /** Extends the lock exactly when the caller holds it. */
    method RelockHandler(locker: string, ttl: real, t1: real, t2: real, t3: real) returns (reply: LockReply)
      modifies this
      ensures Answered(Relock, old(lock), locker, ttl, t1, t2, t3, lock, reply)
    {
      if !Truthy(IsLocked(lock, t1)) {
        return Conflict;
      }
      if IsLocked(lock, t2) != Some(locker) {
        return Forbidden;
      }
      SetLock(locker, ttl, t3);
      return Locked;
    }

    /** Frees the lock exactly when the caller holds it. */
    method UnlockHandler(locker: string, t1: real, t2: real) returns (reply: LockReply)
      modifies this
      ensures Answered(Unlock, old(lock), locker, 0.0, t1, t2, t2, lock, reply)
    {
      if !Truthy(IsLocked(lock, t1)) {
        return Conflict;
      }
      if IsLocked(lock, t2) != Some(locker) {
        return Forbidden;
      }
      ClearLock();
      return Unlocked;
    }
  }
}
