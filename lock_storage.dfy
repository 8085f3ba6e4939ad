/**
 * The in-memory lock table `LocalLockStorage`: a map from lock name to a
 * heap-allocated `LocalLock` record whose owner and deadline `TryLock`
 * rewrites in place.  The mutex that serialises the four operations is not
 * modelled: each method below runs as one atomic step, and the clock reading
 * `time.Now()` is the parameter `now`.
 */
module LockStorage {
  import opened Wrappers
  import GoTime

  /** The text of the error every failing operation returns. */
  const LockNotFound: string := "lock not found"

  /** A snapshot of one `LocalLock`: who holds the lease and until when. */
  datatype LockRecord = LockRecord(ownerName: string, deadline: int)

  /** The record `CreateLock` inserts: `&LocalLock{}`, empty owner and zero time. */
  const Unowned: LockRecord := LockRecord("", GoTime.ZeroTime)

  /**
   * The lease rule of `TryLock`: the holder extends its own lease; anyone else
   * takes the lock over only once the deadline is strictly before `now`
   * (`Deadline.Before(now)`); otherwise the record stays as it is.
   */
  function TryLockRule(rec: LockRecord, caller: string, ttl: int, now: int): (r: LockRecord)
    ensures r.ownerName == rec.ownerName || r.ownerName == caller
    ensures r.ownerName == caller <==> rec.ownerName == caller || rec.deadline < now
    ensures r.ownerName == caller ==> r.deadline == now + ttl
    ensures r.ownerName != caller ==> r == rec
  {
    if rec.ownerName == caller then
      rec.(deadline := now + ttl)
    else if rec.deadline < now then
      LockRecord(caller, now + ttl)
    else
      rec
  }

  /** A record just created by `CreateLock` goes to the first caller after the zero time. */
  lemma UnownedGoesToFirstCaller(caller: string, ttl: int, now: int)
    requires GoTime.ZeroTime < now
    ensures TryLockRule(Unowned, caller, ttl, now) == LockRecord(caller, now + ttl)
  {
  }

  /** `LocalLock`: one lock record, shared by pointer with the table that holds it. */
  class LocalLock {
    var ownerName: string
    var deadline: int

    /** `&LocalLock{}`: the zero value of the struct. */
    constructor ()
      ensures ownerName == "" && deadline == GoTime.ZeroTime
    {
      ownerName := "";
      deadline := GoTime.ZeroTime;
    }

    function Snapshot(): (r: LockRecord)
      reads this
    {
      LockRecord(ownerName, deadline)
    }
  }

  /** `LocalLockStorage`: the map `Locks` from lock name to its record. */
  class LocalLockStorage {
    var locks: map<string, LocalLock>

    /** Every name has a record object of its own: no two names share one. */
    ghost predicate Valid()
      reads this
    {
      forall a, b :: a in locks && b in locks && a != b ==> locks[a] != locks[b]
    }

    /** The table as values: what each name's record currently holds. */
    function Contents(): (m: map<string, LockRecord>)
      reads this, locks.Values
      ensures m.Keys == locks.Keys
    {
      map n | n in locks :: locks[n].Snapshot()
    }

    /** `NewLocalLockStorage`: an empty table. */
    constructor ()
      ensures Valid() && Contents() == map[]
    {
      locks := map[];
    }

    /**
     * `CreateLock`: inserts a fresh unowned record unless the name is already
     * present, in which case nothing changes.  It never fails.
     */
    method CreateLock(lockName: string) returns (created: bool, err: Option<string>)
      requires Valid()
      modifies this
      ensures Valid() && err == None
      ensures created <==> lockName !in old(Contents())
      ensures Contents() == old(Contents())[lockName := if created then Unowned else old(Contents())[lockName]]
      ensures forall n :: n in old(locks) ==> n in locks && locks[n] == old(locks[n])
    {
      if lockName in locks {
        return false, None;
      }
      var lock := new LocalLock();
      locks := locks[lockName := lock];
      created, err := true, None;
      assert Contents() == old(Contents())[lockName := Unowned] by {
        forall n | n in locks
          ensures n in old(Contents()) || n == lockName
          ensures n != lockName ==> Contents()[n] == old(Contents())[n]
        {
        }
      }
    }

    /**
     * `TryLock`: applies the lease rule to the named record in place and
     * returns the record's resulting owner and deadline.  A missing name gives
     * the empty owner, the zero time and "lock not found", and changes nothing.
     */
    method TryLock(lockName: string, ownerName: string, ttl: int, now: int)
      returns (owner: string, deadline: int, err: Option<string>)
      requires Valid()
      modifies if lockName in locks then {locks[lockName]} else {}
      ensures Valid() && locks == old(locks)
      ensures lockName in old(Contents()) ==>
        var rec := TryLockRule(old(Contents())[lockName], ownerName, ttl, now);
        && Contents() == old(Contents())[lockName := rec]
        && owner == rec.ownerName && deadline == rec.deadline && err == None
      ensures lockName !in old(Contents()) ==>
        && Contents() == old(Contents())
        && owner == "" && deadline == GoTime.ZeroTime && err == Some(LockNotFound)
    {
      if lockName in locks {
        var lock := locks[lockName];
        if lock.ownerName == ownerName {
          lock.deadline := now + ttl;
        } else if lock.deadline < now {
          lock.ownerName := ownerName;
          lock.deadline := now + ttl;
        }
        owner, deadline, err := lock.ownerName, lock.deadline, None;
        forall n | n in locks && n != lockName
          ensures locks[n].Snapshot() == old(locks[n].Snapshot())
        {
          assert locks[n] != lock;
        }
        return;
      }
      owner, deadline, err := "", GoTime.ZeroTime, Some(LockNotFound);
    }

    /**
     * `CheckLockOwner`: reports whether `ownerName` holds the named lock; the
     * transaction handle it returns is always nil here.  A missing name is
     * "lock not found".
     */
    method CheckLockOwner(lockName: string, ownerName: string) returns (isOwner: bool, err: Option<string>)
      requires Valid()
      ensures lockName in Contents() ==> isOwner == (Contents()[lockName].ownerName == ownerName) && err == None
      ensures lockName !in Contents() ==> !isOwner && err == Some(LockNotFound)
    {
      if lockName in locks {
        var lock := locks[lockName];
        return lock.ownerName == ownerName, None;
      }
      return false, Some(LockNotFound);
    }

    /**
     * `ExecuteUnderLock`: runs the work `f` only when `ownerName` holds the
     * named lock and hands back what `f` returned (nil or an error).  Otherwise
     * `f` is not run and the error is "lock not found", also when the lock
     * exists and belongs to someone else.  `ran` tells whether `f` was run.
     */
    method ExecuteUnderLock(lockName: string, ownerName: string, f: () -> Option<string>)
      returns (err: Option<string>, ran: bool)
      requires Valid()
      ensures ran <==> lockName in Contents() && Contents()[lockName].ownerName == ownerName
      ensures ran ==> err == f()
      ensures !ran ==> err == Some(LockNotFound)
    {
      if lockName in locks {
        var lock := locks[lockName];
        if lock.ownerName == ownerName {
          return f(), true;
        }
      }
      return Some(LockNotFound), false;
    }
  }

  /**
   * Creating the same lock twice: the first call creates it when it was
   * missing, the second reports that it already exists, fails with no error
   * and leaves the table as the first call left it.
   */
  method CreateLockTwice(s: LocalLockStorage, lockName: string) returns (first: bool, second: bool, err: Option<string>)
    requires s.Valid()
    modifies s
    ensures s.Valid()
    ensures first <==> lockName !in old(s.Contents())
    ensures !second && err == None
    ensures lockName in s.Contents()
    ensures s.Contents() == old(s.Contents())[lockName := if first then Unowned else old(s.Contents())[lockName]]
  {
    var err1;
    first, err1 := s.CreateLock(lockName);
    second, err := s.CreateLock(lockName);
  }
}
