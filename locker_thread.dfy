/**
 * The renewal goroutine `LockerThread` and the gate loop of
 * `RunInLockerThread`.  The storage is abstracted: each renewal attempt is
 * represented by the result its `TryLock` call returned.  The clock, the
 * random draw of the jitter and the moment the context is cancelled are
 * inputs; sleeping takes no model time, so each sleep interval is returned
 * instead of slept.
 */
module LockerThread {
  import opened Wrappers
  import GoTime
  import opened LockStorage

  /**
   * The result of one `TryLock` call: the record's owner and deadline after
   * the call, or the error it failed with.
   */
  type TryLockResult = Result<LockRecord, string>

  /** The call succeeded and reports `ownerName` as the holder. */
  predicate Grants(res: TryLockResult, ownerName: string)
  {
    res.Ok? && res.value.ownerName == ownerName
  }

  /**
   * The deadline register after one attempt: the reported deadline when the
   * attempt succeeded for this owner, the previous value otherwise.
   */
  function RegisterUpdate(reg: int, ownerName: string, res: TryLockResult): (r: int)
    ensures res.Err? ==> r == reg
    ensures res.Ok? && res.value.ownerName != ownerName ==> r == reg
    ensures Grants(res, ownerName) ==> r == res.value.deadline
  {
    if Grants(res, ownerName) then res.value.deadline else reg
  }

  /** The deadline register after a run of attempts, starting from `reg`. */
  function RegisterAfter(reg: int, ownerName: string, results: seq<TryLockResult>): int
    decreases |results|
  {
    if results == [] then reg
    else RegisterUpdate(RegisterAfter(reg, ownerName, results[..|results| - 1]), ownerName, results[|results| - 1])
  }

  /**
   * After any run of attempts the register holds the deadline of the last
   * attempt that granted this owner the lock; when none did, it still holds
   * its starting value: errors and foreign owners never reset it.
   */
  lemma {:induction false} RegisterHoldsLastGrant(reg: int, ownerName: string, results: seq<TryLockResult>)
    ensures (forall i :: 0 <= i < |results| ==> !Grants(results[i], ownerName)) ==>
      RegisterAfter(reg, ownerName, results) == reg
    ensures (exists i :: 0 <= i < |results| && Grants(results[i], ownerName)) ==>
      exists i :: 0 <= i < |results| && Grants(results[i], ownerName)
        && RegisterAfter(reg, ownerName, results) == results[i].value.deadline
        && forall j :: i < j < |results| ==> !Grants(results[j], ownerName)
    decreases |results|
  {
    if results != [] {
      var n := |results| - 1;
      var prefix := results[..n];
      RegisterHoldsLastGrant(reg, ownerName, prefix);
      assert forall i :: 0 <= i < n ==> prefix[i] == results[i];
      if !Grants(results[n], ownerName) && exists i :: 0 <= i < |results| && Grants(results[i], ownerName) {
        var i :| 0 <= i < |results| && Grants(results[i], ownerName);
        assert Grants(prefix[i], ownerName);
      }
    }
  }

  /**
   * The sleep before the next attempt: a tenth of the lease (truncated) plus
   * the random draw, which `rand.Int63n` takes from `[0, ttl/10)`.  That call
   * panics when `ttl/10` is not positive, i.e. when `ttl` is under ten
   * nanoseconds; the panic is `None`.
   */
  function RenewalInterval(ttl: int, draw: int): (r: Option<int>)
    requires GoTime.Quo(ttl, 10) > 0 ==> 0 <= draw < GoTime.Quo(ttl, 10)
    ensures r.None? <==> ttl < 10
    ensures r.Some? ==> GoTime.Quo(ttl, 10) <= r.value < 2 * GoTime.Quo(ttl, 10)
    ensures r.Some? ==> 0 < r.value && 5 * r.value < ttl
  {
    var tenth := GoTime.Quo(ttl, 10);
    if tenth <= 0 then None else Some(tenth + draw)
  }

  /**
   * The gate of `RunInLockerThread`: `deadline.Compare(time.Now()) > 0`, that
   * is, the stored deadline is strictly after `now`.
   */
  function GateOpen(deadline: int, now: int): (open: bool)
    ensures open <==> now < deadline
  {
    GoTime.Compare(deadline, now) > 0
  }

  /** The shared `atomic.Int64` that holds the last obtained deadline in Unix nanoseconds. */
  class DeadlineRegister {
    var nanos: int

    /** The register as `RunInLockerThread` sets it up: it stores 0 before starting the thread. */
    constructor ()
      ensures nanos == 0
    {
      nanos := 0;
    }
  }

  /**
   * One pass of the renewal loop after its `TryLock` returned `res`: store the
   * reported deadline when it names this owner, then compute the sleep.
   */
  method RenewalIteration(reg: DeadlineRegister, ownerName: string, ttl: int, res: TryLockResult, draw: int)
    returns (sleep: Option<int>)
    requires GoTime.Quo(ttl, 10) > 0 ==> 0 <= draw < GoTime.Quo(ttl, 10)
    modifies reg
    ensures reg.nanos == RegisterUpdate(old(reg.nanos), ownerName, res)
    ensures sleep == RenewalInterval(ttl, draw)
  {
    if Grants(res, ownerName) {
      reg.nanos := res.value.deadline;
    }
    sleep := RenewalInterval(ttl, draw);
  }

  /**
   * `LockerThread`: a failed `CreateLock` ends the thread before any attempt.
   * Otherwise it runs one attempt per element of `results` (the context is
   * cancelled after the last), storing each deadline granted to this owner,
   * and sleeps a jittered interval after each; a lease under ten nanoseconds
   * makes the first sleep panic, which ends the thread after one attempt.
   */
  method LockerThread(reg: DeadlineRegister, create: Result<bool, string>, ownerName: string, ttl: int,
                      results: seq<TryLockResult>, draws: seq<int>)
    returns (attempts: nat, sleeps: seq<int>)
    requires |draws| == |results|
    requires GoTime.Quo(ttl, 10) > 0 ==> forall i :: 0 <= i < |draws| ==> 0 <= draws[i] < GoTime.Quo(ttl, 10)
    modifies reg
    ensures create.Err? ==> attempts == 0
    ensures create.Ok? ==> attempts == if ttl >= 10 || results == [] then |results| else 1
    ensures attempts <= |results|
    ensures reg.nanos == RegisterAfter(old(reg.nanos), ownerName, results[..attempts])
    ensures |sleeps| == if ttl >= 10 then attempts else 0
    ensures forall i :: 0 <= i < |sleeps| ==> RenewalInterval(ttl, draws[i]) == Some(sleeps[i])
  {
    attempts, sleeps := 0, [];
    if create.Err? {
      return;
    }
    while attempts < |results|
      invariant attempts <= |results|
      invariant ttl < 10 ==> attempts == 0
      invariant reg.nanos == RegisterAfter(old(reg.nanos), ownerName, results[..attempts])
      invariant |sleeps| == attempts
      invariant forall i :: 0 <= i < |sleeps| ==> RenewalInterval(ttl, draws[i]) == Some(sleeps[i])
    {
      var sleep := RenewalIteration(reg, ownerName, ttl, results[attempts], draws[attempts]);
      assert results[..attempts + 1][..attempts] == results[..attempts];
      attempts := attempts + 1;
      if sleep.None? {
        return;
      }
      sleeps := sleeps + [sleep.value];
    }
    assert results[..attempts] == results;
  }

  /** One event of a run of `RunInLockerThread`, in the order the two goroutines produced them. */
  datatype Activity =
    | Renewal(result: TryLockResult, draw: int)  // the thread finished one attempt and its sleep
    | Gate(now: int)                              // the gate loop read the register at time `now`

  /** `f(deadline)` was invoked by the gate loop at time `now`. */
  datatype Call = Call(now: int, deadline: int)

  /** The state of a run: the register, the calls of `f` so far, and whether the thread panicked. */
  datatype RunState = RunState(reg: int, calls: seq<Call>, crashed: bool)

  /**
   * The run state after one more event; a panic ends the whole program.  A
   * renewal moves the register as `RegisterUpdate` says and panics on a lease
   * under ten nanoseconds; a gate check calls `f` at most once, with the
   * stored deadline, and only when the gate is open.
   */
  function Step(s: RunState, ownerName: string, ttl: int, a: Activity): (r: RunState)
    ensures s.crashed ==> r == s
    ensures s.calls <= r.calls && |r.calls| <= |s.calls| + 1
    ensures |r.calls| == |s.calls| + 1 <==> !s.crashed && a.Gate? && GateOpen(s.reg, a.now)
    ensures |r.calls| == |s.calls| + 1 ==> r.calls[|s.calls|] == Call(a.now, s.reg)
    ensures a.Gate? ==> r.reg == s.reg && r.crashed == s.crashed
    ensures !s.crashed && a.Renewal? ==> r.reg == RegisterUpdate(s.reg, ownerName, a.result) && (r.crashed <==> ttl < 10)
  {
    if s.crashed then s
    else match a
      case Renewal(res, _) => RunState(RegisterUpdate(s.reg, ownerName, res), s.calls, ttl < 10)
      case Gate(now) => if GateOpen(s.reg, now) then s.(calls := s.calls + [Call(now, s.reg)]) else s
  }

  /** The run state after a whole schedule, starting from `s`. */
  function Replay(s: RunState, ownerName: string, ttl: int, schedule: seq<Activity>): RunState
    decreases |schedule|
  {
    if schedule == [] then s
    else Step(Replay(s, ownerName, ttl, schedule[..|schedule| - 1]), ownerName, ttl, schedule[|schedule| - 1])
  }

  /** Some renewal in `schedule` granted `ownerName` the lease until `deadline`. */
  predicate Obtained(schedule: seq<Activity>, ownerName: string, deadline: int)
  {
    exists j :: 0 <= j < |schedule| && schedule[j].Renewal?
      && Grants(schedule[j].result, ownerName) && schedule[j].result.value.deadline == deadline
  }

  /** The random draws of the schedule's renewals lie where `rand.Int63n(ttl/10)` puts them. */
  predicate DrawsInRange(schedule: seq<Activity>, ttl: int)
  {
    GoTime.Quo(ttl, 10) > 0 ==>
      forall j :: 0 <= j < |schedule| && schedule[j].Renewal? ==> 0 <= schedule[j].draw < GoTime.Quo(ttl, 10)
  }

  /**
   * `RunInLockerThread`: the register starts at 0, the renewal thread and the
   * gate loop interleave as `schedule` says, and `f` is called with the stored
   * deadline each time the gate finds it strictly after the current time.
   * Every deadline handed to `f` lies after the time of its call and, at any
   * time after the epoch, was granted to this owner by one of the renewals.
   */
  method RunInLockerThread(ownerName: string, ttl: int, schedule: seq<Activity>)
    returns (calls: seq<Call>, crashed: bool)
    requires DrawsInRange(schedule, ttl)
    ensures Replay(RunState(0, [], false), ownerName, ttl, schedule) == RunState(RegisterAfterRun(ownerName, ttl, schedule), calls, crashed)
    ensures forall i :: 0 <= i < |calls| ==> calls[i].now < calls[i].deadline
    ensures forall i :: 0 <= i < |calls| && 0 <= calls[i].now ==> Obtained(schedule, ownerName, calls[i].deadline)
    ensures crashed <==> ttl < 10 && exists j :: 0 <= j < |schedule| && schedule[j].Renewal?
  {
    var reg := new DeadlineRegister();
    calls, crashed := [], false;
    var k := 0;
    while k < |schedule|
      invariant k <= |schedule|
      invariant Replay(RunState(0, [], false), ownerName, ttl, schedule[..k]) == RunState(reg.nanos, calls, crashed)
      invariant forall i :: 0 <= i < |calls| ==> calls[i].now < calls[i].deadline
      invariant forall i :: 0 <= i < |calls| && 0 <= calls[i].now ==> Obtained(schedule[..k], ownerName, calls[i].deadline)
      invariant reg.nanos == 0 || Obtained(schedule[..k], ownerName, reg.nanos)
      invariant crashed <==> ttl < 10 && exists j :: 0 <= j < k && schedule[j].Renewal?
    {
      assert schedule[..k + 1][..k] == schedule[..k];
      ObtainedGrows(schedule[..k], schedule[..k + 1], ownerName);
      if crashed {
        k := k + 1;
        continue;
      }
      match schedule[k] {
        case Renewal(res, draw) =>
          var sleep := RenewalIteration(reg, ownerName, ttl, res, draw);
          if Grants(res, ownerName) {
            assert schedule[..k + 1][k] == schedule[k];
          }
          crashed := sleep.None?;
        case Gate(now) =>
          if GateOpen(reg.nanos, now) {
            calls := calls + [Call(now, reg.nanos)];
          }
      }
      k := k + 1;
    }
    assert schedule[..k] == schedule;
  }

  /** The register at the end of a run of `RunInLockerThread`. */
  function RegisterAfterRun(ownerName: string, ttl: int, schedule: seq<Activity>): int
  {
    Replay(RunState(0, [], false), ownerName, ttl, schedule).reg
  }

  /** A deadline obtained in a prefix of the schedule is obtained in the longer schedule. */
  lemma ObtainedGrows(prefix: seq<Activity>, schedule: seq<Activity>, ownerName: string)
    requires prefix <= schedule
    ensures forall d :: Obtained(prefix, ownerName, d) ==> Obtained(schedule, ownerName, d)
  {
    forall d | Obtained(prefix, ownerName, d)
      ensures Obtained(schedule, ownerName, d)
    {
      var j :| 0 <= j < |prefix| && prefix[j].Renewal?
        && Grants(prefix[j].result, ownerName) && prefix[j].result.value.deadline == d;
      assert schedule[j] == prefix[j];
    }
  }
}
