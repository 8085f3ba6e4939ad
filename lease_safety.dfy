/**
 * What the renewal thread, the gate of `RunInLockerThread` and the lease rule
 * guarantee together.  One lock record is shared by this owner and by rival
 * owners who run the same rule on the same record.  This owner's side is the
 * run state of `LockerThread.Step`: its renewal thread asks for the lease
 * with one fixed `ttl` and stores every deadline granted to it, and its gate
 * calls `f` with the stored deadline.  Each time `f` is called the record
 * names this owner with a deadline no earlier than the one handed to `f`, and
 * it keeps doing so in every later state until that deadline: no rival can
 * take the lock in between.
 */
module LeaseSafety {
  import opened Wrappers
  import opened LockStorage
  import LockerThread
  import LeaseRules

  /** Which implementation of the lease rule serves the record. */
  datatype Backend = InMemory | Ydb

  /** The lease rule of the chosen backend. */
  function Rule(b: Backend, rec: LockRecord, caller: string, ttl: int, now: int): LockRecord
  {
    match b
    case InMemory => TryLockRule(rec, caller, ttl, now)
    case Ydb => LeaseRules.YdbRule(rec, caller, ttl, now)
  }

  /** Under either rule, a rival asking strictly before the holder's deadline changes nothing. */
  lemma RivalRefusedBeforeDeadline(b: Backend, rec: LockRecord, caller: string, ttl: int, now: int)
    requires rec.ownerName != caller && now < rec.deadline
    ensures Rule(b, rec, caller, ttl, now) == rec
  {
    LeaseRules.YdbRuleCases(rec, caller, ttl, now);
  }

  /** Under either rule, whoever ends up holding the record after asking got exactly `now + ttl`. */
  lemma GrantIsFullLease(b: Backend, rec: LockRecord, caller: string, ttl: int, now: int)
    ensures Rule(b, rec, caller, ttl, now).ownerName == caller ==>
      Rule(b, rec, caller, ttl, now).deadline == now + ttl
  {
    LeaseRules.YdbRuleCases(rec, caller, ttl, now);
  }

  /** One step of the shared history. */
  datatype Event =
    | Renew(now: int)                            // this owner's renewal thread runs `TryLock`
    | RenewFailed(now: int, applied: bool)       // that `TryLock` returns an error, after its update took effect or not
    | Contend(caller: string, now: int, ttl: int)  // a rival owner runs `TryLock` with its own lease
    | Check(now: int)                            // this owner's gate reads the register

  function Time(e: Event): int
  {
    match e
    case Renew(now) => now
    case RenewFailed(now, _) => now
    case Contend(_, now, _) => now
    case Check(now) => now
  }

  /**
   * The shared record, this owner's run state, and for each call of `f` in
   * `thread.calls` the record as it was at that moment.
   */
  datatype World = World(rec: LockRecord, thread: LockerThread.RunState, held: seq<LockRecord>)

  /** The world `RunInLockerThread` starts from: the register at 0, no calls yet. */
  function Start(rec: LockRecord): World
  {
    World(rec, LockerThread.RunState(0, [], false), [])
  }

  /** The renewal activity whose `TryLock` reported the record `rec`. */
  function Attempt(rec: LockRecord): LockerThread.Activity
  {
    LockerThread.Renewal(Ok(rec), 0)
  }

  /** The renewal activity whose `TryLock` returned an error. */
  const FailedAttempt: LockerThread.Activity := LockerThread.Renewal(Err("TryLock failed"), 0)

  /**
   * One event.  A renewal applies the rule for this owner and feeds the
   * reported record to the thread; once the thread has panicked the program
   * is gone and renews nothing.  A renewal that fails feeds the error to the
   * thread, whether or not the update reached the record.  A check is the gate step of the thread, and
   * remembers the record whenever it calls `f`.
   */
  function Step(b: Backend, owner: string, ttl: int, w: World, e: Event): World
  {
    match e
    case Renew(now) =>
      if w.thread.crashed then w
      else
        var rec := Rule(b, w.rec, owner, ttl, now);
        w.(rec := rec, thread := LockerThread.Step(w.thread, owner, ttl, Attempt(rec)))
    case RenewFailed(now, applied) =>
      if w.thread.crashed then w
      else
        var rec := if applied then Rule(b, w.rec, owner, ttl, now) else w.rec;
        w.(rec := rec, thread := LockerThread.Step(w.thread, owner, ttl, FailedAttempt))
    case Contend(caller, now, rivalTtl) =>
      w.(rec := Rule(b, w.rec, caller, rivalTtl, now))
    case Check(now) =>
      var thread := LockerThread.Step(w.thread, owner, ttl, LockerThread.Gate(now));
      if !w.thread.crashed && LockerThread.GateOpen(w.thread.reg, now)
      then World(w.rec, thread, w.held + [w.rec])
      else w.(thread := thread)
  }

  function Run(b: Backend, owner: string, ttl: int, w: World, events: seq<Event>): World
    decreases |events|
  {
    if events == [] then w
    else Step(b, owner, ttl, Run(b, owner, ttl, w, events[..|events| - 1]), events[|events| - 1])
  }

  /** The activities of this owner's run that a history produces, in order. */
  function Schedule(b: Backend, owner: string, ttl: int, w: World, events: seq<Event>): seq<LockerThread.Activity>
    decreases |events|
  {
    if events == [] then []
    else
      var n := |events| - 1;
      var s := Schedule(b, owner, ttl, w, events[..n]);
      match events[n]
      case Renew(_) => s + [Attempt(Run(b, owner, ttl, w, events).rec)]
      case RenewFailed(_, _) => s + [FailedAttempt]
      case Contend(_, _, _) => s
      case Check(now) => s + [LockerThread.Gate(now)]
  }

  /** This owner's side of any history is exactly a replay of `LockerThread` over its schedule. */
  lemma {:induction false} ThreadIsReplay(b: Backend, owner: string, ttl: int, w: World, events: seq<Event>)
    ensures Run(b, owner, ttl, w, events).thread
      == LockerThread.Replay(w.thread, owner, ttl, Schedule(b, owner, ttl, w, events))
    ensures LockerThread.DrawsInRange(Schedule(b, owner, ttl, w, events), ttl)
    decreases |events|
  {
    if events != [] {
      var n := |events| - 1;
      var s := Schedule(b, owner, ttl, w, events[..n]);
      ThreadIsReplay(b, owner, ttl, w, events[..n]);
      match events[n]
      case Renew(_) =>
        var a := Attempt(Run(b, owner, ttl, w, events).rec);
        assert (s + [a])[..|s|] == s;
      case RenewFailed(_, _) =>
        assert (s + [FailedAttempt])[..|s|] == s;
      case Contend(_, _, _) =>
      case Check(now) =>
        assert (s + [LockerThread.Gate(now)])[..|s|] == s;
    }
  }

  /**
   * The calls of `f` that the imperative `RunInLockerThread` makes on the
   * schedule of a history are the calls of that history.
   */
  method CallsOfHistory(b: Backend, owner: string, ttl: int, rec: LockRecord, events: seq<Event>)
    returns (calls: seq<LockerThread.Call>)
    ensures calls == Run(b, owner, ttl, Start(rec), events).thread.calls
  {
    ThreadIsReplay(b, owner, ttl, Start(rec), events);
    var crashed;
    calls, crashed := LockerThread.RunInLockerThread(owner, ttl, Schedule(b, owner, ttl, Start(rec), events));
  }

  /** The events happen at or after `t0`, in order of time. */
  predicate Ordered(events: seq<Event>, t0: int)
  {
    && (forall i :: 0 <= i < |events| ==> t0 <= Time(events[i]))
    && (forall i, j :: 0 <= i < j < |events| ==> Time(events[i]) <= Time(events[j]))
  }

  /** Every contender is a different owner from this one. */
  predicate Rivals(events: seq<Event>, owner: string)
  {
    forall i :: 0 <= i < |events| && events[i].Contend? ==> events[i].caller != owner
  }

  /**
   * The invariant at time `t`: the register lies at most one lease ahead (not
   * ahead at all for a negative lease, which never lets `f` run), every
   * deadline handed to `f` is at most the register, and while the register is
   * ahead of `t` the record is this owner's and lasts at least as long.
   */
  predicate Safe(w: World, owner: string, ttl: int, t: int)
  {
    && w.thread.reg <= t + (if ttl < 0 then 0 else ttl)
    && (ttl < 0 ==> w.thread.calls == [])
    && (forall i :: 0 <= i < |w.thread.calls| ==> w.thread.calls[i].deadline <= w.thread.reg)
    && (w.thread.reg > t ==> w.rec.ownerName == owner && w.rec.deadline >= w.thread.reg)
  }

  /** Every call of `f` happened while the record was this owner's, until at least the deadline `f` got. */
  predicate RunsHeld(w: World, owner: string)
  {
    && |w.held| == |w.thread.calls|
    && forall i :: 0 <= i < |w.held| ==>
      w.held[i].ownerName == owner && w.thread.calls[i].now < w.thread.calls[i].deadline <= w.held[i].deadline
  }

  /** One step at a time `t` no earlier than the last keeps the invariant and every call held. */
  lemma StepKeepsSafe(b: Backend, owner: string, ttl: int, w: World, e: Event, t: int)
    requires Safe(w, owner, ttl, t) && RunsHeld(w, owner) && t <= Time(e)
    requires e.Contend? ==> e.caller != owner
    ensures Safe(Step(b, owner, ttl, w, e), owner, ttl, Time(e)) && RunsHeld(Step(b, owner, ttl, w, e), owner)
  {
    match e
    case Renew(now) =>
      LeaseRules.YdbRuleCases(w.rec, owner, ttl, now);
    case RenewFailed(now, _) =>
      LeaseRules.YdbRuleCases(w.rec, owner, ttl, now);
    case Contend(caller, now, rivalTtl) =>
      if w.thread.reg > now {
        RivalRefusedBeforeDeadline(b, w.rec, caller, rivalTtl, now);
      }
    case Check(now) =>
  }

  /** The invariant and every call held survive any ordered history of rivals. */
  lemma {:induction false} RunKeepsSafe(b: Backend, owner: string, ttl: int, w: World, events: seq<Event>, t0: int)
    requires Safe(w, owner, ttl, t0) && RunsHeld(w, owner)
    requires Ordered(events, t0) && Rivals(events, owner)
    ensures Safe(Run(b, owner, ttl, w, events), owner, ttl, if events == [] then t0 else Time(events[|events| - 1]))
    ensures RunsHeld(Run(b, owner, ttl, w, events), owner)
    decreases |events|
  {
    if events != [] {
      var n := |events| - 1;
      var prefix := events[..n];
      assert forall i :: 0 <= i < n ==> prefix[i] == events[i];
      RunKeepsSafe(b, owner, ttl, w, prefix, t0);
      var t := if prefix == [] then t0 else Time(prefix[n - 1]);
      assert t <= Time(events[n]);
      StepKeepsSafe(b, owner, ttl, Run(b, owner, ttl, w, prefix), events[n], t);
    }
  }

  /**
   * Mutual exclusion of `RunInLockerThread`: starting from any record, with
   * time past the epoch and a lease of any length, every time the gate
   * lets `f` run the record belongs to this owner and its deadline is no
   * earlier than the deadline `f` was given, which itself lies after the
   * moment of the call.
   */
  lemma GateRunsOnlyWhileHeld(b: Backend, owner: string, ttl: int, rec: LockRecord, events: seq<Event>, t0: int)
    requires 0 <= t0 && Ordered(events, t0) && Rivals(events, owner)
    ensures RunsHeld(Run(b, owner, ttl, Start(rec), events), owner)
  {
    RunKeepsSafe(b, owner, ttl, Start(rec), events, t0);
  }

  /**
   * The lease outlives the call: after any ordered history of rivals that
   * ends at `t`, for every call of `f` so far whose deadline is still after
   * `t`, the record still names this owner with a deadline no earlier than
   * the one `f` was given.
   */
  lemma HeldUntilDeadline(b: Backend, owner: string, ttl: int, rec: LockRecord, events: seq<Event>, t0: int)
    requires 0 <= t0 && Ordered(events, t0) && Rivals(events, owner)
    ensures var w := Run(b, owner, ttl, Start(rec), events);
      var t := if events == [] then t0 else Time(events[|events| - 1]);
      forall i :: 0 <= i < |w.thread.calls| && t < w.thread.calls[i].deadline ==>
        w.rec.ownerName == owner && w.thread.calls[i].deadline <= w.rec.deadline
  {
    RunKeepsSafe(b, owner, ttl, Start(rec), events, t0);
  }

  /**
   * So a rival asking at any moment after such a history and before the
   * deadline of some call of `f` is refused, and the record stays as it is.
   */
  lemma RivalRefusedDuringRun(b: Backend, owner: string, ttl: int, rec: LockRecord, events: seq<Event>, t0: int,
                              i: int, caller: string, rivalTtl: int, now: int)
    requires 0 <= t0 && Ordered(events, t0) && Rivals(events, owner)
    requires 0 <= i < |Run(b, owner, ttl, Start(rec), events).thread.calls|
    requires (if events == [] then t0 else Time(events[|events| - 1])) <= now
    requires now < Run(b, owner, ttl, Start(rec), events).thread.calls[i].deadline
    requires caller != owner
    ensures Rule(b, Run(b, owner, ttl, Start(rec), events).rec, caller, rivalTtl, now)
      == Run(b, owner, ttl, Start(rec), events).rec
  {
    HeldUntilDeadline(b, owner, ttl, rec, events, t0);
    var w := Run(b, owner, ttl, Start(rec), events);
    RivalRefusedBeforeDeadline(b, w.rec, caller, rivalTtl, now);
  }
}
