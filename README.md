# ydb_locker: the lease decision rule, verified

`ydb_locker` is a Go library for a lease-based distributed lock. Competing
owners share one record per lock name. The record holds the owner and the
deadline of the current lease. Each owner's renewal goroutine (`LockerThread`)
repeatedly asks the storage to extend or take over the lease, and stores
every deadline it is granted in an atomic register. `RunInLockerThread` runs
the caller's work only while that register holds a deadline in the future.

This project models the core of that design in Dafny:

- `lock_storage.dfy` (module `LockStorage`) covers the in-memory lock table
  `LocalLockStorage`. It is a class whose `locks` field maps names to
  heap-allocated `LocalLock` objects, and `TryLock` updates those objects in
  place. The pure function `TryLockRule` gives the table's lease rule: the
  holder extends its lease; a rival takes over only when the deadline is
  strictly before `now`; otherwise nothing changes.
- `request_builder.dfy` (module `RequestBuilder`) covers what the YDB queries
  do to the locks table. It models the conditional assignment of the update
  query in YQL's three-valued logic: NULL owner and deadline columns, NULL
  comparisons, and `??`. It also covers the row the create query inserts,
  the truncation of the TTL parameter to microseconds, and the default
  builder.
- `lease_rules.dfy` (module `LeaseRules`) puts the two rules side by side.
  The YDB query transfers a lease when `$ts >= deadline`, but the in-memory
  table uses the strict `deadline < now`. The model keeps both rules and
  proves that they differ exactly when a rival asks at the deadline itself.
- `locker_thread.dfy` (module `LockerThread`) covers the renewal loop, the
  deadline register, the jittered sleep, and the gate of `RunInLockerThread`.
  Storage is abstracted as the sequence of results that `TryLock` returned.
- `lease_safety.dfy` (module `LeaseSafety`) composes the run state of
  `LockerThread` (renewal and gate steps, one `ttl` for the whole run) with
  either lease rule, shared with rival owners. Its theorems: whenever the
  gate lets `f` run, the record names this owner, and its deadline is no
  earlier than the deadline handed to `f`; and in every later state until
  that deadline the record still does, so no rival can take the lock before
  it. A lemma shows that this owner's side of any history is a replay of
  `LockerThread` on the history's schedule, and `CallsOfHistory` runs the
  imperative `RunInLockerThread` on that schedule and gets the same calls.
- `go_time.dfy` (module `GoTime`) and `wrappers.dfy` (module `Wrappers`) are
  helpers. Instants are integer nanoseconds since the Unix epoch, and Go's
  zero `time.Time{}` is the constant `ZeroTime` (year 1). Go integer division
  truncates toward zero, so it is written out as `Quo`. `Option` stands for a
  nil error or an SQL NULL.

## Behaviour worth knowing

- The in-memory table refuses a rival at `now == deadline`
  (pkg/ydb_locker/lock_storage.go:81). The YDB query grants the lease at
  that instant (pkg/ydb_locker/request_builder.go:68-69), although the
  comment above the query (request_builder.go:54) says `>`. Both rules are
  modelled as written; `LeaseRules.RulesDifferOnlyAtDeadline` states the
  difference.
- The sleep between renewals is `ttl/10 + r` with `0 <= r < ttl/10`, that
  is `[ttl/10, 2*(ttl/10))` with truncating division. A lease under ten
  nanoseconds makes `rand.Int63n` panic, which ends the program.
- In the in-memory table, `ExecuteUnderLock` answers "lock not found" when
  the lock exists but belongs to another owner. It has no distinct
  not-owner error.
- A failed `CreateLock` in `LockerThread` calls `log.Fatal`, which ends the
  process. The model ends the thread before its first attempt.

## Model

| member | source | states |
|---|---|---|
| `GoTime.Quo` | pkg/ydb_locker/locker_thread.go:31 | Go's `ttl/10` truncates toward zero: for a non-negative dividend the quotient is the largest multiple not above it, for a negative one the smallest not below it |
| `GoTime.Microseconds` | pkg/ydb_locker/request_builder.go:80 | the `$TTL` interval `Duration.Microseconds()` is the lease truncated to whole microseconds: less than one microsecond off, never rounded away from zero |
| `GoTime.MicrosecondsIsOdd` | pkg/ydb_locker/request_builder.go:80 | truncation toward zero treats a negative lease as the mirror image of a positive one |
| `RequestBuilder.GetDefaultRequestBuilder` | pkg/ydb_locker/request_builder.go:105-112 | the default builder keeps the given table name and names three non-empty, pairwise distinct columns |
| `RequestBuilder.DefaultRequestBuilderColumns` | pkg/ydb_locker/request_builder.go:31-41 | the default builder keeps the table name and its getters return `lock_name`, `owner`, `deadline`, three distinct names |
| `RequestBuilder.ConditionalAssign` | pkg/ydb_locker/request_builder.go:62-69 | the lock name is copied through; the caller ends up owner iff it already was or the lease has lapsed (`deadline <= ts` or NULL deadline), and then the deadline is `ts + TTL`; otherwise the row is unchanged |
| `RequestBuilder.UpdateLockQuery` | pkg/ydb_locker/request_builder.go:51-82 | only the row named `lockName` is rewritten, by the conditional assignment with the microsecond TTL; it stays keyed by its name and is read back as owner and deadline; a missing row leaves the table unchanged and reads back nothing |
| `RequestBuilder.CreateLockQuery` | pkg/ydb_locker/request_builder.go:84-92 | the insert fails exactly when the name already has a row; otherwise it adds the row with empty owner and deadline equal to the creation timestamp and leaves all other rows alone |
| `RequestBuilder.FreshRecordGoesToFirstCaller` | pkg/ydb_locker/request_builder.go:87-89 | a record just created is granted to whichever owner asks first at or after its creation, with a full lease from that moment |
| `RequestBuilder.NullRowIsTaken` | pkg/ydb_locker/ydb_requests_test.go:93-102 | a row with NULL owner and NULL deadline is granted to the first caller with a full lease |
| `LockStorage.TryLockRule` | pkg/ydb_locker/lock_storage.go:79-85 | the resulting owner is the old owner or the caller; it is the caller iff the caller already held it or the deadline is strictly before `now`, and then the deadline is `now + ttl`; otherwise the record is unchanged |
| `LockStorage.UnownedGoesToFirstCaller` | pkg/ydb_locker/lock_storage.go:71 | the zero-valued record `CreateLock` inserts is granted to the first caller at any time after year 1 |
| `LockStorage.LocalLock.constructor` | pkg/ydb_locker/lock_storage.go:49-52 | a new `LocalLock` has the empty owner and the zero time as deadline |
| `LockStorage.LocalLockStorage.constructor` | pkg/ydb_locker/lock_storage.go:59-63 | `NewLocalLockStorage` gives an empty table |
| `LockStorage.LocalLockStorage.CreateLock` | pkg/ydb_locker/lock_storage.go:65-73 | returns true and inserts an unowned record with zero deadline iff the name was absent; otherwise returns false with no error and changes nothing; existing record objects are kept |
| `LockStorage.LocalLockStorage.TryLock` | pkg/ydb_locker/lock_storage.go:75-88 | the named record becomes `TryLockRule` of its old value and the call returns that new owner and deadline with no error; every other record is unchanged; a missing name returns the empty owner, the zero time and "lock not found" and changes nothing |
| `LockStorage.LocalLockStorage.CheckLockOwner` | pkg/ydb_locker/lock_storage.go:90-97 | read-only; reports whether the caller owns the named lock, or "lock not found" when the name is missing |
| `LockStorage.LocalLockStorage.ExecuteUnderLock` | pkg/ydb_locker/lock_storage.go:99-108 | runs `f` iff the record exists and the caller owns it, and returns what `f` returned; otherwise does not run `f` and returns "lock not found" |
| `LockStorage.CreateLockTwice` | pkg/ydb_locker/lock_storage.go:65-73 | creating a lock twice: the second call returns false with no error, and the table is what the first call left |
| `LeaseRules.YdbRuleCases` | pkg/ydb_locker/request_builder.go:68-69 | on a row with owner and deadline set, the YDB rule extends the holder, grants a rival when `deadline <= now`, and otherwise leaves the record unchanged |
| `LeaseRules.RulesDifferOnlyAtDeadline` | pkg/ydb_locker/lock_storage.go:81 | the in-memory and YDB rules give different records iff a rival asks exactly at the deadline |
| `LeaseRules.AtDeadlineOnlyYdbTransfers` | pkg/ydb_locker/request_builder.go:68-69 | at `now == deadline` a rival is refused by the in-memory table and granted a full lease by YDB |
| `GoTime.Compare` | pkg/ydb_locker/locker_thread.go:48 | `Time.Compare` is -1, 0 or +1, negative exactly when the first instant is earlier and positive exactly when it is later |
| `LockerThread.RegisterUpdate` | pkg/ydb_locker/locker_thread.go:24-27 | an attempt that returned an error, or a record naming another owner, leaves the register alone; one that names this owner stores exactly the reported deadline |
| `LockerThread.GateOpen` | pkg/ydb_locker/locker_thread.go:47-48 | `deadline.Compare(time.Now()) > 0` holds exactly when the stored deadline is strictly after `now` |
| `LockerThread.Step` | pkg/ydb_locker/locker_thread.go:24-31 | one event of the two goroutines: after a panic nothing changes; a renewal moves the register by `RegisterUpdate` and panics iff `ttl < 10`; a gate check leaves the register alone and appends at most one call of `f`, exactly when the gate is open, with the stored deadline |
| `LockerThread.RegisterHoldsLastGrant` | pkg/ydb_locker/locker_thread.go:23-30 | after any run of attempts, the register holds the deadline of the last attempt that returned no error and named this owner; with no such attempt it keeps its starting value, because errors and foreign owners never reset it |
| `LockerThread.RenewalInterval` | pkg/ydb_locker/locker_thread.go:31 | the sleep panics iff `ttl < 10` ns; otherwise it lies in `[ttl/10, 2*(ttl/10))`, is positive and is shorter than a fifth of the lease |
| `LockerThread.DeadlineRegister.constructor` | pkg/ydb_locker/locker_thread.go:36-37 | the register starts at 0 |
| `LockerThread.RenewalIteration` | pkg/ydb_locker/locker_thread.go:24-31 | one pass stores the returned deadline iff `TryLock` returned no error and named this owner, then computes the jittered sleep |
| `LockerThread.LockerThread` | pkg/ydb_locker/locker_thread.go:13-33 | a failed `CreateLock` means no attempt; otherwise one attempt per result until cancellation, or a single one when the sleep panics; the register ends as the fold of the attempts, and each sleep is the jittered interval of its draw |
| `LockerThread.RunInLockerThread` | pkg/ydb_locker/locker_thread.go:35-54 | with the register starting at 0 and the renewals interleaved as scheduled, `f` gets a deadline strictly after the time of the call, and after the epoch that deadline was granted to this owner by some renewal; a renewal with `ttl < 10` crashes the run |
| `LeaseSafety.RivalRefusedBeforeDeadline` | pkg/ydb_locker/lock_storage.go:81-84 | under either rule, a rival asking strictly before the holder's deadline changes nothing |
| `LeaseSafety.GrantIsFullLease` | pkg/ydb_locker/request_builder.go:63-69 | under either rule, a caller that ends up owner holds the lease until exactly `now + ttl` |
| `LeaseSafety.ThreadIsReplay` | pkg/ydb_locker/locker_thread.go:23-50 | this owner's side of any history (register, calls of `f`, panic) is exactly `LockerThread.Replay` of the history's schedule of renewals and gate checks, whose draws are in range |
| `LeaseSafety.CallsOfHistory` | pkg/ydb_locker/locker_thread.go:35-54 | `RunInLockerThread` run on the schedule of a history makes exactly the calls of `f` that the safety model records for it |
| `LeaseSafety.StepKeepsSafe` | pkg/ydb_locker/locker_thread.go:24-30 | one renewal (successful, or failed with or without its update reaching the record), rival request or gate check, no earlier than the last, keeps the invariant: the register is at most one lease past the time (not past it for a negative lease, which never calls `f`), every deadline handed to `f` is at most the register, and while the register is after the time the record is this owner's and lasts at least as long; every call of `f` stays recorded as held |
| `LeaseSafety.RunKeepsSafe` | pkg/ydb_locker/locker_thread.go:23-32 | that invariant holds after every time-ordered history of renewals, failed renewals, rival requests and gate checks |
| `LeaseSafety.GateRunsOnlyWhileHeld` | pkg/ydb_locker/locker_thread.go:46-50 | from any record with the register at 0, time past the epoch and a lease of any length, every run of `f` happens while the record is this owner's until at least the deadline `f` was given |
| `LeaseSafety.HeldUntilDeadline` | pkg/ydb_locker/locker_thread.go:46-50 | after any such history, every call of `f` whose deadline is still ahead finds the record this owner's with a deadline no earlier than its own: the lease handed to `f` is never cut short |
| `LeaseSafety.RivalRefusedDuringRun` | pkg/ydb_locker/lock_storage.go:81 | a rival asking at any moment after a history and before the deadline of one of its calls of `f` is refused and the record stays as it is |

## Left out

- The mutex of `LocalLockStorage`, the goroutines, `sync.WaitGroup` and the atomicity of `atomic.Int64`: every operation is one sequential step. Concurrency between the renewal thread and the gate loop is an explicit interleaving schedule.
- The clock, `rand` and `time.Sleep`: `now` and the random draw are parameters, and sleeps are returned rather than slept. `LocalLockStorage.TryLock` reads the clock up to twice (pkg/ydb_locker/lock_storage.go:80-83); the model uses one reading per call.
- Overflow of Go's 64-bit nanosecond times and durations: time is unbounded. So is the 64-bit atomic register.
- Units: the in-memory table and the register count nanoseconds, YDB counts microseconds. `LeaseSafety` uses one abstract time line for both backends. The conversion of a YDB timestamp to `UnixNano` is not modelled.
- `LockStorage.LocalLockStorage.ExecuteUnderLock`: `f` is a pure function of no arguments, so its effects are not modelled, and neither is the fact that it runs while the table's mutex is held (pkg/ydb_locker/lock_storage.go:100-104). Whether `f` ran is reported by the model's own `ran` result.
- The session and transaction handles (`table.Session`, `table.Transaction`): the in-memory table passes nil for both, so the model has no handle parameters. The `ctx` passed to `f` is left out for the same reason.
- `YdbLockStorage`, pkg/ydb_locker/ydb_requests.go (sessions, transactions, result scanning, and turning "Conflict with existing key" into `created == false`) and `CreateLocksTable`: calls into the YDB SDK with no visible semantics. `CreateLockQuery` models the conflict itself.
- The SQL text of every query, `GetSelectLockQueryWithParams` and `GetCreateLocksTableQuery`. Only what the update and create queries do to the rows is modelled. Columns other than the three lock columns, which `UPSERT` leaves untouched, are not part of a `Row`.
- `LockerContext` and the `Locker` wrapper (pkg/ydb_locker/locker.go): the session controller they use is not part of this model. cmd/example/main.go: flags, signals, connection set-up and printing.
- Logging (`log.Println`, `log.Printf`), and the process exit of `log.Fatal`, modelled as the thread stopping.
- `LeaseSafety.GateRunsOnlyWhileHeld`: it assumes that every rival uses an owner name different from this owner's. Two lockers with the same name cooperate, and one of them can shorten the other's lease.
- `LeaseSafety.GateRunsOnlyWhileHeld`, `LeaseSafety.HeldUntilDeadline` and `LeaseSafety.RivalRefusedDuringRun`: with the YDB backend, renewals and rival requests are timed by the server (`CurrentUtcTimestamp()`, pkg/ydb_locker/request_builder.go:62) and the gate by the client (`time.Now()`, pkg/ydb_locker/locker_thread.go:48). These theorems assume the two clocks agree and order all events on that one clock. Clock skew is not modelled: if the client clock runs δ behind the server, `f` can be called up to δ after YDB has handed the record to a rival.
