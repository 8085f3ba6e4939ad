/**
 * The two versions of the lease rule side by side: the in-memory table
 * transfers a lease only once its deadline is strictly before `now`, the YDB
 * update query already when `now` has reached the deadline.  On records with
 * an owner and a deadline they agree everywhere except at that one instant.
 */
module LeaseRules {
  import opened Wrappers
  import opened LockStorage
  import RequestBuilder

  /** The YDB update rule on a row whose owner and deadline are both set, read back as a record. */
  function YdbRule(rec: LockRecord, caller: string, ttl: int, now: int): (r: LockRecord)
  {
    var row := RequestBuilder.ConditionalAssign(
      RequestBuilder.Row("", Some(rec.ownerName), Some(rec.deadline)), caller, now, ttl);
    LockRecord(row.owner.value, row.deadline.value)
  }

  /** Like the in-memory rule, the YDB rule extends the holder and otherwise grants or refuses, but with `<=`. */
  lemma YdbRuleCases(rec: LockRecord, caller: string, ttl: int, now: int)
    ensures var r := YdbRule(rec, caller, ttl, now);
      && (r.ownerName == caller <==> rec.ownerName == caller || rec.deadline <= now)
      && (r.ownerName == caller ==> r.deadline == now + ttl)
      && (r.ownerName != caller ==> r == rec)
  {
  }

  /** The two rules give different records exactly when a rival asks at the very deadline. */
  lemma RulesDifferOnlyAtDeadline(rec: LockRecord, caller: string, ttl: int, now: int)
    ensures TryLockRule(rec, caller, ttl, now) != YdbRule(rec, caller, ttl, now)
        <==> rec.ownerName != caller && rec.deadline == now
  {
    YdbRuleCases(rec, caller, ttl, now);
  }

  /** At the deadline a rival is refused by the in-memory table and granted the lease by YDB. */
  lemma AtDeadlineOnlyYdbTransfers(rec: LockRecord, caller: string, ttl: int)
    requires rec.ownerName != caller
    ensures TryLockRule(rec, caller, ttl, rec.deadline) == rec
    ensures YdbRule(rec, caller, ttl, rec.deadline) == LockRecord(caller, rec.deadline + ttl)
  {
    YdbRuleCases(rec, caller, ttl, rec.deadline);
  }
}
