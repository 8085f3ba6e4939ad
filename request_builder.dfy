/**
 * What the YDB queries of `LockRequestBuilderImpl` do to the locks table, as
 * opposed to the query text they are built from.  A row has the three columns
 * lock name (the primary key), owner and deadline; owner and deadline may be
 * NULL.  Timestamps and intervals are whole microseconds, as in YDB.
 */
module RequestBuilder {
  import opened Wrappers
  import GoTime

  /** `LockRequestBuilderImpl`: the table name and the names of its three columns. */
  datatype LockRequestBuilderImpl = LockRequestBuilderImpl(
    tableName: string,
    lockNameColumnName: string,
    ownerColumnName: string,
    deadlineColumnName: string)
  {
    function GetLockNameColumnName(): string { lockNameColumnName }
    function GetOwnerColumnName(): string { ownerColumnName }
    function GetDeadlineColumnName(): string { deadlineColumnName }
  }

  /**
   * `GetDefaultRequestBuilder`: the given table with the stock column names,
   * three non-empty names no two of which clash.
   */
  function GetDefaultRequestBuilder(tableName: string): (b: LockRequestBuilderImpl)
    ensures b.tableName == tableName
    ensures b.lockNameColumnName != "" && b.ownerColumnName != "" && b.deadlineColumnName != ""
    ensures b.lockNameColumnName != b.ownerColumnName && b.lockNameColumnName != b.deadlineColumnName
    ensures b.ownerColumnName != b.deadlineColumnName
  {
    LockRequestBuilderImpl(tableName, "lock_name", "owner", "deadline")
  }

  /** The default builder keeps the table name, and its getters give the stock, distinct column names. */
  lemma DefaultRequestBuilderColumns(tableName: string)
    ensures GetDefaultRequestBuilder(tableName).tableName == tableName
    ensures GetDefaultRequestBuilder(tableName).GetLockNameColumnName() == "lock_name"
    ensures GetDefaultRequestBuilder(tableName).GetOwnerColumnName() == "owner"
    ensures GetDefaultRequestBuilder(tableName).GetDeadlineColumnName() == "deadline"
    ensures var b := GetDefaultRequestBuilder(tableName);
      && b.GetLockNameColumnName() != b.GetOwnerColumnName()
      && b.GetLockNameColumnName() != b.GetDeadlineColumnName()
      && b.GetOwnerColumnName() != b.GetDeadlineColumnName()
  {
  }

  /** One row of the locks table. */
  datatype Row = Row(lockName: string, owner: Option<string>, deadline: Option<int>)

  /** The locks table, indexed by its primary key. */
  type Table = map<string, Row>

  /** The primary key of every row is the key it is stored under. */
  ghost predicate WellKeyed(t: Table)
  {
    forall k :: k in t ==> t[k].lockName == k
  }

  // Three-valued logic of YQL, as far as the update query needs it.

  /** `a == b` where `a` may be NULL: NULL compared with anything is NULL. */
  function SqlEquals(a: Option<string>, b: string): Option<bool>
  {
    if a.None? then None else Some(a.value == b)
  }

  /** `if(c, t, e)`: a NULL condition selects the else branch, like false. */
  function SqlIf<T>(c: Option<bool>, t: T, e: T): T
  {
    if c == Some(true) then t else e
  }

  /** `a ?? d`: the value of `a`, or `d` when `a` is NULL. */
  function Coalesce(a: Option<int>, d: int): int
  {
    if a.Some? then a.value else d
  }

  /** The lease of a row has lapsed at `ts`: no deadline, or a deadline at or before `ts`. */
  predicate Lapsed(deadline: Option<int>, ts: int)
  {
    deadline.None? || deadline.value <= ts
  }

  /**
   * The projection of the update query, built from nested YQL `if`s: when the
   * row's owner equals the caller the owner stays and the deadline becomes
   * `ts + ttl`; otherwise, when `ts` is at or past the deadline (a NULL
   * deadline coalesced to `ts` itself, so it counts as passed), the caller
   * becomes owner with deadline `ts + ttl`; otherwise both columns stay.  A
   * NULL owner compares as NULL, which the outer `if` treats as false.  The
   * lock name column is selected unchanged.
   */
  function ConditionalAssign(row: Row, owner: string, ts: int, ttl: int): (r: Row)
    ensures r.lockName == row.lockName
    ensures r.owner == row.owner || r.owner == Some(owner)
    ensures r.owner == Some(owner) <==> row.owner == Some(owner) || Lapsed(row.deadline, ts)
    ensures r.owner == Some(owner) ==> r.deadline == Some(ts + ttl)
    ensures r.owner != Some(owner) ==> r == row
  {
    var newTs := ts + ttl;
    var isOwner := SqlEquals(row.owner, owner);
    var expired := Some(ts >= Coalesce(row.deadline, ts));
    Row(row.lockName,
        SqlIf(isOwner, row.owner, SqlIf(expired, Some(owner), row.owner)),
        SqlIf(isOwner, Some(newTs), SqlIf(expired, Some(newTs), row.deadline)))
  }

  /** The owner and deadline columns that the closing `select` reads back. */
  datatype Selected = Selected(owner: Option<string>, deadline: Option<int>)

  /** The table after a query and the row the query reads back, if any. */
  datatype UpdateOutcome = UpdateOutcome(table: Table, selected: Option<Selected>)

  /**
   * `GetUpdateLockQueryWithParams` run at timestamp `ts`, with the `$TTL`
   * parameter the lease `ttl` truncated to whole microseconds: the upsert rewrites
   * the row named `lockName` (keyed by the lock name it selected) with the
   * conditional assignment, and the select reads that row's owner and
   * deadline back.  With no such row nothing is written and nothing is read.
   */
  function UpdateLockQuery(t: Table, lockName: string, owner: string, ttl: int, ts: int): (r: UpdateOutcome)
    requires WellKeyed(t)
    ensures WellKeyed(r.table) && r.table.Keys == t.Keys
    ensures forall k :: k in t && k != lockName ==> r.table[k] == t[k]
    ensures lockName !in t ==> r.table == t && r.selected == None
    ensures lockName in t ==>
      && r.table[lockName] == ConditionalAssign(t[lockName], owner, ts, GoTime.Microseconds(ttl))
      && r.selected == Some(Selected(r.table[lockName].owner, r.table[lockName].deadline))
  {
    if lockName in t then
      var row := ConditionalAssign(t[lockName], owner, ts, GoTime.Microseconds(ttl));
      var t' := t[row.lockName := row];
      UpdateOutcome(t', Some(Selected(t'[lockName].owner, t'[lockName].deadline)))
    else
      UpdateOutcome(t, None)
  }

  /** The outcome of the `INSERT` of `GetCreateLockQueryWithParams`. */
  datatype CreateOutcome = Created(table: Table) | ConflictWithExistingKey

  /** The row the create query inserts at timestamp `ts`: empty owner, deadline `ts`. */
  function FreshRow(lockName: string, ts: int): Row
  {
    Row(lockName, Some(""), Some(ts))
  }

  /**
   * `GetCreateLockQueryWithParams` run at timestamp `ts`: inserts the fresh
   * row, or fails on the primary key when the name already has a row.
   */
  function CreateLockQuery(t: Table, lockName: string, ts: int): (r: CreateOutcome)
    requires WellKeyed(t)
    ensures r.ConflictWithExistingKey? <==> lockName in t
    ensures r.Created? ==> WellKeyed(r.table) && r.table.Keys == t.Keys + {lockName}
    ensures r.Created? ==> forall k :: k in t ==> r.table[k] == t[k]
    ensures r.Created? ==> r.table[lockName] == FreshRow(lockName, ts)
  {
    if lockName in t then ConflictWithExistingKey else Created(t[lockName := FreshRow(lockName, ts)])
  }

  /**
   * A freshly created record goes to whoever asks for it first at or after
   * its creation, and that caller gets a lease of `ttl` from its own timestamp.
   */
  lemma FreshRecordGoesToFirstCaller(t: Table, lockName: string, ts0: int, owner: string, ttl: int, ts: int)
    requires WellKeyed(t) && lockName !in t && ts0 <= ts
    ensures CreateLockQuery(t, lockName, ts0).Created?
    ensures var t1 := CreateLockQuery(t, lockName, ts0).table;
            UpdateLockQuery(t1, lockName, owner, ttl, ts).selected
              == Some(Selected(Some(owner), Some(ts + GoTime.Microseconds(ttl))))
  {
    var t1 := CreateLockQuery(t, lockName, ts0).table;
    assert t1[lockName] == FreshRow(lockName, ts0);
    assert Lapsed(t1[lockName].deadline, ts);
  }

  /** A row whose owner and deadline are both NULL is taken by the first caller. */
  lemma NullRowIsTaken(t: Table, lockName: string, owner: string, ttl: int, ts: int)
    requires WellKeyed(t) && lockName in t && t[lockName].owner == None && t[lockName].deadline == None
    ensures UpdateLockQuery(t, lockName, owner, ttl, ts).selected
              == Some(Selected(Some(owner), Some(ts + GoTime.Microseconds(ttl))))
  {
    assert Lapsed(t[lockName].deadline, ts);
  }
}
