/**
 * The `users` table: one row per Telegram user, keyed by `user_id`
 * (the PRIMARY KEY), with `transaction_id` UNIQUE across rows. The table
 * is a map from user id to row; the operations below are the single-row
 * writes the bot issues.
 */
module Users {
  import opened Wrappers
  import opened Clock

  datatype Status = Pending | Active | Expired

  /** One row; `user_id` is the key it is stored under. Timestamps are seconds. */
  datatype Row = Row(
    name: string,
    username: Option<string>,
    transactionId: string,
    status: Status,
    startDate: Option<int>,
    expireDate: Option<int>,
    reminder1: bool,
    reminder2: bool,
    createdAt: int)

  type Table = map<int, Row>

  /** The UNIQUE constraint: no two rows hold the same transaction ID. */
  ghost predicate UniqueIds(t: Table) {
    forall u, v :: u in t && v in t && u != v ==> t[u].transactionId != t[v].transactionId
  }

  /** Every active row has a start and an expiry at least one term apart. */
  predicate ActiveDated(t: Table) {
    forall u :: u in t && t[u].status.Active? ==>
      t[u].startDate.Some? && t[u].expireDate.Some? &&
      t[u].startDate.value + TERM <= t[u].expireDate.value
  }

  /** What every operation on the table preserves. */
  ghost predicate Valid(t: Table) {
    UniqueIds(t) && ActiveDated(t)
  }

  /** `SELECT transaction_id FROM users WHERE transaction_id=$1` finds a row. */
  predicate InUse(t: Table, tx: string) {
    exists u :: u in t && t[u].transactionId == tx
  }

  /**
   * `INSERT ... VALUES (..., 'pending', now) ON CONFLICT (user_id) DO UPDATE
   * SET transaction_id, status='pending', created_at`: a new row starts with
   * no window and both reminders unset; an existing row keeps its name,
   * username, window and reminder flags.
   */
  function Upsert(t: Table, userId: int, name: string, username: Option<string>, tx: string, now: int): (r: Table)
    ensures r.Keys == t.Keys + {userId}
    ensures forall v :: v in t && v != userId ==> r[v] == t[v]
    ensures r[userId].transactionId == tx && r[userId].status == Pending && r[userId].createdAt == now
    ensures userId in t ==>
      && r[userId].name == t[userId].name
      && r[userId].username == t[userId].username
      && r[userId].startDate == t[userId].startDate
      && r[userId].expireDate == t[userId].expireDate
      && r[userId].reminder1 == t[userId].reminder1
      && r[userId].reminder2 == t[userId].reminder2
    ensures userId !in t ==>
      && r[userId].name == name && r[userId].username == username
      && r[userId].startDate.None? && r[userId].expireDate.None?
      && !r[userId].reminder1 && !r[userId].reminder2
  {
    if userId in t then
      t[userId := t[userId].(transactionId := tx, status := Pending, createdAt := now)]
    else
      t[userId := Row(name, username, tx, Pending, None, None, false, false, now)]
  }

  /** An ID that no row holds can be stored without breaking the UNIQUE constraint. */
  lemma UpsertValid(t: Table, userId: int, name: string, username: Option<string>, tx: string, now: int)
    requires Valid(t) && !InUse(t, tx)
    ensures Valid(Upsert(t, userId, name, username, tx, now))
  {
    var r := Upsert(t, userId, name, username, tx, now);
    forall u, v | u in r && v in r && u != v
      ensures r[u].transactionId != r[v].transactionId
    {
      if u == userId {
        assert r[v] == t[v];
      } else if v == userId {
        assert r[u] == t[u];
      }
    }
  }

  /** The stored ID after a submission is found by the duplicate check: resubmitting it is refused. */
  lemma SubmittedIdInUse(t: Table, userId: int, name: string, username: Option<string>, tx: string, now: int)
    ensures InUse(Upsert(t, userId, name, username, tx, now), tx)
  {
    var r := Upsert(t, userId, name, username, tx, now);
    assert r[userId].transactionId == tx;
  }

  /**
   * Resubmitting overwrites the user's old ID, which is then free again:
   * the check is against the rows as they are, not a history.
   */
  lemma ResubmissionFreesOldId(t: Table, userId: int, name: string, username: Option<string>, tx: string, now: int)
    requires UniqueIds(t) && userId in t && tx != t[userId].transactionId
    ensures !InUse(Upsert(t, userId, name, username, tx, now), t[userId].transactionId)
  {
    var r := Upsert(t, userId, name, username, tx, now);
    var freed := t[userId].transactionId;
    forall u | u in r ensures r[u].transactionId != freed {
      if u != userId {
        assert r[u] == t[u];
      }
    }
  }

  /** `SELECT expire_date FROM users WHERE user_id=$1`: None when there is no row or the column is NULL. */
  function PreviousExpiry(t: Table, userId: int): (r: Option<int>)
    ensures r.Some? <==> userId in t && t[userId].expireDate.Some?
    ensures r.Some? ==> r == t[userId].expireDate
  {
    if userId in t then t[userId].expireDate else None
  }

  /**
   * `UPDATE users SET status='active', start_date, expire_date, reminder_1=FALSE,
   * reminder_2=FALSE WHERE user_id=$3`: a missing row is left missing.
   */
  function Activate(t: Table, userId: int, now: int, expire: int): (r: Table)
    ensures r.Keys == t.Keys
    ensures forall v :: v in t && v != userId ==> r[v] == t[v]
    ensures userId in t ==>
      && r[userId].status == Active
      && r[userId].startDate == Some(now) && r[userId].expireDate == Some(expire)
      && !r[userId].reminder1 && !r[userId].reminder2
      && r[userId].transactionId == t[userId].transactionId
      && r[userId].name == t[userId].name && r[userId].username == t[userId].username
      && r[userId].createdAt == t[userId].createdAt
    ensures userId !in t ==> r == t
  {
    if userId in t then
      t[userId := t[userId].(status := Active, startDate := Some(now), expireDate := Some(expire),
                             reminder1 := false, reminder2 := false)]
    else t
  }

  /** Approving with the expiry the bot computes keeps the table valid. */
  lemma ApproveValid(t: Table, userId: int, now: int)
    requires Valid(t)
    ensures Valid(Activate(t, userId, now, NewExpiry(PreviousExpiry(t, userId), now)))
  {
    var r := Activate(t, userId, now, NewExpiry(PreviousExpiry(t, userId), now));
    forall u, v | u in r && v in r && u != v
      ensures r[u].transactionId != r[v].transactionId
    {
      assert r[u].transactionId == t[u].transactionId;
      assert r[v].transactionId == t[v].transactionId;
    }
  }
}
