/**
 * The hourly expiry sweep's per-row policy and its effect on the table.
 * For every row that was active when the sweep took its snapshot, exactly
 * one of: the 2-day reminder, the 1-day reminder, expiry, or nothing.
 */
module Sweep {
  import opened Wrappers
  import opened Clock
  import opened Users

  /** What the sweep does for one active row; each non-Keep action also messages the user. */
  datatype Action = Remind2 | Remind1 | Expire | Keep

  /**
   * The `if / elif / elif` chain with `days_left = (expire - now).days`:
   * a reminder when two (one) whole days are left and it has not been sent,
   * else expiry once `now` is past `expire`.
   */
  function Policy(expire: int, reminder1: bool, reminder2: bool, now: int): (a: Action)
    ensures a == Remind2 <==> !reminder2 && now + 2 * DAY <= expire < now + 3 * DAY
    ensures a == Remind1 <==> !reminder1 && now + DAY <= expire < now + 2 * DAY
    ensures a == Expire <==> now > expire
    ensures a == Keep ==> now <= expire
  {
    var daysLeft := Days(expire - now);
    if daysLeft == 2 && !reminder2 then Remind2
    else if daysLeft == 1 && !reminder1 then Remind1
    else if now > expire then Expire
    else Keep
  }

  /** A row with at least three whole days left gets no message and no change. */
  lemma PolicyQuietEarly(expire: int, reminder1: bool, reminder2: bool, now: int)
    requires expire >= now + 3 * DAY
    ensures Policy(expire, reminder1, reminder2, now) == Keep
  {
  }

  /** Both reminders are sent at most once: a set flag never produces its reminder again. */
  lemma PolicyNoRepeat(expire: int, reminder1: bool, reminder2: bool, now: int)
    ensures reminder2 ==> Policy(expire, reminder1, reminder2, now) != Remind2
    ensures reminder1 ==> Policy(expire, reminder1, reminder2, now) != Remind1
  {
  }

  /** The row the single UPDATE that an action issues leaves behind. */
  function Apply(row: Row, a: Action): (r: Row)
    ensures r.reminder2 == (row.reminder2 || a == Remind2)
    ensures r.reminder1 == (row.reminder1 || a == Remind1)
    ensures r.status == (if a == Expire then Expired else row.status)
    ensures r.(status := row.status, reminder1 := row.reminder1, reminder2 := row.reminder2) == row
  {
    match a
    case Remind2 => row.(reminder2 := true)
    case Remind1 => row.(reminder1 := true)
    case Expire => row.(status := Expired)
    case Keep => row
  }

  /** The action for a row of the table, if the sweep looks at it at all. */
  function RowAction(row: Row, now: int): (a: Action)
    requires row.status.Active? ==> row.expireDate.Some?
    ensures a != Keep ==> row.status.Active?
  {
    if row.status.Active? then Policy(row.expireDate.value, row.reminder1, row.reminder2, now) else Keep
  }

  /** The table after one sweep at time `now`. */
  function Swept(t: Table, now: int): (r: Table)
    requires ActiveDated(t)
    ensures r.Keys == t.Keys
    ensures forall u :: u in t && !t[u].status.Active? ==> r[u] == t[u]
    ensures ActiveDated(r)
  {
    map u | u in t :: Apply(t[u], RowAction(t[u], now))
  }

  /** The table after a run of sweeps at the given times, with nothing else in between. */
  function Sweeps(t: Table, times: seq<int>): (r: Table)
    requires ActiveDated(t)
    ensures ActiveDated(r) && r.Keys == t.Keys
    decreases |times|
  {
    if times == [] then t else Sweeps(Swept(t, times[0]), times[1..])
  }

  /** The messages one sweep sends: one per row whose action is not Keep. */
  function SweepActions(t: Table, now: int): (m: map<int, Action>)
    requires ActiveDated(t)
    ensures forall u :: u in m ==> u in t && t[u].status.Active? && m[u] != Keep
  {
    map u | u in t && RowAction(t[u], now) != Keep :: RowAction(t[u], now)
  }

  /** Whether a sweep's messages include action `a` for user `u`. */
  predicate Sends(m: map<int, Action>, u: int, a: Action) {
    u in m && m[u] == a
  }

  /**
   * Who gets which message: the 2-day (1-day) reminder goes exactly to the
   * active rows with two (one) whole days left whose flag is unset, and the
   * expiry notice exactly to the active rows whose expiry has passed.
   */
  lemma SweepSends(t: Table, now: int, u: int)
    requires ActiveDated(t)
    ensures Sends(SweepActions(t, now), u, Remind2) <==>
      u in t && t[u].status.Active? && !t[u].reminder2 && Days(t[u].expireDate.value - now) == 2
    ensures Sends(SweepActions(t, now), u, Remind1) <==>
      u in t && t[u].status.Active? && !t[u].reminder1 && Days(t[u].expireDate.value - now) == 1
    ensures Sends(SweepActions(t, now), u, Expire) <==>
      u in t && t[u].status.Active? && now > t[u].expireDate.value
    ensures !Sends(SweepActions(t, now), u, Keep)
  {
    if u in t && t[u].status.Active? {
      var d := Days(t[u].expireDate.value - now);
      assert d == 2 <==> now + 2 * DAY <= t[u].expireDate.value < now + 3 * DAY;
      assert d == 1 <==> now + DAY <= t[u].expireDate.value < now + 2 * DAY;
    }
  }

  /**
   * Part way through a sweep of `t`: the rows still in `todo` are untouched,
   * every other row has had its action applied, and `m` holds the actions
   * taken so far.
   */
  ghost predicate Progress(t: Table, now: int, todo: set<int>, r: Table, m: map<int, Action>) {
    && ActiveDated(t)
    && r.Keys == t.Keys
    && (forall u :: u in todo ==> u in t && r[u] == t[u])
    && (forall u :: u in t && u !in todo ==> r[u] == Apply(t[u], RowAction(t[u], now)))
    && (forall u :: u in m <==> u in t && u !in todo && RowAction(t[u], now) != Keep)
    && (forall u :: u in m ==> m[u] == RowAction(t[u], now))
  }

  /** Before the first row: `todo` is every active row, nothing applied, nothing sent. */
  lemma ProgressStart(t: Table, now: int, todo: set<int>)
    requires ActiveDated(t)
    requires forall u :: u in todo <==> u in t && t[u].status.Active?
    ensures Progress(t, now, todo, t, map[])
  {
  }

  /** Handling one more row: apply its action and record it if it is not Keep. */
  lemma ProgressStep(t: Table, now: int, todo: set<int>, r: Table, m: map<int, Action>, u: int)
    requires Progress(t, now, todo, r, m) && u in todo
    ensures var a := RowAction(t[u], now);
      Progress(t, now, todo - {u}, r[u := Apply(t[u], a)], if a != Keep then m[u := a] else m)
  {
  }

  /** With no rows left the sweep has produced exactly `Swept` and `SweepActions`. */
  lemma ProgressDone(t: Table, now: int, r: Table, m: map<int, Action>)
    requires Progress(t, now, {}, r, m)
    ensures r == Swept(t, now) && m == SweepActions(t, now)
  {
    var swept, a := Swept(t, now), SweepActions(t, now);
    forall u | u in t
      ensures r[u] == swept[u]
      ensures u in a <==> u in m
    {
    }
    assert r == swept;
    forall u | u in a ensures u in m {}
    forall u | u in m ensures u in a && m[u] == a[u] {}
  }

  /** A sweep keeps the table valid: IDs are untouched and rows only leave the active state. */
  lemma SweptValid(t: Table, now: int)
    requires Valid(t)
    ensures Valid(Swept(t, now))
  {
    var r := Swept(t, now);
    forall u, v | u in r && v in r && u != v
      ensures r[u].transactionId != r[v].transactionId
    {
      assert r[u] == Apply(t[u], RowAction(t[u], now));
      assert r[v] == Apply(t[v], RowAction(t[v], now));
    }
    forall u | u in r && r[u].status.Active?
      ensures r[u].startDate.Some? && r[u].expireDate.Some?
      ensures r[u].startDate.value + TERM <= r[u].expireDate.value
    {
      assert r[u] == Apply(t[u], RowAction(t[u], now));
    }
  }

  /**
   * A row is expired after the sweep exactly when it already was, or it was
   * active and `now` is past its expiry: no row with `now <= expire` is expired.
   */
  lemma SweptExpiredExactly(t: Table, now: int, u: int)
    requires ActiveDated(t) && u in t
    ensures Swept(t, now)[u].status.Expired? <==>
      t[u].status.Expired? || (t[u].status.Active? && now > t[u].expireDate.value)
  {
    assert Swept(t, now)[u] == Apply(t[u], RowAction(t[u], now));
  }

  /**
   * The reminder flags after a sweep: a flag is set exactly when it already
   * was, or the row was active with two (one) whole days left. Name, username,
   * transaction ID, window and creation time are never touched.
   */
  lemma SweptReminded(t: Table, now: int, u: int)
    requires ActiveDated(t) && u in t
    ensures Swept(t, now)[u].reminder2 <==>
      t[u].reminder2 || (t[u].status.Active? && Days(t[u].expireDate.value - now) == 2)
    ensures Swept(t, now)[u].reminder1 <==>
      t[u].reminder1 || (t[u].status.Active? && Days(t[u].expireDate.value - now) == 1)
    ensures Swept(t, now)[u].(status := t[u].status, reminder1 := t[u].reminder1, reminder2 := t[u].reminder2) == t[u]
  {
    assert Swept(t, now)[u] == Apply(t[u], RowAction(t[u], now));
  }

  /** One row swept twice at the same instant is swept once. */
  lemma RowIdempotent(row: Row, now: int)
    requires row.status.Active? ==> row.expireDate.Some?
    ensures var once := Apply(row, RowAction(row, now));
      (once.status.Active? ==> once.expireDate.Some?) &&
      RowAction(once, now) == Keep
  {
  }

  /**
   * Sweeping again at the same `now` changes nothing and sends nothing:
   * no reminder is sent twice and no row is expired twice.
   */
  lemma {:induction false} SweepIdempotent(t: Table, now: int)
    requires ActiveDated(t)
    ensures ActiveDated(Swept(t, now))
    ensures Swept(Swept(t, now), now) == Swept(t, now)
    ensures SweepActions(Swept(t, now), now) == map[]
  {
    var once := Swept(t, now);
    forall u | u in once
      ensures once[u].status.Active? ==> once[u].expireDate.Some?
      ensures RowAction(once[u], now) == Keep
    {
      RowIdempotent(t[u], now);
    }
    var twice := Swept(once, now);
    forall u | u in once ensures twice[u] == once[u] {
      assert twice[u] == Apply(once[u], RowAction(once[u], now));
    }
    assert twice == once;
  }

  /** A reminder flag, once set, stays set through any run of sweeps. */
  lemma {:induction false} SweepsKeepFlags(t: Table, times: seq<int>, u: int)
    requires ActiveDated(t) && u in t
    ensures t[u].reminder2 ==> Sweeps(t, times)[u].reminder2
    ensures t[u].reminder1 ==> Sweeps(t, times)[u].reminder1
    decreases |times|
  {
    if times != [] {
      SweptReminded(t, times[0], u);
      SweepsKeepFlags(Swept(t, times[0]), times[1..], u);
    }
  }

  /** A row that is not active is left exactly as it is by any run of sweeps. */
  lemma {:induction false} SweepsKeepInactive(t: Table, times: seq<int>, u: int)
    requires ActiveDated(t) && u in t && !t[u].status.Active?
    ensures Sweeps(t, times)[u] == t[u]
    decreases |times|
  {
    if times != [] {
      SweepsKeepInactive(Swept(t, times[0]), times[1..], u);
    }
  }

  /**
   * A reminder sent by one sweep is not sent again by any of the sweeps that
   * follow it, however many and whenever they run, as long as no approval
   * (which clears both flags) comes in between.
   */
  lemma ReminderSentOnce(t: Table, now: int, times: seq<int>, later: int, u: int)
    requires ActiveDated(t)
    ensures Sends(SweepActions(t, now), u, Remind2) ==>
      !Sends(SweepActions(Sweeps(Swept(t, now), times), later), u, Remind2)
    ensures Sends(SweepActions(t, now), u, Remind1) ==>
      !Sends(SweepActions(Sweeps(Swept(t, now), times), later), u, Remind1)
  {
    if u in t {
      var once := Swept(t, now);
      SweepSends(t, now, u);
      SweptReminded(t, now, u);
      SweepsKeepFlags(once, times, u);
      SweepSends(Sweeps(once, times), later, u);
    }
  }

  /**
   * A resubmission turns the user's row to pending, and the sweep only looks
   * at active rows: until an approval, no run of sweeps changes that row or
   * messages the user, whatever its expiry.
   */
  lemma ResubmissionLeavesSweep(t: Table, userId: int, name: string, username: Option<string>, tx: string,
                                now: int, times: seq<int>, later: int)
    requires ActiveDated(t)
    ensures ActiveDated(Upsert(t, userId, name, username, tx, now))
    ensures Sweeps(Upsert(t, userId, name, username, tx, now), times)[userId] == Upsert(t, userId, name, username, tx, now)[userId]
    ensures userId !in SweepActions(Sweeps(Upsert(t, userId, name, username, tx, now), times), later)
  {
    var r := Upsert(t, userId, name, username, tx, now);
    forall u | u in r && r[u].status.Active?
      ensures r[u].startDate.Some? && r[u].expireDate.Some?
      ensures r[u].startDate.value + TERM <= r[u].expireDate.value
    {
      assert u != userId && r[u] == t[u];
    }
    SweepsKeepInactive(r, times, userId);
  }
}
