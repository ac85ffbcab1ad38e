/**
 * The bot's handlers as methods on the table they update: payment intake,
 * the admin's approve/reject buttons, the hourly expiry sweep and `/mysub`.
 * Telegram calls are replaced by the replies and actions each method
 * returns; the clock is the parameter `now`.
 */
module Bot {
  import opened Wrappers
  import opened Text
  import opened Clock
  import TransactionId
  import Callback
  import opened Users
  import Sweep

  /** What the user is told after sending a message in a private chat. */
  datatype PaymentReply =
    | InvalidId
    | AlreadyUsed
      /** Stored as pending; `renewalNotice` is the extra note to a user who is already active.
          The admin group gets the two buttons carrying `approveData` and `rejectData`. */
    | Received(transactionId: string, renewalNotice: bool, approveData: string, rejectData: string)

  /** What the user is sent after an approval: a channel member is told of the renewal, anyone else gets an invite. */
  datatype ApprovalNotice = RenewedNotice | InviteNotice

  /** What pressing an admin button leads to. */
  datatype AdminReply =
    | Malformed
    | NotApproved
    | Approved(userId: int, newExpire: int, notice: ApprovalNotice)

  /** What `/mysub` answers: no active subscription, or the expiry and the whole days left. */
  datatype SubscriptionInfo = NoActiveSubscription | Subscription(expireDate: int, remainingDays: int)

  /** Channel statuses that count as already being in the channel. */
  predicate IsMember(status: string) {
    status == "member" || status == "administrator" || status == "creator"
  }

  /**
   * The notice chosen from the channel-membership lookup; None stands for a
   * lookup that raised, which is treated as "not a member".
   */
  function NoticeFor(membership: Option<string>): (n: ApprovalNotice)
    ensures n == RenewedNotice <==> membership.Some? && IsMember(membership.value)
    ensures membership.None? ==> n == InviteNotice
  {
    if membership.Some? && IsMember(membership.value) then RenewedNotice else InviteNotice
  }

  class SubscriptionBot {
    /** The users table, keyed by user_id. */
    var rows: Table

    ghost predicate Valid()
      reads this
    {
      Users.Valid(rows)
    }

    constructor ()
      ensures Valid() && rows == map[]
    {
      rows := map[];
    }

    /**
     * `handle_payment`: strip whitespace, validate, refuse an ID any row
     * already holds, otherwise upsert the user's row as pending.
     */
    method HandlePayment(userId: int, fullName: string, username: Option<string>, text: string, now: int)
      returns (reply: PaymentReply)
      requires Valid()
      modifies this
      ensures Valid()
      ensures reply == InvalidId <==> !TransactionId.WellFormed(RemoveSpaces(text))
      ensures reply == AlreadyUsed <==>
        TransactionId.WellFormed(RemoveSpaces(text)) && InUse(old(rows), RemoveSpaces(text))
      ensures !reply.Received? ==> rows == old(rows)
      ensures reply.Received? ==>
        && reply.transactionId == RemoveSpaces(text)
        && rows == Upsert(old(rows), userId, fullName, username, reply.transactionId, now)
        && reply.renewalNotice == (userId in old(rows) && old(rows)[userId].status.Active?)
        && reply.approveData == Callback.Format(Callback.Approve, userId)
        && reply.rejectData == Callback.Format(Callback.Reject, userId)
    {
      var t := RemoveSpaces(text);
      TransactionId.FullMatchMeaning(t);
      if !TransactionId.FullMatch(t) {
        return InvalidId;
      }
      if InUse(rows, t) {
        return AlreadyUsed;
      }
      var active := userId in rows && rows[userId].status.Active?;
      UpsertValid(rows, userId, fullName, username, t, now);
      if userId in rows {
        rows := rows[userId := rows[userId].(transactionId := t, status := Pending, createdAt := now)];
      } else {
        rows := rows[userId := Row(fullName, username, t, Pending, None, None, false, false, now)];
      }
      reply := Received(t, active, Callback.Format(Callback.Approve, userId), Callback.Format(Callback.Reject, userId));
    }

    /**
     * `admin_buttons`: unpack the callback data; on "approve", extend or
     * restart the window and activate the row. Any other action word, "reject"
     * included, leaves the table alone; unreadable data raises before any write.
     * `membership` is the channel-status lookup's answer, None if it raised.
     */
    method AdminButtons(data: string, now: int, membership: Option<string>) returns (reply: AdminReply)
      requires Valid()
      modifies this
      ensures Valid()
      ensures reply == Malformed <==> Callback.Parse(data).None?
      ensures reply.Approved? <==> Callback.Parse(data).Some? && Callback.Parse(data).value.action == "approve"
      ensures !reply.Approved? ==> rows == old(rows)
      ensures reply.Approved? ==>
        && reply.userId == Callback.Parse(data).value.userId
        && reply.newExpire == NewExpiry(PreviousExpiry(old(rows), reply.userId), now)
        && rows == Activate(old(rows), reply.userId, now, reply.newExpire)
        && reply.notice == NoticeFor(membership)
    {
      var press := Callback.Parse(data);
      if press.None? {
        return Malformed;
      }
      if press.value.action != "approve" {
        return NotApproved;
      }
      var userId := press.value.userId;
      var newExpire := NewExpiry(PreviousExpiry(rows, userId), now);
      ApproveValid(rows, userId, now);
      ghost var activated := Activate(rows, userId, now, newExpire);
      if userId in rows {
        rows := rows[userId := rows[userId].(status := Active, startDate := Some(now), expireDate := Some(newExpire),
                                             reminder1 := false, reminder2 := false)];
      }
      assert rows == activated;
      reply := Approved(userId, newExpire, NoticeFor(membership));
    }

    /**
     * `check_expire`: snapshot the active rows, then for each one in turn
     * apply its action with a single-row UPDATE. The snapshot's order is the
     * database's and is not fixed here. Returns the message each user was sent.
     */
    method CheckExpire(now: int) returns (sent: map<int, Sweep.Action>)
      requires Valid()
      modifies this
      ensures Valid()
      ensures rows == Sweep.Swept(old(rows), now)
      ensures sent == Sweep.SweepActions(old(rows), now)
    {
      var snapshot := map u | u in rows && rows[u].status.Active? :: rows[u];
      ghost var start := rows;
      var todo := snapshot.Keys;
      sent := map[];
      Sweep.ProgressStart(start, now, todo);
      while todo != {}
        invariant todo <= snapshot.Keys
        invariant forall u :: u in todo ==> snapshot[u] == start[u]
        invariant Sweep.Progress(start, now, todo, rows, sent)
        decreases todo
      {
        if forall v :: v !in todo {
          assert false;
        }
        var u :| u in todo;
        Sweep.ProgressStep(start, now, todo, rows, sent, u);
        var action := SweepUser(u, snapshot[u], now);
        if action != Sweep.Keep {
          sent := sent[u := action];
        }
        todo := todo - {u};
      }
      Sweep.ProgressDone(start, now, rows, sent);
      Sweep.SweptValid(start, now);
    }

    /**
     * One pass of the loop in `check_expire`: the `if / elif / elif` on the
     * snapshot's copy of the row, and the single-row UPDATE it issues.
     */
    method SweepUser(u: int, user: Row, now: int) returns (action: Sweep.Action)
      requires u in rows && user.status.Active? && user.expireDate.Some?
      modifies this
      ensures action == Sweep.Policy(user.expireDate.value, user.reminder1, user.reminder2, now)
      ensures rows == old(rows)[u := Sweep.Apply(old(rows)[u], action)]
    {
      var expire := user.expireDate.value;
      var daysLeft := Days(expire - now);
      action := Sweep.Keep;
      if daysLeft == 2 && !user.reminder2 {
        rows := rows[u := rows[u].(reminder2 := true)];
        action := Sweep.Remind2;
      } else if daysLeft == 1 && !user.reminder1 {
        rows := rows[u := rows[u].(reminder1 := true)];
        action := Sweep.Remind1;
      } else if now > expire {
        rows := rows[u := rows[u].(status := Expired)];
        action := Sweep.Expire;
      }
    }

    /** `/mysub`: only an active row answers; the days left are floored and are negative once overdue. */
    method MySub(userId: int, now: int) returns (info: SubscriptionInfo)
      requires Valid()
      ensures info.Subscription? <==> userId in rows && rows[userId].status.Active?
      ensures info.Subscription? ==>
        && Some(info.expireDate) == rows[userId].expireDate
        && info.remainingDays * DAY <= info.expireDate - now < info.remainingDays * DAY + DAY
        && (info.remainingDays < 0 <==> now > info.expireDate)
    {
      if userId in rows && rows[userId].status.Active? {
        var expire := rows[userId].expireDate.value;
        info := Subscription(expire, Days(expire - now));
      } else {
        info := NoActiveSubscription;
      }
    }
  }
}
