# Subscription lifecycle of a Telegram payment bot

This project models the core of `payment_bot.py`. The bot sells time-limited
access to a Telegram channel.

- A user sends a payment transaction ID in a private chat. The bot strips
  whitespace and accepts only a 9-digit (mobile wallet) or 20-digit (bank
  transfer) ID. It refuses an ID that any row of the `users` table already
  holds. Otherwise it stores the ID on the user's row with status `pending`.
- An admin presses "Approve" or "Reject". The button's callback data is
  `approve_<user_id>` or `reject_<user_id>`. Approve activates the row for
  thirty days. If the old expiry is still in the future, the thirty days are
  added to it; otherwise they start from now. Both reminder flags are cleared.
  Reject writes nothing.
- Every hour a sweep takes a snapshot of the active rows. Each row gets at
  most one of: the 2-day reminder, the 1-day reminder, or expiry. "Days left"
  is the floor of the time remaining, in whole days.
- `/mysub` reports the expiry of the user's active row and the whole days
  left.

The table is a `map` from `user_id` to `Row`, because `user_id` is the
primary key. The UNIQUE constraint on `transaction_id` and the dates carried
by active rows form the invariant `Users.Valid`. Every operation preserves it.

Modules:

- `Text`: whitespace and digits. `re.sub(r"\s+", "", s)` uses Python's
  `str.isspace` set. The trimming that `int()` does uses the narrower set
  that `int()` skips, which leaves out U+001C to U+001F.
- `TransactionId`: the pattern `\d{9}|\d{20}`, written one digit at a time,
  and its meaning.
- `Callback`: builds and parses the callback data (`str(int)`,
  `str.split`, `int()`).
- `Clock`: seconds, `timedelta.days` as floor division, and the expiry an
  approval grants.
- `Users`: the row and the table, the upsert, the activation UPDATE, and
  their invariants.
- `Sweep`: the per-row policy of the expiry sweep and its effect on the whole
  table.
- `Bot`: the class `SubscriptionBot`. It holds the table, and its methods are
  the four handlers. `CheckExpire` is the sweep loop. Its invariant says that
  the rows handled so far have been updated and the rest are untouched.

Timestamps are integers (seconds), and `now` is a parameter of every
operation. Telegram calls are replaced by the values the methods return:
`PaymentReply` for the replies to the user and the admin-group buttons,
`AdminReply` with the renewal-or-invite notice, and the map of per-user
actions that `CheckExpire` returns.

The model follows the code in these points:

- A resubmission keeps the row's old `name` and `username`. It overwrites
  `created_at` (`Users.Upsert`).
- Expiry and resubmission leave the reminder flags as they were. Only an
  approval clears them.
- `/mysub` can report a negative number of days. This happens for an active
  row whose expiry has passed but which the next hourly sweep has not yet
  expired (`Bot.SubscriptionBot.MySub`).
- Resubmitting while active turns the row to `pending`. The sweep only looks
  at active rows, so until an approval no sweep reminds or expires that row
  (`Sweep.ResubmissionLeavesSweep`).

## Model

| member | source | states |
|---|---|---|
| `Text.RemoveSpaces` | payment_bot.py:115 | the result has no whitespace, is no longer than the input, leaves whitespace-free input as it is and empties all-whitespace input |
| `Text.RemoveSpacesAppend` | payment_bot.py:115 | removing whitespace distributes over concatenation |
| `Text.RemoveSpacesKeeps` | payment_bot.py:115 | every non-whitespace character of the message survives normalisation |
| `Text.PaddingIgnored` | payment_bot.py:115 | whitespace before and after a message does not change the normalised ID |
| `Text.TrimStart` | payment_bot.py:190 | the result is the suffix left after the longest prefix of whitespace that `int()` skips |
| `Text.TrimEnd` | payment_bot.py:190 | the result is the prefix left before the longest suffix of whitespace that `int()` skips |
| `Text.TrimStartSkips` | payment_bot.py:190 | leading skippable whitespace makes no difference to the left trim |
| `Text.TrimEndSkips` | payment_bot.py:190 | trailing skippable whitespace makes no difference to the right trim |
| `Text.TrimPadded` | payment_bot.py:190 | around a string with no skippable whitespace at either end, `int()` strips exactly the padding |
| `TransactionId.DigitRunMeaning` | payment_bot.py:118 | `\d{n}` matches a whole string exactly when it is n digits |
| `TransactionId.FullMatchMeaning` | payment_bot.py:118 | `\d{9}\|\d{20}` accepts exactly the 9-digit and the 20-digit strings |
| `TransactionId.PaddedIdAccepted` | payment_bot.py:115-118 | a well-formed ID with whitespace around it is accepted and stored as the bare ID |
| `TransactionId.StrayCharacterRejected` | payment_bot.py:115-125 | a message containing any character that is neither whitespace nor a digit is rejected |
| `Callback.NatToString` | payment_bot.py:172-173 | decimal notation is non-empty, all digits, and starts with 0 only for zero |
| `Callback.NatToStringRoundTrip` | payment_bot.py:172-190 | reading back the decimal notation of a number gives the number |
| `Callback.ParseSigned` | payment_bot.py:190 | once trimmed, `int()` succeeds exactly on digits or a sign followed by digits, and yields their value, negated after `-` |
| `Callback.ParseIntPadded` | payment_bot.py:190 | skippable whitespace around the number does not change what `int()` reads |
| `Callback.SeparatorNotSkipped` | payment_bot.py:189-190 | U+001C is whitespace to `str.isspace()` but not to `int()`: `int("\x1c5")` fails, and so does `approve_\x1c5` |
| `Callback.SignedRoundTrip` | payment_bot.py:172-190 | `str(i)` has no whitespace that `int()` skips at either end and its sign and digits read back as `i` |
| `Callback.IntToStringRoundTrip` | payment_bot.py:172-190 | `int(str(i)) == i` for every integer, including negative ones |
| `Callback.Split` | payment_bot.py:189 | `split("_")` returns one more piece than there are separators, and no piece contains one |
| `Callback.JoinSplit` | payment_bot.py:189 | joining the pieces of a split with the separator gives back the string |
| `Callback.SplitPrefix` | payment_bot.py:189 | a separator-free prefix is glued to the first piece of the rest |
| `Callback.SplitJoin` | payment_bot.py:189 | splitting a join of separator-free pieces gives back the pieces |
| `Callback.Parse` | payment_bot.py:189-190 | data that unpacks has exactly one `_`, and the action word contains none |
| `Callback.FormatParseRoundTrip` | payment_bot.py:172-190 | the data of a button built for a user parses back to that button's action word and that user's id |
| `Callback.OnlyApproveApproves` | payment_bot.py:172-192 | of the two buttons, only Approve carries the word the handler acts on |
| `Clock.Days` | payment_bot.py:101 | `.days` is the floor: `d*DAY <= delta < (d+1)*DAY` |
| `Clock.DaysNegative` | payment_bot.py:259 | the day count is negative exactly when the expiry is in the past |
| `Clock.NewExpiry` | payment_bot.py:203-207 | the new expiry is at least now + 30 days, at least the old expiry + 30 days, and one of the two |
| `Clock.RenewalExtends` | payment_bot.py:203-205 | renewing before the old expiry extends it by 30 days |
| `Clock.LapsedRestarts` | payment_bot.py:203-207 | with no expiry or a lapsed one, the window restarts at now + 30 days |
| `Users.Upsert` | payment_bot.py:153-167 | the user's row gets the ID, `pending` and `created_at = now`; an existing row keeps name, username, window and flags; a new row has none; no other row changes |
| `Users.UpsertValid` | payment_bot.py:132-167 | storing an ID that no row holds keeps IDs unique and active rows dated |
| `Users.SubmittedIdInUse` | payment_bot.py:132-167 | once stored, the same ID is refused by the duplicate check, from this user or another |
| `Users.ResubmissionFreesOldId` | payment_bot.py:153-160 | a user's new ID overwrites the old one, which no row holds afterwards |
| `Users.PreviousExpiry` | payment_bot.py:198-203 | there is an old expiry exactly when the row exists and its expiry is not NULL |
| `Users.Activate` | payment_bot.py:209-217 | the user's row becomes active with the new window and both flags cleared; ID, names and `created_at` are kept; with no row nothing changes |
| `Users.ApproveValid` | payment_bot.py:203-217 | approval keeps IDs unique and gives the active row a window of at least 30 days |
| `Sweep.Policy` | payment_bot.py:259-281 | the 2-day (1-day) reminder exactly when its flag is unset and 2 (1) whole days are left; expiry exactly when now is past the expiry; otherwise not overdue |
| `Sweep.PolicyQuietEarly` | payment_bot.py:259-281 | with three or more days left, nothing happens |
| `Sweep.PolicyNoRepeat` | payment_bot.py:261-269 | a reminder whose flag is set is never chosen again |
| `Sweep.Apply` | payment_bot.py:261-279 | a reminder sets its own flag, expiry sets the status to expired, and nothing else in the row changes |
| `Sweep.RowAction` | payment_bot.py:250-252 | only rows that are active are acted on |
| `Sweep.Swept` | payment_bot.py:250-281 | the sweep keeps every key, leaves every row that is not active unchanged and keeps active rows dated |
| `Sweep.SweepActions` | payment_bot.py:256-281 | a message goes only to a row that was active, and is a reminder or expiry |
| `Sweep.SweepSends` | payment_bot.py:256-281 | the 2-day (1-day) reminder goes exactly to active rows with 2 (1) whole days left and the flag unset; the expiry notice goes exactly to active rows past their expiry |
| `Sweep.ProgressStart` | payment_bot.py:250-256 | before the loop, every active row is still to do and nothing is sent |
| `Sweep.ProgressStep` | payment_bot.py:256-281 | handling one row applies its action and records its message |
| `Sweep.ProgressDone` | payment_bot.py:256-281 | after the last row the table and messages are `Swept` and `SweepActions` |
| `Sweep.SweptValid` | payment_bot.py:256-281 | the sweep keeps IDs unique and active rows dated |
| `Sweep.SweptExpiredExactly` | payment_bot.py:271-279 | after a sweep a row is expired exactly when it was already, or was active with now past its expiry |
| `Sweep.SweptReminded` | payment_bot.py:261-269 | after a sweep a flag is set exactly when it was already set or the active row had 2 (1) whole days left; the other columns apart from the status are untouched |
| `Sweep.RowIdempotent` | payment_bot.py:261-281 | a row just swept gets no further action at the same time |
| `Sweep.SweepIdempotent` | payment_bot.py:256-281 | a second sweep at the same time changes nothing and sends nothing |
| `Sweep.Sweeps` | payment_bot.py:247-281 | a run of hourly sweeps with no other operation in between keeps every key and keeps active rows dated |
| `Sweep.SweepsKeepFlags` | payment_bot.py:261-269 | a set reminder flag stays set through any run of sweeps |
| `Sweep.SweepsKeepInactive` | payment_bot.py:251 | a row that is not active is untouched by any run of sweeps |
| `Sweep.ReminderSentOnce` | payment_bot.py:261-269 | a reminder sent by one sweep is not sent again by any sweep in a run that follows it, whenever those sweeps happen, as long as no approval (which clears the flags, lines 214-215) comes in between |
| `Sweep.ResubmissionLeavesSweep` | payment_bot.py:153-167 | after a resubmission the user's row is pending; a run of sweeps at any times, with no approval in between, leaves it unchanged, and none of them messages the user |
| `Bot.NoticeFor` | payment_bot.py:219-241 | a renewal notice exactly for a member, administrator or creator; a failed lookup gets an invite |
| `Bot.SubscriptionBot.HandlePayment` | payment_bot.py:110-180 | rejects exactly the malformed IDs, then exactly the IDs any row holds, without changing the table; otherwise upserts, reports whether the user was active and builds both buttons' data; keeps `Valid` |
| `Bot.SubscriptionBot.AdminButtons` | payment_bot.py:184-243 | unreadable data and any action other than "approve" change nothing; approve activates with `NewExpiry` of the old expiry and picks the notice; keeps `Valid` |
| `Bot.SubscriptionBot.CheckExpire` | payment_bot.py:247-281 | the table becomes `Swept(old, now)` and the messages sent are `SweepActions(old, now)`, whatever order the snapshot is visited in; keeps `Valid` |
| `Bot.SubscriptionBot.SweepUser` | payment_bot.py:261-281 | one loop pass applies the policy's action to that row only |
| `Bot.SubscriptionBot.MySub` | payment_bot.py:86-106 | answers exactly for an active row, with its expiry and the floored days left, which are negative exactly when overdue |

## Left out

- The health-check HTTP server and its thread (payment_bot.py:25-39). This is hosting plumbing.
- Pool creation, the DDL and `asyncpg` (payment_bot.py:43-66). Only the PRIMARY KEY (the map key) and the UNIQUE constraint (`Users.UniqueIds`) are kept.
- `/start`, the handler wiring, the job-queue scheduling and the bootstrap (payment_bot.py:70-82, 285-301). They hold static text and framework setup.
- The private-chat checks (payment_bot.py:87, 112). They route messages and do not touch the table.
- All Telegram calls and message texts. This covers replies, sending, the membership lookup, invite links, ban/unban, editing the admin message, and `expire_date.date()` formatting. They become returned values. The membership lookup becomes the `membership` parameter, where None stands for a lookup that raised.
- Exceptions other than unreadable callback data. A failed `send_message` in the sweep aborts the rest of the sweep in the code; the model finishes every row. The swallowed ban/unban failure needs no model.
- Concurrency: the race between the duplicate check and the insert (payment_bot.py:132-167) is not modelled. The handlers run one at a time.
- `datetime.utcnow()` becomes the parameter `now`. Time is counted in whole seconds rather than microseconds. Day counts are floors either way.
- Unicode decimal digits: `\d` and `int()` also accept non-ASCII digits. The model accepts ASCII digits only.
- `Bot.SubscriptionBot.CheckExpire`: returns the set of messages as a map per user. The order in which they are sent is not modelled.
