/**
 * Time as the bot uses it: a timestamp is a whole number of seconds, a
 * subscription term is thirty days, and `timedelta.days` is the floor of a
 * difference measured in days.
 */
module Clock {
  import opened Wrappers

  /** Seconds in a day. */
  const DAY: int := 86400

  /** `timedelta(days=30)`: the length of one paid period. */
  const TERM: int := 30 * DAY

  /** `(later - earlier).days` for a difference `delta` in seconds: the whole days, rounded down. */
  function Days(delta: int): (d: int)
    ensures d * DAY <= delta < d * DAY + DAY
  {
    delta / DAY
  }

  /** The floor-day count is negative exactly when the difference is. */
  lemma DaysNegative(delta: int)
    ensures Days(delta) < 0 <==> delta < 0
  {
  }

  /**
   * The expiry an approval grants: an existing expiry that is still in the
   * future is extended by a term; a missing or lapsed one restarts from now.
   */
  function NewExpiry(previous: Option<int>, now: int): (r: int)
    ensures r >= now + TERM
    ensures previous.Some? ==> r >= previous.value + TERM
    ensures r == now + TERM || (previous.Some? && r == previous.value + TERM)
  {
    if previous.Some? && previous.value > now then previous.value + TERM else now + TERM
  }

  /** Renewing before the old expiry loses no paid time: the new window ends one term after the old one. */
  lemma RenewalExtends(previous: int, now: int)
    requires previous > now
    ensures NewExpiry(Some(previous), now) == previous + TERM
  {
  }

  /** A lapsed or missing expiry is not carried forward: the window restarts from now. */
  lemma LapsedRestarts(previous: Option<int>, now: int)
    requires previous.None? || previous.value <= now
    ensures NewExpiry(previous, now) == now + TERM
  {
  }
}
