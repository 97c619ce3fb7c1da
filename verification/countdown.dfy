/** The countdown engine shared by the check-in controller and the nightly
    status sweep. Instants are integer milliseconds since the epoch; a
    service period is a whole number of days. */
module Engine {

  /** Milliseconds in one day (1000 * 3600 * 24). */
  const DAY: int := 86_400_000

  /** Integer ceiling of n / d for a positive divisor, written with Dafny's
      Euclidean (flooring, for d > 0) division. */
  function CeilDiv(n: int, d: int): (q: int)
    requires d > 0
    ensures (q - 1) * d < n <= q * d
  {
    var f := (-n) / d;
    assert f * d <= -n < (f + 1) * d;
    -f
  }

  /** Whole days from instant `from` to instant `to`, rounded up, so that a
      partial day still counts as a day (Math.ceil of the millisecond
      difference over DAY). */
  function DaysBetween(from: int, to: int): (r: int)
    ensures (r - 1) * DAY < to - from <= r * DAY
  {
    CeilDiv(to - from, DAY)
  }

  /** The ceiling characterisation determines DaysBetween: no other integer
      satisfies the two bounds. */
  lemma DaysBetweenUnique(from: int, to: int, r: int)
    requires (r - 1) * DAY < to - from <= r * DAY
    ensures r == DaysBetween(from, to)
  {
  }

  /** Waiting exactly one day takes exactly one day off the calendar
      countdown. */
  lemma DaysBetweenNextDay(now: int, expiration: int)
    ensures DaysBetween(now + DAY, expiration) == DaysBetween(now, expiration) - 1
  {
    var q := DaysBetween(now, expiration);
    assert (q - 2) * DAY < expiration - (now + DAY) <= (q - 1) * DAY;
    DaysBetweenUnique(now + DAY, expiration, q - 1);
  }

  /** A later instant never leaves more calendar days. */
  lemma DaysBetweenMonotone(now1: int, now2: int, expiration: int)
    requires now1 <= now2
    ensures DaysBetween(now2, expiration) <= DaysBetween(now1, expiration)
  {
  }

  /** At an instant a whole number k of days after the start, the calendar
      countdown towards start + period days is exactly period - k. */
  lemma DaysBetweenWholeDays(start: int, period: int, k: int)
    ensures DaysBetween(start + k * DAY, ExpirationDate(start, period)) == period - k
  {
    DaysBetweenUnique(start + k * DAY, ExpirationDate(start, period), period - k);
  }

  /** The expiration instant: the start date moved forward `period` days. */
  function ExpirationDate(startDate: int, period: int): (e: int)
    ensures DaysBetween(startDate, e) == period
  {
    startDate + period * DAY
  }

  /** `c` is the countdown for a usage limit `usage` and `untilExpiry`
      milliseconds left before expiration: at most the usage limit, at most
      the whole days left rounded up, and equal to one of the two. */
  predicate IsCountdown(c: int, usage: int, untilExpiry: int) {
    && c <= usage
    && (c - 1) * DAY < untilExpiry
    && (c == usage || untilExpiry <= c * DAY)
  }

  /** At most one value is a countdown for given limits. */
  lemma IsCountdownUnique(c1: int, c2: int, usage: int, untilExpiry: int)
    requires IsCountdown(c1, usage, untilExpiry) && IsCountdown(c2, usage, untilExpiry)
    ensures c1 == c2
  {
  }

  /** The countdown: the binding one of the calendar limit and the usage
      limit, evaluated at instant `now`. */
  function Countdown(expiration: int, remainingDays: int, now: int): (c: int)
    ensures c <= DaysBetween(now, expiration) && c <= remainingDays
    ensures c == DaysBetween(now, expiration) || c == remainingDays
    ensures IsCountdown(c, remainingDays, expiration - now)
  {
    var daysUntilExpiration := DaysBetween(now, expiration);
    if daysUntilExpiration <= remainingDays then daysUntilExpiration else remainingDays
  }

  /** Using one more attendance day lowers the countdown by at most one and
      never raises it. */
  lemma CountdownAfterOneMoreDay(expiration: int, remainingDays: int, now: int)
    ensures var before := Countdown(expiration, remainingDays, now);
            before - 1 <= Countdown(expiration, remainingDays - 1, now) <= before
  {
  }

  /** The countdown never grows as time passes. */
  lemma CountdownMonotoneInTime(expiration: int, remainingDays: int, now1: int, now2: int)
    requires now1 <= now2
    ensures Countdown(expiration, remainingDays, now2) <= Countdown(expiration, remainingDays, now1)
  {
    DaysBetweenMonotone(now1, now2, expiration);
  }
}
