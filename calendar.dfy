/** Calendar-day arithmetic of the archiver: days inactive is the difference
    of the Modified Julian Day numbers of two local dates, not elapsed time
    divided by 24 hours. */
module Calendar {
  import opened Ledger

  const SecondsPerDay: int := 24 * 60 * 60

  /** The Modified Julian Day of 1970-01-01. */
  const UnixEpochMjd: int := 40587

  /** The Modified Julian Day of the local date of `t`, for a zone
      `utcOffset` seconds east of UTC (`to_date.mjd`). Dafny's `/` with a
      positive divisor rounds down, which is the day a negative instant falls
      in too. */
  function Mjd(t: Instant, utcOffset: int): (day: int)
    ensures (day - UnixEpochMjd) * SecondsPerDay <= t + utcOffset < (day - UnixEpochMjd + 1) * SecondsPerDay
  {
    (t + utcOffset) / SecondsPerDay + UnixEpochMjd
  }

  /** `Time.now.to_date.mjd - last.to_date.mjd`. */
  function DaysInactive(now: Instant, last: Instant, utcOffset: int): int
  {
    Mjd(now, utcOffset) - Mjd(last, utcOffset)
  }

  /** Day numbers never run backwards. */
  lemma MjdMonotone(s: Instant, t: Instant, utcOffset: int)
    requires s <= t
    ensures Mjd(s, utcOffset) <= Mjd(t, utcOffset)
  {
  }

  /** Days inactive is at least the number of whole 24-hour periods elapsed
      and at most one more, and is never negative for a past instant. */
  lemma DaysInactiveBounds(now: Instant, last: Instant, utcOffset: int)
    requires last <= now
    ensures 0 <= DaysInactive(now, last, utcOffset)
    ensures (now - last) / SecondsPerDay <= DaysInactive(now, last, utcOffset) <= (now - last) / SecondsPerDay + 1
  {
  }

  /** Two minutes across local midnight count as one day inactive, while
      almost a whole day within one local date counts as none. */
  lemma MidnightCounts(midnight: Instant, utcOffset: int)
    requires (midnight + utcOffset) % SecondsPerDay == 0
    ensures DaysInactive(midnight + 60, midnight - 60, utcOffset) == 1
    ensures DaysInactive(midnight + SecondsPerDay - 1, midnight, utcOffset) == 0
  {
  }
}
