/** Instants and calendar days.
    An instant is a count of nanoseconds since the Unix epoch (the unit of a
    pandas Timestamp); a calendar day is the number of whole days since
    1970-01-01. Time zones are not modelled: every instant is naive. */
module Dates {

  const NanosPerDay: int := 86_400_000_000_000

  /** The day the tracker starts counting from, 2025-02-10. */
  const StartDay: int := 20129

  /** The calendar day an instant falls on (floor division, also for
      instants before the epoch). */
  function DayOf(t: int): int
  {
    t / NanosPerDay
  }

  predicate IsMidnight(t: int)
  {
    t % NanosPerDay == 0
  }

  /** Normalizing an instant to midnight: the time of day is discarded and
      the calendar day is kept. */
  function Midnight(t: int): (m: int)
    ensures IsMidnight(m)
    ensures m <= t < m + NanosPerDay
    ensures DayOf(m) == DayOf(t)
  {
    t - t % NanosPerDay
  }

  /** The midnight that begins calendar day `d`. */
  function StartOfDay(d: int): (m: int)
    ensures IsMidnight(m) && DayOf(m) == d
  {
    d * NanosPerDay
  }

  /** Normalizing is idempotent, and a midnight is determined by its day. */
  lemma MidnightIdempotent(t: int)
    ensures Midnight(Midnight(t)) == Midnight(t)
    ensures Midnight(t) == StartOfDay(DayOf(t))
  {
  }
}
