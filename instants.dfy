/** Instants and wall-clock arithmetic, in whole seconds.
    An instant is a count of seconds since the Unix epoch; a wall-clock
    value is the same count read in a store's local zone. */
module Instants {

  const SecondsPerMinute: int := 60
  const SecondsPerHour: int := 3600
  const SecondsPerDay: int := 86400
  const SecondsPerWeek: int := 604800

  /** Weekday of 1970-01-01 (a Thursday), counting Monday as 0 as Python's
      `datetime.weekday()` does. */
  const EpochWeekday: int := 3

  function Min(a: int, b: int): int { if a <= b then a else b }

  function Max(a: int, b: int): int { if a >= b then a else b }

  /** `datetime.weekday()` of a wall-clock value: Monday = 0 ... Sunday = 6. */
  function Weekday(wall: int): (d: int)
    ensures 0 <= d < 7
  {
    (wall / SecondsPerDay + EpochWeekday) % 7
  }

  /** The numbering is anchored to the calendar: 2023-01-02, day 19359 of
      the epoch, was a Monday, which `weekday()` numbers 0. */
  lemma MondayIsZero()
    ensures Weekday(19359 * SecondsPerDay) == 0
  {
  }

  /** The next day has the next weekday, Sunday (6) wrapping round to
      Monday (0). */
  lemma {:induction false} WeekdayNextDay(wall: int)
    ensures Weekday(wall + SecondsPerDay) == (Weekday(wall) + 1) % 7
  {
    assert (wall + SecondsPerDay) / SecondsPerDay == wall / SecondsPerDay + 1;
  }

  /** The weekday and the time of day describe the same date: the wall
      clock is the start of its day plus the second of the day. */
  lemma DaySplit(wall: int)
    ensures wall == (wall / SecondsPerDay) * SecondsPerDay + SecondOfDay(wall)
  {
  }

  /** Seconds since local midnight of a wall-clock value. */
  function SecondOfDay(wall: int): (t: int)
    ensures 0 <= t < SecondsPerDay
  {
    wall % SecondsPerDay
  }

  /** `time.replace(second=0, microsecond=0)` on a time of day given in seconds. */
  function TruncateToMinute(t: int): (r: int)
    ensures r % SecondsPerMinute == 0
    ensures r <= t < r + SecondsPerMinute
  {
    t / SecondsPerMinute * SecondsPerMinute
  }
}
