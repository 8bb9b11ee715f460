/** The business-hours predicate of a report run: does a row's local time
    fall inside one of its store's opening windows for that weekday? */
module BusinessHours {

  import opened Instants

  /** A `datetime.time` value as seconds since midnight. */
  type ClockTime = t: int | 0 <= t < SecondsPerDay

  /** A `business_hours` row; a store may have several per weekday. */
  datatype BusinessHoursRow = BusinessHoursRow(storeId: string, dayOfWeek: int, startTimeLocal: ClockTime, endTimeLocal: ClockTime)

  predicate Applies(h: BusinessHoursRow, storeId: string, day: int)
  {
    h.storeId == storeId && h.dayOfWeek == day
  }

  /** The window of a row on the observation's own date: both bounds keep
      only their hour and minute (`replace(..., second=0, microsecond=0)`),
      and both are inclusive. */
  predicate InWindow(h: BusinessHoursRow, timeOfDay: int)
  {
    TruncateToMinute(h.startTimeLocal) <= timeOfDay <= TruncateToMinute(h.endTimeLocal)
  }

  /** The list comprehension selecting the rows of one store and weekday. */
  function RowsFor(rows: seq<BusinessHoursRow>, storeId: string, day: int): (r: seq<BusinessHoursRow>)
    ensures forall h :: h in r <==> h in rows && Applies(h, storeId, day)
  {
    if rows == [] then []
    else (if Applies(rows[0], storeId, day) then [rows[0]] else []) + RowsFor(rows[1..], storeId, day)
  }

  /** The scan that returns as soon as one window contains the time of day. */
  function AnyWindowContains(hours: seq<BusinessHoursRow>, timeOfDay: int): (b: bool)
    ensures b <==> exists h :: h in hours && InWindow(h, timeOfDay)
  {
    if hours == [] then false
    else if InWindow(hours[0], timeOfDay) then true
    else AnyWindowContains(hours[1..], timeOfDay)
  }

  /** `is_within_business_hours`: open when the store has no row for the
      weekday of `wall`, otherwise open exactly when some row of that weekday
      has a window containing the time of day. */
  function IsWithinBusinessHours(rows: seq<BusinessHoursRow>, storeId: string, wall: int): (b: bool)
    ensures b <==>
      (forall h :: h in rows ==> !Applies(h, storeId, Weekday(wall))) ||
      (exists h :: h in rows && Applies(h, storeId, Weekday(wall)) && InWindow(h, SecondOfDay(wall)))
  {
    var hours := RowsFor(rows, storeId, Weekday(wall));
    if hours == [] then true else AnyWindowContains(hours, SecondOfDay(wall))
  }

  /** A store with no rows at all is open around the clock. */
  lemma NoRowsAlwaysOpen(rows: seq<BusinessHoursRow>, storeId: string, wall: int)
    requires forall h :: h in rows ==> h.storeId != storeId
    ensures IsWithinBusinessHours(rows, storeId, wall)
  {
  }

  /** The fallback is per weekday, not per store: a store whose rows all name
      other weekdays is open all day on this one. */
  lemma NoRowsForWeekdayKeeps(rows: seq<BusinessHoursRow>, storeId: string, wall: int)
    requires exists h :: h in rows && h.storeId == storeId
    requires forall h :: h in rows && h.storeId == storeId ==> h.dayOfWeek != Weekday(wall)
    ensures IsWithinBusinessHours(rows, storeId, wall)
  {
  }

  /** Both bounds of a window are inclusive. */
  lemma WindowBoundsIncluded(rows: seq<BusinessHoursRow>, h: BusinessHoursRow, wall: int)
    requires h in rows && h.dayOfWeek == Weekday(wall)
    requires SecondOfDay(wall) == TruncateToMinute(h.startTimeLocal) || SecondOfDay(wall) == TruncateToMinute(h.endTimeLocal)
    requires h.startTimeLocal <= h.endTimeLocal
    ensures IsWithinBusinessHours(rows, h.storeId, wall)
  {
    assert TruncateToMinute(h.startTimeLocal) <= TruncateToMinute(h.endTimeLocal);
    assert Applies(h, h.storeId, Weekday(wall)) && InWindow(h, SecondOfDay(wall));
  }

  /** When the store has rows for the weekday and none of their windows
      contains the time of day, the row is dropped. */
  lemma OutsideEveryWindowDropped(rows: seq<BusinessHoursRow>, storeId: string, wall: int)
    requires exists h :: h in rows && Applies(h, storeId, Weekday(wall))
    requires forall h :: h in rows && Applies(h, storeId, Weekday(wall)) ==> !InWindow(h, SecondOfDay(wall))
    ensures !IsWithinBusinessHours(rows, storeId, wall)
  {
  }

  /** A single window closing at a whole minute: thirty seconds after the
      closing minute is outside. */
  lemma HalfMinuteAfterCloseDropped(h: BusinessHoursRow, wall: int)
    requires h.dayOfWeek == Weekday(wall)
    requires h.endTimeLocal % SecondsPerMinute == 0
    requires SecondOfDay(wall) == h.endTimeLocal + 30
    ensures !IsWithinBusinessHours([h], h.storeId, wall)
  {
    assert Applies(h, h.storeId, Weekday(wall)) && !InWindow(h, SecondOfDay(wall));
  }

  /** The seconds of a closing time are dropped: a window stored as ending at
      hh:mm:45 closes at hh:mm:00, so hh:mm:30 is already outside. */
  lemma ClosingSecondsIgnored(h: BusinessHoursRow, wall: int)
    requires h.dayOfWeek == Weekday(wall)
    requires TruncateToMinute(h.endTimeLocal) < SecondOfDay(wall) <= h.endTimeLocal
    ensures !IsWithinBusinessHours([h], h.storeId, wall)
  {
    assert Applies(h, h.storeId, Weekday(wall)) && !InWindow(h, SecondOfDay(wall));
  }
}
