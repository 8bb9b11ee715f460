# Store uptime/downtime report, modelled in Dafny

This project models `generate_report`, the background job of the store-monitoring service. The job:

- reads every `store_status` poll, the `business_hours` rows and the `timezone_data` rows;
- converts each poll's UTC timestamp to the store's local time, with `America/Chicago` as the default zone;
- keeps the polls that fall inside the store's business hours for that weekday;
- sorts the kept polls by local time and records each poll's predecessor in `prev_status`;
- takes the latest local time over all polls, filtered or not, as the current time.

For every store it then estimates uptime and downtime over the last hour, day and week. The status of each poll is carried forward until the next poll of the same store. The run ends by marking its `report_status` record complete, with an empty payload when there were no polls at all.

The modules follow the steps of the job:

- `Instants`: time arithmetic in whole seconds. That covers the weekday, the second of the day and truncation to the minute.
- `StringOrder`: Python's `str` ordering and `sorted(set(...))`.
- `StoreStatuses`: a poll is a `class`, because the job overwrites its `local_time` and `prev_status` in place. Its loaded columns are `const`.
- `Timezones`: the zone map, the default zone and the loop that localises every poll.
- `BusinessHours`: the nested `is_within_business_hours` predicate.
- `Ordering`: the filter, the stable sort, the `prev_status` loop, the current time and the per-store selection.
- `Estimator`: the per-store loop and the separate weekly-uptime pass. Each is a `method` proved equal to a specification function. The lemmas are stated about those functions.
- `Report`: the whole run. `GenerateReport` returns the new state of the run's record, and `ReportRows` is the table it writes.

A localised time is a pair: the instant, in seconds since the epoch, and the wall-clock reading in the store's zone. Sorting, `max`, window bounds and overlaps use the instant. Python compares and subtracts aware datetimes through their UTC offsets, so the instant is exact. `weekday()` and the `replace(hour=..., minute=...)` window bounds use the wall clock. Each window's bounds are built from the poll's own `local_time`, so they carry the poll's tzinfo, so the comparison `start_time <= local_time <= end_time` is a wall-clock comparison.

Two consequences of the business-hours test are worth stating:

- The fallback is per weekday. A store with rows only for other weekdays is open all day on this one (`main.py:122-124`). `BusinessHours.NoRowsForWeekdayKeeps` states this.
- Window bounds lose their seconds (`main.py:126-127`). A poll at a stored `hh:mm:45` end is dropped, because the end becomes `hh:mm:00`. `BusinessHours.ClosingSecondsIgnored` states this.

## Model

| member | source | states |
|---|---|---|
| Instants.Weekday | main.py:122 | the weekday of a wall-clock time lies in 0..6 |
| Instants.MondayIsZero | main.py:122 | the numbering is the calendar's, with Monday as 0: 2023-01-02, a Monday, has weekday 0 |
| Instants.WeekdayNextDay | main.py:122 | one day later the weekday is one more, with Sunday (6) followed by Monday (0) |
| Instants.DaySplit | main.py:122-128 | the weekday and the time of day refer to the same date: a wall-clock time is its day's start plus its second of the day |
| Instants.SecondOfDay | main.py:126-128 | the time of day lies in [0, 86400) seconds |
| Instants.TruncateToMinute | main.py:126-127 | `replace(second=0)` yields a whole minute no later than the time and less than a minute before it |
| StringOrder.BelowIrreflexive | main.py:155 | no store id sorts before itself |
| StringOrder.BelowTransitive | main.py:155 | the order on store ids is transitive |
| StringOrder.BelowTotal | main.py:155 | any two different store ids are ordered one way or the other |
| StringOrder.SortedDistinct | main.py:155 | `sorted(set(ids))` is strictly ascending and holds exactly the ids of the input |
| Timezones.TimezoneMap | main.py:114 | the map's keys are exactly the stores that have a timezone row, and a store's last row gives its zone |
| Timezones.ZoneLookup | main.py:114-118 | a store without a row gets `America/Chicago`; otherwise it gets the zone of its last row |
| Timezones.Localized | main.py:119 | localising keeps the instant of the UTC timestamp |
| Timezones.LocalizeAll | main.py:117-119 | afterwards every poll's local time is its UTC timestamp read in its store's zone; nothing but `local_time` changes |
| BusinessHours.RowsFor | main.py:122 | selects exactly the rows of the given store and weekday |
| BusinessHours.AnyWindowContains | main.py:125-130 | true exactly when some window contains the time of day |
| BusinessHours.IsWithinBusinessHours | main.py:121-130 | open exactly when the store has no row for that weekday, or when some row for that weekday has a closed, minute-truncated window containing the time of day |
| BusinessHours.NoRowsAlwaysOpen | main.py:123-124 | a store with no business-hours rows is open at every time |
| BusinessHours.NoRowsForWeekdayKeeps | main.py:122-124 | the fallback is per weekday: a store whose rows all name other weekdays is open all day |
| BusinessHours.WindowBoundsIncluded | main.py:126-128 | a poll exactly at a window's opening or closing minute is kept |
| BusinessHours.OutsideEveryWindowDropped | main.py:125-130 | a poll outside every window of its weekday is dropped |
| BusinessHours.HalfMinuteAfterCloseDropped | main.py:127-128 | a poll 30 seconds after a whole-minute closing time is dropped |
| BusinessHours.ClosingSecondsIgnored | main.py:127-128 | the seconds of a closing time are ignored, so a poll between the closing minute and the stored closing second is dropped |
| Ordering.FilterByBusinessHours | main.py:133 | the filtered list holds only polls of the input |
| Ordering.FilterAppend | main.py:133 | the filter keeps the input order: filtering a concatenation is the concatenation of the filtered parts |
| Ordering.FilterWithKey | main.py:133 | taking the polls of one instant commutes with the filter, so same-instant polls keep their input order |
| Ordering.FilterKeepsExactly | main.py:133 | a poll survives the filter exactly when it lies inside its store's business hours |
| Ordering.SortByLocalTime | main.py:136 | the sort is a permutation, and its result is ordered by instant |
| Ordering.SortIsStable | main.py:136 | for every instant, the polls that share it keep their relative order |
| Ordering.ChainPrevStatus | main.py:139-140 | every poll after the first gets the status of the poll before it in the whole sorted list, whatever its store; the first poll's `prev_status` is untouched |
| Ordering.LatestInstant | main.py:148 | the result is the instant of some poll, and no poll is later |
| Ordering.StatusesOf | main.py:156 | the selected polls belong to the list and to the store |
| Ordering.StatusesOfExactly | main.py:156 | a poll of the list is selected exactly when it belongs to the store |
| Ordering.StatusesOfSorted | main.py:156 | selecting one store's polls from a sorted list keeps them sorted |
| Estimator.WindowsEndingAt | main.py:148-151 | the windows are ordered week < day < hour < current time, with lengths of 1 hour, 24 hours and 168 hours |
| Estimator.Minutes | main.py:172 | a duration in minutes is positive exactly when the duration in seconds is |
| Estimator.Hours | main.py:182 | a duration in hours is positive exactly when the duration in seconds is |
| Estimator.Clipped | main.py:169-173 | a credited overlap is at most the window's length and at most the gap; it is positive exactly when the gap and the window intersect, so the extra `curr > one_hour_ago` test never changes a bucket |
| Estimator.ShareSplits | main.py:173-177 | each credited second of a gap goes to exactly one bucket, and to uptime only when the earlier poll is exactly "active" |
| Estimator.CoveredUpToLast | main.py:164-198 | for a sorted series, the two buckets of a window together cover at most the part of the window up to the last poll |
| Estimator.BucketsWithinWindow | main.py:164-198 | for a sorted series, uptime plus downtime of a window is at most the window's length |
| Estimator.RowBounds | main.py:164-198 | no bucket is negative; the hour buckets add up to at most 60 minutes, the day buckets to at most 24 hours; weekly downtime is at most 168 hours |
| Estimator.ShortSeriesAllZero | main.py:158-164 | a store with at most one poll gets all five buckets zero |
| Estimator.WeeklyPassIsClippedUptime | main.py:200-206 | the weekly-uptime pass has no positivity test, yet on a sorted series ending no later than the current time it equals the clipped weekly uptime |
| Estimator.WeeklyTotalsWithinWeek | main.py:189-206 | weekly uptime (computed, not emitted) plus weekly downtime is at most 168 hours |
| Estimator.CarriedForward | main.py:164-187 | an "active" poll before the window followed by an inactive one inside it credits uptime from the window start to the inactive poll, then downtime from that poll on |
| Estimator.EstimateStore | main.py:158-216 | the three-window loop computes exactly the bucket function of the store's polls; the row has no weekly-uptime field |
| Estimator.WeeklyUptime | main.py:200-206 | the second loop computes exactly the weekly-uptime function |
| Report.StoreIdsOf | main.py:155 | one id per poll, in order |
| Report.RowsAscending | main.py:155 | the output rows are in strictly ascending store order, so no store appears twice |
| Report.EveryStoreHasRow | main.py:155-156 | every store with a kept poll has a row |
| Report.EveryRowHasStore | main.py:155 | every row belongs to a store with a kept poll |
| Report.StoreRowBounds | main.py:155-216 | for sorted polls no later than the current time, a store's row keeps every bound of `RowBounds` and `WeeklyTotalsWithinWeek`, and is all zero with at most one poll |
| Report.RunWithinCurrentTime | main.py:133-148 | in a run with polls, the kept polls are sorted and none is later than the current time, which is taken over all polls |
| Report.ReportRowsBounded | main.py:155-216 | every row of the table is non-negative, within 60 minutes, 24 hours and 168 hours, and all zero for a store with at most one poll |
| Report.BuildRows | main.py:154-216 | the loop over sorted store ids appends exactly the table `ReportRows` |
| Report.SelectionFacts | main.py:133-136 | the filtered and sorted list holds only polls of the input, none twice |
| Report.SelectionKeepsInputOrder | main.py:133-140 | the kept polls that share an instant appear in the sorted list in their input order, whatever their stores, which fixes each poll's predecessor in the chain |
| Report.ChainWithin | main.py:139-140 | the chaining loop over distinct rows of the input chains them, and every row outside the chained list, like the list's first row, keeps its old `prev_status` |
| Report.SelectAndChain | main.py:133-140 | it returns the filtered, sorted list and chains it; only `prev_status` changes, and a dropped poll or the first kept poll keeps its old `prev_status` |
| Report.PrepareStatuses | main.py:113-140 | every poll is localised; the returned list is the filtered, sorted list and it is chained; dropped polls and the first kept poll keep their `prev_status` |
| Report.SummariseStores | main.py:143-216 | no polls at all gives the empty payload; otherwise it gives the table for the windows ending at the latest local time |
| Report.RunWithZones | main.py:113-216 | localised, chained with dropped polls and the first kept poll left alone, and the payload as in `SummariseStores`, all in the final state |
| Report.GenerateReport | main.py:103-228 | an unknown zone name leaves the record running and changes no poll; otherwise the polls are localised and chained, dropped polls and the first kept poll keep their `prev_status`, and the record is complete, with the empty payload for no polls or else the table of per-store rows |
| StoreStatuses.StoreStatus.constructor | main.py:28-35 | a poll as loaded: all five fields as given |

## Left out

- The database session, the three queries, `commit`, `rollback` and `close` are left out. So are the FastAPI endpoints and the `print` calls. The run's inputs are sequences, and its effect on `report_status` is the returned `ReportStatus`.
- The commit also persists the overwritten `local_time` and `prev_status` columns. The model keeps these as the new field values and does not model persistence.
- CSV serialisation (`pd.DataFrame(...).to_csv`) is left out. The payload is the list of rows the CSV is built from.
- Zone rules are left out: pytz offsets, daylight-saving transitions and ambiguous local times. A zone's UTC offset at an instant is the parameter `offset`. Whether the timezone database knows a name is the parameter `knownZone`. `America/Chicago` is taken to be known.
- Exceptions other than an unknown zone name are left out. That includes database errors and a malformed timestamp.
- Floating point is left out. Buckets are exact reals (seconds / 60 and seconds / 3600), so rounding and summation order are not modelled.
- Sub-second precision is left out. Instants and times of day are whole seconds, so microseconds are not modelled.
- `time_diff_minutes` and `time_diff_hours` (`main.py:165-166`) are computed and never used. They are not modelled.
- The `business_hours` table that `generate_report` queries is keyed by a surrogate `id` (`main.py:37-44`), so a store may have several windows on one weekday; `models.py:20-26` declares `(store_id, dayofweek)` as the key instead, but `main.py` does not use that module. `timezone_data` is keyed by `store_id` (`main.py:46-50`). The model allows any list of rows, so several windows per weekday and repeated timezone rows are both covered.
- `Report.GenerateReport` requires that no poll object appears twice in the input. The ORM's identity map yields one object per `(store_id, timestamp_utc)` key (`main.py:31-32`).
