/** The uptime/downtime estimator of a report run. The status seen at one
    poll is carried forward until the next poll of the same store, and the
    part of each gap that falls inside a trailing window is credited to
    uptime when the earlier poll said "active" and to downtime otherwise.
    The last-hour buckets are in minutes, the others in hours. */
module Estimator {

  import opened Instants
  import opened StoreStatuses

  /** The window bounds of one run; every window ends at `currentTime`. */
  datatype Windows = Windows(currentTime: int, oneHourAgo: int, oneDayAgo: int, oneWeekAgo: int)

  /** `current_time - timedelta(hours=1)`, `days=1` and `weeks=1`. */
  function WindowsEndingAt(currentTime: int): (w: Windows)
    ensures w.currentTime == currentTime
    ensures w.oneWeekAgo < w.oneDayAgo < w.oneHourAgo < w.currentTime
    ensures w.currentTime - w.oneHourAgo == SecondsPerHour
    ensures w.currentTime - w.oneDayAgo == 24 * SecondsPerHour
    ensures w.currentTime - w.oneWeekAgo == 7 * 24 * SecondsPerHour
  {
    Windows(currentTime, currentTime - SecondsPerHour, currentTime - SecondsPerDay, currentTime - SecondsPerWeek)
  }

  /** One output row: the five buckets the report emits. */
  datatype ReportRow = ReportRow(
    storeId: string,
    uptimeLastHour: real,
    uptimeLastDay: real,
    downtimeLastHour: real,
    downtimeLastDay: real,
    downtimeLastWeek: real)

  /** `timedelta.total_seconds() / 60` on whole seconds. */
  function Minutes(seconds: int): (r: real)
    ensures r > 0.0 <==> seconds > 0
  {
    seconds as real / 60.0
  }

  /** `timedelta.total_seconds() / 3600` on whole seconds. */
  function Hours(seconds: int): (r: real)
    ensures r > 0.0 <==> seconds > 0
  {
    seconds as real / 3600.0
  }

  /** `min(curr, window_end) - max(prev, window_start)`: the signed length of
      the part of `[prev, curr]` inside the window. */
  function Overlap(prev: int, curr: int, windowStart: int, windowEnd: int): int
  {
    Min(curr, windowEnd) - Max(prev, windowStart)
  }

  /** The overlap when it is positive, else nothing: what the `if overlap > 0`
      guards let through. */
  function Clipped(prev: int, curr: int, windowStart: int, windowEnd: int): (r: nat)
    ensures r <= Max(0, windowEnd - windowStart)
    ensures r <= Max(0, curr - prev)
    ensures r > 0 <==> prev < windowEnd && windowStart < curr && prev < curr && windowStart < windowEnd
  {
    var d := Overlap(prev, curr, windowStart, windowEnd);
    if d > 0 then d else 0
  }

  /** Seconds the gap from `prev` to `curr` adds to the uptime bucket
      (`active`) or to the downtime bucket (`!active`) of a window: the status
      of the earlier poll decides, and only the exact string "active" is uptime. */
  function Share(prev: Sample, curr: Sample, windowStart: int, windowEnd: int, active: bool): nat
  {
    if (prev.status == Active) == active then Clipped(prev.instant, curr.instant, windowStart, windowEnd) else 0
  }

  /** A bucket in seconds: the shares of all consecutive pairs of `s`. */
  function Attributed(s: seq<Sample>, windowStart: int, windowEnd: int, active: bool): nat
    decreases |s|
  {
    if |s| < 2 then 0
    else Attributed(s[..|s| - 1], windowStart, windowEnd, active) + Share(s[|s| - 2], s[|s| - 1], windowStart, windowEnd, active)
  }

  /** The second, weekly-uptime pass in seconds: for every pair whose earlier
      poll is "active" and whose later poll is after the window start, the
      overlap, with no test that it is positive. */
  function ActiveWeekSeconds(s: seq<Sample>, windowStart: int, windowEnd: int): int
    decreases |s|
  {
    if |s| < 2 then 0
    else
      var prev, curr := s[|s| - 2], s[|s| - 1];
      ActiveWeekSeconds(s[..|s| - 1], windowStart, windowEnd)
        + if prev.status == Active && curr.instant > windowStart then Overlap(prev.instant, curr.instant, windowStart, windowEnd) else 0
  }

  /** The row of a store whose polls, in time order, are `s`. */
  function ExpectedRow(storeId: string, s: seq<Sample>, w: Windows): ReportRow
  {
    ReportRow(
      storeId,
      Minutes(Attributed(s, w.oneHourAgo, w.currentTime, true)),
      Hours(Attributed(s, w.oneDayAgo, w.currentTime, true)),
      Minutes(Attributed(s, w.oneHourAgo, w.currentTime, false)),
      Hours(Attributed(s, w.oneDayAgo, w.currentTime, false)),
      Hours(Attributed(s, w.oneWeekAgo, w.currentTime, false)))
  }

  /** Every clipped second of a pair goes to exactly one of the two buckets,
      and to uptime only when the earlier poll is exactly "active". */
  lemma ShareSplits(prev: Sample, curr: Sample, windowStart: int, windowEnd: int)
    ensures Share(prev, curr, windowStart, windowEnd, true) + Share(prev, curr, windowStart, windowEnd, false)
         == Clipped(prev.instant, curr.instant, windowStart, windowEnd)
    ensures Share(prev, curr, windowStart, windowEnd, true) > 0 ==> prev.status == Active
    ensures Share(prev, curr, windowStart, windowEnd, false) > 0 ==> prev.status != Active
  {
  }

  /** Both buckets of a window together cover no more than the part of the
      window up to the latest poll. */
  lemma {:induction false} CoveredUpToLast(s: seq<Sample>, windowStart: int, windowEnd: int)
    requires |s| > 0 && NonDecreasing(s)
    ensures Attributed(s, windowStart, windowEnd, true) + Attributed(s, windowStart, windowEnd, false)
         <= Max(0, Min(s[|s| - 1].instant, windowEnd) - windowStart)
    decreases |s|
  {
    if |s| >= 2 {
      var init := s[..|s| - 1];
      CoveredUpToLast(init, windowStart, windowEnd);
      ShareSplits(s[|s| - 2], s[|s| - 1], windowStart, windowEnd);
      assert init[|init| - 1] == s[|s| - 2];
    }
  }

  /** Because the gaps of a sorted series do not overlap, the two buckets of
      a window add up to at most the window's length. */
  lemma BucketsWithinWindow(s: seq<Sample>, windowStart: int, windowEnd: int)
    requires NonDecreasing(s) && windowStart <= windowEnd
    ensures Attributed(s, windowStart, windowEnd, true) + Attributed(s, windowStart, windowEnd, false) <= windowEnd - windowStart
  {
    if |s| > 0 {
      CoveredUpToLast(s, windowStart, windowEnd);
    }
  }

  /** The bounds every emitted row keeps: no bucket is negative, the last
      hour holds at most 60 minutes, the last day at most 24 hours and the
      weekly downtime at most 168 hours. */
  lemma RowBounds(storeId: string, s: seq<Sample>, currentTime: int)
    requires NonDecreasing(s)
    ensures var row := ExpectedRow(storeId, s, WindowsEndingAt(currentTime));
      && row.storeId == storeId
      && row.uptimeLastHour >= 0.0 && row.downtimeLastHour >= 0.0
      && row.uptimeLastDay >= 0.0 && row.downtimeLastDay >= 0.0 && row.downtimeLastWeek >= 0.0
      && row.uptimeLastHour + row.downtimeLastHour <= 60.0
      && row.uptimeLastDay + row.downtimeLastDay <= 24.0
      && row.downtimeLastWeek <= 168.0
  {
    var w := WindowsEndingAt(currentTime);
    BucketsWithinWindow(s, w.oneHourAgo, w.currentTime);
    BucketsWithinWindow(s, w.oneDayAgo, w.currentTime);
    BucketsWithinWindow(s, w.oneWeekAgo, w.currentTime);
  }

  /** A store with at most one poll has no gap to extrapolate over. */
  lemma ShortSeriesAllZero(storeId: string, s: seq<Sample>, w: Windows)
    requires |s| <= 1
    ensures ExpectedRow(storeId, s, w) == ReportRow(storeId, 0.0, 0.0, 0.0, 0.0, 0.0)
  {
  }

  /** The weekly-uptime pass skips the positivity test, but when the series
      is sorted and no poll is later than the window end it credits exactly
      the clipped uptime of the week. */
  lemma {:induction false} WeeklyPassIsClippedUptime(s: seq<Sample>, windowStart: int, windowEnd: int)
    requires NonDecreasing(s)
    requires forall i :: 0 <= i < |s| ==> s[i].instant <= windowEnd
    ensures ActiveWeekSeconds(s, windowStart, windowEnd) == Attributed(s, windowStart, windowEnd, true)
    decreases |s|
  {
    if |s| >= 2 {
      var init := s[..|s| - 1];
      WeeklyPassIsClippedUptime(init, windowStart, windowEnd);
    }
  }

  /** Weekly uptime and weekly downtime together stay within the week. */
  lemma WeeklyTotalsWithinWeek(s: seq<Sample>, currentTime: int)
    requires NonDecreasing(s)
    requires forall i :: 0 <= i < |s| ==> s[i].instant <= currentTime
    ensures var w := WindowsEndingAt(currentTime);
      Hours(ActiveWeekSeconds(s, w.oneWeekAgo, currentTime)) + ExpectedRow("", s, w).downtimeLastWeek <= 168.0
  {
    var w := WindowsEndingAt(currentTime);
    WeeklyPassIsClippedUptime(s, w.oneWeekAgo, currentTime);
    BucketsWithinWindow(s, w.oneWeekAgo, currentTime);
  }

  /** Carrying a status forward: an "active" poll before the window start
      followed by an inactive one inside it credits uptime for exactly the
      part of the gap inside the window, and the next gap is downtime from
      the inactive poll on. */
  lemma CarriedForward(t0: int, t1: int, t2: int, windowStart: int, windowEnd: int, lastStatus: string)
    requires t0 < windowStart < t1 <= t2 <= windowEnd
    ensures var s := [Sample(t0, Active), Sample(t1, "inactive"), Sample(t2, lastStatus)];
      Attributed(s, windowStart, windowEnd, true) == t1 - windowStart &&
      Attributed(s, windowStart, windowEnd, false) == t2 - t1
  {
    var s := [Sample(t0, Active), Sample(t1, "inactive"), Sample(t2, lastStatus)];
    assert s[..2][..1] == [Sample(t0, Active)];
    assert s[..2] == [Sample(t0, Active), Sample(t1, "inactive")];
    assert Attributed(s[..2], windowStart, windowEnd, true) == t1 - windowStart;
    assert Attributed(s[..2], windowStart, windowEnd, false) == 0;
  }

  /** One more poll adds the positive overlap of its gap to the uptime or
      the downtime bucket, as the earlier poll's status says. */
  lemma AttributedStep(s: seq<Sample>, i: int, windowStart: int, windowEnd: int)
    requires 1 <= i < |s|
    ensures var d := Overlap(s[i - 1].instant, s[i].instant, windowStart, windowEnd);
      && Attributed(s[..i + 1], windowStart, windowEnd, true)
         == Attributed(s[..i], windowStart, windowEnd, true) + (if d > 0 && s[i - 1].status == Active then d else 0)
      && Attributed(s[..i + 1], windowStart, windowEnd, false)
         == Attributed(s[..i], windowStart, windowEnd, false) + (if d > 0 && s[i - 1].status != Active then d else 0)
  {
    assert s[..i + 1][..i] == s[..i];
  }

  /** The loop over consecutive polls of one store (three windows in one
      pass), the separate weekly-uptime pass, and the row it appends. */
  method EstimateStore(storeId: string, storeStatuses: seq<StoreStatus>, w: Windows) returns (row: ReportRow)
    ensures row == ExpectedRow(storeId, Samples(storeStatuses), w)
  {
    ghost var s := Samples(storeStatuses);
    var uptimeLastHour, uptimeLastDay := 0.0, 0.0;
    var downtimeLastHour, downtimeLastDay, downtimeLastWeek := 0.0, 0.0, 0.0;
    var i := 1;
    while i < |storeStatuses|
      invariant 1 <= i <= Max(1, |storeStatuses|)
      invariant uptimeLastHour == Minutes(Attributed(s[..Min(i, |s|)], w.oneHourAgo, w.currentTime, true))
      invariant downtimeLastHour == Minutes(Attributed(s[..Min(i, |s|)], w.oneHourAgo, w.currentTime, false))
      invariant uptimeLastDay == Hours(Attributed(s[..Min(i, |s|)], w.oneDayAgo, w.currentTime, true))
      invariant downtimeLastDay == Hours(Attributed(s[..Min(i, |s|)], w.oneDayAgo, w.currentTime, false))
      invariant downtimeLastWeek == Hours(Attributed(s[..Min(i, |s|)], w.oneWeekAgo, w.currentTime, false))
    {
      var prev, curr := storeStatuses[i - 1], storeStatuses[i];
      assert s[i - 1] == SampleOf(prev) && s[i] == SampleOf(curr);
      assert Min(i, |s|) == i && Min(i + 1, |s|) == i + 1;
      AttributedStep(s, i, w.oneHourAgo, w.currentTime);
      AttributedStep(s, i, w.oneDayAgo, w.currentTime);
      AttributedStep(s, i, w.oneWeekAgo, w.currentTime);

      // last hour, only when the later poll is inside the window
      if curr.localTime.instant > w.oneHourAgo {
        var overlapDurationHour := Minutes(Overlap(prev.localTime.instant, curr.localTime.instant, w.oneHourAgo, w.currentTime));
        if overlapDurationHour > 0.0 {
          if prev.status == Active {
            uptimeLastHour := uptimeLastHour + overlapDurationHour;
          } else {
            downtimeLastHour := downtimeLastHour + overlapDurationHour;
          }
        }
      }

      // last 24 hours
      var overlapDurationDay := Hours(Overlap(prev.localTime.instant, curr.localTime.instant, w.oneDayAgo, w.currentTime));
      if overlapDurationDay > 0.0 {
        if prev.status == Active {
          uptimeLastDay := uptimeLastDay + overlapDurationDay;
        } else {
          downtimeLastDay := downtimeLastDay + overlapDurationDay;
        }
      }

      // last 7 days: only downtime is accumulated here
      var overlapDurationWeek := Hours(Overlap(prev.localTime.instant, curr.localTime.instant, w.oneWeekAgo, w.currentTime));
      if overlapDurationWeek > 0.0 {
        if prev.status != Active {
          downtimeLastWeek := downtimeLastWeek + overlapDurationWeek;
        }
      }
      i := i + 1;
    }
    assert s[..Min(i, |s|)] == s;

    var totalActiveWeek := WeeklyUptime(storeStatuses, w);
    row := ReportRow(storeId, uptimeLastHour, uptimeLastDay, downtimeLastHour, downtimeLastDay, downtimeLastWeek);
  }

  /** The weekly-uptime pass; its total is computed and never emitted. */
  method WeeklyUptime(storeStatuses: seq<StoreStatus>, w: Windows) returns (totalActiveWeek: real)
    ensures totalActiveWeek == Hours(ActiveWeekSeconds(Samples(storeStatuses), w.oneWeekAgo, w.currentTime))
  {
    ghost var s := Samples(storeStatuses);
    totalActiveWeek := 0.0;
    var i := 1;
    while i < |storeStatuses|
      invariant 1 <= i <= Max(1, |storeStatuses|)
      invariant totalActiveWeek == Hours(ActiveWeekSeconds(s[..Min(i, |s|)], w.oneWeekAgo, w.currentTime))
    {
      var prev, curr := storeStatuses[i - 1], storeStatuses[i];
      assert s[..i + 1][..i] == s[..i] && Min(i, |s|) == i;
      assert s[i - 1] == SampleOf(prev) && s[i] == SampleOf(curr);
      if prev.status == Active && curr.localTime.instant > w.oneWeekAgo {
        totalActiveWeek := totalActiveWeek + Hours(Overlap(prev.localTime.instant, curr.localTime.instant, w.oneWeekAgo, w.currentTime));
      }
      i := i + 1;
    }
    assert s[..Min(i, |s|)] == s;
  }
}
