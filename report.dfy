/** A whole report run: localise every row, keep those inside business
    hours, sort and chain them, fix the run's current time, and emit one row
    per store in ascending store order. The run's outcome is the new state of
    its `report_status` record. */
module Report {

  import opened Wrappers
  import opened StringOrder
  import opened StoreStatuses
  import opened Timezones
  import opened BusinessHours
  import opened Ordering
  import opened Estimator

  /** The `report_data` written on completion: the empty string when there
      were no rows at all, otherwise the table of per-store rows. */
  datatype Payload = EmptyPayload | Table(rows: seq<ReportRow>)

  /** The `status` column of the run's record after the run. */
  datatype ReportStatus = Running | Complete(payload: Payload)

  /** `status.store_id for status in valid_status_data`. */
  function StoreIdsOf(valid: seq<StoreStatus>): (ids: seq<string>)
    ensures |ids| == |valid|
    ensures forall i :: 0 <= i < |valid| ==> ids[i] == valid[i].storeId
  {
    if valid == [] then [] else [valid[0].storeId] + StoreIdsOf(valid[1..])
  }

  /** The rows for the stores `ids`, each computed from that store's rows of
      `valid`. */
  function StoreRows(valid: seq<StoreStatus>, ids: seq<string>, w: Windows): (rows: seq<ReportRow>)
    reads valid`localTime
    ensures |rows| == |ids|
    decreases |ids|
  {
    if ids == [] then []
    else StoreRows(valid, ids[..|ids| - 1], w) + [StoreRow(valid, ids[|ids| - 1], w)]
  }

  /** The row of one store, from that store's rows of `valid`. */
  function StoreRow(valid: seq<StoreStatus>, storeId: string, w: Windows): ReportRow
    reads valid`localTime
  {
    ExpectedRow(storeId, Samples(StatusesOf(valid, storeId)), w)
  }

  lemma {:induction false} StoreRowsAt(valid: seq<StoreStatus>, ids: seq<string>, w: Windows, k: int)
    requires 0 <= k < |ids|
    ensures StoreRows(valid, ids, w)[k] == StoreRow(valid, ids[k], w)
    decreases |ids|
  {
    if k < |ids| - 1 {
      StoreRowsAt(valid, ids[..|ids| - 1], w, k);
    }
  }

  /** The report of a run whose sorted, filtered rows are `valid`. */
  function ReportRows(valid: seq<StoreStatus>, w: Windows): seq<ReportRow>
    reads valid`localTime
  {
    StoreRows(valid, SortedDistinct(StoreIdsOf(valid)), w)
  }

  /** The rows are in strictly ascending store order. */
  lemma RowsAscending(valid: seq<StoreStatus>, w: Windows)
    ensures var rows := ReportRows(valid, w);
      forall i, j :: 0 <= i < j < |rows| ==> Below(rows[i].storeId, rows[j].storeId)
  {
    var ids := SortedDistinct(StoreIdsOf(valid));
    var rows := ReportRows(valid, w);
    forall i, j | 0 <= i < j < |rows| ensures Below(rows[i].storeId, rows[j].storeId) {
      StoreRowsAt(valid, ids, w, i);
      StoreRowsAt(valid, ids, w, j);
    }
  }

  /** The position of a store among the report's store ids. */
  lemma IdPosition(valid: seq<StoreStatus>, i: int) returns (k: int)
    requires 0 <= i < |valid|
    ensures 0 <= k < |SortedDistinct(StoreIdsOf(valid))|
    ensures SortedDistinct(StoreIdsOf(valid))[k] == valid[i].storeId
  {
    var xs := StoreIdsOf(valid);
    assert xs[i] == valid[i].storeId;
    var ids := SortedDistinct(xs);
    assert valid[i].storeId in ids;
    k :| 0 <= k < |ids| && ids[k] == valid[i].storeId;
  }

  /** Every store with a filtered row gets a row. */
  lemma EveryStoreHasRow(valid: seq<StoreStatus>, w: Windows, i: int)
    requires 0 <= i < |valid|
    ensures var rows := ReportRows(valid, w);
      exists k :: 0 <= k < |rows| && rows[k].storeId == valid[i].storeId
  {
    var ids := SortedDistinct(StoreIdsOf(valid));
    var k := IdPosition(valid, i);
    StoreRowsAt(valid, ids, w, k);
    assert ReportRows(valid, w)[k].storeId == valid[i].storeId;
  }

  /** Every row belongs to a store that has a filtered row. */
  lemma EveryRowHasStore(valid: seq<StoreStatus>, w: Windows, k: int)
    requires 0 <= k < |ReportRows(valid, w)|
    ensures exists i :: 0 <= i < |valid| && valid[i].storeId == ReportRows(valid, w)[k].storeId
  {
    var ids := SortedDistinct(StoreIdsOf(valid));
    StoreRowsAt(valid, ids, w, k);
    assert ids[k] in StoreIdsOf(valid);
    var i :| 0 <= i < |valid| && StoreIdsOf(valid)[i] == ids[k];
  }

  /** The bounds one store's row keeps when the filtered rows are sorted and
      none is later than the run's current time: no bucket negative, the hour
      buckets within 60 minutes, the day buckets within 24 hours, the weekly
      downtime within 168 hours and, together with the never-emitted weekly
      uptime, still within 168 hours; all zero for a store with one row. */
  lemma StoreRowBounds(valid: seq<StoreStatus>, storeId: string, currentTime: int)
    requires SortedByLocalTime(valid)
    requires forall i :: 0 <= i < |valid| ==> Key(valid[i]) <= currentTime
    ensures var w := WindowsEndingAt(currentTime);
      var row := StoreRow(valid, storeId, w);
      && row.storeId == storeId
      && row.uptimeLastHour >= 0.0 && row.downtimeLastHour >= 0.0
      && row.uptimeLastDay >= 0.0 && row.downtimeLastDay >= 0.0 && row.downtimeLastWeek >= 0.0
      && row.uptimeLastHour + row.downtimeLastHour <= 60.0
      && row.uptimeLastDay + row.downtimeLastDay <= 24.0
      && row.downtimeLastWeek <= 168.0
      && Hours(ActiveWeekSeconds(Samples(StatusesOf(valid, storeId)), w.oneWeekAgo, currentTime)) + row.downtimeLastWeek <= 168.0
      && (|StatusesOf(valid, storeId)| <= 1 ==> row == ReportRow(storeId, 0.0, 0.0, 0.0, 0.0, 0.0))
  {
    var w := WindowsEndingAt(currentTime);
    var mine := StatusesOf(valid, storeId);
    StatusesOfSorted(valid, storeId);
    SortedSamples(mine);
    var s := Samples(mine);
    RowBounds(storeId, s, currentTime);
    forall i | 0 <= i < |s| ensures s[i].instant <= currentTime {
      var j :| 0 <= j < |valid| && valid[j] == mine[i];
    }
    WeeklyTotalsWithinWeek(s, currentTime);
    if |mine| <= 1 {
      ShortSeriesAllZero(storeId, s, w);
    }
  }

  /** In a run with at least one row, the selected rows are sorted and none
      is later than the run's current time, the latest local time over all
      rows, filtered or not. */
  lemma RunWithinCurrentTime(statuses: seq<StoreStatus>, hours: seq<BusinessHoursRow>)
    requires statuses != []
    ensures SortedByLocalTime(Selection(statuses, hours))
    ensures forall i :: 0 <= i < |Selection(statuses, hours)| ==> Key(Selection(statuses, hours)[i]) <= LatestInstant(statuses)
  {
    var valid := Selection(statuses, hours);
    SortedWithin(FilterByBusinessHours(statuses, hours));
    forall i | 0 <= i < |valid| ensures Key(valid[i]) <= LatestInstant(statuses) {
      var j :| 0 <= j < |statuses| && statuses[j] == valid[i];
    }
  }

  /** Every row of the report keeps the bounds of `StoreRowBounds`. */
  lemma ReportRowsBounded(valid: seq<StoreStatus>, currentTime: int)
    requires SortedByLocalTime(valid)
    requires forall i :: 0 <= i < |valid| ==> Key(valid[i]) <= currentTime
    ensures var rows := ReportRows(valid, WindowsEndingAt(currentTime));
      forall k :: 0 <= k < |rows| ==>
        && rows[k].uptimeLastHour >= 0.0 && rows[k].downtimeLastHour >= 0.0
        && rows[k].uptimeLastDay >= 0.0 && rows[k].downtimeLastDay >= 0.0 && rows[k].downtimeLastWeek >= 0.0
        && rows[k].uptimeLastHour + rows[k].downtimeLastHour <= 60.0
        && rows[k].uptimeLastDay + rows[k].downtimeLastDay <= 24.0
        && rows[k].downtimeLastWeek <= 168.0
        && (|StatusesOf(valid, rows[k].storeId)| <= 1 ==> rows[k] == ReportRow(rows[k].storeId, 0.0, 0.0, 0.0, 0.0, 0.0))
  {
    var w := WindowsEndingAt(currentTime);
    var ids := SortedDistinct(StoreIdsOf(valid));
    var rows := ReportRows(valid, w);
    forall k | 0 <= k < |rows|
      ensures rows[k].uptimeLastHour >= 0.0 && rows[k].downtimeLastHour >= 0.0
      ensures rows[k].uptimeLastDay >= 0.0 && rows[k].downtimeLastDay >= 0.0 && rows[k].downtimeLastWeek >= 0.0
      ensures rows[k].uptimeLastHour + rows[k].downtimeLastHour <= 60.0
      ensures rows[k].uptimeLastDay + rows[k].downtimeLastDay <= 24.0
      ensures rows[k].downtimeLastWeek <= 168.0
      ensures |StatusesOf(valid, rows[k].storeId)| <= 1 ==> rows[k] == ReportRow(rows[k].storeId, 0.0, 0.0, 0.0, 0.0, 0.0)
    {
      StoreRowsAt(valid, ids, w, k);
      StoreRowBounds(valid, ids[k], currentTime);
    }
  }

  lemma StoreRowsPrefix(valid: seq<StoreStatus>, ids: seq<string>, w: Windows, k: int)
    requires 0 <= k < |ids|
    ensures StoreRows(valid, ids[..k + 1], w) == StoreRows(valid, ids[..k], w) + [StoreRow(valid, ids[k], w)]
  {
    assert ids[..k + 1][..k] == ids[..k];
  }

  /** The loop over `sorted(set(store ids))` that appends one row per store. */
  method BuildRows(valid: seq<StoreStatus>, w: Windows) returns (rows: seq<ReportRow>)
    ensures rows == ReportRows(valid, w)
  {
    var ids := SortedDistinct(StoreIdsOf(valid));
    rows := [];
    for k := 0 to |ids|
      invariant rows == StoreRows(valid, ids[..k], w)
    {
      var storeStatuses := StatusesOf(valid, ids[k]);
      var row := EstimateStore(ids[k], storeStatuses, w);
      StoreRowsPrefix(valid, ids, w, k);
      rows := rows + [row];
    }
    assert ids[..|ids|] == ids;
  }

  /** `valid_status_data` after the filter and the sort. */
  function Selection(statuses: seq<StoreStatus>, hours: seq<BusinessHoursRow>): seq<StoreStatus>
    reads statuses`localTime
  {
    SortByLocalTime(FilterByBusinessHours(statuses, hours))
  }

  /** The selected rows are rows of the input, none of them twice. */
  lemma SelectionFacts(statuses: seq<StoreStatus>, hours: seq<BusinessHoursRow>)
    requires Distinct(statuses)
    ensures Distinct(Selection(statuses, hours))
    ensures forall i :: 0 <= i < |Selection(statuses, hours)| ==> Selection(statuses, hours)[i] in statuses
  {
    var filtered := FilterByBusinessHours(statuses, hours);
    FilterKeepsDistinct(statuses, hours);
    SortKeepsDistinct(filtered);
    SortedWithin(filtered);
  }

  /** The rows that share an instant keep their input order through the
      filter and the sort, whatever their stores; this order decides which
      row is the predecessor of which in the chaining. */
  lemma SelectionKeepsInputOrder(statuses: seq<StoreStatus>, hours: seq<BusinessHoursRow>, k: int)
    ensures WithKey(Selection(statuses, hours), k) == FilterByBusinessHours(WithKey(statuses, k), hours)
  {
    SortIsStable(FilterByBusinessHours(statuses, hours), k);
    FilterWithKey(statuses, hours, k);
  }

  /** The rows whose `prev_status` the chaining leaves alone: every row the
      filter drops, and the first row of the sorted list. */
  ghost predicate KeepsPrevStatus(statuses: seq<StoreStatus>, valid: seq<StoreStatus>, o: StoreStatus)
  {
    o in statuses && (o !in valid || o == valid[0])
  }

  /** The `prev_status` of every row, in input order. */
  ghost function PrevStatuses(statuses: seq<StoreStatus>): (r: seq<Option<string>>)
    reads statuses`prevStatus
    ensures |r| == |statuses|
    ensures forall i :: 0 <= i < |statuses| ==> r[i] == statuses[i].prevStatus
    decreases |statuses|
  {
    if statuses == [] then [] else [statuses[0].prevStatus] + PrevStatuses(statuses[1..])
  }

  /** Every row the chaining leaves alone still has the `prev_status`
      recorded in `before`. */
  ghost predicate PrevStatusKept(statuses: seq<StoreStatus>, valid: seq<StoreStatus>, before: seq<Option<string>>)
    reads statuses`prevStatus
  {
    && |before| == |statuses|
    && forall i :: 0 <= i < |statuses| && KeepsPrevStatus(statuses, valid, statuses[i]) ==>
         statuses[i].prevStatus == before[i]
  }

  /** The chaining loop over a list of distinct rows taken from `statuses`:
      rows outside the list, and the list's first row, keep their
      `prev_status`. */
  method ChainWithin(statuses: seq<StoreStatus>, valid: seq<StoreStatus>)
    requires Distinct(valid)
    requires forall i :: 0 <= i < |valid| ==> valid[i] in statuses
    modifies statuses`prevStatus
    ensures Chained(valid)
    ensures PrevStatusKept(statuses, valid, old(PrevStatuses(statuses)))
  {
    ghost var before := PrevStatuses(statuses);
    ChainPrevStatus(valid);
    forall i | 0 <= i < |statuses| && KeepsPrevStatus(statuses, valid, statuses[i])
      ensures statuses[i].prevStatus == before[i]
    {
    }
  }

  /** The filter, the sort by local time and the chaining of each row to
      its predecessor in the sorted list. */
  method SelectAndChain(statuses: seq<StoreStatus>, hours: seq<BusinessHoursRow>) returns (valid: seq<StoreStatus>)
    requires Distinct(statuses)
    modifies statuses`prevStatus
    ensures valid == Selection(statuses, hours)
    ensures Chained(valid)
    ensures PrevStatusKept(statuses, valid, old(PrevStatuses(statuses)))
  {
    valid := Selection(statuses, hours);
    SelectionFacts(statuses, hours);
    label Sorted:
    ChainWithin(statuses, valid);
    assert unchanged@Sorted(statuses`localTime);
  }

  /** The list handling of a run whose zones are all known: localise every
      row, then filter, sort and chain. */
  method PrepareStatuses(
    statuses: seq<StoreStatus>,
    hours: seq<BusinessHoursRow>,
    timezoneMap: map<string, string>,
    offset: (string, int) -> int)
    returns (valid: seq<StoreStatus>)
    requires Distinct(statuses)
    modifies statuses`localTime, statuses`prevStatus
    ensures AllLocalized(statuses, timezoneMap, offset)
    ensures valid == Selection(statuses, hours)
    ensures Chained(valid)
    ensures PrevStatusKept(statuses, valid, old(PrevStatuses(statuses)))
  {
    LocalizeAll(statuses, timezoneMap, offset);
    assert PrevStatuses(statuses) == old(PrevStatuses(statuses));
    label Localized:
    valid := SelectAndChain(statuses, hours);
    assert unchanged@Localized(statuses`localTime);
  }

  /** The rest of a run once the rows are chained: the empty-input
      short-circuit, the current time as the latest local time over all rows
      (filtered or not), the window bounds and one row per store. */
  method SummariseStores(statuses: seq<StoreStatus>, hours: seq<BusinessHoursRow>, valid: seq<StoreStatus>)
    returns (payload: Payload)
    requires valid == Selection(statuses, hours)
    ensures statuses == [] ==> payload == EmptyPayload
    ensures statuses != [] ==>
      payload == Table(ReportRows(Selection(statuses, hours), WindowsEndingAt(LatestInstant(statuses))))
  {
    if statuses == [] {
      return EmptyPayload;
    }
    var currentTime := LatestInstant(statuses);
    var w := WindowsEndingAt(currentTime);
    label Chained:
    var rows := BuildRows(valid, w);
    assert unchanged@Chained(statuses`localTime);
    assert Selection(statuses, hours) == old@Chained(Selection(statuses, hours));
    assert LatestInstant(statuses) == currentTime;
    payload := Table(rows);
  }

  /** A run whose zones are all known, with `timezoneMap` built from them. */
  method RunWithZones(
    statuses: seq<StoreStatus>,
    hours: seq<BusinessHoursRow>,
    timezoneMap: map<string, string>,
    offset: (string, int) -> int)
    returns (payload: Payload)
    requires Distinct(statuses)
    modifies statuses`localTime, statuses`prevStatus
    ensures AllLocalized(statuses, timezoneMap, offset)
    ensures Chained(Selection(statuses, hours))
    ensures PrevStatusKept(statuses, Selection(statuses, hours), old(PrevStatuses(statuses)))
    ensures statuses == [] ==> payload == EmptyPayload
    ensures statuses != [] ==>
      payload == Table(ReportRows(Selection(statuses, hours), WindowsEndingAt(LatestInstant(statuses))))
  {
    var valid := PrepareStatuses(statuses, hours, timezoneMap, offset);
    label Chained:
    payload := SummariseStores(statuses, hours, valid);
    assert unchanged@Chained(statuses`localTime);
    assert unchanged@Chained(valid`prevStatus);
  }

  /** `generate_report`: the whole run. A zone name the timezone database
      does not know makes building the zone map raise, and the run ends with
      its record still running and nothing written. */
  method GenerateReport(
    statuses: seq<StoreStatus>,
    hours: seq<BusinessHoursRow>,
    zoneRows: seq<TimezoneRow>,
    knownZone: string -> bool,
    offset: (string, int) -> int)
    returns (job: ReportStatus)
    requires Distinct(statuses)
    modifies statuses`localTime, statuses`prevStatus
    ensures !AllZonesKnown(zoneRows, knownZone) ==>
      job == Running && unchanged(statuses`localTime, statuses`prevStatus)
    ensures AllZonesKnown(zoneRows, knownZone) ==>
      && AllLocalized(statuses, TimezoneMap(zoneRows), offset)
      && Chained(Selection(statuses, hours))
      && PrevStatusKept(statuses, Selection(statuses, hours), old(PrevStatuses(statuses)))
      && (statuses == [] ==> job == Complete(EmptyPayload))
      && (statuses != [] ==>
            job == Complete(Table(ReportRows(Selection(statuses, hours), WindowsEndingAt(LatestInstant(statuses))))))
  {
    if !AllZonesKnown(zoneRows, knownZone) {
      job := Running;
    } else {
      var payload := RunWithZones(statuses, hours, TimezoneMap(zoneRows), offset);
      job := Complete(payload);
    }
  }
}
