/** The timezone lookup of a report run: a map built from the
    `timezone_data` rows, with a fixed default zone for stores that have no
    row, and the localisation of every status row through it. The zone
    rules themselves (offsets, daylight saving) are the `offset` parameter. */
module Timezones {

  import opened StoreStatuses

  /** The zone used for a store without a `timezone_data` row. */
  const DefaultZone: string := "America/Chicago"

  datatype TimezoneRow = TimezoneRow(storeId: string, timezoneStr: string)

  /** True when every row names a zone the timezone database knows; building
      the map raises on the first row that does not. */
  predicate AllZonesKnown(rows: seq<TimezoneRow>, knownZone: string -> bool)
  {
    forall r :: r in rows ==> knownZone(r.timezoneStr)
  }

  /** The dict comprehension over the rows: one entry per store, a later row
      for the same store overriding an earlier one. */
  function TimezoneMap(rows: seq<TimezoneRow>): (m: map<string, string>)
    ensures m.Keys == set r | r in rows :: r.storeId
    ensures forall i :: 0 <= i < |rows| && LastFor(rows, i) ==> m[rows[i].storeId] == rows[i].timezoneStr
  {
    if rows == [] then map[]
    else
      var init := rows[..|rows| - 1];
      var last := rows[|rows| - 1];
      assert rows == init + [last];
      assert forall i :: 0 <= i < |init| && LastFor(rows, i) ==> LastFor(init, i);
      TimezoneMap(init)[last.storeId := last.timezoneStr]
  }

  /** Row `i` is the last row for its store. */
  ghost predicate LastFor(rows: seq<TimezoneRow>, i: int)
    requires 0 <= i < |rows|
  {
    forall j :: i < j < |rows| ==> rows[j].storeId != rows[i].storeId
  }

  /** `timezone_map.get(store_id, timezone("America/Chicago"))`. */
  function ZoneFor(zones: map<string, string>, storeId: string): string
  {
    if storeId in zones then zones[storeId] else DefaultZone
  }

  /** A store with no row gets the default zone; otherwise the zone of its last row. */
  lemma ZoneLookup(rows: seq<TimezoneRow>, storeId: string)
    ensures (forall r :: r in rows ==> r.storeId != storeId) ==> ZoneFor(TimezoneMap(rows), storeId) == DefaultZone
    ensures forall i :: 0 <= i < |rows| && rows[i].storeId == storeId && LastFor(rows, i) ==>
      ZoneFor(TimezoneMap(rows), storeId) == rows[i].timezoneStr
  {
  }

  /** `utc_instant.astimezone(zone)`: the same instant, read on the zone's wall
      clock; `offset(zone, instant)` is the zone's UTC offset in seconds at
      that instant. */
  function Localized(timestampUtc: int, zone: string, offset: (string, int) -> int): (t: LocalTime)
    ensures t.instant == timestampUtc
  {
    LocalTime(timestampUtc, timestampUtc + offset(zone, timestampUtc))
  }

  /** Every row's `local_time` is its UTC timestamp read in its store's zone. */
  ghost predicate AllLocalized(statuses: seq<StoreStatus>, zones: map<string, string>, offset: (string, int) -> int)
    reads statuses`localTime
  {
    forall i :: 0 <= i < |statuses| ==>
      statuses[i].localTime == Localized(statuses[i].timestampUtc, ZoneFor(zones, statuses[i].storeId), offset)
  }

  /** The loop that overwrites every row's `local_time` in place. */
  method LocalizeAll(statuses: seq<StoreStatus>, zones: map<string, string>, offset: (string, int) -> int)
    modifies statuses`localTime
    ensures AllLocalized(statuses, zones, offset)
  {
    for i := 0 to |statuses|
      invariant forall k :: 0 <= k < i ==>
        statuses[k].localTime == Localized(statuses[k].timestampUtc, ZoneFor(zones, statuses[k].storeId), offset)
    {
      var status := statuses[i];
      status.localTime := Localized(status.timestampUtc, ZoneFor(zones, status.storeId), offset);
    }
  }
}
