/** A row of the `store_status` table as the report run sees it: the loaded
    columns never change, while `localTime` and `prevStatus` are scratch
    fields that the run overwrites in place. */
module StoreStatuses {

  import opened Wrappers

  /** A timezone-aware datetime: the absolute `instant` (seconds since the
      epoch, what comparisons and subtractions use) and the `wall` clock
      reading in its zone (what `weekday()` and `replace(hour=...)` use). */
  datatype LocalTime = LocalTime(instant: int, wall: int)

  class StoreStatus {
    const storeId: string
    const timestampUtc: int
    const status: string
    var localTime: LocalTime
    var prevStatus: Option<string>

    /** A row as loaded from the table. */
    constructor (storeId: string, timestampUtc: int, status: string, localTime: LocalTime, prevStatus: Option<string>)
      ensures this.storeId == storeId && this.timestampUtc == timestampUtc && this.status == status
      ensures this.localTime == localTime && this.prevStatus == prevStatus
    {
      this.storeId := storeId;
      this.timestampUtc := timestampUtc;
      this.status := status;
      this.localTime := localTime;
      this.prevStatus := prevStatus;
    }
  }

  /** The status string the estimator counts as uptime; any other string is downtime. */
  const Active: string := "active"

  /** The part of a row the estimator reads: its instant and its status. */
  datatype Sample = Sample(instant: int, status: string)

  function Key(o: StoreStatus): int
    reads o`localTime
  {
    o.localTime.instant
  }

  function SampleOf(o: StoreStatus): (s: Sample)
    reads o`localTime
  {
    Sample(o.localTime.instant, o.status)
  }

  /** The rows of `ss`, read in the current heap, as values. */
  function Samples(ss: seq<StoreStatus>): (r: seq<Sample>)
    reads ss`localTime
    ensures |r| == |ss|
    ensures forall i :: 0 <= i < |ss| ==> r[i] == SampleOf(ss[i])
    decreases |ss|
  {
    if ss == [] then [] else [SampleOf(ss[0])] + Samples(ss[1..])
  }

  /** Non-decreasing instants: the order `sort(key=local_time)` produces. */
  ghost predicate NonDecreasing(s: seq<Sample>)
  {
    forall i, j :: 0 <= i < j < |s| ==> s[i].instant <= s[j].instant
  }

  ghost predicate SortedByLocalTime(ss: seq<StoreStatus>)
    reads ss`localTime
  {
    forall i, j :: 0 <= i < j < |ss| ==> Key(ss[i]) <= Key(ss[j])
  }

  /** Sorting the rows sorts their samples. */
  lemma SortedSamples(ss: seq<StoreStatus>)
    requires SortedByLocalTime(ss)
    ensures NonDecreasing(Samples(ss))
  {
  }

  /** No row object appears twice (the query yields one object per primary key). */
  ghost predicate Distinct(ss: seq<StoreStatus>)
  {
    forall i, j :: 0 <= i < j < |ss| ==> ss[i] != ss[j]
  }

  lemma DistinctCons(a: StoreStatus, t: seq<StoreStatus>)
    ensures Distinct([a] + t) <==> a !in t && Distinct(t)
  {
    var s := [a] + t;
    if Distinct(s) {
      assert forall i, j :: 0 <= i < j < |t| ==> t[i] == s[i + 1] && t[j] == s[j + 1];
      forall j | 0 <= j < |t| ensures t[j] != a {
        assert s[0] != s[j + 1];
      }
    }
  }

  lemma DistinctSnoc(t: seq<StoreStatus>, a: StoreStatus)
    ensures Distinct(t + [a]) <==> a !in t && Distinct(t)
  {
    var s := t + [a];
    if Distinct(s) {
      assert forall i, j :: 0 <= i < j < |t| ==> t[i] == s[i] && t[j] == s[j];
      forall j | 0 <= j < |t| ensures t[j] != a {
        assert s[j] != s[|t|];
      }
    }
  }
}
