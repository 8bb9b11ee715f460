/** The list handling of a report run before any durations are computed:
    the business-hours filter, the sort by local time, the `prev_status`
    chaining over the sorted list, the latest instant over all rows, and the
    selection of one store's rows. */
module Ordering {

  import opened Wrappers
  import opened StoreStatuses
  import opened BusinessHours

  predicate Keep(o: StoreStatus, hours: seq<BusinessHoursRow>)
    reads o`localTime
  {
    IsWithinBusinessHours(hours, o.storeId, o.localTime.wall)
  }

  /** The list comprehension keeping the rows inside business hours, in their
      original order. */
  function FilterByBusinessHours(statuses: seq<StoreStatus>, hours: seq<BusinessHoursRow>): (r: seq<StoreStatus>)
    reads statuses`localTime
    ensures forall o :: o in r ==> o in statuses
    ensures forall i :: 0 <= i < |r| ==> r[i] in statuses
    decreases |statuses|
  {
    if statuses == [] then []
    else (if Keep(statuses[0], hours) then [statuses[0]] else []) + FilterByBusinessHours(statuses[1..], hours)
  }

  /** A row survives the filter exactly when it is inside its store's
      business hours. */
  lemma {:induction false} FilterKeepsExactly(statuses: seq<StoreStatus>, hours: seq<BusinessHoursRow>)
    ensures forall o :: o in statuses ==> (o in FilterByBusinessHours(statuses, hours) <==> Keep(o, hours))
    decreases |statuses|
  {
    if statuses != [] {
      FilterKeepsExactly(statuses[1..], hours);
      assert forall o :: o in statuses ==> o == statuses[0] || o in statuses[1..];
    }
  }

  /** The filter keeps the input order: filtering a concatenation filters
      each part and keeps the parts in place. */
  lemma {:induction false} FilterAppend(a: seq<StoreStatus>, b: seq<StoreStatus>, hours: seq<BusinessHoursRow>)
    ensures FilterByBusinessHours(a + b, hours) == FilterByBusinessHours(a, hours) + FilterByBusinessHours(b, hours)
    decreases |a|
  {
    if a != [] {
      assert (a + b)[1..] == a[1..] + b;
      FilterAppend(a[1..], b, hours);
    } else {
      assert a + b == b;
    }
  }

  /** Filtering a list without repeated rows gives one without repeated rows. */
  lemma {:induction false} FilterKeepsDistinct(statuses: seq<StoreStatus>, hours: seq<BusinessHoursRow>)
    requires Distinct(statuses)
    ensures Distinct(FilterByBusinessHours(statuses, hours))
  {
    if statuses != [] {
      DistinctCons(statuses[0], statuses[1..]);
      assert statuses == [statuses[0]] + statuses[1..];
      FilterKeepsDistinct(statuses[1..], hours);
      DistinctCons(statuses[0], FilterByBusinessHours(statuses[1..], hours));
    }
  }

  /** Inserts `x` after every element whose key is not greater than its own. */
  function InsertByLocalTime(sorted: seq<StoreStatus>, x: StoreStatus): (r: seq<StoreStatus>)
    reads sorted`localTime, x`localTime
    decreases |sorted|
  {
    if sorted == [] then [x]
    else if Key(x) < Key(sorted[|sorted| - 1]) then
      InsertByLocalTime(sorted[..|sorted| - 1], x) + [sorted[|sorted| - 1]]
    else sorted + [x]
  }

  /** The elements of `s` whose key is `k`, in their order in `s`. */
  ghost function WithKey(s: seq<StoreStatus>, k: int): seq<StoreStatus>
    reads s`localTime
    decreases |s|
  {
    if s == [] then []
    else WithKey(s[..|s| - 1], k) + if Key(s[|s| - 1]) == k then [s[|s| - 1]] else []
  }

  lemma {:induction false} WithKeyAppend(a: seq<StoreStatus>, b: seq<StoreStatus>, k: int)
    ensures WithKey(a + b, k) == WithKey(a, k) + WithKey(b, k)
    decreases |b|
  {
    if b == [] {
      assert a + b == a;
    } else {
      assert (a + b)[..|a + b| - 1] == a + b[..|b| - 1];
      WithKeyAppend(a, b[..|b| - 1], k);
    }
  }

  /** Picking the rows of one instant and filtering can be done in either
      order. */
  lemma {:induction false} FilterWithKey(s: seq<StoreStatus>, hours: seq<BusinessHoursRow>, k: int)
    ensures WithKey(FilterByBusinessHours(s, hours), k) == FilterByBusinessHours(WithKey(s, k), hours)
    decreases |s|
  {
    if s != [] {
      var init, last := s[..|s| - 1], s[|s| - 1];
      assert s == init + [last];
      FilterAppend(init, [last], hours);
      WithKeyAppend(FilterByBusinessHours(init, hours), FilterByBusinessHours([last], hours), k);
      FilterWithKey(init, hours, k);
      FilterAppend(WithKey(init, k), if Key(last) == k then [last] else [], hours);
      assert FilterByBusinessHours([last], hours) == if Keep(last, hours) then [last] else [];
      assert ([last] + [])[..0] == [];
      if Keep(last, hours) {
        assert WithKey([last], k) == WithKey([], k) + if Key(last) == k then [last] else [];
      }
      assert FilterByBusinessHours([], hours) == [];
    }
  }

  lemma {:induction false} InsertPermutes(sorted: seq<StoreStatus>, x: StoreStatus)
    ensures multiset(InsertByLocalTime(sorted, x)) == multiset(sorted) + multiset{x}
    decreases |sorted|
  {
    if sorted != [] {
      var init, last := sorted[..|sorted| - 1], sorted[|sorted| - 1];
      assert sorted == init + [last];
      if Key(x) < Key(last) {
        InsertPermutes(init, x);
      }
    }
  }

  lemma {:induction false} InsertSorted(sorted: seq<StoreStatus>, x: StoreStatus)
    requires SortedByLocalTime(sorted)
    ensures SortedByLocalTime(InsertByLocalTime(sorted, x))
    decreases |sorted|
  {
    if sorted != [] {
      var init, last := sorted[..|sorted| - 1], sorted[|sorted| - 1];
      if Key(x) < Key(last) {
        var ins := InsertByLocalTime(init, x);
        InsertSorted(init, x);
        InsertPermutes(init, x);
        forall y | y in ins ensures Key(y) <= Key(last) {
          assert y in multiset(ins);
        }
      }
    }
  }

  lemma {:induction false} InsertDistinct(sorted: seq<StoreStatus>, x: StoreStatus)
    requires Distinct(sorted) && x !in sorted
    ensures Distinct(InsertByLocalTime(sorted, x))
    decreases |sorted|
  {
    if sorted == [] {
      DistinctCons(x, []);
    } else {
      var init, last := sorted[..|sorted| - 1], sorted[|sorted| - 1];
      assert sorted == init + [last];
      DistinctSnoc(init, last);
      if Key(x) < Key(last) {
        var ins := InsertByLocalTime(init, x);
        InsertDistinct(init, x);
        InsertPermutes(init, x);
        assert last !in multiset(ins);
        DistinctSnoc(ins, last);
      } else {
        DistinctSnoc(sorted, x);
      }
    }
  }

  lemma {:induction false} InsertStable(sorted: seq<StoreStatus>, x: StoreStatus, k: int)
    ensures WithKey(InsertByLocalTime(sorted, x), k) == WithKey(sorted, k) + if Key(x) == k then [x] else []
    decreases |sorted|
  {
    var r := InsertByLocalTime(sorted, x);
    if sorted == [] {
      assert r[..|r| - 1] == [];
    } else {
      var init, last := sorted[..|sorted| - 1], sorted[|sorted| - 1];
      if Key(x) < Key(last) {
        InsertStable(init, x, k);
        assert r[..|r| - 1] == InsertByLocalTime(init, x);
      } else {
        assert r[..|r| - 1] == sorted;
      }
    }
  }

  lemma SortStep(s: seq<StoreStatus>, sortedInit: seq<StoreStatus>)
    requires s != [] && multiset(sortedInit) == multiset(s[..|s| - 1])
    ensures forall i :: 0 <= i < |sortedInit| ==> sortedInit[i] in s
  {
    forall i | 0 <= i < |sortedInit| ensures sortedInit[i] in s {
      assert sortedInit[i] in multiset(s[..|s| - 1]);
      assert sortedInit[i] in s[..|s| - 1];
    }
  }

  /** `list.sort(key=lambda x: x.local_time)`: a stable sort on the instant. */
  function SortByLocalTime(s: seq<StoreStatus>): (r: seq<StoreStatus>)
    reads s`localTime
    ensures multiset(r) == multiset(s)
    ensures SortedByLocalTime(r)
    decreases |s|
  {
    if s == [] then []
    else
      var init, last := s[..|s| - 1], s[|s| - 1];
      assert s == init + [last];
      var sortedInit := SortByLocalTime(init);
      SortStep(s, sortedInit);
      InsertPermutes(sortedInit, last);
      InsertSorted(sortedInit, last);
      InsertByLocalTime(sortedInit, last)
  }

  /** Sorting a list without repeated rows gives one without repeated rows. */
  lemma {:induction false} SortKeepsDistinct(s: seq<StoreStatus>)
    requires Distinct(s)
    ensures Distinct(SortByLocalTime(s))
    decreases |s|
  {
    if s != [] {
      var init, last := s[..|s| - 1], s[|s| - 1];
      assert s == init + [last];
      DistinctSnoc(init, last);
      SortKeepsDistinct(init);
      var sortedInit := SortByLocalTime(init);
      assert last !in multiset(sortedInit);
      InsertDistinct(sortedInit, last);
    }
  }

  /** The sort is stable: for every instant, the rows carrying it keep their
      relative order. */
  lemma {:induction false} SortIsStable(s: seq<StoreStatus>, k: int)
    ensures WithKey(SortByLocalTime(s), k) == WithKey(s, k)
    decreases |s|
  {
    if s != [] {
      var init, last := s[..|s| - 1], s[|s| - 1];
      assert s[..|s| - 1] == init;
      SortIsStable(init, k);
      InsertStable(SortByLocalTime(init), last, k);
    }
  }

  /** The sorted list holds only rows of the list it was sorted from. */
  lemma SortedWithin(s: seq<StoreStatus>)
    ensures forall o :: o in SortByLocalTime(s) ==> o in s
    ensures forall i :: 0 <= i < |SortByLocalTime(s)| ==> SortByLocalTime(s)[i] in s
  {
    var r := SortByLocalTime(s);
    forall o | o in r ensures o in s {
      assert o in multiset(r);
    }
  }

  /** Every row but the first records the status of the row before it. */
  ghost predicate Chained(valid: seq<StoreStatus>)
    reads valid`prevStatus
  {
    forall i :: 1 <= i < |valid| ==> valid[i].prevStatus == Some(valid[i - 1].status)
  }

  /** The loop `valid[i].prev_status = valid[i - 1].status` over the whole
      sorted list: the predecessor is the previous row of any store. */
  method ChainPrevStatus(valid: seq<StoreStatus>)
    requires Distinct(valid)
    modifies valid`prevStatus
    ensures Chained(valid)
    ensures |valid| > 0 ==> valid[0].prevStatus == old(valid[0].prevStatus)
  {
    var i := 1;
    while i < |valid|
      invariant 1 <= i
      invariant forall k :: 1 <= k < i && k < |valid| ==> valid[k].prevStatus == Some(valid[k - 1].status)
      invariant |valid| > 0 ==> valid[0].prevStatus == old(valid[0].prevStatus)
    {
      valid[i].prevStatus := Some(valid[i - 1].status);
      i := i + 1;
    }
  }

  /** `max(status.local_time for status in store_status_data)`, as an instant. */
  function LatestInstant(statuses: seq<StoreStatus>): (t: int)
    requires statuses != []
    reads statuses`localTime
    ensures exists i :: 0 <= i < |statuses| && Key(statuses[i]) == t
    ensures forall i :: 0 <= i < |statuses| ==> Key(statuses[i]) <= t
    decreases |statuses|
  {
    if |statuses| == 1 then Key(statuses[0])
    else
      var rest := LatestInstant(statuses[1..]);
      if rest <= Key(statuses[0]) then Key(statuses[0]) else rest
  }

  /** `[status for status in valid_status_data if status.store_id == store_id]`. */
  function StatusesOf(valid: seq<StoreStatus>, storeId: string): (r: seq<StoreStatus>)
    ensures forall i :: 0 <= i < |r| ==> r[i] in valid && r[i].storeId == storeId
  {
    if valid == [] then []
    else (if valid[0].storeId == storeId then [valid[0]] else []) + StatusesOf(valid[1..], storeId)
  }

  /** A row is selected exactly when it belongs to the store. */
  lemma {:induction false} StatusesOfExactly(valid: seq<StoreStatus>, storeId: string)
    ensures forall o :: o in valid ==> (o in StatusesOf(valid, storeId) <==> o.storeId == storeId)
  {
    if valid != [] {
      StatusesOfExactly(valid[1..], storeId);
      assert forall o :: o in valid ==> o == valid[0] || o in valid[1..];
    }
  }

  /** Selecting one store's rows keeps them sorted. */
  lemma {:induction false} StatusesOfSorted(valid: seq<StoreStatus>, storeId: string)
    requires SortedByLocalTime(valid)
    ensures SortedByLocalTime(StatusesOf(valid, storeId))
  {
    if valid != [] {
      var tail := valid[1..];
      StatusesOfSorted(tail, storeId);
      var rest := StatusesOf(tail, storeId);
      if valid[0].storeId == storeId {
        forall j | 0 <= j < |rest| ensures Key(valid[0]) <= Key(rest[j]) {
          var m :| 0 <= m < |tail| && tail[m] == rest[j];
          assert valid[m + 1] == rest[j];
        }
        SortedCons(valid[0], rest);
      }
    }
  }

  /** A row no later than every row of a sorted list can go in front of it. */
  lemma SortedCons(a: StoreStatus, rest: seq<StoreStatus>)
    requires SortedByLocalTime(rest)
    requires forall j :: 0 <= j < |rest| ==> Key(a) <= Key(rest[j])
    ensures SortedByLocalTime([a] + rest)
  {
    var r := [a] + rest;
    forall i, j | 0 <= i < j < |r| ensures Key(r[i]) <= Key(r[j]) {
      assert r[j] == rest[j - 1];
      if i > 0 {
        assert r[i] == rest[i - 1];
      }
    }
  }
}
