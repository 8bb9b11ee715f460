/** Python's ordering of `str` values (code point by code point, a proper
    prefix first) and `sorted(set(xs))` over it. */
module StringOrder {

  /** `a < b` on Python strings. */
  predicate Below(a: string, b: string)
  {
    if a == [] then b != []
    else if b == [] then false
    else a[0] < b[0] || (a[0] == b[0] && Below(a[1..], b[1..]))
  }

  lemma {:induction false} BelowIrreflexive(a: string)
    ensures !Below(a, a)
  {
    if a != [] {
      BelowIrreflexive(a[1..]);
    }
  }

  lemma {:induction false} BelowTransitive(a: string, b: string, c: string)
    requires Below(a, b) && Below(b, c)
    ensures Below(a, c)
  {
    if a != [] && b != [] && c != [] && a[0] == b[0] == c[0] {
      BelowTransitive(a[1..], b[1..], c[1..]);
    }
  }

  lemma {:induction false} BelowTotal(a: string, b: string)
    ensures a == b || Below(a, b) || Below(b, a)
  {
    if a != [] && b != [] && a[0] == b[0] {
      BelowTotal(a[1..], b[1..]);
      if a[1..] == b[1..] {
        assert a == [a[0]] + a[1..] && b == [b[0]] + b[1..];
      }
    }
  }

  ghost predicate StrictlyAscending(s: seq<string>)
  {
    forall i, j :: 0 <= i < j < |s| ==> Below(s[i], s[j])
  }

  /** Adds `x` to an ascending list of distinct strings, keeping it so. */
  function InsertUnique(sorted: seq<string>, x: string): (r: seq<string>)
    requires StrictlyAscending(sorted)
    ensures StrictlyAscending(r)
    ensures forall y :: y in r <==> y in sorted || y == x
  {
    if sorted == [] then [x]
    else if x == sorted[0] then sorted
    else if Below(x, sorted[0]) then
      assert forall j :: 0 < j < |sorted| ==> Below(x, sorted[j]) by {
        forall j | 0 < j < |sorted| ensures Below(x, sorted[j]) {
          BelowTransitive(x, sorted[0], sorted[j]);
        }
      }
      [x] + sorted
    else
      BelowTotal(x, sorted[0]);
      var rest := InsertUnique(sorted[1..], x);
      assert forall y :: y in rest ==> Below(sorted[0], y);
      [sorted[0]] + rest
  }

  /** `sorted(set(xs))`: the distinct strings of `xs` in ascending order. */
  function SortedDistinct(xs: seq<string>): (r: seq<string>)
    ensures StrictlyAscending(r)
    ensures forall y :: y in r <==> y in xs
  {
    if xs == [] then []
    else
      var r := InsertUnique(SortedDistinct(xs[..|xs| - 1]), xs[|xs| - 1]);
      assert xs == xs[..|xs| - 1] + [xs[|xs| - 1]];
      r
  }
}
