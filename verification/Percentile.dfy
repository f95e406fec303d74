/** The latency percentile of the burst report (scripts/burst_verify.py:84-92): sort, then
    interpolate linearly between the two ranks around the requested position. */
module Percentile {

  ghost predicate IsSorted(s: seq<real>) {
    forall i, j :: 0 <= i <= j < |s| ==> s[i] <= s[j]
  }

  // ----- sorted()

  function Insert(x: real, s: seq<real>): seq<real> {
    if s == [] || x <= s[0] then [x] + s else [s[0]] + Insert(x, s[1..])
  }

  function Sort(s: seq<real>): seq<real> {
    if s == [] then [] else Insert(s[0], Sort(s[1..]))
  }

  lemma HeadAndTail(s: seq<real>)
    requires s != []
    ensures multiset(s) == multiset{s[0]} + multiset(s[1..])
  {
    assert s == [s[0]] + s[1..];
  }

  lemma {:induction false} InsertAdds(x: real, s: seq<real>)
    ensures multiset(Insert(x, s)) == multiset(s) + multiset{x}
  {
    if s != [] && x > s[0] {
      InsertAdds(x, s[1..]);
      HeadAndTail(s);
    }
  }

  lemma {:induction false} InsertBounded(x: real, s: seq<real>, low: real)
    requires low <= x && forall i :: 0 <= i < |s| ==> low <= s[i]
    ensures forall i :: 0 <= i < |Insert(x, s)| ==> low <= Insert(x, s)[i]
  {
    if s != [] && x > s[0] {
      InsertBounded(x, s[1..], low);
    }
  }

  lemma {:induction false} InsertSorts(x: real, s: seq<real>)
    requires IsSorted(s)
    ensures IsSorted(Insert(x, s))
  {
    if s != [] && x > s[0] {
      InsertSorts(x, s[1..]);
      InsertBounded(x, s[1..], s[0]);
      PrependSorted(s[0], Insert(x, s[1..]));
    }
  }

  lemma PrependSorted(x: real, s: seq<real>)
    requires IsSorted(s) && forall i :: 0 <= i < |s| ==> x <= s[i]
    ensures IsSorted([x] + s)
  {
  }

  lemma {:induction false} SortSorts(s: seq<real>)
    ensures IsSorted(Sort(s)) && multiset(Sort(s)) == multiset(s) && |Sort(s)| == |s|
  {
    if s != [] {
      SortSorts(s[1..]);
      InsertAdds(s[0], Sort(s[1..]));
      InsertSorts(s[0], Sort(s[1..]));
      HeadAndTail(s);
    }
    SameSize(Sort(s), s);
  }

  lemma SameSize(s: seq<real>, t: seq<real>)
    requires multiset(s) == multiset(t)
    ensures |s| == |t|
  {
    assert |multiset(s)| == |s| && |multiset(t)| == |t|;
  }

  lemma SortedHeads(s: seq<real>, t: seq<real>)
    requires IsSorted(s) && IsSorted(t) && multiset(s) == multiset(t) && s != [] && t != []
    ensures s[0] == t[0]
  {
    assert s[0] in multiset(t) && t[0] in multiset(s);
  }

  lemma SameTails(s: seq<real>, t: seq<real>)
    requires multiset(s) == multiset(t) && s != [] && t != [] && s[0] == t[0]
    ensures multiset(s[1..]) == multiset(t[1..])
  {
    HeadAndTail(s);
    HeadAndTail(t);
    assert multiset(s[1..]) == multiset(s) - multiset{s[0]};
  }

  // A sorted sequence is determined by its elements.
  lemma {:induction false} SortedUnique(s: seq<real>, t: seq<real>)
    requires IsSorted(s) && IsSorted(t) && multiset(s) == multiset(t)
    ensures s == t
  {
    SameSize(s, t);
    if s != [] {
      SortedHeads(s, t);
      SameTails(s, t);
      SortedUnique(s[1..], t[1..]);
      assert s == [s[0]] + s[1..] && t == [t[0]] + t[1..];
    }
  }

  // ----- interpolation

  // The value at a real-valued rank of a sorted sequence.
  function At(ordered: seq<real>, position: real): real
    requires ordered != [] && 0.0 <= position <= (|ordered| - 1) as real
  {
    var lower := position.Floor;
    var upper := if lower + 1 < |ordered| - 1 then lower + 1 else |ordered| - 1;
    ordered[lower] + (ordered[upper] - ordered[lower]) * (position - lower as real)
  }

  function Position(count: nat, p: real): (position: real)
    requires count > 0 && 0.0 <= p <= 1.0
    ensures 0.0 <= position <= (count - 1) as real
  {
    WithinProduct((count - 1) as real, p);
    (count - 1) as real * p
  }

  function OfSorted(ordered: seq<real>, p: real): real
    requires ordered != [] && 0.0 <= p <= 1.0
  {
    At(ordered, Position(|ordered|, p))
  }

  function Percentile(values: seq<real>, p: real): real
    requires 0.0 <= p <= 1.0
  {
    if values == [] then 0.0
    else
      SortSorts(values);
      OfSorted(Sort(values), p)
  }

  lemma WithinProduct(n: real, p: real)
    requires n >= 0.0 && 0.0 <= p <= 1.0
    ensures 0.0 <= n * p <= n
  {
    ProductRises(n, 0.0, p, n * 0.0, n * p);
    ProductRises(n, p, 1.0, n * p, n * 1.0);
  }

  lemma PositiveProduct(x: real, y: real, q: real)
    requires x > 0.0 && y > 0.0 && q == x * y
    ensures q > 0.0
  {
  }

  lemma ZeroProduct(x: real, y: real, q: real)
    requires (x == 0.0 || y == 0.0) && q == x * y
    ensures q == 0.0
  {
  }

  lemma Product(x: real, y: real, q: real)
    requires x >= 0.0 && y >= 0.0 && q == x * y
    ensures q >= 0.0
  {
    if x > 0.0 && y > 0.0 {
      PositiveProduct(x, y, q);
    } else {
      ZeroProduct(x, y, q);
    }
  }

  lemma Distribute(d: real, x: real, y: real)
    ensures d * (x - y) == d * x - d * y
  {
  }

  // d * y <= d * x for y <= x
  lemma ProductRises(d: real, y: real, x: real, qy: real, qx: real)
    requires d >= 0.0 && y <= x && qy == d * y && qx == d * x
    ensures qy <= qx
  {
    Distribute(d, x, y);
    Product(d, x - y, qx - qy);
  }

  // a + (b - a) * x for 0 <= x <= 1, and its monotonicity
  lemma Between(a: real, b: real, x: real)
    requires a <= b && 0.0 <= x <= 1.0
    ensures a <= a + (b - a) * x <= b
  {
    ProductRises(b - a, 0.0, x, (b - a) * 0.0, (b - a) * x);
    ProductRises(b - a, x, 1.0, (b - a) * x, (b - a) * 1.0);
  }

  lemma Rises(a: real, b: real, x: real, y: real)
    requires a <= b && x <= y
    ensures a + (b - a) * x <= a + (b - a) * y
  {
    ProductRises(b - a, x, y, (b - a) * x, (b - a) * y);
  }

  // The value lies between the elements at the two ranks around it.
  lemma AtBetween(ordered: seq<real>, position: real)
    requires ordered != [] && IsSorted(ordered) && 0.0 <= position <= (|ordered| - 1) as real
    ensures ordered[position.Floor] <= At(ordered, position)
    ensures position.Floor + 1 < |ordered| ==> At(ordered, position) <= ordered[position.Floor + 1]
    ensures position.Floor == |ordered| - 1 ==> At(ordered, position) == ordered[|ordered| - 1]
  {
    var lower := position.Floor;
    var upper := if lower + 1 < |ordered| - 1 then lower + 1 else |ordered| - 1;
    Between(ordered[lower], ordered[upper], position - lower as real);
  }

  lemma AtRises(ordered: seq<real>, x: real, y: real)
    requires ordered != [] && IsSorted(ordered) && 0.0 <= x <= y <= (|ordered| - 1) as real
    ensures At(ordered, x) <= At(ordered, y)
  {
    var i, j := x.Floor, y.Floor;
    if i == j {
      var upper := if i + 1 < |ordered| - 1 then i + 1 else |ordered| - 1;
      Rises(ordered[i], ordered[upper], x - i as real, y - j as real);
    } else {
      AtBetween(ordered, x);
      AtBetween(ordered, y);
      assert i + 1 <= j;
    }
  }

  // ----- the percentile

  lemma PositionRises(count: nat, p: real, q: real)
    requires count > 0 && 0.0 <= p <= q <= 1.0
    ensures Position(count, p) <= Position(count, q)
  {
    ProductRises((count - 1) as real, p, q, Position(count, p), Position(count, q));
  }

  lemma PositionEnds(count: nat)
    requires count > 0
    ensures Position(count, 0.0) == 0.0 && Position(count, 1.0) == (count - 1) as real
  {
  }

  lemma OfSortedRises(ordered: seq<real>, p: real, q: real)
    requires ordered != [] && IsSorted(ordered) && 0.0 <= p <= q <= 1.0
    ensures OfSorted(ordered, p) <= OfSorted(ordered, q)
  {
    PositionRises(|ordered|, p, q);
    AtRises(ordered, Position(|ordered|, p), Position(|ordered|, q));
  }

  /** A higher percentile is never a smaller value, across interpolation segments too. */
  lemma PercentileMonotone(values: seq<real>, p: real, q: real)
    requires 0.0 <= p <= q <= 1.0
    ensures Percentile(values, p) <= Percentile(values, q)
  {
    if values != [] {
      SortSorts(values);
      OfSortedRises(Sort(values), p, q);
    }
  }

  lemma OfSortedEnds(ordered: seq<real>)
    requires ordered != [] && IsSorted(ordered)
    ensures OfSorted(ordered, 0.0) == ordered[0]
    ensures OfSorted(ordered, 1.0) == ordered[|ordered| - 1]
  {
    PositionEnds(|ordered|);
    AtBetween(ordered, (|ordered| - 1) as real);
  }

  /** The extremes of any non-empty list: the percentile at 0 is its least element, at 1 its
      greatest, and in between it never leaves them. */
  lemma PercentileRange(values: seq<real>, p: real)
    requires values != [] && 0.0 <= p <= 1.0
    ensures Percentile(values, 0.0) in values && forall v :: v in values ==> Percentile(values, 0.0) <= v
    ensures Percentile(values, 1.0) in values && forall v :: v in values ==> v <= Percentile(values, 1.0)
    ensures Percentile(values, 0.0) <= Percentile(values, p) <= Percentile(values, 1.0)
  {
    var ordered := Sort(values);
    SortSorts(values);
    OfSortedEnds(ordered);
    SameElements(ordered, values);
    OfSortedRises(ordered, 0.0, p);
    OfSortedRises(ordered, p, 1.0);
  }

  lemma SameElements(s: seq<real>, t: seq<real>)
    requires multiset(s) == multiset(t)
    ensures forall v :: v in s <==> v in t
  {
    forall v ensures v in s <==> v in t {
      assert v in multiset(s) <==> v in multiset(t);
    }
  }

  /** The order in which latencies were measured does not matter. */
  lemma PercentileOfPermutation(values: seq<real>, others: seq<real>, p: real)
    requires multiset(values) == multiset(others) && 0.0 <= p <= 1.0
    ensures Percentile(values, p) == Percentile(others, p)
  {
    SortSorts(values);
    SortSorts(others);
    SortedUnique(Sort(values), Sort(others));
  }

  // ----- the curve between two ranks

  lemma AtWithin(ordered: seq<real>, k: nat, t: real, gap: real, rise: real)
    requires k + 1 < |ordered| && 0.0 <= t < 1.0
    requires gap == ordered[k + 1] - ordered[k] && rise == gap * t
    ensures At(ordered, k as real + t) == ordered[k] + rise
  {
    assert (k as real + t).Floor == k;
    assert k as real + t - k as real == t;
  }

  lemma AtRank(ordered: seq<real>, k: nat)
    requires k < |ordered|
    ensures At(ordered, k as real) == ordered[k]
  {
    assert (k as real).Floor == k;
  }

  lemma OnSegment(ordered: seq<real>, k: nat, t: real, p: real, gap: real, rise: real)
    requires k + 1 < |ordered| && 0.0 <= t <= 1.0 && 0.0 <= p <= 1.0
    requires Position(|ordered|, p) == k as real + t
    requires gap == ordered[k + 1] - ordered[k] && rise == gap * t
    ensures OfSorted(ordered, p) == ordered[k] + rise
  {
    if t < 1.0 {
      AtWithin(ordered, k, t, gap, rise);
    } else {
      assert k as real + t == (k + 1) as real && rise == gap;
      AtRank(ordered, k + 1);
    }
  }

  /** The curve, for any values and however they are put in ascending order: when the requested
      share of the way from the first rank to the last falls t beyond rank k, the percentile lies
      t of the way from the k-th value to the next, both ends included. */
  lemma StraightLine(values: seq<real>, ordered: seq<real>, k: nat, t: real, p: real, gap: real, rise: real)
    requires IsSorted(ordered) && multiset(ordered) == multiset(values) && k + 1 < |ordered|
    requires 0.0 <= t <= 1.0 && 0.0 <= p <= 1.0 && (|values| - 1) as real * p == k as real + t
    requires gap == ordered[k + 1] - ordered[k] && rise == gap * t
    ensures Percentile(values, p) == ordered[k] + rise
  {
    SameSize(ordered, values);
    SortSorts(values);
    SortedUnique(Sort(values), ordered);
    OnSegment(ordered, k, t, p, gap, rise);
  }

  /** Every share falls on such a segment, so the straight lines are the whole curve. */
  lemma SegmentOf(count: nat, p: real) returns (k: nat, t: real)
    requires count > 1 && 0.0 <= p <= 1.0
    ensures k + 1 < count && 0.0 <= t <= 1.0 && (count - 1) as real * p == k as real + t
  {
    WithinProduct((count - 1) as real, p);
    var position := (count - 1) as real * p;
    k := if position.Floor < count - 1 then position.Floor else count - 2;
    t := position - k as real;
  }

  /** One value is every percentile of itself, and without values the report says zero. */
  lemma FewValues(v: real, p: real)
    requires 0.0 <= p <= 1.0
    ensures Percentile([], p) == 0.0
    ensures Percentile([v], p) == v
  {
    SortSorts([v]);
    SortedUnique(Sort([v]), [v]);
    assert (1 - 1) as real * p == 0.0;
    AtRank([v], 0);
  }
}
