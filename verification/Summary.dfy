/**
 Summary statistics of a test profile: the percentile, interpolated between the two values around its position, and
 how concentrated test time is in the slowest cases. The percentile is shown to be monotone in its fraction and
 independent of the order of measurement, the top share to be the largest share of any selection.
 */
module Summary {
  import opened Common
  import opened Sorting

  // ---------------------------------------------------------------- percentile

  predicate AtMost(a: real, b: real) { a <= b }

  /** The values in ascending order. */
  function SortedValues(values: seq<real>): (r: seq<real>)
    ensures |r| == |values|
  {
    Sort(values, AtMost)
  }

  predicate Ascending(s: seq<real>) { forall i, j :: 0 <= i < j < |s| ==> s[i] <= s[j] }

  lemma {:induction false} SortedAscends(values: seq<real>)
    ensures Ascending(SortedValues(values)) && multiset(SortedValues(values)) == multiset(values)
  {
    assert Preorder(AtMost) by {
      forall a, b, c ensures Chains(AtMost, a, b, c) {
      }
    }
    SortSorts(values, AtMost);
    SortMembers(values, AtMost);
    var r := SortedValues(values);
    forall i, j | 0 <= i < j < |r| ensures r[i] <= r[j] {
      assert AtMost(r[i], r[j]);
    }
  }

  /** A value between two others, at a part of the way. */
  function Mix(a: real, b: real, weight: real): real { a + (b - a) * weight }

  lemma {:induction false} ProductSign(x: real, y: real)
    requires x >= 0.0 && y >= 0.0
    ensures x * y >= 0.0
  {
  }

  lemma {:induction false} MixBetween(a: real, b: real, weight: real)
    requires a <= b && 0.0 <= weight <= 1.0
    ensures a <= Mix(a, b, weight) <= b
  {
    ProductSign(b - a, weight);
    ProductSign(b - a, 1.0 - weight);
    assert (b - a) - (b - a) * weight == (b - a) * (1.0 - weight) >= 0.0;
  }

  lemma {:induction false} MixMonotone(a: real, b: real, v: real, w: real)
    requires a <= b && v <= w
    ensures Mix(a, b, v) <= Mix(a, b, w)
  {
    assert (b - a) * w - (b - a) * v == (b - a) * (w - v) >= 0.0;
  }

  function Upper(n: nat, lower: nat): nat
    requires lower < n
  {
    if lower + 1 < n - 1 then lower + 1 else n - 1
  }

  /** The value at a position between two ranks of a sorted list. */
  function Interpolated(ordered: seq<real>, position: real): real
    requires 0.0 <= position <= (|ordered| - 1) as real
  {
    var lower := position.Floor;
    Mix(ordered[lower], ordered[Upper(|ordered|, lower)], position - lower as real)
  }

  function Position(n: nat, fraction: real): (p: real)
    requires n > 0 && 0.0 <= fraction <= 1.0
    ensures 0.0 <= p <= (n - 1) as real
  {
    (n - 1) as real * fraction
  }

  lemma {:induction false} PositionMonotone(n: nat, f: real, g: real)
    requires n > 0 && 0.0 <= f <= g <= 1.0
    ensures Position(n, f) <= Position(n, g)
  {
    assert (n - 1) as real * g - (n - 1) as real * f == (n - 1) as real * (g - f) >= 0.0;
  }

  lemma {:induction false} PositionEnds(n: nat)
    requires n > 0
    ensures Position(n, 0.0) == 0.0 && Position(n, 1.0) == (n - 1) as real
  {
  }

  function Percentile(values: seq<real>, fraction: real): real
    requires 0.0 <= fraction <= 1.0
  {
    if values == [] then 0.0 else Interpolated(SortedValues(values), Position(|values|, fraction))
  }

  lemma {:induction false} Between(ordered: seq<real>, position: real)
    requires Ascending(ordered) && 0.0 <= position <= (|ordered| - 1) as real
    ensures ordered[position.Floor] <= Interpolated(ordered, position) <= ordered[Upper(|ordered|, position.Floor)]
  {
    var lower := position.Floor;
    MixBetween(ordered[lower], ordered[Upper(|ordered|, lower)], position - lower as real);
  }

  lemma {:induction false} InterpolatedMonotone(ordered: seq<real>, p: real, q: real)
    requires Ascending(ordered) && 0.0 <= p <= q <= (|ordered| - 1) as real
    ensures Interpolated(ordered, p) <= Interpolated(ordered, q)
  {
    var lower := p.Floor;
    if lower == q.Floor {
      MixMonotone(ordered[lower], ordered[Upper(|ordered|, lower)], p - lower as real, q - lower as real);
    } else {
      Between(ordered, p);
      Between(ordered, q);
      assert ordered[Upper(|ordered|, lower)] <= ordered[q.Floor];
    }
  }

  lemma {:induction false} InterpolatedEnds(ordered: seq<real>)
    requires ordered != []
    ensures Interpolated(ordered, 0.0) == ordered[0]
    ensures Interpolated(ordered, (|ordered| - 1) as real) == ordered[|ordered| - 1]
  {
    assert ((|ordered| - 1) as real).Floor == |ordered| - 1;
  }

  lemma {:induction false} SameMembers(a: seq<real>, b: seq<real>, v: real)
    requires multiset(a) == multiset(b)
    ensures v in a <==> v in b
  {
    assert v in a <==> v in multiset(a);
    assert v in b <==> v in multiset(b);
  }

  /** At the ends the percentile is the smallest and the largest of the values. */
  lemma {:induction false} PercentileEnds(values: seq<real>, v: real)
    requires v in values
    ensures Percentile(values, 0.0) in values && Percentile(values, 1.0) in values
    ensures Percentile(values, 0.0) <= v <= Percentile(values, 1.0)
  {
    var ordered := SortedValues(values);
    SortedAscends(values);
    PositionEnds(|values|);
    InterpolatedEnds(ordered);
    SameMembers(ordered, values, ordered[0]);
    SameMembers(ordered, values, ordered[|ordered| - 1]);
    SameMembers(ordered, values, v);
    var i :| 0 <= i < |ordered| && ordered[i] == v;
    assert ordered[0] <= ordered[i] <= ordered[|ordered| - 1];
  }

  /** A larger fraction never gives a smaller percentile. */
  lemma {:induction false} PercentileMonotone(values: seq<real>, f: real, g: real)
    requires 0.0 <= f <= g <= 1.0
    ensures Percentile(values, f) <= Percentile(values, g)
  {
    if values != [] {
      SortedAscends(values);
      PositionMonotone(|values|, f, g);
      InterpolatedMonotone(SortedValues(values), Position(|values|, f), Position(|values|, g));
    }
  }

  /** Between the ends the percentile lies between the smallest and the largest value. */
  lemma {:induction false} PercentileBetween(values: seq<real>, fraction: real)
    requires 0.0 <= fraction <= 1.0
    ensures Percentile(values, 0.0) <= Percentile(values, fraction) <= Percentile(values, 1.0)
  {
    PercentileMonotone(values, 0.0, fraction);
    PercentileMonotone(values, fraction, 1.0);
  }

  lemma {:induction false} SortedOfSame(a: seq<real>, b: seq<real>)
    requires multiset(a) == multiset(b)
    ensures SortedValues(a) == SortedValues(b) && |a| == |b|
  {
    assert |a| == |multiset(a)| && |b| == |multiset(b)|;
    assert Preorder(AtMost) by {
      forall x, y, z ensures Chains(AtMost, x, y, z) {
      }
    }
    SortOfSame(a, b, AtMost);
  }

  /** The order in which values were measured does not matter. */
  lemma {:induction false} PercentileOrderIrrelevant(a: seq<real>, b: seq<real>, fraction: real)
    requires multiset(a) == multiset(b) && 0.0 <= fraction <= 1.0
    ensures Percentile(a, fraction) == Percentile(b, fraction)
  {
    SortedOfSame(a, b);
  }

  /** Between two neighbouring ranks the percentile is on the line through them, whatever order the values came in. */
  lemma {:induction false} PercentileMeaning(values: seq<real>, ordered: seq<real>, fraction: real, k: nat)
    requires 0.0 <= fraction <= 1.0 && Ascending(ordered) && multiset(ordered) == multiset(values)
    requires k + 1 < |ordered| && k as real <= fraction * (|ordered| - 1) as real <= (k + 1) as real
    ensures Percentile(values, fraction)
         == ordered[k] + (ordered[k + 1] - ordered[k]) * (fraction * (|ordered| - 1) as real - k as real)
  {
    OnlyOrder(values, ordered);
    var position := fraction * (|ordered| - 1) as real;
    assert Position(|values|, fraction) == position;
    OnLine(ordered, position, k);
  }

  lemma {:induction false} OnLine(ordered: seq<real>, position: real, k: nat)
    requires k + 1 < |ordered| && k as real <= position <= (k + 1) as real
    ensures Interpolated(ordered, position) == ordered[k] + (ordered[k + 1] - ordered[k]) * (position - k as real)
  {
    if position == (k + 1) as real {
      assert position.Floor == k + 1;
    } else {
      assert position.Floor == k;
    }
  }

  lemma {:induction false} OnlyOrder(values: seq<real>, ordered: seq<real>)
    requires Ascending(ordered) && multiset(ordered) == multiset(values)
    ensures SortedValues(values) == ordered && |values| == |ordered|
  {
    SortedAscends(values);
    assert |values| == |multiset(values)| && |ordered| == |multiset(ordered)|;
    SortedUnique(SortedValues(values), ordered, AtMost);
  }

  /** One value is its own percentile, and no values have 0. */
  lemma {:induction false} PercentileOfFew(v: real, fraction: real)
    requires 0.0 <= fraction <= 1.0
    ensures Percentile([v], fraction) == v && Percentile([], fraction) == 0.0
  {
    OnlyOrder([v], [v]);
  }

  // ---------------------------------------------------------------- concentration

  /** A test case; `id` is its place among the sorted identifiers. */
  datatype Case = Case(id: int, body: real)

  /** Longest body first, then by identifier. */
  predicate Ahead(a: Case, b: Case) { a.body > b.body || (a.body == b.body && a.id <= b.id) }

  function Ranked(s: seq<Case>): (r: seq<Case>)
    ensures |r| == |s|
  {
    Sort(s, Ahead)
  }

  predicate Falling(s: seq<Case>) { forall i, j :: 0 <= i < j < |s| ==> s[i].body >= s[j].body }

  lemma {:induction false} RankedFalls(s: seq<Case>)
    ensures Falling(Ranked(s)) && multiset(Ranked(s)) == multiset(s)
  {
    assert Preorder(Ahead) by {
      forall a, b, c ensures Chains(Ahead, a, b, c) {
      }
    }
    SortSorts(s, Ahead);
    SortMembers(s, Ahead);
    var r := Ranked(s);
    forall i, j | 0 <= i < j < |r| ensures r[i].body >= r[j].body {
      assert Ahead(r[i], r[j]);
    }
  }

  function Sum(s: seq<Case>): real { if s == [] then 0.0 else Sum(s[..|s| - 1]) + s[|s| - 1].body }

  function First(s: seq<Case>, k: nat): seq<Case> { if k < |s| then s[..k] else s }

  /** The share of all body time that the `k` longest cases hold. */
  function TopShare(cases: seq<Case>, k: nat): real {
    if Sum(cases) == 0.0 then 0.0 else Sum(First(Ranked(cases), k)) / Sum(cases)
  }

  predicate NonNegative(s: seq<Case>) { forall i :: 0 <= i < |s| ==> s[i].body >= 0.0 }

  lemma {:induction false} SumWithout(s: seq<Case>, j: nat)
    requires j < |s|
    ensures Sum(s) == Sum(Without(s, j)) + s[j].body
    decreases |s|
  {
    var front := s[..|s| - 1];
    if j == |s| - 1 {
      assert Without(s, j) == front;
    } else {
      SumWithout(front, j);
      assert Without(s, j) == Without(front, j) + [s[|s| - 1]];
      assert Without(s, j)[..|s| - 2] == Without(front, j);
    }
  }

  lemma {:induction false} UsedLast(ranked: seq<Case>, chosen: seq<Case>, j: nat)
    requires Falling(ranked) && 0 < |ranked| && j < |chosen| <= |ranked| && chosen[j] == ranked[|ranked| - 1]
    requires Sum(Without(chosen, j)) <= Sum(ranked[..|ranked| - 1][..|chosen| - 1])
    ensures Sum(chosen) <= Sum(ranked[..|chosen|])
  {
    SumWithout(chosen, j);
    LongerPrefix(ranked, |chosen| - 1);
    assert ranked[..|ranked| - 1][..|chosen| - 1] == ranked[..|chosen| - 1];
    assert ranked[|chosen| - 1].body >= ranked[|ranked| - 1].body;
  }

  lemma {:induction false} FallingFront(ranked: seq<Case>)
    requires Falling(ranked) && ranked != []
    ensures Falling(ranked[..|ranked| - 1])
  {
  }

  lemma {:induction false} StillChosen(ranked: seq<Case>, chosen: seq<Case>, j: nat)
    requires multiset(chosen) <= multiset(ranked) && ranked != [] && j < |chosen| && chosen[j] == ranked[|ranked| - 1]
    ensures multiset(Without(chosen, j)) <= multiset(ranked[..|ranked| - 1])
  {
    WithoutMembers(chosen, j);
    assert ranked == ranked[..|ranked| - 1] + [ranked[|ranked| - 1]];
    Cancel(multiset(Without(chosen, j)), multiset(ranked[..|ranked| - 1]), chosen[j]);
  }

  /** No choice from a falling list sums to more than as many from its front. */
  lemma {:induction false} FrontIsLargest(ranked: seq<Case>, chosen: seq<Case>)
    requires Falling(ranked) && multiset(chosen) <= multiset(ranked)
    ensures |chosen| <= |ranked| && Sum(chosen) <= Sum(ranked[..|chosen|])
    decreases |ranked|
  {
    SmallerCount(chosen, ranked);
    if chosen != [] {
      FallingFront(ranked);
      if j: nat :| j < |chosen| && chosen[j] == ranked[|ranked| - 1] {
        StillChosen(ranked, chosen, j);
        FrontIsLargest(ranked[..|ranked| - 1], Without(chosen, j));
        UsedLast(ranked, chosen, j);
      } else {
        LastUnused(ranked, chosen);
        FrontIsLargest(ranked[..|ranked| - 1], chosen);
        assert ranked[..|ranked| - 1][..|chosen|] == ranked[..|chosen|];
      }
    }
  }

  lemma {:induction false} SmallerCount(a: seq<Case>, b: seq<Case>)
    requires multiset(a) <= multiset(b)
    ensures |a| <= |b|
  {
    assert multiset(b) == multiset(a) + (multiset(b) - multiset(a));
    assert |multiset(a)| == |a| && |multiset(b)| == |b|;
  }

  lemma {:induction false} LongerPrefix(s: seq<Case>, k: nat)
    requires k < |s|
    ensures Sum(s[..k + 1]) == Sum(s[..k]) + s[k].body
  {
    assert s[..k + 1][..k] == s[..k];
  }

  lemma {:induction false} LastUnused(ranked: seq<Case>, chosen: seq<Case>)
    requires ranked != [] && multiset(chosen) <= multiset(ranked)
    requires forall j :: 0 <= j < |chosen| ==> chosen[j] != ranked[|ranked| - 1]
    ensures multiset(chosen) <= multiset(ranked[..|ranked| - 1])
  {
    assert ranked == ranked[..|ranked| - 1] + [ranked[|ranked| - 1]];
    assert ranked[|ranked| - 1] !in chosen;
    assert ranked[|ranked| - 1] !in multiset(chosen);
  }

  lemma {:induction false} PrefixesGrow(s: seq<Case>, k: nat, l: nat)
    requires NonNegative(s) && k <= l <= |s|
    ensures 0.0 <= Sum(s[..k]) <= Sum(s[..l])
    decreases l
  {
    if l > 0 {
      LongerPrefix(s, l - 1);
      PrefixesGrow(s, if k < l then k else k - 1, l - 1);
    }
  }

  lemma {:induction false} Shares(a: real, b: real, total: real)
    requires total > 0.0 && 0.0 <= a <= b <= total
    ensures 0.0 <= a / total <= b / total <= 1.0 && (b == total ==> b / total == 1.0)
  {
    Divide(0.0, a, total);
    Divide(a, b, total);
    Divide(b, total, total);
  }

  function Capped(k: nat, n: nat): nat { if k < n then k else n }

  lemma {:induction false} FirstPrefix(s: seq<Case>, k: nat)
    ensures First(s, k) == s[..Capped(k, |s|)]
  {
  }

  lemma {:induction false} RankedNonNegative(cases: seq<Case>)
    requires NonNegative(cases)
    ensures NonNegative(Ranked(cases))
  {
    RankedFalls(cases);
    var r := Ranked(cases);
    forall i | 0 <= i < |r| ensures r[i].body >= 0.0 {
      assert r[i] in multiset(cases);
      var j :| 0 <= j < |cases| && cases[j] == r[i];
    }
  }

  /** Ranking does not change the sum. */
  lemma {:induction false} SameSum(cases: seq<Case>)
    ensures Sum(Ranked(cases)) == Sum(cases)
  {
    RankedFalls(cases);
    SumOfMultiset(Ranked(cases), cases);
  }

  lemma {:induction false} SumOfMultiset(a: seq<Case>, b: seq<Case>)
    requires multiset(a) == multiset(b)
    ensures Sum(a) == Sum(b)
    decreases |a|
  {
    SmallerCount(b, a);
    if a != [] {
      var last := a[|a| - 1];
      assert last in multiset(b);
      var j :| 0 <= j < |b| && b[j] == last;
      WithoutMembers(b, j);
      SumWithout(b, j);
      assert a == a[..|a| - 1] + [last];
      Cancel(multiset(a[..|a| - 1]), multiset(Without(b, j)), last);
      SumOfMultiset(a[..|a| - 1], Without(b, j));
    }
  }

  lemma {:induction false} Divide(a: real, b: real, total: real)
    requires total > 0.0 && a <= b
    ensures a / total <= b / total
  {
    assert b / total - a / total == (b - a) / total;
  }

  /**
   Main result on concentration: the share is the largest any `k` cases hold together, and with it the largest any
   fewer cases hold.
   */
  lemma {:induction false} TopShareIsLargest(cases: seq<Case>, chosen: seq<Case>, k: nat)
    requires NonNegative(cases) && Sum(cases) > 0.0 && multiset(chosen) <= multiset(cases) && |chosen| <= k
    ensures Sum(chosen) / Sum(cases) <= TopShare(cases, k)
  {
    RankedFalls(cases);
    var ranked := Ranked(cases);
    FrontIsLargest(ranked, chosen);
    RankedNonNegative(cases);
    PrefixesGrow(ranked, |chosen|, Capped(k, |ranked|));
    FirstPrefix(ranked, k);
    Divide(Sum(chosen), Sum(First(ranked, k)), Sum(cases));
  }

  /** And some `k` cases do hold it. */
  lemma {:induction false} TopShareIsHeld(cases: seq<Case>, k: nat) returns (chosen: seq<Case>)
    requires Sum(cases) != 0.0
    ensures multiset(chosen) <= multiset(cases) && |chosen| <= k && Sum(chosen) / Sum(cases) == TopShare(cases, k)
  {
    RankedFalls(cases);
    chosen := First(Ranked(cases), k);
    assert Ranked(cases) == chosen + Ranked(cases)[|chosen|..];
  }

  lemma {:induction false} FirstSum(cases: seq<Case>, k: nat)
    requires NonNegative(cases)
    ensures 0.0 <= Sum(First(Ranked(cases), k)) <= Sum(cases)
    ensures k >= |cases| ==> Sum(First(Ranked(cases), k)) == Sum(cases)
  {
    var ranked := Ranked(cases);
    RankedFalls(cases);
    RankedNonNegative(cases);
    SameSum(cases);
    FirstPrefix(ranked, k);
    PrefixesGrow(ranked, Capped(k, |ranked|), |ranked|);
    assert ranked[..|ranked|] == ranked;
  }

  lemma {:induction false} FirstSumGrows(cases: seq<Case>, k: nat, l: nat)
    requires NonNegative(cases) && k <= l
    ensures Sum(First(Ranked(cases), k)) <= Sum(First(Ranked(cases), l))
  {
    var ranked := Ranked(cases);
    RankedNonNegative(cases);
    FirstPrefix(ranked, k);
    FirstPrefix(ranked, l);
    PrefixesGrow(ranked, Capped(k, |ranked|), Capped(l, |ranked|));
  }

  /** The share never falls as `k` grows, stays within one, and is one once all cases are taken. */
  lemma {:induction false} TopShareGrows(cases: seq<Case>, k: nat, l: nat)
    requires NonNegative(cases) && k <= l
    ensures 0.0 <= TopShare(cases, k) <= TopShare(cases, l) <= 1.0
    ensures Sum(cases) != 0.0 && l >= |cases| ==> TopShare(cases, l) == 1.0
  {
    FirstSum(cases, k);
    FirstSum(cases, l);
    FirstSumGrows(cases, k, l);
    if Sum(cases) != 0.0 {
      Shares(Sum(First(Ranked(cases), k)), Sum(First(Ranked(cases), l)), Sum(cases));
    }
  }
}
