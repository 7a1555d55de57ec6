/** The envelope-preserving downsampler. */
module Downsample {
  import opened Common

  // It keeps the ends, both sides of every visibility change, the extremes of every bucket with their neighbours, and
  // fills what is left of the point budget uniformly. A sample is `None` where the array holds a value that is not
  // finite.
  //
  // First the nested loops are proved to select exactly the specified set of rows, then that set is shown to keep the
  // shape: ends, order and range of the result; the extremes of every bucket and of the whole series; the sequence of
  // visible and hidden runs; the point budget.

  type Series = seq<Option<real>>

  // ---------------------------------------------------------------- extremes of a range

  /** `low` asks for minima, otherwise for maxima. */
  predicate Beats(low: bool, a: real, b: real) { if low then a < b else a > b }

  /** `i` is the first position of the best finite value in the range. */
  ghost predicate IsFirstExtreme(v: Series, low: bool, start: nat, end: nat, i: nat)
    requires start <= end <= |v|
  {
    && start <= i < end && v[i].Some?
    && (forall j :: start <= j < end && v[j].Some? ==> !Beats(low, v[j].value, v[i].value))
    && (forall j :: start <= j < i && v[j].Some? ==> v[j].value != v[i].value)
  }

  function Extreme(v: Series, low: bool, start: nat, end: nat): (r: Option<nat>)
    requires start <= end <= |v|
    ensures r.None? ==> forall j :: start <= j < end ==> v[j].None?
    ensures r.Some? ==> IsFirstExtreme(v, low, start, end, r.value)
    decreases end - start
  {
    if start == end then None
    else
      var rest := Extreme(v, low, start + 1, end);
      if v[start].None? then rest
      else if rest.None? || !Beats(low, v[rest.value].value, v[start].value) then Some(start)
      else rest
  }

  /** One pass over the range, keeping the first best position seen. */
  method FindExtreme(v: Series, low: bool, start: nat, end: nat) returns (best: Option<nat>)
    requires start <= end <= |v|
    ensures best == Extreme(v, low, start, end)
  {
    best := None;
    for i := start to end
      invariant best.None? ==> forall j :: start <= j < i ==> v[j].None?
      invariant best.Some? ==> IsFirstExtreme(v, low, start, i, best.value)
    {
      if v[i].Some? && (best.None? || Beats(low, v[i].value, v[best.value].value)) {
        best := Some(i);
      }
    }
  }

  // ---------------------------------------------------------------- evenly spaced positions

  /** The `k`-th of the positions that cut `total` into `parts` equal steps, rounded down. */
  function Spaced(total: nat, parts: nat, k: nat): int
    requires 0 < parts && k <= parts
  {
    k * total / parts
  }

  lemma {:induction false} SpacedBound(total: nat, parts: nat, k: nat)
    requires 0 < parts && k <= parts
    ensures 0 <= Spaced(total, parts, k) <= total
    ensures k == 0 ==> Spaced(total, parts, k) == 0
    ensures k == parts ==> Spaced(total, parts, k) == total
  {
    var q, r := k * total / parts, k * total % parts;
    assert k * total == q * parts + r;
    assert k * total <= parts * total by { MulMonotone(k, parts, total); }
    if q > total { MulMonotone(total + 1, q, parts); }
    if q < 0 { MulMonotone(q, -1, parts); }
    if k == parts && q < total { MulMonotone(q + 1, total, parts); }
  }

  lemma {:induction false} SpacedMonotone(total: nat, parts: nat, k: nat)
    requires 0 < parts && k < parts
    ensures Spaced(total, parts, k) <= Spaced(total, parts, k + 1)
  {
    var a, b := Spaced(total, parts, k), Spaced(total, parts, k + 1);
    assert k * total <= (k + 1) * total by { MulMonotone(k, k + 1, total); }
    if b < a { MulMonotone(b + 1, a, parts); }
  }

  lemma {:induction false} MulMonotone(a: int, b: int, c: nat)
    requires a <= b
    ensures a * c <= b * c
  {
  }

  ghost predicate Spread(edges: seq<nat>, total: nat) {
    && |edges| >= 2 && edges[0] == 0 && edges[|edges| - 1] == total
    && (forall k :: 0 <= k < |edges| ==> edges[k] <= total)
    && (forall k :: 0 < k < |edges| ==> edges[k - 1] <= edges[k])
  }

  /** `points` positions from 0 to `total`, evenly spaced and rounded down. */
  function LinSpace(total: nat, points: nat): (r: seq<nat>)
    requires points >= 2
    ensures |r| == points && Spread(r, total)
  {
    SpacedSpread(total, points - 1);
    seq(points, k requires 0 <= k < points => SpacedBound(total, points - 1, k); Spaced(total, points - 1, k))
  }

  lemma {:induction false} SpacedSpread(total: nat, parts: nat)
    requires parts >= 1
    ensures forall k: nat :: k <= parts ==> 0 <= Spaced(total, parts, k) <= total
    ensures forall k: nat :: 0 < k <= parts ==> Spaced(total, parts, k - 1) <= Spaced(total, parts, k)
    ensures Spaced(total, parts, 0) == 0 && Spaced(total, parts, parts) == total
  {
    forall k: nat | k <= parts ensures 0 <= Spaced(total, parts, k) <= total {
      SpacedBound(total, parts, k);
    }
    SpacedBound(total, parts, 0);
    SpacedBound(total, parts, parts);
    forall k: nat | 0 < k <= parts ensures Spaced(total, parts, k - 1) <= Spaced(total, parts, k) {
      SpacedMonotone(total, parts, k - 1);
    }
  }

  /** Consecutive edges cover the whole range: every position lies in one of the buckets. */
  lemma {:induction false} BucketOf(edges: seq<nat>, total: nat, i: nat, k: nat) returns (b: nat)
    requires Spread(edges, total) && k < |edges| && i < edges[k]
    ensures b < k && edges[b] <= i < edges[b + 1]
    decreases k
  {
    if edges[k - 1] <= i {
      b := k - 1;
    } else {
      b := BucketOf(edges, total, i, k - 1);
    }
  }

  // ---------------------------------------------------------------- what is kept

  predicate Transition(visible: seq<bool>, t: nat) { 0 < t < |visible| && visible[t - 1] != visible[t] }

  /** The ends and both sides of every visibility change. */
  function Mandatory(visible: seq<bool>): set<int>
    requires visible != []
  {
    {0, |visible| - 1} + (set t: nat | t < |visible| && Transition(visible, t))
    + (set t: nat | t < |visible| && Transition(visible, t) :: t - 1)
  }

  /** A position with its neighbours, clipped to the range. */
  function Around(p: nat, length: nat): set<int>
    requires p < length
  {
    {p as int} + (if p > 0 then {p - 1} else {}) + (if p + 1 < length then {p + 1} else {})
  }

  function SeriesPoints(v: Series, start: nat, end: nat): (r: set<int>)
    requires start <= end <= |v|
    ensures forall p <- r :: 0 <= p < |v|
  {
    var lo, hi := Extreme(v, true, start, end), Extreme(v, false, start, end);
    (if lo.Some? then Around(lo.value, |v|) else {}) + (if hi.Some? then Around(hi.value, |v|) else {})
  }

  ghost predicate Aligned(usable: seq<Series>, length: nat) { forall j :: 0 <= j < |usable| ==> |usable[j]| == length }

  function UnionOf(sets: seq<set<int>>): set<int> {
    if sets == [] then {} else UnionOf(sets[..|sets| - 1]) + sets[|sets| - 1]
  }

  lemma {:induction false} UnionStep(sets: seq<set<int>>, k: nat)
    requires k < |sets|
    ensures UnionOf(sets[..k + 1]) == UnionOf(sets[..k]) + sets[k]
  {
    assert sets[..k + 1][..k] == sets[..k];
  }

  lemma {:induction false} UnionMembers(sets: seq<set<int>>, p: int)
    ensures p in UnionOf(sets) <==> exists k :: 0 <= k < |sets| && p in sets[k]
    decreases |sets|
  {
    if sets != [] {
      var front := sets[..|sets| - 1];
      UnionMembers(front, p);
      if p in UnionOf(front) {
        var k :| 0 <= k < |front| && p in front[k];
        assert p in sets[k];
      }
      if k :| 0 <= k < |sets| && p in sets[k] {
        assert k < |front| ==> p in front[k];
      }
    }
  }

  lemma {:induction false} UnionCount(sets: seq<set<int>>, unit: nat)
    requires forall k :: 0 <= k < |sets| ==> |sets[k]| <= unit
    ensures |UnionOf(sets)| <= |sets| * unit
    decreases |sets|
  {
    if sets != [] {
      var front := sets[..|sets| - 1];
      UnionCount(front, unit);
      UnionSize(UnionOf(front), sets[|sets| - 1]);
      assert |sets| * unit == |front| * unit + unit;
    }
  }

  lemma {:induction false} UnionSize(a: set<int>, b: set<int>)
    ensures |a + b| <= |a| + |b|
  {
    assert a + b == a + (b - a);
    assert b == (b - a) + (b * a);
  }

  function SeriesSets(usable: seq<Series>, length: nat, start: nat, end: nat): (r: seq<set<int>>)
    requires Aligned(usable, length) && start <= end <= length
    ensures |r| == |usable|
    ensures forall j :: 0 <= j < |r| ==> |usable[j]| == length && r[j] == SeriesPoints(usable[j], start, end)
  {
    seq(|usable|, j requires 0 <= j < |usable| => SeriesPoints(usable[j], start, end))
  }

  /** The points of bucket `b`; an empty bucket has none. */
  function Bucket(usable: seq<Series>, length: nat, edges: seq<nat>, b: nat): set<int>
    requires Aligned(usable, length) && Spread(edges, length) && b + 1 < |edges|
  {
    if edges[b + 1] <= edges[b] then {} else UnionOf(SeriesSets(usable, length, edges[b], edges[b + 1]))
  }

  function Buckets(usable: seq<Series>, length: nat, edges: seq<nat>): (r: seq<set<int>>)
    requires Aligned(usable, length) && Spread(edges, length)
    ensures |r| == |edges| - 1 && forall b :: 0 <= b < |r| ==> r[b] == Bucket(usable, length, edges, b)
  {
    seq(|edges| - 1, b requires 0 <= b < |edges| - 1 => Bucket(usable, length, edges, b))
  }

  lemma {:induction false} BucketsInRange(usable: seq<Series>, length: nat, edges: seq<nat>, p: int)
    requires Aligned(usable, length) && Spread(edges, length) && p in UnionOf(Buckets(usable, length, edges))
    ensures 0 <= p < length
  {
    var buckets := Buckets(usable, length, edges);
    UnionMembers(buckets, p);
    var b :| 0 <= b < |buckets| && p in buckets[b];
    UnionMembers(SeriesSets(usable, length, edges[b], edges[b + 1]), p);
  }

  /** The first `n` fill positions. */
  function FillPoints(fill: seq<nat>, n: nat): set<int>
    requires n <= |fill|
  {
    set k: nat | k < n :: fill[k]
  }

  lemma {:induction false} FillStep(fill: seq<nat>, n: nat)
    requires n < |fill|
    ensures FillPoints(fill, 0) == {} && FillPoints(fill, n + 1) == FillPoints(fill, n) + {fill[n] as int}
  {
  }

  function PointsPerBucket(usable: seq<Series>): nat { Max(2, |usable| * 2) * 3 }

  function Max(a: int, b: int): int { if a < b then b else a }

  /** The length of the array of mandatory points: a one-row frame lists its only row twice. */
  function MandatoryCount(visible: seq<bool>): nat
    requires visible != []
  {
    if |visible| == 1 then 2 else |Mandatory(visible)|
  }

  function BucketCount(maxPoints: int, visible: seq<bool>, usable: seq<Series>): (n: nat)
    requires visible != []
    ensures n > 0
    ensures n * PointsPerBucket(usable) <= Max(maxPoints - MandatoryCount(visible), PointsPerBucket(usable))
  {
    QuotientBound(Max(1, maxPoints - MandatoryCount(visible)), PointsPerBucket(usable));
    Max(1, Max(1, maxPoints - MandatoryCount(visible)) / PointsPerBucket(usable))
  }

  lemma {:induction false} QuotientBound(remaining: nat, unit: nat)
    requires 0 < remaining && 1 < unit
    ensures 0 <= remaining / unit && remaining / unit * unit <= remaining
    ensures remaining == 1 ==> remaining / unit == 0
  {
  }

  /** The bucket boundaries. */
  function Edges(maxPoints: int, visible: seq<bool>, usable: seq<Series>): (edges: seq<nat>)
    requires visible != []
    ensures Spread(edges, |visible|) && |edges| == BucketCount(maxPoints, visible, usable) + 1
  {
    LinSpace(|visible|, BucketCount(maxPoints, visible, usable) + 1)
  }

  function Envelope(maxPoints: int, visible: seq<bool>, usable: seq<Series>): set<int>
    requires visible != [] && Aligned(usable, |visible|)
  {
    Mandatory(visible) + UnionOf(Buckets(usable, |visible|, Edges(maxPoints, visible, usable)))
  }

  /** The positions that use up what the envelope leaves of the budget. */
  function Fill(maxPoints: int, length: nat, used: nat): (r: seq<nat>)
    requires 0 < length && used < maxPoints
    ensures |r| == maxPoints - used + 2 && Spread(r, length - 1)
  {
    LinSpace(length - 1, maxPoints - used + 2)
  }

  /** Everything that is kept of a frame that exceeds the budget. */
  function Kept(maxPoints: int, visible: seq<bool>, usable: seq<Series>): set<int>
    requires visible != [] && Aligned(usable, |visible|)
  {
    WithFill(maxPoints, |visible|, Envelope(maxPoints, visible, usable))
  }

  function WithFill(maxPoints: int, length: nat, envelope: set<int>): set<int>
    requires 0 < length
  {
    if |envelope| < maxPoints
    then
      var fill := Fill(maxPoints, length, |envelope|);
      envelope + FillPoints(fill, |fill|)
    else envelope
  }

  predicate HasFinite(v: Series) { exists i :: 0 <= i < |v| && v[i].Some? }

  /** The series that count, or the row numbers if none does. */
  function Usable(series: seq<Series>, length: nat): (u: seq<Series>)
    ensures u != [] && Aligned(u, length)
    ensures forall v <- series :: |v| == length && HasFinite(v) ==> v in u
  {
    var u := Filter(series, length);
    assert forall j :: 0 <= j < |u| ==> u[j] in u;
    if u == [] then [seq(length, i requires 0 <= i < length => Some(i as real))] else u
  }

  function Filter(series: seq<Series>, length: nat): (u: seq<Series>)
    ensures forall v :: v in u <==> v in series && |v| == length && HasFinite(v)
  {
    if series == [] then []
    else (if |series[0]| == length && HasFinite(series[0]) then [series[0]] else []) + Filter(series[1..], length)
  }

  function Identity(length: nat): seq<int> { seq(length, i => i) }

  /** What the downsampler returns. An empty frame under a negative budget yields the bogus rows -1 and 0. */
  function Indices(maxPoints: int, visible: seq<bool>, series: seq<Series>): seq<int> {
    var length := |visible|;
    if length <= maxPoints then Identity(length)
    else if length == 0 then [-1, 0]
    else Ordered(Kept(maxPoints, visible, Usable(series, length)), 0, length)
  }

  // ---------------------------------------------------------------- the algorithm

  method Downsample(length: nat, maxPoints: int, visible: seq<bool>, series: seq<Series>) returns (r: seq<int>)
    requires |visible| == length
    ensures r == Indices(maxPoints, visible, series)
  {
    if length <= maxPoints {
      return Identity(length);
    }
    if length == 0 {
      return [-1, 0];
    }
    var selected := Select(maxPoints, visible, Usable(series, length));
    r := Ordered(selected, 0, length);
  }

  method Select(maxPoints: int, visible: seq<bool>, usable: seq<Series>) returns (selected: set<int>)
    requires visible != [] && Aligned(usable, |visible|)
    ensures selected == Kept(maxPoints, visible, usable)
  {
    selected := SelectEnvelope(usable, |visible|, Edges(maxPoints, visible, usable), Mandatory(visible));
    if |selected| < maxPoints {
      var fill := Fill(maxPoints, |visible|, |selected|);
      selected := SelectFill(fill, selected);
    }
  }

  method SelectEnvelope(usable: seq<Series>, length: nat, edges: seq<nat>, mandatory: set<int>)
    returns (selected: set<int>)
    requires Aligned(usable, length) && Spread(edges, length)
    ensures selected == mandatory + UnionOf(Buckets(usable, length, edges))
  {
    selected := mandatory;
    ghost var buckets := Buckets(usable, length, edges);
    for b := 0 to |edges| - 1
      invariant selected == mandatory + UnionOf(buckets[..b])
    {
      UnionStep(buckets, b);
      var start, end := edges[b], edges[b + 1];
      if end <= start {
        continue;
      }
      selected := SelectBucket(usable, length, start, end, selected);
    }
    assert buckets[..|edges| - 1] == buckets;
  }

  method SelectBucket(usable: seq<Series>, length: nat, start: nat, end: nat, before: set<int>)
    returns (selected: set<int>)
    requires Aligned(usable, length) && start <= end <= length
    ensures selected == before + UnionOf(SeriesSets(usable, length, start, end))
  {
    selected := before;
    ghost var sets := SeriesSets(usable, length, start, end);
    for j := 0 to |usable|
      invariant selected == before + UnionOf(sets[..j])
    {
      UnionStep(sets, j);
      var lo := FindExtreme(usable[j], true, start, end);
      if lo.None? {
        continue;
      }
      var hi := FindExtreme(usable[j], false, start, end);
      selected := selected + Around(lo.value, length) + Around(hi.value, length);
    }
    assert sets[..|usable|] == sets;
  }

  method SelectFill(fill: seq<nat>, before: set<int>) returns (selected: set<int>)
    ensures selected == before + FillPoints(fill, |fill|)
  {
    selected := before;
    for n := 0 to |fill|
      invariant selected == before + FillPoints(fill, n)
    {
      FillStep(fill, n);
      selected := selected + {fill[n] as int};
    }
  }

  // ---------------------------------------------------------------- order and range

  ghost predicate InRange(r: seq<int>, length: nat) { forall i :: 0 <= i < |r| ==> 0 <= r[i] < length }

  /** A choice of rows that keeps the ends and both sides of every visibility change. */
  ghost predicate Sound(r: seq<int>, visible: seq<bool>) {
    && visible != [] && StrictlyIncreasing(r) && InRange(r, |visible|)
    && r != [] && r[0] == 0 && r[|r| - 1] == |visible| - 1
    && forall p <- Mandatory(visible) :: p in r
  }

  /** Below the budget every row is returned, above it exactly the kept ones. */
  lemma {:induction false} IndicesMembers(maxPoints: int, visible: seq<bool>, series: seq<Series>, p: int)
    requires visible != []
    ensures p in Indices(maxPoints, visible, series)
       <==> 0 <= p < |visible| && (|visible| <= maxPoints || p in Kept(maxPoints, visible, Usable(series, |visible|)))
  {
    if |visible| <= maxPoints {
      assert 0 <= p < |visible| ==> Identity(|visible|)[p] == p;
    } else {
      OrderedMembers(Kept(maxPoints, visible, Usable(series, |visible|)), 0, |visible|);
    }
  }

  lemma {:induction false} EnvelopeInRange(maxPoints: int, visible: seq<bool>, usable: seq<Series>, p: int)
    requires visible != [] && Aligned(usable, |visible|) && p in Envelope(maxPoints, visible, usable)
    ensures 0 <= p < |visible|
  {
    var edges := Edges(maxPoints, visible, usable);
    if p in UnionOf(Buckets(usable, |visible|, edges)) {
      BucketsInRange(usable, |visible|, edges, p);
    }
  }

  lemma {:induction false} FillInRange(maxPoints: int, length: nat, envelope: set<int>, p: int)
    requires 0 < length && p in WithFill(maxPoints, length, envelope) && p !in envelope
    ensures 0 <= p < length
  {
  }

  lemma {:induction false} KeptInRange(maxPoints: int, visible: seq<bool>, usable: seq<Series>, p: int)
    requires visible != [] && Aligned(usable, |visible|) && p in Kept(maxPoints, visible, usable)
    ensures 0 <= p < |visible|
  {
    var envelope := Envelope(maxPoints, visible, usable);
    if p in envelope {
      EnvelopeInRange(maxPoints, visible, usable, p);
    } else {
      FillInRange(maxPoints, |visible|, envelope, p);
    }
  }

  /** The result is an ascending choice of rows that starts at the first and ends at the last. */
  lemma {:induction false} KeepsEnds(maxPoints: int, visible: seq<bool>, series: seq<Series>)
    requires visible != []
    ensures Sound(Indices(maxPoints, visible, series), visible)
  {
    var r := Indices(maxPoints, visible, series);
    if |visible| > maxPoints {
      OrderedMembers(Kept(maxPoints, visible, Usable(series, |visible|)), 0, |visible|);
    }
    forall p | p in Mandatory(visible) ensures p in r {
      IndicesMembers(maxPoints, visible, series, p);
    }
    assert forall i :: 0 <= i < |r| ==> r[i] in r;
    assert 0 in r && |visible| - 1 in r;
  }

  /** The rows exist exactly when the frame has rows or the budget is not negative. */
  lemma {:induction false} RangeExactly(maxPoints: int, visible: seq<bool>, series: seq<Series>)
    ensures InRange(Indices(maxPoints, visible, series), |visible|) <==> visible != [] || maxPoints >= 0
  {
    if visible != [] {
      KeepsEnds(maxPoints, visible, series);
    } else {
      var r := Indices(maxPoints, visible, series);
      assert maxPoints < 0 ==> r[0] < 0;
    }
  }

  // ---------------------------------------------------------------- extremes

  /** The smallest case: no rows and a budget of minus one. */
  lemma {:induction false} EmptyFrameOutOfRange()
    ensures !InRange(Indices(-1, [], []), 0)
  {
    RangeExactly(-1, [], []);
  }

  /** Every bucket keeps its first extremes of every usable series, each with its neighbours. */
  lemma {:induction false} KeepsBucketExtremes(maxPoints: int, visible: seq<bool>, usable: seq<Series>, j: nat,
                                               low: bool, b: nat)
    requires visible != [] && Aligned(usable, |visible|) && j < |usable|
    requires b + 1 < |Edges(maxPoints, visible, usable)|
    ensures var edges := Edges(maxPoints, visible, usable);
            edges[b] <= edges[b + 1] &&
            var e := Extreme(usable[j], low, edges[b], edges[b + 1]);
            e.Some? ==> Around(e.value, |visible|) <= Kept(maxPoints, visible, usable)
  {
    var edges := Edges(maxPoints, visible, usable);
    var e := Extreme(usable[j], low, edges[b], edges[b + 1]);
    if e.Some? {
      forall p | p in Around(e.value, |visible|) ensures p in Envelope(maxPoints, visible, usable) {
        ExtremesInBuckets(usable, |visible|, edges, j, low, b, p);
      }
    }
  }

  lemma {:induction false} ExtremesInBuckets(usable: seq<Series>, length: nat, edges: seq<nat>, j: nat, low: bool,
                                             b: nat, p: int)
    requires Aligned(usable, length) && Spread(edges, length) && b + 1 < |edges| && j < |usable|
    requires edges[b] <= edges[b + 1] && Extreme(usable[j], low, edges[b], edges[b + 1]).Some?
    requires p in Around(Extreme(usable[j], low, edges[b], edges[b + 1]).value, length)
    ensures p in UnionOf(Buckets(usable, length, edges))
  {
    var sets := SeriesSets(usable, length, edges[b], edges[b + 1]);
    assert p in sets[j];
    UnionMembers(sets, p);
    assert p in Buckets(usable, length, edges)[b];
    UnionMembers(Buckets(usable, length, edges), p);
  }

  ghost predicate IsExtreme(v: Series, low: bool, i: nat) {
    i < |v| && v[i].Some? && forall j :: 0 <= j < |v| && v[j].Some? ==> !Beats(low, v[j].value, v[i].value)
  }

  /** The global finite minimum and maximum of every usable series are attained at kept rows. */
  lemma {:induction false} KeepsExtremes(maxPoints: int, visible: seq<bool>, series: seq<Series>, v: Series, low: bool)
    requires visible != [] && v in series && |v| == |visible| && HasFinite(v)
    ensures exists p: nat :: p in Indices(maxPoints, visible, series) && IsExtreme(v, low, p)
  {
    var length := |visible|;
    var best := Extreme(v, low, 0, length).value;
    assert IsExtreme(v, low, best);
    if length <= maxPoints {
      IndicesMembers(maxPoints, visible, series, best);
    } else {
      var usable := Usable(series, length);
      var p := KeptExtreme(maxPoints, visible, usable, v, low, best);
      IndicesMembers(maxPoints, visible, series, p);
    }
  }

  /** The bucket of a global extreme keeps a row of the same value. */
  lemma {:induction false} KeptExtreme(maxPoints: int, visible: seq<bool>, usable: seq<Series>, v: Series, low: bool,
                                       best: nat) returns (p: nat)
    requires visible != [] && Aligned(usable, |visible|) && v in usable && IsExtreme(v, low, best)
    ensures p < |visible| && p in Kept(maxPoints, visible, usable) && IsExtreme(v, low, p)
  {
    var edges := Edges(maxPoints, visible, usable);
    var j :| 0 <= j < |usable| && usable[j] == v;
    var b := BucketOf(edges, |visible|, best, |edges| - 1);
    KeepsBucketExtremes(maxPoints, visible, usable, j, low, b);
    p := Extreme(v, low, edges[b], edges[b + 1]).value;
    assert IsFirstExtreme(v, low, edges[b], edges[b + 1], p);
    assert p as int in Around(p, |visible|);
  }

  // ---------------------------------------------------------------- visibility

  /** The sequence of visible and hidden runs. */
  function Collapse(s: seq<bool>): seq<bool> {
    if |s| <= 1 then s
    else Collapse(s[..|s| - 1]) + (if s[|s| - 1] == s[|s| - 2] then [] else [s[|s| - 1]])
  }

  lemma {:induction false} CollapseConstant(s: seq<bool>, i: nat, j: nat)
    requires i < j <= |s| && forall k :: i <= k < j ==> s[k] == s[i]
    ensures Collapse(s[..j]) == Collapse(s[..i + 1])
    decreases j
  {
    if i + 1 < j {
      assert s[..j][..j - 1] == s[..j - 1];
      CollapseConstant(s, i, j - 1);
    }
  }

  /** Between two rows with no transition side kept in between, visibility is constant up to the last step. */
  lemma {:induction false} ConstantBetween(visible: seq<bool>, a: nat, b: nat)
    requires a < b < |visible| && forall q :: a < q < b ==> q !in Mandatory(visible)
    ensures forall k :: a <= k < b ==> visible[k] == visible[a]
    ensures visible[a] != visible[b] ==> b == a + 1
    decreases b
  {
    assert forall t: nat :: t < |visible| && Transition(visible, t) ==> t in Mandatory(visible);
    assert forall t: nat :: t < |visible| && Transition(visible, t) ==> t - 1 in Mandatory(visible);
    if a + 1 < b {
      ConstantBetween(visible, a, b - 1);
      assert !Transition(visible, b - 1) && !Transition(visible, b);
    }
  }

  /** Two neighbouring kept rows of different visibility were neighbours in the source. */
  lemma {:induction false} AdjacentChange(r: seq<int>, visible: seq<bool>, i: nat)
    requires Sound(r, visible) && i + 1 < |r|
    ensures 0 <= r[i] < r[i + 1] < |visible|
    ensures forall k :: r[i] <= k < r[i + 1] ==> visible[k] == visible[r[i]]
    ensures visible[r[i]] != visible[r[i + 1]] ==> r[i + 1] == r[i] + 1
  {
    assert r[i] in r && r[i + 1] in r;
    assert forall k :: 0 <= k < |r| ==> (if k <= i then r[k] <= r[i] else r[k] >= r[i + 1]);
    ConstantBetween(visible, r[i], r[i + 1]);
  }

  /** Downsampling leaves the sequence of visible and hidden runs unchanged. */
  lemma {:induction false} KeepsRuns(maxPoints: int, visible: seq<bool>, series: seq<Series>)
    requires visible != []
    ensures var r := Indices(maxPoints, visible, series);
            InRange(r, |visible|) && Collapse(Gather(visible, r)) == Collapse(visible)
  {
    var r := Indices(maxPoints, visible, series);
    KeepsEnds(maxPoints, visible, series);
    RunsOf(r, visible);
  }

  /** Visibility is constant from one kept row up to the next. */
  ghost predicate Faithful(r: seq<int>, visible: seq<bool>) {
    && InRange(r, |visible|)
    && forall i :: 0 < i < |r| ==>
         r[i - 1] < r[i] && forall k :: r[i - 1] <= k < r[i] ==> visible[k] == visible[r[i - 1]]
  }

  lemma {:induction false} RunsOf(r: seq<int>, visible: seq<bool>)
    requires Sound(r, visible)
    ensures Collapse(Gather(visible, r)) == Collapse(visible)
  {
    forall i | 0 < i < |r|
      ensures r[i - 1] < r[i] && forall k :: r[i - 1] <= k < r[i] ==> visible[k] == visible[r[i - 1]]
    {
      AdjacentChange(r, visible, i - 1);
    }
    RunsUpTo(Gather(visible, r), r, visible, |r| - 1);
    assert visible[..|visible|] == visible;
    assert Gather(visible, r)[..|r|] == Gather(visible, r);
  }

  lemma {:induction false} RunsUpTo(g: seq<bool>, r: seq<int>, visible: seq<bool>, i: nat)
    requires Faithful(r, visible) && i < |r| == |g| && r[0] == 0
    requires forall k :: 0 <= k < |r| ==> g[k] == visible[r[k]]
    ensures Collapse(g[..i + 1]) == Collapse(visible[..r[i] + 1])
  {
    if i == 0 {
      assert g[..1] == [visible[0]] == visible[..1];
    } else {
      RunsUpTo(g, r, visible, i - 1);
      RunStep(g, visible, i, r[i - 1], r[i]);
    }
  }

  lemma {:induction false} RunStep(g: seq<bool>, visible: seq<bool>, i: nat, a: nat, b: nat)
    requires 0 < i < |g| && a < b < |visible| && g[i - 1] == visible[a] && g[i] == visible[b]
    requires forall k :: a <= k < b ==> visible[k] == visible[a]
    requires Collapse(g[..i]) == Collapse(visible[..a + 1])
    ensures Collapse(g[..i + 1]) == Collapse(visible[..b + 1])
  {
    CollapseConstant(visible, a, b);
    CollapseStep(g, i);
    CollapseStep(visible, b);
  }

  lemma {:induction false} CollapseStep(s: seq<bool>, i: nat)
    requires 0 < i < |s|
    ensures Collapse(s[..i + 1]) == Collapse(s[..i]) + (if s[i] == s[i - 1] then [] else [s[i]])
  {
    assert s[..i + 1][..i] == s[..i];
  }

  // ---------------------------------------------------------------- the point budget

  lemma {:induction false} BucketSize(usable: seq<Series>, length: nat, edges: seq<nat>, b: nat)
    requires Aligned(usable, length) && Spread(edges, length) && b + 1 < |edges|
    ensures |Bucket(usable, length, edges, b)| <= |usable| * 6
  {
    if edges[b] < edges[b + 1] {
      var sets := SeriesSets(usable, length, edges[b], edges[b + 1]);
      forall j | 0 <= j < |sets| ensures |sets[j]| <= 6 {
      }
      UnionCount(sets, 6);
    }
  }

  lemma {:induction false} BucketsSize(usable: seq<Series>, length: nat, edges: seq<nat>, count: nat)
    requires usable != [] && Aligned(usable, length) && Spread(edges, length) && |edges| == count + 1
    ensures |UnionOf(Buckets(usable, length, edges))| <= count * PointsPerBucket(usable)
  {
    var buckets := Buckets(usable, length, edges);
    forall b | 0 <= b < |buckets| ensures |buckets[b]| <= PointsPerBucket(usable) {
      BucketSize(usable, length, edges, b);
    }
    UnionCount(buckets, PointsPerBucket(usable));
  }

  /** The fill adds at most its interior points: its two ends are kept already. */
  lemma {:induction false} FillSize(fill: seq<nat>, n: nat, kept: set<int>)
    requires 0 < n <= |fill| && fill[0] in kept
    ensures |kept + FillPoints(fill, n)| <= |kept| + n - 1
    decreases n
  {
    if n == 1 {
      assert FillPoints(fill, 0) == {};
      assert kept + FillPoints(fill, 1) == kept;
    } else {
      FillSize(fill, n - 1, kept);
      var before := kept + FillPoints(fill, n - 1);
      assert kept + FillPoints(fill, n) == before + {fill[n - 1]};
      UnionSize(before, {fill[n - 1] as int});
    }
  }

  /** The envelope stays within the budget whenever the mandatory points leave room for one bucket. */
  lemma {:induction false} EnvelopeBudget(maxPoints: int, visible: seq<bool>, usable: seq<Series>)
    requires |visible| >= 2 && usable != [] && Aligned(usable, |visible|)
    ensures |Envelope(maxPoints, visible, usable)| <= Max(maxPoints, |Mandatory(visible)| + PointsPerBucket(usable))
  {
    var edges := Edges(maxPoints, visible, usable);
    BucketsSize(usable, |visible|, edges, BucketCount(maxPoints, visible, usable));
    UnionSize(Mandatory(visible), UnionOf(Buckets(usable, |visible|, edges)));
  }

  lemma {:induction false} IndicesSize(maxPoints: int, visible: seq<bool>, usable: seq<Series>)
    requires visible != [] && Aligned(usable, |visible|)
    ensures |Ordered(Kept(maxPoints, visible, usable), 0, |visible|)| == |Kept(maxPoints, visible, usable)|
  {
    forall p | p in Kept(maxPoints, visible, usable) ensures 0 <= p < |visible| {
      KeptInRange(maxPoints, visible, usable, p);
    }
    OrderedSize(Kept(maxPoints, visible, usable), 0, |visible|);
  }

  /** Main result on size: the budget, or the mandatory points and one bucket if they already exceed it. */
  lemma {:induction false} Budget(maxPoints: int, visible: seq<bool>, series: seq<Series>)
    requires |visible| >= 2 && |visible| > maxPoints
    ensures |Indices(maxPoints, visible, series)|
         <= Max(maxPoints, |Mandatory(visible)| + PointsPerBucket(Usable(series, |visible|)))
  {
    IndicesSize(maxPoints, visible, Usable(series, |visible|));
    KeptBudget(maxPoints, visible, Usable(series, |visible|));
  }

  lemma {:induction false} EnvelopeEnds(maxPoints: int, visible: seq<bool>, usable: seq<Series>)
    requires |visible| >= 2 && usable != [] && Aligned(usable, |visible|)
    ensures 0 in Envelope(maxPoints, visible, usable) && |visible| - 1 in Envelope(maxPoints, visible, usable)
  {
    assert 0 in Mandatory(visible) && |visible| - 1 in Mandatory(visible);
  }

  lemma {:induction false} KeptBudget(maxPoints: int, visible: seq<bool>, usable: seq<Series>)
    requires |visible| >= 2 && usable != [] && Aligned(usable, |visible|)
    ensures |Kept(maxPoints, visible, usable)| <= Max(maxPoints, |Mandatory(visible)| + PointsPerBucket(usable))
  {
    var envelope, bound := Envelope(maxPoints, visible, usable), |Mandatory(visible)| + PointsPerBucket(usable);
    assert |WithFill(maxPoints, |visible|, envelope)| <= Max(maxPoints, bound) by {
      EnvelopeEnds(maxPoints, visible, usable);
      EnvelopeBudget(maxPoints, visible, usable);
      FilledBudget(maxPoints, |visible|, envelope, bound);
    }
  }

  lemma {:induction false} FilledBudget(maxPoints: int, length: nat, envelope: set<int>, bound: int)
    requires 0 < length && 0 in envelope && length - 1 in envelope && |envelope| <= Max(maxPoints, bound)
    ensures |WithFill(maxPoints, length, envelope)| <= Max(maxPoints, bound)
  {
    FillBudget(maxPoints, length, envelope);
  }

  /** The final fill cannot overshoot. */
  lemma {:induction false} FillBudget(maxPoints: int, length: nat, envelope: set<int>)
    requires 0 < length && 0 in envelope && length - 1 in envelope
    ensures |WithFill(maxPoints, length, envelope)| <= Max(maxPoints, |envelope|)
  {
    if |envelope| < maxPoints {
      var fill := Fill(maxPoints, length, |envelope|);
      SpreadEnds(fill, length - 1);
      FillAdds(fill, envelope);
    }
  }

  lemma {:induction false} SpreadEnds(fill: seq<nat>, last: nat)
    requires Spread(fill, last)
    ensures |fill| >= 2 && fill[0] == 0 && fill[|fill| - 1] == last
  {
  }

  lemma {:induction false} FillAdds(fill: seq<nat>, kept: set<int>)
    requires |fill| >= 2 && fill[0] as int in kept && fill[|fill| - 1] as int in kept
    ensures |kept + FillPoints(fill, |fill|)| <= |kept| + |fill| - 2
  {
    var n := |fill| - 1;
    FillSize(fill, n, kept);
    assert kept + FillPoints(fill, n + 1) == kept + FillPoints(fill, n);
  }

  // ---------------------------------------------------------------- the rows in plain terms

  /** Row `q` holds the first smallest or the first largest finite value of `v` in `[start, end)`. */
  ghost predicate Stands(v: Series, start: int, end: int, q: int) {
    && 0 <= start <= q < end <= |v| && v[q].Some?
    && ((forall j :: start <= j < end && v[j].Some? ==>
           v[q].value <= v[j].value && (v[q].value == v[j].value ==> q <= j))
        || (forall j :: start <= j < end && v[j].Some? ==>
              v[q].value >= v[j].value && (v[q].value == v[j].value ==> q <= j)))
  }

  /** Row `p` or a row next to it stands out in `[start, end)`. */
  ghost predicate Near(v: Series, start: int, end: int, p: int) {
    exists q :: q - 1 <= p <= q + 1 && Stands(v, start, end, q)
  }

  ghost predicate NearAny(usable: seq<Series>, start: int, end: int, p: int) {
    exists j :: 0 <= j < |usable| && Near(usable[j], start, end, p)
  }

  /** Row `p` or a row next to it stands out in a bucket of some series. */
  ghost predicate NearExtreme(usable: seq<Series>, edges: seq<nat>, p: int) {
    exists b :: 0 <= b < |edges| - 1 && NearAny(usable, edges[b], edges[b + 1], p)
  }

  /** The first or the last row, or one of two neighbours of which one is visible and one hidden. */
  ghost predicate EndOrChange(visible: seq<bool>, p: int)
    requires 0 <= p < |visible|
  {
    || p == 0 || p == |visible| - 1
    || (p > 0 && visible[p - 1] != visible[p])
    || (p + 1 < |visible| && visible[p] != visible[p + 1])
  }

  /** A series of the frame's length with a finite value. */
  ghost predicate Countable(v: Series, length: nat) { |v| == length && exists i :: 0 <= i < |v| && v[i].Some? }

  /** The series that count, each as often as given; or, if none does, the row numbers. */
  ghost predicate Counts(series: seq<Series>, length: nat, usable: seq<Series>) {
    if exists v :: v in series && Countable(v, length) then
      forall v :: multiset(usable)[v] == if Countable(v, length) then multiset(series)[v] else 0
    else |usable| == 1 && |usable[0]| == length && forall i :: 0 <= i < length ==> usable[0][i] == Some(i as real)
  }

  /** Edges that cut `length` rows into equal parts, rounded down: as many parts as `rest` points allow, or one. */
  ghost predicate CutsEvenly(edges: seq<nat>, length: nat, rest: int, perBucket: nat) {
    var count := |edges| - 1;
    && count >= 1
    && (if rest < perBucket then count == 1 else count * perBucket <= rest < (count + 1) * perBucket)
    && forall b :: 0 <= b <= count ==> edges[b] * count <= b * length < (edges[b] + 1) * count
  }

  lemma {:induction false} SpacedMeaning(total: nat, parts: nat, k: nat, p: int)
    requires 0 < parts && k <= parts
    ensures p == Spaced(total, parts, k) <==> p * parts <= k * total < (p + 1) * parts
  {
    var q := Spaced(total, parts, k);
    var r := k * total % parts;
    assert k * total == q * parts + r;
    assert (q + 1) * parts == q * parts + parts;
    if p < q { MulMonotone(p + 1, q, parts); }
    if p > q { MulMonotone(q + 1, p, parts); }
  }

  lemma {:induction false} EdgesMeaning(maxPoints: int, visible: seq<bool>, usable: seq<Series>, mandatory: nat)
    requires visible != [] && mandatory == MandatoryCount(visible)
    ensures CutsEvenly(Edges(maxPoints, visible, usable), |visible|,
                       if maxPoints - mandatory < 1 then 1 else maxPoints - mandatory,
                       if |usable| < 2 then 6 else 6 * |usable|)
  {
    var edges, count := Edges(maxPoints, visible, usable), BucketCount(maxPoints, visible, usable);
    var rest := if maxPoints - mandatory < 1 then 1 else maxPoints - mandatory;
    var unit := if |usable| < 2 then 6 else 6 * |usable|;
    assert unit == PointsPerBucket(usable) && rest == Max(1, maxPoints - mandatory);
    Quotient(rest, unit);
    forall b | 0 <= b <= count ensures edges[b] * count <= b * |visible| < (edges[b] + 1) * count {
      SpacedMeaning(|visible|, count, b, edges[b]);
    }
  }

  lemma {:induction false} Quotient(rest: nat, unit: nat)
    requires rest > 0 && unit > 0
    ensures var count := Max(1, rest / unit);
            if rest < unit then count == 1 else count * unit <= rest < (count + 1) * unit
  {
    var q, r := rest / unit, rest % unit;
    assert rest == q * unit + r;
    assert (q + 1) * unit == q * unit + unit;
    if rest >= unit && q < 1 { MulMonotone(q, 0, unit); }
    if rest < unit && q > 0 { MulMonotone(1, q, unit); }
  }

  lemma {:induction false} FilterCounts(series: seq<Series>, length: nat, v: Series)
    ensures multiset(Filter(series, length))[v] == if Countable(v, length) then multiset(series)[v] else 0
    decreases |series|
  {
    if series != [] {
      var first, rest := series[0], series[1..];
      FilterCounts(rest, length, v);
      assert series == [first] + rest;
      assert multiset(series) == multiset{first} + multiset(rest);
      assert Countable(first, length) <==> |first| == length && HasFinite(first);
      assert Filter(series, length) == (if Countable(first, length) then [first] else []) + Filter(rest, length);
    }
  }

  lemma {:induction false} UsableMeaning(series: seq<Series>, length: nat)
    ensures Counts(series, length, Usable(series, length))
  {
    forall v ensures multiset(Filter(series, length))[v] == if Countable(v, length) then multiset(series)[v] else 0 {
      FilterCounts(series, length, v);
    }
    var u := Filter(series, length);
    if v :| v in series && Countable(v, length) {
      assert HasFinite(v) && v in u;
    } else {
      assert u != [] ==> u[0] in u && Countable(u[0], length);
    }
  }

  lemma {:induction false} StandsExactly(v: Series, start: nat, end: nat, q: int)
    requires start <= end <= |v|
    ensures Stands(v, start, end, q)
            <==> Extreme(v, true, start, end) == Some(q) || Extreme(v, false, start, end) == Some(q)
  {
    var lo, hi := Extreme(v, true, start, end), Extreme(v, false, start, end);
    if Stands(v, start, end, q) {
      assert v[q].Some?;
      assert v[lo.value].value == v[q].value ==> lo.value == q;
      assert v[hi.value].value == v[q].value ==> hi.value == q;
    }
  }

  lemma {:induction false} PointsMeaning(v: Series, start: nat, end: nat, p: int)
    requires start <= end <= |v|
    ensures p in SeriesPoints(v, start, end)
            <==> 0 <= p < |v| && Near(v, start, end, p)
  {
    var lo, hi := Extreme(v, true, start, end), Extreme(v, false, start, end);
    if lo.Some? {
      StandsExactly(v, start, end, lo.value);
    }
    if hi.Some? {
      StandsExactly(v, start, end, hi.value);
    }
    if q :| q - 1 <= p <= q + 1 && Stands(v, start, end, q) {
      StandsExactly(v, start, end, q);
    }
  }

  lemma {:induction false} BucketMeaning(usable: seq<Series>, length: nat, edges: seq<nat>, b: nat, p: int)
    requires Aligned(usable, length) && Spread(edges, length) && b + 1 < |edges|
    ensures p in Bucket(usable, length, edges, b)
            <==> 0 <= p < length && NearAny(usable, edges[b], edges[b + 1], p)
  {
    if edges[b] < edges[b + 1] {
      var sets := SeriesSets(usable, length, edges[b], edges[b + 1]);
      UnionMembers(sets, p);
      forall j | 0 <= j < |usable|
        ensures p in sets[j] <==> 0 <= p < length && Near(usable[j], edges[b], edges[b + 1], p)
      {
        PointsMeaning(usable[j], edges[b], edges[b + 1], p);
      }
    }
  }

  lemma {:induction false} BucketsMeaning(usable: seq<Series>, length: nat, edges: seq<nat>, p: int)
    requires Aligned(usable, length) && Spread(edges, length)
    ensures p in UnionOf(Buckets(usable, length, edges)) <==> 0 <= p < length && NearExtreme(usable, edges, p)
  {
    var buckets := Buckets(usable, length, edges);
    UnionMembers(buckets, p);
    if b :| 0 <= b < |buckets| && p in buckets[b] {
      BucketMeaning(usable, length, edges, b, p);
    }
    if 0 <= p < length && NearExtreme(usable, edges, p) {
      var b :| 0 <= b < |edges| - 1 && NearAny(usable, edges[b], edges[b + 1], p);
      BucketMeaning(usable, length, edges, b, p);
      assert p in buckets[b];
    }
  }

  lemma {:induction false} MandatoryMeaning(visible: seq<bool>, p: int)
    requires visible != []
    ensures p in Mandatory(visible) <==> 0 <= p < |visible| && EndOrChange(visible, p)
  {
    if 0 <= p < |visible| && p + 1 < |visible| && visible[p] != visible[p + 1] {
      assert Transition(visible, p + 1);
    }
  }

  /** What is kept whatever the budget. */
  ghost predicate InEnvelope(visible: seq<bool>, usable: seq<Series>, edges: seq<nat>, p: int) {
    0 <= p < |visible| && (EndOrChange(visible, p) || NearExtreme(usable, edges, p))
  }

  lemma {:induction false} EnvelopeMeaning(maxPoints: int, visible: seq<bool>, usable: seq<Series>, p: int)
    requires visible != [] && Aligned(usable, |visible|)
    ensures p in Envelope(maxPoints, visible, usable)
            <==> InEnvelope(visible, usable, Edges(maxPoints, visible, usable), p)
  {
    MandatoryMeaning(visible, p);
    BucketsMeaning(usable, |visible|, Edges(maxPoints, visible, usable), p);
  }

  /** Row `p` is the `k`-th of `steps + 1` evenly spaced rows from the first to the last, rounded down. */
  ghost predicate AtStep(length: nat, steps: int, k: int, p: int) {
    0 <= k <= steps && p * steps <= k * (length - 1) < (p + 1) * steps
  }

  ghost predicate OnGrid(length: nat, steps: int, p: int) { exists k :: AtStep(length, steps, k, p) }

  lemma {:induction false} FillMeaning(maxPoints: int, length: nat, used: nat, p: int)
    requires 0 < length && used < maxPoints
    ensures var fill := Fill(maxPoints, length, used);
            p in FillPoints(fill, |fill|) <==> OnGrid(length, maxPoints - used + 1, p)
  {
    var fill, steps: nat := Fill(maxPoints, length, used), maxPoints - used + 1;
    if k :| 0 <= k < |fill| && fill[k] == p {
      SpacedMeaning(length - 1, steps, k, p);
      assert AtStep(length, steps, k, p);
    }
    if k :| AtStep(length, steps, k, p) {
      SpacedMeaning(length - 1, steps, k, p);
      assert fill[k] == p;
    }
  }

  /** The rows that are added if the envelope leaves room: none, or the evenly spaced ones that use the budget up. */
  ghost predicate IsEven(even: set<int>, length: nat, room: int) {
    forall p :: p in even <==> room > 0 && OnGrid(length, room + 1, p)
  }

  lemma {:induction false} EvenMeaning(maxPoints: int, length: nat, envelope: set<int>) returns (even: set<int>)
    requires 0 < length
    ensures WithFill(maxPoints, length, envelope) == envelope + even && IsEven(even, length, maxPoints - |envelope|)
  {
    even := {};
    if |envelope| < maxPoints {
      var fill := Fill(maxPoints, length, |envelope|);
      even := FillPoints(fill, |fill|);
      forall p ensures p in even <==> OnGrid(length, maxPoints - |envelope| + 1, p) {
        FillMeaning(maxPoints, length, |envelope|, p);
      }
    }
  }

  ghost predicate IsEnvelope(envelope: set<int>, visible: seq<bool>, usable: seq<Series>, edges: seq<nat>) {
    forall p :: p in envelope <==> InEnvelope(visible, usable, edges, p)
  }

  /**
   Main result in plain terms: up to the budget all rows are returned. Above it, with `usable` the series that count and
   `edges` the even cuts into buckets, the returned rows are exactly the ends, both sides of each visibility change, the
   first extremes of each series in each bucket with their neighbours, and, if these are fewer than the budget, the
   evenly spaced rows that use it up.
   */
  lemma {:induction false} IndicesMeaning(maxPoints: int, visible: seq<bool>, series: seq<Series>, mandatory: set<int>)
    returns (usable: seq<Series>, edges: seq<nat>, envelope: set<int>, even: set<int>)
    requires visible != []
    requires forall p :: p in mandatory <==> 0 <= p < |visible| && EndOrChange(visible, p)
    ensures Counts(series, |visible|, usable)
    ensures var points := if |visible| == 1 then 2 else |mandatory|;
            CutsEvenly(edges, |visible|, if maxPoints - points < 1 then 1 else maxPoints - points,
                       if |usable| < 2 then 6 else 6 * |usable|)
    ensures IsEnvelope(envelope, visible, usable, edges) && IsEven(even, |visible|, maxPoints - |envelope|)
    ensures var rows := Indices(maxPoints, visible, series);
            && StrictlyIncreasing(rows)
            && forall p :: p in rows
                           <==> 0 <= p < |visible| && (|visible| <= maxPoints || p in envelope || p in even)
  {
    usable := Usable(series, |visible|);
    edges := Edges(maxPoints, visible, usable);
    envelope := Envelope(maxPoints, visible, usable);
    UsableMeaning(series, |visible|);
    SameMandatory(visible, mandatory);
    EdgesMeaning(maxPoints, visible, usable, MandatoryCount(visible));
    EnvelopeMembers(maxPoints, visible, usable, edges, envelope);
    even := EvenMeaning(maxPoints, |visible|, envelope);
    KeepsEnds(maxPoints, visible, series);
    RowsReturned(maxPoints, visible, series, envelope + even);
  }

  lemma {:induction false} EnvelopeMembers(maxPoints: int, visible: seq<bool>, usable: seq<Series>, edges: seq<nat>,
                                           envelope: set<int>)
    requires visible != [] && Aligned(usable, |visible|) && edges == Edges(maxPoints, visible, usable)
    requires envelope == Envelope(maxPoints, visible, usable)
    ensures IsEnvelope(envelope, visible, usable, edges)
  {
    forall p ensures p in envelope <==> InEnvelope(visible, usable, edges, p) {
      EnvelopeMeaning(maxPoints, visible, usable, p);
    }
  }

  lemma {:induction false} RowsReturned(maxPoints: int, visible: seq<bool>, series: seq<Series>, kept: set<int>)
    requires visible != [] && kept == Kept(maxPoints, visible, Usable(series, |visible|))
    ensures forall p :: p in Indices(maxPoints, visible, series)
                        <==> 0 <= p < |visible| && (|visible| <= maxPoints || p in kept)
  {
    forall p ensures p in Indices(maxPoints, visible, series)
                     <==> 0 <= p < |visible| && (|visible| <= maxPoints || p in kept)
    {
      IndicesMembers(maxPoints, visible, series, p);
    }
  }

  lemma {:induction false} SameMandatory(visible: seq<bool>, mandatory: set<int>)
    requires visible != [] && forall p :: p in mandatory <==> 0 <= p < |visible| && EndOrChange(visible, p)
    ensures mandatory == Mandatory(visible)
  {
    forall p ensures p in mandatory <==> p in Mandatory(visible) {
      MandatoryMeaning(visible, p);
    }
  }
}
