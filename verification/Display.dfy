/**
 Numeric projection of one Cell: continuous time across clock resets, maximal segments of
 constant cycle, segment and phase, and the per-cycle display with its mirrored discharge.

 Two forms of the continuous clock are compared, the running offset of the worker and the cumulative sum of the
 vectorised projection.
 */
module Display {
  import opened Common

  /** A floating-point value up to rounding. */
  datatype Number = Finite(value: real) | PosInf | NegInf | NaN

  type Column = seq<Number>

  function Negate(a: Number): Number {
    match a case Finite(v) => Finite(-v) case PosInf => NegInf case NegInf => PosInf case NaN => NaN
  }

  function Plus(a: Number, b: Number): Number {
    if a.NaN? || b.NaN? then NaN
    else if a.Finite? then (if b.Finite? then Finite(a.value + b.value) else b)
    else if b.Finite? || a == b then a
    else NaN
  }

  function Minus(a: Number, b: Number): Number { Plus(a, Negate(b)) }

  // ---------------------------------------------------------------- continuous time

  /** The vectorised test: the clock's difference is not NaN and below zero. */
  predicate Reset(raw: Column, k: nat) {
    0 < k < |raw| && var d := Minus(raw[k], raw[k - 1]); d.NegInf? || (d.Finite? && d.value < 0.0)
  }

  /** What a row adds to the running offset. */
  function Jump(raw: Column, k: nat): Number { if Reset(raw, k) then raw[k - 1] else Finite(0.0) }

  /** The cumulative sum of the jumps up to row `k`. */
  function Offset(raw: Column, k: nat): Number {
    if k == 0 then Finite(0.0) else Plus(Offset(raw, k - 1), Jump(raw, k))
  }

  /** The vectorised form. */
  function ContinuousTime(raw: Column): (r: Column)
    ensures |r| == |raw|
  {
    if |raw| < 2 || forall k :: 0 <= k < |raw| ==> !Reset(raw, k) then raw
    else seq(|raw|, k requires 0 <= k < |raw| => Plus(raw[k], Offset(raw, k)))
  }

  /** The sequential test, in the compiled worker: the difference must be finite. */
  predicate FiniteReset(raw: Column, k: nat) {
    0 < k < |raw| && raw[k].Finite? && raw[k - 1].Finite? && raw[k].value < raw[k - 1].value
  }

  /** The worker's running offset, always finite. */
  function Running(raw: Column, k: nat): real {
    if k == 0 then 0.0 else Running(raw, k - 1) + (if FiniteReset(raw, k) then raw[k - 1].value else 0.0)
  }

  function Sequential(raw: Column, k: nat): Number
    requires k < |raw|
  {
    Plus(raw[k], Finite(Running(raw, k)))
  }

  /** The sequential form: one pass with a running offset. */
  method Accumulate(raw: Column) returns (out: Column)
    ensures |out| == |raw| && forall k :: 0 <= k < |raw| ==> out[k] == Sequential(raw, k)
  {
    out := raw;
    if |raw| < 2 {
      return;
    }
    var offset := 0.0;
    for k := 1 to |raw|
      invariant |out| == |raw| && offset == Running(raw, k - 1)
      invariant forall j :: k <= j < |raw| ==> out[j] == raw[j]
      invariant forall j :: 0 <= j < k ==> out[j] == Sequential(raw, j)
    {
      var difference := Minus(raw[k], raw[k - 1]);
      if difference.Finite? && difference.value < 0.0 {
        offset := offset + raw[k - 1].value;
      }
      out := out[k := Plus(raw[k], Finite(offset))];
    }
  }

  lemma {:induction false} NoResetNoOffset(raw: Column, k: nat)
    requires forall j :: 0 <= j < |raw| ==> !Reset(raw, j)
    ensures Offset(raw, k) == Finite(0.0)
    decreases k
  {
    if k > 0 {
      NoResetNoOffset(raw, k - 1);
    }
  }

  lemma {:induction false} ContinuousTimeAt(raw: Column, k: nat)
    requires k < |raw|
    ensures ContinuousTime(raw)[k] == Plus(raw[k], Offset(raw, k))
  {
    if |raw| < 2 || forall j :: 0 <= j < |raw| ==> !Reset(raw, j) {
      NoResetNoOffset(raw, k);
    }
  }

  ghost predicate Shifted(raw: Column, t: Column) {
    |t| == |raw| && forall k :: 0 <= k < |raw| ==> t[k] == Plus(raw[k], Offset(raw, k))
  }

  /** Every row is shifted by the cumulative sum, whether or not there was a reset at all. */
  lemma {:induction false} TimeShape(raw: Column)
    ensures Shifted(raw, ContinuousTime(raw))
  {
    var t := ContinuousTime(raw);
    forall k | 0 <= k < |raw| ensures t[k] == Plus(raw[k], Offset(raw, k)) {
      ContinuousTimeAt(raw, k);
    }
  }

  predicate FallsFromInfinity(raw: Column, k: nat) {
    0 < k < |raw| && raw[k - 1].PosInf? && (raw[k].Finite? || raw[k].NegInf?)
  }

  predicate FallsToInfinity(raw: Column, k: nat) { 0 < k < |raw| && raw[k - 1].Finite? && raw[k].NegInf? }

  /** The two tests differ exactly on falls from or to infinity. */
  lemma {:induction false} ResetSplit(raw: Column, k: nat)
    ensures Reset(raw, k) <==> FiniteReset(raw, k) || FallsFromInfinity(raw, k) || FallsToInfinity(raw, k)
    ensures !(FiniteReset(raw, k) && (FallsFromInfinity(raw, k) || FallsToInfinity(raw, k)))
  {
  }

  lemma {:induction false} OffsetFinite(raw: Column, k: nat)
    ensures Offset(raw, k).Finite? <==> forall j :: 0 <= j <= k ==> !FallsFromInfinity(raw, j)
    decreases k
  {
    if k > 0 {
      OffsetFinite(raw, k - 1);
      ResetSplit(raw, k);
    }
  }

  /** A fall to minus infinity from a non-zero value, with a finite value after it. */
  predicate Skewed(raw: Column, k: nat, m: nat) {
    FallsToInfinity(raw, k) && raw[k - 1].value != 0.0 && k < m < |raw| && raw[m].Finite?
  }

  ghost predicate Harmless(raw: Column) {
    (forall k :: 0 <= k < |raw| ==> !FallsFromInfinity(raw, k)) && forall k, m :: !Skewed(raw, k, m)
  }

  ghost predicate FormsAgree(raw: Column) {
    forall k :: 0 <= k < |raw| ==> ContinuousTime(raw)[k] == Sequential(raw, k)
  }

  /** While a finite value is still to come, the two offsets are the same. */
  lemma {:induction false} OffsetsAgree(raw: Column, k: nat, m: nat)
    requires Harmless(raw) && k <= m < |raw| && raw[m].Finite?
    ensures Offset(raw, k) == Finite(Running(raw, k))
    decreases k
  {
    if k > 0 {
      OffsetsAgree(raw, k - 1, m);
      ResetSplit(raw, k);
      assert !Skewed(raw, k, m);
    }
  }

  /** Between a fall to minus infinity and the next finite value neither offset moves. */
  lemma {:induction false} OffsetsRest(raw: Column, k: nat, m: nat)
    requires forall j :: 0 <= j < |raw| ==> !FallsFromInfinity(raw, j)
    requires FallsToInfinity(raw, k) && k <= m < |raw| && forall j :: k <= j < m ==> !raw[j].Finite?
    ensures Offset(raw, k).Finite? && Offset(raw, m) == Offset(raw, k) && Running(raw, m) == Running(raw, k)
    decreases m
  {
    OffsetFinite(raw, k);
    if m > k {
      OffsetsRest(raw, k, m - 1);
      ResetSplit(raw, m);
    }
  }

  lemma {:induction false} FirstFiniteAfter(raw: Column, k: nat, m: nat) returns (f: nat)
    requires k < m < |raw| && raw[m].Finite? && !raw[k].Finite?
    ensures k < f <= m && raw[f].Finite? && forall j :: k <= j < f ==> !raw[j].Finite?
    decreases m - k
  {
    if raw[k + 1].Finite? {
      f := k + 1;
    } else {
      f := FirstFiniteAfter(raw, k + 1, m);
    }
  }

  lemma {:induction false} FallFromInfinityShows(raw: Column, k: nat)
    requires FallsFromInfinity(raw, k)
    ensures ContinuousTime(raw)[k] != Sequential(raw, k)
  {
    ContinuousTimeAt(raw, k);
    ResetSplit(raw, k);
  }

  /** The offsets cannot be the same both before the fall and at the next finite value. */
  lemma {:induction false} SkewOffsets(raw: Column, k: nat, f: nat)
    requires forall j :: 0 <= j < |raw| ==> !FallsFromInfinity(raw, j)
    requires FallsToInfinity(raw, k) && raw[k - 1].value != 0.0
    requires k < f < |raw| && forall j :: k <= j < f ==> !raw[j].Finite?
    ensures Offset(raw, k - 1).Finite? && Offset(raw, f).Finite?
    ensures Offset(raw, k - 1).value != Running(raw, k - 1) || Offset(raw, f).value != Running(raw, f)
  {
    OffsetsRest(raw, k, f);
    OffsetFinite(raw, k - 1);
    ResetSplit(raw, k);
  }

  lemma {:induction false} SkewShows(raw: Column, t: Column, k: nat, m: nat)
    requires Shifted(raw, t)
    requires forall j :: 0 <= j < |raw| ==> !FallsFromInfinity(raw, j)
    requires Skewed(raw, k, m)
    ensures exists j :: 0 <= j < |raw| && t[j] != Sequential(raw, j)
  {
    var f := FirstFiniteAfter(raw, k, m);
    SkewOffsets(raw, k, f);
    if Offset(raw, f).value != Running(raw, f) {
      assert t[f] != Sequential(raw, f);
    } else {
      assert t[k - 1] != Sequential(raw, k - 1);
    }
  }

  /**
   Main result on time: the vectorised and the sequential form give the same column exactly when no row falls from
   plus infinity and no fall to minus infinity from a non-zero value is followed by a finite one.
   */
  lemma {:induction false} TimeFormsAgree(raw: Column)
    ensures FormsAgree(raw) <==> Harmless(raw)
  {
    var t := ContinuousTime(raw);
    TimeShape(raw);
    if Harmless(raw) {
      forall k | 0 <= k < |raw| ensures t[k] == Sequential(raw, k) {
        OffsetFinite(raw, k);
        if raw[k].Finite? {
          OffsetsAgree(raw, k, k);
        }
      }
    } else if k :| 0 <= k < |raw| && FallsFromInfinity(raw, k) {
      FallFromInfinityShows(raw, k);
    } else {
      var k, m :| Skewed(raw, k, m);
      SkewShows(raw, t, k, m);
    }
  }

  /** An infinite clock value followed by a finite one is enough to tell the forms apart. */
  lemma {:induction false} FormsCanDiffer(raw: Column)
    requires raw == [PosInf, Finite(1.0)]
    ensures !FormsAgree(raw)
  {
    TimeFormsAgree(raw);
    assert FallsFromInfinity(raw, 1);
  }

  lemma {:induction false} OffsetConstant(raw: Column, i: nat, j: nat)
    requires i <= j && Offset(raw, i).Finite? && forall k :: i < k <= j ==> !Reset(raw, k)
    ensures Offset(raw, i) == Offset(raw, j)
    decreases j
  {
    if i < j {
      OffsetConstant(raw, i, j - 1);
    }
  }

  /** Within a run without a reset, differences are those of the input. */
  lemma {:induction false} DifferencesKept(raw: Column, i: nat, j: nat)
    requires i <= j < |raw| && ContinuousTime(raw)[i].Finite? && forall k :: i < k <= j ==> !Reset(raw, k)
    ensures Minus(ContinuousTime(raw)[j], ContinuousTime(raw)[i]) == Minus(raw[j], raw[i])
  {
    ContinuousTimeAt(raw, i);
    ContinuousTimeAt(raw, j);
    OffsetConstant(raw, i, j);
  }

  ghost predicate Clock(raw: Column) { forall k :: 0 <= k < |raw| ==> raw[k].Finite? && raw[k].value >= 0.0 }

  predicate NotAbove(a: Number, b: Number) { a.Finite? && b.Finite? && a.value <= b.value }

  predicate Climbs(t: Column, k: nat)
    requires 0 < k < |t|
  {
    NotAbove(t[k - 1], t[k])
  }

  lemma {:induction false} ClimbsFar(t: Column, i: nat, j: nat)
    requires i < j < |t| && forall k: nat :: 0 < k < |t| ==> Climbs(t, k)
    ensures NotAbove(t[i], t[j])
    decreases j
  {
    assert Climbs(t, j);
    if i < j - 1 {
      ClimbsFar(t, i, j - 1);
    }
  }

  lemma {:induction false} ClockStep(raw: Column, k: nat)
    requires Clock(raw) && 0 < k < |raw|
    ensures NotAbove(Plus(raw[k - 1], Offset(raw, k - 1)), Plus(raw[k], Offset(raw, k)))
  {
    OffsetFinite(raw, k - 1);
    ResetSplit(raw, k);
  }

  lemma {:induction false} AllClimb(raw: Column, t: Column)
    requires Clock(raw) && Shifted(raw, t)
    ensures forall k: nat :: 0 < k < |t| ==> Climbs(t, k)
  {
    forall k: nat | 0 < k < |t| ensures Climbs(t, k) {
      ClockStep(raw, k);
    }
  }

  /** Non-negative input without gaps becomes a time that never goes back. */
  lemma {:induction false} NeverGoesBack(raw: Column, i: nat, j: nat)
    requires Clock(raw) && i < j < |raw|
    ensures NotAbove(ContinuousTime(raw)[i], ContinuousTime(raw)[j])
  {
    TimeShape(raw);
    AllClimb(raw, ContinuousTime(raw));
    ClimbsFar(ContinuousTime(raw), i, j);
  }

  // ---------------------------------------------------------------- segments

  /** What must stay constant within a segment. */
  datatype Key = Key(cycle: Number, segment: Number, phase: string)

  /** NaN differs from everything, itself included. */
  predicate Same(a: Key, b: Key) { !a.cycle.NaN? && !a.segment.NaN? && a == b }

  predicate Changed(keys: seq<Key>, k: nat) { 0 < k < |keys| && !Same(keys[k - 1], keys[k]) }

  /** The first row and every row whose key differs from the row before. */
  function Starts(keys: seq<Key>, n: nat): seq<nat>
    requires n <= |keys|
  {
    if n == 0 then [] else Starts(keys, n - 1) + (if n == 1 || Changed(keys, n - 1) then [n - 1] else [])
  }

  /** Pairs of a start and the next start, the last one paired with the row count. */
  function Bounds(keys: seq<Key>): seq<(nat, nat)> {
    var starts := Starts(keys, |keys|);
    seq(|starts|, i requires 0 <= i < |starts| => (starts[i], if i + 1 < |starts| then starts[i + 1] else |keys|))
  }

  lemma {:induction false} StartsExact(keys: seq<Key>, n: nat)
    requires n <= |keys|
    ensures var s := Starts(keys, n);
            && (forall k: nat :: k in s <==> k < n && (k == 0 || Changed(keys, k)))
            && (forall i, j :: 0 <= i < j < |s| ==> s[i] < s[j])
            && (n > 0 ==> s != [] && s[0] == 0)
    decreases n
  {
    if n == 1 {
      assert Starts(keys, 1) == Starts(keys, 0) + [0] == [0];
    } else if n > 1 {
      StartsExact(keys, n - 1);
      var front := Starts(keys, n - 1);
      assert forall i :: 0 <= i < |front| ==> front[i] in front;
    }
  }

  /**
   Range `i` is not empty, begins where the one before ends, and its key is constant and differs from the one before.
   */
  ghost predicate MaximalRun(keys: seq<Key>, b: seq<(nat, nat)>, i: nat)
    requires i < |b|
  {
    && b[i].0 < b[i].1 <= |keys|
    && b[i].0 == (if i == 0 then 0 else b[i - 1].1)
    && (i + 1 == |b| ==> b[i].1 == |keys|)
    && (i > 0 ==> Changed(keys, b[i].0))
    && (forall k: nat :: b[i].0 < k < b[i].1 ==> !Changed(keys, k))
  }

  /** The bounds cut the rows into the maximal runs of constant key. */
  lemma {:induction false} BoundsAreMaximalRuns(keys: seq<Key>)
    ensures keys == [] <==> Bounds(keys) == []
    ensures forall i: nat :: i < |Bounds(keys)| ==> MaximalRun(keys, Bounds(keys), i)
  {
    StartsExact(keys, |keys|);
    var s, b := Starts(keys, |keys|), Bounds(keys);
    assert keys == [] <==> s == [] by {
      assert s != [] ==> s[0] in s;
    }
    forall i: nat | i < |b| ensures MaximalRun(keys, b, i) {
      assert s[i] in s && (i + 1 < |s| ==> s[i + 1] in s) && (i > 0 ==> s[i] > s[0]);
      forall k: nat | b[i].0 < k < b[i].1 ensures !Changed(keys, k) {
      }
    }
  }

  /** The row after segment `i - 1`. */
  function End(bounds: seq<(nat, nat)>, i: nat): nat
    requires i <= |bounds|
  {
    if i == 0 then 0 else bounds[i - 1].1
  }

  predicate Follows(bounds: seq<(nat, nat)>, k: nat)
    requires k < |bounds|
  {
    bounds[k].0 < bounds[k].1 && bounds[k].0 == End(bounds, k)
  }

  /** One output per segment, one value per row of the segment. */
  ghost predicate PerSegment<T>(bounds: seq<(nat, nat)>, outputs: seq<seq<T>>) {
    && |outputs| == |bounds|
    && (forall k: nat :: k < |bounds| ==> Follows(bounds, k) && |outputs[k]| == bounds[k].1 - bounds[k].0)
  }

  lemma {:induction false} FlattenLength<T>(bounds: seq<(nat, nat)>, outputs: seq<seq<T>>, i: nat)
    requires PerSegment(bounds, outputs) && i <= |bounds|
    ensures |Flatten(outputs[..i])| == End(bounds, i)
    decreases i
  {
    if i > 0 {
      FlattenLength(bounds, outputs, i - 1);
      FlattenOne(outputs, i - 1);
      assert Follows(bounds, i - 1);
    }
  }

  lemma {:induction false} FlattenAt<T>(xss: seq<seq<T>>, k: nat, i: nat)
    requires k < |xss| && i < |xss[k]|
    ensures |Flatten(xss[..k])| + i < |Flatten(xss)| && Flatten(xss)[|Flatten(xss[..k])| + i] == xss[k][i]
  {
    FlattenOne(xss, k);
    FlattenPrefix(xss, k + 1, |xss|);
    assert xss[..|xss|] == xss;
  }

  /** Outputs of per-segment kernels concatenate to one value per row, each in its row's place. */
  lemma {:induction false} SegmentsAlign<T>(bounds: seq<(nat, nat)>, outputs: seq<seq<T>>, k: nat, row: nat)
    requires PerSegment(bounds, outputs) && k < |bounds| && bounds[k].0 <= row < bounds[k].1
    ensures row < |Flatten(outputs)| == End(bounds, |bounds|)
    ensures Flatten(outputs)[row] == outputs[k][row - bounds[k].0]
  {
    FlattenLength(bounds, outputs, |bounds|);
    assert outputs[..|bounds|] == outputs;
    FlattenLength(bounds, outputs, k);
    assert Follows(bounds, k);
    FlattenAt(outputs, k, row - bounds[k].0);
  }

  /** The row is in one of the segments and its value is where that segment's output has it. */
  ghost predicate InPlace<T>(bounds: seq<(nat, nat)>, outputs: seq<seq<T>>, row: nat)
    requires PerSegment(bounds, outputs)
  {
    && row < |Flatten(outputs)|
    && exists k: nat :: k < |bounds| && bounds[k].0 <= row < bounds[k].1
                        && Flatten(outputs)[row] == outputs[k][row - bounds[k].0]
  }

  /** One output per maximal run, with as many values as the run has rows. */
  ghost predicate PerRun<T>(keys: seq<Key>, outputs: seq<seq<T>>) {
    var bounds := Bounds(keys);
    |outputs| == |bounds| && forall k: nat :: k < |bounds| ==> bounds[k].0 + |outputs[k]| == bounds[k].1
  }

  lemma {:induction false} RunsAreSegments<T>(keys: seq<Key>, outputs: seq<seq<T>>)
    requires PerRun(keys, outputs)
    ensures PerSegment(Bounds(keys), outputs) && |Flatten(outputs)| == |keys| == End(Bounds(keys), |Bounds(keys)|)
  {
    var bounds := Bounds(keys);
    BoundsAreMaximalRuns(keys);
    forall k: nat | k < |bounds| ensures Follows(bounds, k) {
      assert MaximalRun(keys, bounds, k);
    }
    FlattenLength(bounds, outputs, |bounds|);
    assert outputs[..|bounds|] == outputs;
    assert bounds != [] ==> MaximalRun(keys, bounds, |bounds| - 1);
  }

  /**
   Main result on segments: kernels that give each maximal run as many values as it has rows give, put one after
   another, one value per row of the frame, each in its row's place.
   */
  lemma {:induction false} SegmentsCoverFrame<T>(keys: seq<Key>, outputs: seq<seq<T>>)
    requires PerRun(keys, outputs)
    ensures PerSegment(Bounds(keys), outputs) && |Flatten(outputs)| == |keys|
    ensures forall row: nat :: row < |keys| ==> InPlace(Bounds(keys), outputs, row)
  {
    var bounds := Bounds(keys);
    RunsAreSegments(keys, outputs);
    forall row: nat | row < |keys| ensures InPlace(bounds, outputs, row) {
      var k := SegmentOf(bounds, outputs, row, |bounds|);
      SegmentsAlign(bounds, outputs, k, row);
    }
  }

  lemma {:induction false} SegmentOf<T>(bounds: seq<(nat, nat)>, outputs: seq<seq<T>>, row: nat, i: nat)
    returns (k: nat)
    requires PerSegment(bounds, outputs) && i <= |bounds| && row < End(bounds, i)
    ensures k < i && bounds[k].0 <= row < bounds[k].1
    decreases i
  {
    assert Follows(bounds, i - 1);
    if bounds[i - 1].0 <= row {
      k := i - 1;
    } else {
      k := SegmentOf(bounds, outputs, row, i - 1);
    }
  }

  // ---------------------------------------------------------------- per-cycle display

  datatype Mode = Consecutive | PerCycle | OverlapMirror

  /** Phase code 1 is charge, 2 is discharge, anything else is neither. */
  datatype Cell = Cell(cycles: seq<int>, phases: seq<int>, values: Column)

  predicate Aligned(c: Cell) { |c.cycles| == |c.phases| == |c.values| }

  /** The rows of a cycle's phase that have a finite value. */
  predicate InGroup(c: Cell, cycle: int, phase: int, i: nat)
    requires Aligned(c)
  {
    i < |c.values| && c.cycles[i] == cycle && c.phases[i] == phase && c.values[i].Finite?
  }

  ghost predicate FiniteRows(c: Cell, rows: seq<nat>) {
    && (forall k :: 0 <= k < |rows| ==> rows[k] < |c.values| && c.values[rows[k]].Finite?)
    && (forall a, b :: 0 <= a < b < |rows| ==> rows[a] < rows[b])
  }

  function GroupRows(c: Cell, cycle: int, phase: int, n: nat): (rows: seq<nat>)
    requires Aligned(c) && n <= |c.values|
    ensures forall i: nat :: i in rows <==> i < n && InGroup(c, cycle, phase, i)
    ensures FiniteRows(c, rows)
  {
    if n == 0 then []
    else
      var front := GroupRows(c, cycle, phase, n - 1);
      assert forall a :: 0 <= a < |front| ==> front[a] in front;
      front + (if InGroup(c, cycle, phase, n - 1) then [n - 1] else [])
  }

  function Rows(c: Cell, cycle: int, phase: int): (rows: seq<nat>)
    requires Aligned(c)
    ensures forall i: nat :: i in rows <==> InGroup(c, cycle, phase, i)
    ensures FiniteRows(c, rows)
  {
    GroupRows(c, cycle, phase, |c.values|)
  }

  /** Distance of row `k` of the group from the group's first row. */
  function FromStart(c: Cell, rows: seq<nat>, k: nat): real
    requires FiniteRows(c, rows) && k < |rows|
  {
    c.values[rows[k]].value - c.values[rows[0]].value
  }

  /** The largest such distance among the first `n`. */
  function Span(c: Cell, rows: seq<nat>, n: nat): (m: real)
    requires FiniteRows(c, rows) && 0 < n <= |rows|
    ensures forall k :: 0 <= k < n ==> FromStart(c, rows, k) <= m
    ensures exists k :: 0 <= k < n && FromStart(c, rows, k) == m
  {
    var here := FromStart(c, rows, n - 1);
    if n == 1 then here
    else
      var before := Span(c, rows, n - 1);
      if before < here then here else before
  }

  /** What is displayed for row `k` of a group. */
  function Shown(c: Cell, rows: seq<nat>, k: nat, mirror: bool): real
    requires FiniteRows(c, rows) && k < |rows|
  {
    if mirror then Span(c, rows, |rows|) - FromStart(c, rows, k) else FromStart(c, rows, k)
  }

  /** A row belongs to its own group and to no other, at one position. */
  lemma {:induction false} OneGroup(c: Cell, i: nat, cycle: int, phase: int)
    requires Aligned(c) && i < |c.values| && c.values[i].Finite?
    ensures i in Rows(c, cycle, phase) <==> cycle == c.cycles[i] && phase == c.phases[i]
    ensures forall a, b :: 0 <= a < b < |Rows(c, cycle, phase)| ==>
              Rows(c, cycle, phase)[a] != Rows(c, cycle, phase)[b]
  {
  }

  /** An unmirrored group starts at zero. */
  lemma {:induction false} StartsAtZero(c: Cell, rows: seq<nat>)
    requires FiniteRows(c, rows) && rows != []
    ensures Shown(c, rows, 0, false) == 0.0
  {
  }

  /**
   Mirroring keeps a group within its own range: nothing goes below zero, zero is reached, distances between rows
   keep their size and change sign, and if the group nowhere falls below its start the mirror stays below its span.
   */
  lemma {:induction false} MirrorWithinRange(c: Cell, rows: seq<nat>)
    requires FiniteRows(c, rows) && rows != []
    ensures forall k :: 0 <= k < |rows| ==> Shown(c, rows, k, true) >= 0.0
    ensures exists k :: 0 <= k < |rows| && Shown(c, rows, k, true) == 0.0
    ensures forall j, k :: 0 <= j < |rows| && 0 <= k < |rows| ==>
              Shown(c, rows, j, true) - Shown(c, rows, k, true)
              == Shown(c, rows, k, false) - Shown(c, rows, j, false)
    ensures (forall k :: 0 <= k < |rows| ==> Shown(c, rows, k, false) >= 0.0) ==>
              forall k :: 0 <= k < |rows| ==> Shown(c, rows, k, true) <= Shown(c, rows, 0, true)
  {
    var k :| 0 <= k < |rows| && FromStart(c, rows, k) == Span(c, rows, |rows|);
    assert Shown(c, rows, k, true) == 0.0;
  }

  function Scaled(v: Number, factor: real): Number
    requires factor > 0.0
  {
    if v.Finite? then Finite(v.value / factor) else v
  }

  /** The time axis in hours, minutes or seconds. */
  function TimeAxis(raw: Column, factor: real): Column
    requires factor > 0.0
  {
    var t := ContinuousTime(raw);
    seq(|t|, k requires 0 <= k < |t| => Scaled(t[k], factor))
  }

  /** A time in the unit that has `factor` seconds; what is not finite stays as it is. */
  lemma {:induction false} TimeAxisMeaning(raw: Column, factor: real, k: nat)
    requires factor > 0.0 && k < |raw|
    ensures |TimeAxis(raw, factor)| == |raw|
    ensures var seconds, shown := ContinuousTime(raw)[k], TimeAxis(raw, factor)[k];
            if seconds.Finite? then shown.Finite? && shown.value * factor == seconds.value else shown == seconds
  {
    var seconds := ContinuousTime(raw)[k];
    if seconds.Finite? {
      Quotient(seconds.value, factor);
    }
  }

  lemma {:induction false} Quotient(a: real, b: real)
    requires b > 0.0
    ensures a / b * b == a
  {
  }

  lemma {:induction false} ScaledOrder(a: Number, b: Number, factor: real)
    requires factor > 0.0 && NotAbove(a, b)
    ensures NotAbove(Scaled(a, factor), Scaled(b, factor))
  {
    assert b.value / factor - a.value / factor == (b.value - a.value) / factor;
  }

  /** On the time axis of a gap-free clock every group climbs from zero, whatever resets the clock had. */
  lemma {:induction false} TimeGroupsClimb(raw: Column, factor: real, c: Cell, cycle: int, phase: int, j: nat, k: nat)
    requires factor > 0.0 && Clock(raw) && Aligned(c) && c.values == TimeAxis(raw, factor)
    requires j < k < |Rows(c, cycle, phase)|
    ensures 0.0 <= Shown(c, Rows(c, cycle, phase), j, false) <= Shown(c, Rows(c, cycle, phase), k, false)
  {
    var rows := Rows(c, cycle, phase);
    NeverGoesBack(raw, rows[j], rows[k]);
    ScaledOrder(ContinuousTime(raw)[rows[j]], ContinuousTime(raw)[rows[k]], factor);
    if j > 0 {
      NeverGoesBack(raw, rows[0], rows[j]);
      ScaledOrder(ContinuousTime(raw)[rows[0]], ContinuousTime(raw)[rows[j]], factor);
    }
  }

  predicate Drawn(c: Cell, i: nat)
    requires Aligned(c)
  {
    i < |c.values| && c.values[i].Finite? && (c.phases[i] == 1 || c.phases[i] == 2)
  }

  predicate Mirrors(mode: Mode, phase: int) { mode.OverlapMirror? && phase == 2 }

  /** Every row of the group shows what the group says. */
  ghost predicate GroupShown(c: Cell, mode: Mode, cycle: int, phase: int, out: Column)
    requires Aligned(c) && |out| == |c.values|
  {
    var rows := Rows(c, cycle, phase);
    forall k :: 0 <= k < |rows| ==> out[rows[k]] == Finite(Shown(c, rows, k, Mirrors(mode, phase)))
  }

  /** The whole display: every charge and discharge group shown, and nothing else. */
  ghost predicate Displays(c: Cell, mode: Mode, out: Column)
    requires Aligned(c)
  {
    && |out| == |c.values|
    && (forall i: nat :: i < |out| && !Drawn(c, i) ==> out[i] == NaN)
    && (forall cycle :: GroupShown(c, mode, cycle, 1, out) && GroupShown(c, mode, cycle, 2, out))
  }

  /** The description leaves no freedom. */
  lemma {:induction false} DisplayUnique(c: Cell, mode: Mode, a: Column, b: Column)
    requires Aligned(c) && Displays(c, mode, a) && Displays(c, mode, b)
    ensures a == b
  {
    forall i: nat | i < |a| ensures a[i] == b[i] {
      if Drawn(c, i) {
        var rows := Rows(c, c.cycles[i], c.phases[i]);
        assert i in rows;
        var k :| 0 <= k < |rows| && rows[k] == i;
        assert GroupShown(c, mode, c.cycles[i], c.phases[i], a) && GroupShown(c, mode, c.cycles[i], c.phases[i], b);
      }
    }
  }

  /** Consecutive display: all rows relative to the first finite one, if any. */
  ghost predicate FromFirst(values: Column, out: Column) {
    && |out| == |values|
    && ((forall i :: 0 <= i < |values| ==> !values[i].Finite?) ==> out == values)
    && (forall f: nat :: f < |values| && values[f].Finite? && (forall j :: 0 <= j < f ==> !values[j].Finite?) ==>
          forall i :: 0 <= i < |values| ==> out[i] == Minus(values[i], values[f]))
  }

  method ShowConsecutive(values: Column) returns (out: Column)
    ensures FromFirst(values, out)
  {
    for f := 0 to |values|
      invariant forall j :: 0 <= j < f ==> !values[j].Finite?
    {
      if values[f].Finite? {
        out := seq(|values|, i requires 0 <= i < |values| => Minus(values[i], values[f]));
        return;
      }
    }
    out := values;
  }

  method UniqueCycles(cycles: seq<int>) returns (unique: seq<int>)
    ensures StrictlyIncreasing(unique) && forall y :: y in unique <==> y in cycles
  {
    unique := [];
    for i := 0 to |cycles|
      invariant StrictlyIncreasing(unique) && forall y :: y in unique <==> y in cycles[..i]
    {
      unique := InsertAscending(unique, cycles[i]);
      assert cycles[..i + 1] == cycles[..i] + [cycles[i]];
    }
  }

  method ShowGroup(c: Cell, mode: Mode, cycle: int, phase: int, display: array<Number>)
    requires Aligned(c) && display.Length == |c.values|
    modifies display
    ensures GroupShown(c, mode, cycle, phase, display[..])
    ensures forall i: nat :: i < display.Length && !InGroup(c, cycle, phase, i) ==> display[i] == old(display[i])
  {
    var rows := Rows(c, cycle, phase);
    if |rows| == 0 {
      return;
    }
    for k := 0 to |rows|
      invariant forall j :: 0 <= j < k ==> display[rows[j]] == Finite(Shown(c, rows, j, Mirrors(mode, phase)))
      invariant forall i: nat :: i < display.Length && !InGroup(c, cycle, phase, i) ==> display[i] == old(display[i])
    {
      assert rows[k] in rows;
      display[rows[k]] := Finite(Shown(c, rows, k, Mirrors(mode, phase)));
    }
  }

  /** Writing one group leaves every other group's rows alone. */
  lemma {:induction false} GroupKept(c: Cell, mode: Mode, cycle: int, phase: int, otherCycle: int, otherPhase: int,
                                     a: Column, b: Column)
    requires Aligned(c) && |a| == |b| == |c.values| && (cycle, phase) != (otherCycle, otherPhase)
    requires forall i: nat :: i < |b| && !InGroup(c, cycle, phase, i) ==> b[i] == a[i]
    requires GroupShown(c, mode, otherCycle, otherPhase, a)
    ensures GroupShown(c, mode, otherCycle, otherPhase, b)
  {
    var rows := Rows(c, otherCycle, otherPhase);
    forall k | 0 <= k < |rows| ensures b[rows[k]] == a[rows[k]] {
      assert rows[k] in rows;
    }
  }

  /** The groups of `done` are shown, and rows of no such group are blank. */
  ghost predicate Partly(c: Cell, mode: Mode, done: set<(int, int)>, out: Column)
    requires Aligned(c)
  {
    && |out| == |c.values|
    && (forall i: nat :: i < |out| && (!c.values[i].Finite? || (c.cycles[i], c.phases[i]) !in done) ==> out[i] == NaN)
    && (forall g :: g in done ==> GroupShown(c, mode, g.0, g.1, out))
  }

  method ShowNext(c: Cell, mode: Mode, cycle: int, phase: int, ghost done: set<(int, int)>, display: array<Number>)
    requires Aligned(c) && display.Length == |c.values| && Partly(c, mode, done, display[..])
    modifies display
    ensures Partly(c, mode, done + {(cycle, phase)}, display[..])
  {
    ghost var before := display[..];
    ShowGroup(c, mode, cycle, phase, display);
    ghost var after := display[..];
    assert forall i: nat :: i < |after| && !InGroup(c, cycle, phase, i) ==> after[i] == before[i];
    forall g | g in done + {(cycle, phase)} ensures GroupShown(c, mode, g.0, g.1, after) {
      if g != (cycle, phase) {
        GroupKept(c, mode, cycle, phase, g.0, g.1, before, after);
      }
    }
  }

  ghost function Groups(cycles: seq<int>, n: nat): set<(int, int)>
    requires n <= |cycles|
  {
    if n == 0 then {} else Groups(cycles, n - 1) + {(cycles[n - 1], 1)} + {(cycles[n - 1], 2)}
  }

  lemma {:induction false} GroupsExact(cycles: seq<int>, n: nat, g: (int, int))
    requires n <= |cycles|
    ensures g in Groups(cycles, n) <==> g.0 in cycles[..n] && (g.1 == 1 || g.1 == 2)
  {
    if n > 0 {
      GroupsExact(cycles, n - 1, g);
      assert cycles[..n] == cycles[..n - 1] + [cycles[n - 1]];
    }
  }

  lemma {:induction false} AllGroupsDone(c: Cell, mode: Mode, unique: seq<int>, out: Column)
    requires Aligned(c) && Partly(c, mode, Groups(unique, |unique|), out)
    requires forall y :: y in unique <==> y in c.cycles
    ensures Displays(c, mode, out)
  {
    assert unique[..|unique|] == unique;
    forall i: nat | i < |out| && !Drawn(c, i) ensures out[i] == NaN {
      GroupsExact(unique, |unique|, (c.cycles[i], c.phases[i]));
    }
    forall cycle, phase | phase == 1 || phase == 2 ensures GroupShown(c, mode, cycle, phase, out) {
      GroupsExact(unique, |unique|, (cycle, phase));
      var rows := Rows(c, cycle, phase);
      assert rows != [] ==> rows[0] in rows;
    }
  }

  /** Fills a fresh display column; group by group, unless the mode is consecutive. */
  method ProjectDisplay(c: Cell, mode: Mode) returns (out: Column)
    requires Aligned(c)
    ensures if mode.Consecutive? then FromFirst(c.values, out) else Displays(c, mode, out)
  {
    if mode.Consecutive? {
      out := ShowConsecutive(c.values);
      return;
    }
    var display := new Number[|c.values|](i => NaN);
    var unique := UniqueCycles(c.cycles);
    for k := 0 to |unique|
      invariant display.Length == |c.values|
      invariant Partly(c, mode, Groups(unique, k), display[..])
    {
      ShowNext(c, mode, unique[k], 1, Groups(unique, k), display);
      ShowNext(c, mode, unique[k], 2, Groups(unique, k) + {(unique[k], 1)}, display);
    }
    out := display[..];
    AllGroupsDone(c, mode, unique, out);
  }

  // ---------------------------------------------------------------- the display in plain terms

  /** The finite rows of row `i`'s cycle and phase. */
  ghost predicate SameGroup(c: Cell, i: nat, j: nat)
    requires Aligned(c)
  {
    && i < |c.values| && j < |c.values| && c.values[j].Finite?
    && c.cycles[j] == c.cycles[i] && c.phases[j] == c.phases[i]
  }

  /** Row `f` is the first finite one of row `i`'s cycle and phase. */
  ghost predicate FirstOf(c: Cell, i: nat, f: nat)
    requires Aligned(c)
  {
    SameGroup(c, i, f) && forall j: nat :: SameGroup(c, i, j) ==> f <= j
  }

  /** Row `m` has the largest value of row `i`'s cycle and phase. */
  ghost predicate LargestOf(c: Cell, i: nat, m: nat)
    requires Aligned(c)
  {
    SameGroup(c, i, m) && forall j: nat :: SameGroup(c, i, j) ==> c.values[j].value <= c.values[m].value
  }

  lemma {:induction false} FirstRow(c: Cell, i: nat, f: nat)
    requires Aligned(c) && i < |c.values| && c.values[i].Finite? && FirstOf(c, i, f)
    ensures var rows := Rows(c, c.cycles[i], c.phases[i]); rows != [] && rows[0] == f
  {
    var rows := Rows(c, c.cycles[i], c.phases[i]);
    assert f in rows;
    assert rows[0] in rows && SameGroup(c, i, rows[0]);
  }

  lemma {:induction false} LargestRow(c: Cell, i: nat, f: nat, m: nat)
    requires Aligned(c) && i < |c.values| && c.values[i].Finite? && FirstOf(c, i, f) && LargestOf(c, i, m)
    ensures var rows := Rows(c, c.cycles[i], c.phases[i]);
            rows != [] && Span(c, rows, |rows|) == c.values[m].value - c.values[f].value
  {
    var rows := Rows(c, c.cycles[i], c.phases[i]);
    FirstRow(c, i, f);
    assert m in rows;
    var k :| 0 <= k < |rows| && rows[k] == m;
    assert FromStart(c, rows, k) <= Span(c, rows, |rows|);
    var j :| 0 <= j < |rows| && FromStart(c, rows, j) == Span(c, rows, |rows|);
    assert rows[j] in rows && SameGroup(c, i, rows[j]);
  }

  /**
   The display in plain terms. A finite charge row, and in per-cycle mode a finite discharge row, shows its value less
   that of the first finite row of its cycle and phase; in overlap-mirror mode a finite discharge row shows the largest
   value of its cycle and phase less its own. Every other row shows nothing.
   */
  lemma {:induction false} DisplayMeaning(c: Cell, mode: Mode, out: Column, i: nat, f: nat, m: nat)
    requires Aligned(c) && Displays(c, mode, out) && i < |c.values|
    requires c.values[i].Finite? ==> FirstOf(c, i, f) && LargestOf(c, i, m)
    ensures |out| == |c.values|
    ensures !c.values[i].Finite? || (c.phases[i] != 1 && c.phases[i] != 2) ==> out[i] == NaN
    ensures c.values[i].Finite? && (c.phases[i] == 1 || (c.phases[i] == 2 && mode != OverlapMirror)) ==>
              out[i] == Finite(c.values[i].value - c.values[f].value)
    ensures c.values[i].Finite? && c.phases[i] == 2 && mode == OverlapMirror ==>
              out[i] == Finite(c.values[m].value - c.values[i].value)
  {
    if Drawn(c, i) {
      var k := RowShown(c, mode, out, i);
      FirstRow(c, i, f);
      LargestRow(c, i, f, m);
    }
  }

  lemma {:induction false} RowShown(c: Cell, mode: Mode, out: Column, i: nat) returns (k: nat)
    requires Aligned(c) && Displays(c, mode, out) && Drawn(c, i)
    ensures var rows := Rows(c, c.cycles[i], c.phases[i]);
            k < |rows| && rows[k] == i && out[i] == Finite(Shown(c, rows, k, Mirrors(mode, c.phases[i])))
  {
    var rows := Rows(c, c.cycles[i], c.phases[i]);
    assert i in rows;
    k :| 0 <= k < |rows| && rows[k] == i;
    assert GroupShown(c, mode, c.cycles[i], c.phases[i], out);
  }

  /** Every finite row has such rows `f` and `m`. */
  lemma {:induction false} GroupHasEnds(c: Cell, i: nat) returns (f: nat, m: nat)
    requires Aligned(c) && i < |c.values| && c.values[i].Finite?
    ensures FirstOf(c, i, f) && LargestOf(c, i, m)
  {
    var rows := Rows(c, c.cycles[i], c.phases[i]);
    assert i in rows;
    f := rows[0];
    assert rows[0] in rows;
    var k :| 0 <= k < |rows| && FromStart(c, rows, k) == Span(c, rows, |rows|);
    m := rows[k];
    assert rows[k] in rows;
    forall j: nat | SameGroup(c, i, j) ensures f <= j && c.values[j].value <= c.values[m].value {
      assert j in rows;
      var q :| 0 <= q < |rows| && rows[q] == j;
      assert FromStart(c, rows, q) <= Span(c, rows, |rows|);
    }
  }

  /** The consecutive display in plain terms: finite rows less the first finite one; infinities and NaN stay. */
  lemma {:induction false} ConsecutiveMeaning(values: Column, out: Column, f: nat, i: nat)
    requires FromFirst(values, out) && f < |values| && i < |values|
    requires values[f].Finite? && forall j :: 0 <= j < f ==> !values[j].Finite?
    ensures |out| == |values|
    ensures out[i] == match values[i]
                      case Finite(v) => Finite(v - values[f].value)
                      case _ => values[i]
  {
  }

  /** Row `k` of the time starts as the clock does, and goes on by what the clock goes on or, after a fall, shows. */
  ghost predicate Advances(raw: Column, t: Column, k: nat)
    requires k < |raw| == |t|
  {
    && raw[k].Finite? && t[k].Finite?
    && if k == 0 then t[0] == raw[0]
       else
         && raw[k - 1].Finite? && t[k - 1].Finite?
         && t[k].value - t[k - 1].value
            == if raw[k].value < raw[k - 1].value then raw[k].value else raw[k].value - raw[k - 1].value
  }

  /** Continuous time in plain terms, on a clock without gaps; both forms of it. */
  lemma {:induction false} TimeMeaning(raw: Column, k: nat)
    requires k < |raw| && forall j :: 0 <= j < |raw| ==> raw[j].Finite?
    ensures Advances(raw, ContinuousTime(raw), k) && Sequential(raw, k) == ContinuousTime(raw)[k]
  {
    TimeShape(raw);
    ShiftedAdvances(raw, ContinuousTime(raw), k);
  }

  lemma {:induction false} ShiftedAdvances(raw: Column, t: Column, k: nat)
    requires Shifted(raw, t) && k < |raw| && forall j :: 0 <= j < |raw| ==> raw[j].Finite?
    ensures Advances(raw, t, k) && Sequential(raw, k) == t[k]
  {
    FiniteOffset(raw, k);
    if k > 0 {
      FiniteOffset(raw, k - 1);
      RunningStep(raw, k);
    }
  }

  lemma {:induction false} RunningStep(raw: Column, k: nat)
    requires 0 < k < |raw| && raw[k].Finite? && raw[k - 1].Finite?
    ensures Running(raw, k)
            == Running(raw, k - 1) + (if raw[k].value < raw[k - 1].value then raw[k - 1].value else 0.0)
  {
  }

  lemma {:induction false} FiniteOffset(raw: Column, k: nat)
    requires k < |raw| && forall j :: 0 <= j < |raw| ==> raw[j].Finite?
    ensures Offset(raw, k) == Finite(Running(raw, k))
  {
    if k > 0 {
      FiniteOffset(raw, k - 1);
      OffsetStep(raw, k, Running(raw, k - 1));
      RunningStep(raw, k);
    }
  }

  lemma {:induction false} OffsetStep(raw: Column, k: nat, sum: real)
    requires 0 < k < |raw| && raw[k].Finite? && raw[k - 1].Finite? && Offset(raw, k - 1) == Finite(sum)
    ensures Offset(raw, k)
            == Finite(sum + (if raw[k].value < raw[k - 1].value then raw[k - 1].value else 0.0))
  {
    assert Reset(raw, k) <==> raw[k].value < raw[k - 1].value;
  }

  /** A segment starts where cycle, segment or phase differ from the row before, or a number is NaN. */
  lemma {:induction false} ChangedMeaning(keys: seq<Key>, k: nat)
    requires 0 < k < |keys|
    ensures Changed(keys, k)
            <==> || keys[k].cycle != keys[k - 1].cycle || keys[k].cycle == NaN
                 || keys[k].segment != keys[k - 1].segment || keys[k].segment == NaN
                 || keys[k].phase != keys[k - 1].phase
  {
  }
}
