/** The promotion rule: from which selection size on may four or eight workers replace the serial run. */
module Promotion {
  import opened Common

  /** Median times of the serial run and of four and eight workers, parity flags, and idle memory. */
  datatype Point = Point(serialMs: Option<real>, fourMs: Option<real>, eightMs: Option<real>,
                         fourParity: bool, fourOrdering: bool, fourCross: bool,
                         eightParity: bool, eightOrdering: bool, eightCross: bool,
                         fourWorker: Option<int>, fourParent: Option<int>,
                         eightWorker: Option<int>, eightParent: Option<int>)

  type Matrix = map<int, Point>

  datatype Host = Host(cpus: Option<int>, memory: Option<int>)

  datatype Delta = Delta(ms: Option<real>, fraction: Option<real>)

  /** Time saved, absolute and as a fraction of the base, which a base of zero does not have. */
  function Saved(base: Option<real>, candidate: Option<real>): Delta {
    if base.None? || candidate.None? then Delta(None, None)
    else Delta(Some(base.value - candidate.value),
               if base.value != 0.0 then Some((base.value - candidate.value) / base.value) else None)
  }

  datatype Gate = Gate(four: Option<int>, eight: Option<int>, ratio: Option<real>, ok: bool)

  function Resident(worker: Option<int>, parent: Option<int>): Option<int> {
    if worker.Some? && parent.Some? then Some(worker.value + parent.value) else None
  }

  function MemoryGate(p: Point): Gate {
    var four, eight := Resident(p.fourWorker, p.fourParent), Resident(p.eightWorker, p.eightParent);
    var ratio := if four.Some? && four.value > 0 && eight.Some?
                 then Some(eight.value as real / four.value as real) else None;
    Gate(four, eight, ratio, ratio.Some? && ratio.value <= 1.5)
  }

  lemma {:induction false} RatioAtMost(a: real, b: real, limit: real)
    requires b > 0.0
    ensures a / b <= limit <==> a <= limit * b
  {
    var ratio := a / b;
    assert ratio * b == a;
    assert ratio <= limit ==> ratio * b <= limit * b;
    assert ratio > limit ==> ratio * b > limit * b;
  }

  /** The gate without a division: at most one and a half times the positive base. */
  lemma {:induction false} MemoryGateMeaning(p: Point)
    ensures MemoryGate(p).ok <==>
            var four, eight := Resident(p.fourWorker, p.fourParent), Resident(p.eightWorker, p.eightParent);
            four.Some? && four.value > 0 && eight.Some? && 2 * eight.value <= 3 * four.value
  {
    var four, eight := Resident(p.fourWorker, p.fourParent), Resident(p.eightWorker, p.eightParent);
    if four.Some? && four.value > 0 && eight.Some? {
      RatioAtMost(eight.value as real, four.value as real, 1.5);
    }
  }

  // ---------------------------------------------------------------- one point

  function FourDelta(p: Point): Delta { Saved(p.serialMs, p.fourMs) }

  function EightDelta(p: Point): Delta { Saved(p.fourMs, p.eightMs) }

  predicate Faster(d: Delta, least: real) {
    d.ms.Some? && d.fraction.Some? && d.ms.value >= least && d.fraction.value >= 0.15
  }

  /** The point itself qualifies. */
  predicate FourQualifies(p: Point) {
    p.fourParity && p.fourOrdering && p.fourCross && Faster(FourDelta(p), 10.0)
  }

  predicate EightQualifies(p: Point) {
    p.eightParity && p.eightOrdering && p.eightCross && Faster(EightDelta(p), 15.0)
  }

  /** A larger point is tested without asking first whether there is a fraction to compare. */
  datatype Verdict = Pass | Fail | Fault

  function Larger(d: Delta, least: real, parity: bool): Verdict {
    if d.ms.None? || d.ms.value < least then Fail
    else if d.fraction.None? then Fault
    else if d.fraction.value >= 0.15 && parity then Pass
    else Fail
  }

  function FourLarger(p: Point): Verdict { Larger(FourDelta(p), 10.0, p.fourParity && p.fourOrdering && p.fourCross) }

  function EightLarger(p: Point): Verdict {
    Larger(EightDelta(p), 15.0, p.eightParity && p.eightOrdering && p.eightCross)
  }

  lemma {:induction false} LargerIsQualifies(p: Point)
    ensures FourLarger(p).Pass? <==> FourQualifies(p)
    ensures EightLarger(p).Pass? <==> EightQualifies(p)
  {
  }

  predicate NonNegative(p: Point) {
    && (p.serialMs.Some? ==> p.serialMs.value >= 0.0) && (p.fourMs.Some? ==> p.fourMs.value >= 0.0)
    && (p.eightMs.Some? ==> p.eightMs.value >= 0.0)
  }

  /** A missing fraction is never compared where times are not negative. */
  lemma {:induction false} NoFault(p: Point)
    requires NonNegative(p)
    ensures !FourLarger(p).Fault? && !EightLarger(p).Fault?
  {
  }

  /** A base of zero and a time below zero: enough saved, but no fraction to compare. */
  lemma {:induction false} FaultPossible(p: Point)
    requires p.fourMs == Some(0.0) && p.eightMs == Some(-20.0)
    ensures EightLarger(p).Fault? && !EightQualifies(p)
  {
  }

  predicate HostReady(h: Host) {
    h.cpus.Some? && h.cpus.value >= 12 && h.memory.Some? && h.memory.value >= 8 * 128 * 1024 * 1024 + 512 * 1024 * 1024
  }

  predicate MemoryQualifies(h: Host, p: Point) { HostReady(h) && MemoryGate(p).ok }

  // ---------------------------------------------------------------- suffixes

  ghost predicate Increasing(counts: seq<int>) { forall i, j :: 0 <= i < j < |counts| ==> counts[i] < counts[j] }

  ghost predicate Covers(m: Matrix, counts: seq<int>) { forall k :: 0 <= k < |counts| ==> counts[k] in m }

  /** Where the longest suffix begins all of whose points pass the test. */
  function Start(m: Matrix, counts: seq<int>, test: Point -> bool): (s: nat)
    requires Covers(m, counts)
    ensures s <= |counts| && forall k :: s <= k < |counts| ==> test(m[counts[k]])
    ensures s > 0 ==> !test(m[counts[s - 1]])
  {
    StartFrom(m, counts, test, |counts|)
  }

  function StartFrom(m: Matrix, counts: seq<int>, test: Point -> bool, i: nat): (s: nat)
    requires Covers(m, counts) && i <= |counts| && forall k :: i <= k < |counts| ==> test(m[counts[k]])
    ensures s <= |counts| && forall k :: s <= k < |counts| ==> test(m[counts[k]])
    ensures s > 0 ==> !test(m[counts[s - 1]])
  {
    if i > 0 && test(m[counts[i - 1]]) then StartFrom(m, counts, test, i - 1) else i
  }

  /** From `i` on everything passes, exactly when `i` is not before the start. */
  lemma {:induction false} FromStart(m: Matrix, counts: seq<int>, test: Point -> bool, i: nat)
    requires Covers(m, counts) && i < |counts|
    ensures (forall k :: i <= k < |counts| ==> test(m[counts[k]])) <==> Start(m, counts, test) <= i
  {
    var s := Start(m, counts, test);
    if i < s {
      assert !test(m[counts[s - 1]]);
    }
  }

  /** The smallest of an ascending list's suffix, if it has one. */
  function Least(counts: seq<int>, start: nat): Option<int>
    requires start <= |counts|
  {
    if start < |counts| then Some(counts[start]) else None
  }

  function Max(a: nat, b: nat): nat { if a < b then b else a }

  method Minimum(xs: seq<int>) returns (m: Option<int>)
    ensures m.None? <==> xs == []
    ensures m.Some? ==> m.value in xs && forall x :: x in xs ==> m.value <= x
  {
    if xs == [] {
      return None;
    }
    var least := xs[0];
    for k := 1 to |xs|
      invariant least in xs && forall j :: 0 <= j < k ==> least <= xs[j]
    {
      if xs[k] < least { least := xs[k]; }
    }
    m := Some(least);
  }

  lemma {:induction false} LeastOfSuffix(counts: seq<int>, start: nat, m: Option<int>)
    requires Increasing(counts) && start <= |counts|
    requires m.None? <==> counts[start..] == []
    requires m.Some? ==> m.value in counts[start..] && forall x :: x in counts[start..] ==> m.value <= x
    ensures m == Least(counts, start)
  {
    if start < |counts| {
      assert counts[start..][0] == counts[start];
      assert counts[start] in counts[start..];
    }
  }

  // ---------------------------------------------------------------- four workers

  /** All larger points pass; the first that does not decides how the test ends. */
  method LargerFour(m: Matrix, counts: seq<int>, index: nat) returns (v: Verdict)
    requires Covers(m, counts) && index < |counts|
    ensures v.Pass? <==> forall k :: index < k < |counts| ==> FourQualifies(m[counts[k]])
    ensures v.Fault? <==> exists j :: index < j < |counts| && FourLarger(m[counts[j]]).Fault?
                                      && forall k :: index < k < j ==> FourQualifies(m[counts[k]])
  {
    v := Pass;
    for j := index + 1 to |counts|
      invariant v.Pass? || v.Fail?
      invariant v.Pass? <==> forall k :: index < k < j ==> FourQualifies(m[counts[k]])
      invariant v.Fail? ==> exists f :: index < f < j && FourLarger(m[counts[f]]).Fail?
                                        && forall k :: index < k < f ==> FourQualifies(m[counts[k]])
    {
      if v.Pass? {
        LargerIsQualifies(m[counts[j]]);
        v := FourLarger(m[counts[j]]);
        if v.Fault? {
          return;
        }
      }
    }
  }

  /** The comparison that has nothing to compare: at a point right behind one that qualifies. */
  predicate FourFault(m: Matrix, counts: seq<int>, j: nat)
    requires Covers(m, counts)
  {
    0 < j < |counts| && FourQualifies(m[counts[j - 1]]) && FourLarger(m[counts[j]]).Fault?
  }

  function FourTest(): Point -> bool { (p: Point) => FourQualifies(p) }

  function EightTest(): Point -> bool { (p: Point) => EightQualifies(p) }

  function MemoryTest(h: Host): Point -> bool { (p: Point) => MemoryQualifies(h, p) }

  /** A list, with one more member if it is wanted. */
  function Append(xs: seq<int>, x: int, wanted: bool): seq<int> { if wanted then xs + [x] else xs }

  /** Those of the first `n` counts whose index is at least `start`. */
  function From(counts: seq<int>, start: nat, n: nat): seq<int>
    requires n <= |counts|
  {
    if n == 0 then [] else Append(From(counts, start, n - 1), counts[n - 1], start <= n - 1)
  }

  lemma {:induction false} FromIsSlice(counts: seq<int>, start: nat, n: nat)
    requires n <= |counts|
    ensures From(counts, start, n) == if start <= n then counts[start..n] else []
  {
    if n > 0 {
      FromIsSlice(counts, start, n - 1);
    }
  }

  /** The candidates for four workers; `None` is the error of comparing a missing fraction. */
  method FourCandidates(m: Matrix, counts: seq<int>) returns (r: Option<seq<int>>)
    requires Covers(m, counts)
    ensures r.None? <==> exists j :: FourFault(m, counts, j)
    ensures r.Some? ==> r.value == counts[Start(m, counts, FourTest())..]
  {
    ghost var start := Start(m, counts, FourTest());
    var candidates := [];
    for index := 0 to |counts|
      invariant candidates == From(counts, start, index)
      invariant forall j: nat :: j <= index ==> !FourFault(m, counts, j)
    {
      FromStart(m, counts, FourTest(), index);
      if FourQualifies(m[counts[index]]) {
        var larger := LargerFour(m, counts, index);
        if larger.Fault? {
          FaultFound(m, counts, index);
          return None;
        }
        if larger.Pass? {
          candidates := candidates + [counts[index]];
        }
      }
    }
    FromIsSlice(counts, start, |counts|);
    r := Some(candidates);
  }

  /** A fault further on means a fault right behind a qualifying point. */
  lemma {:induction false} FaultFound(m: Matrix, counts: seq<int>, index: nat)
    requires Covers(m, counts) && index < |counts| && FourQualifies(m[counts[index]])
    requires exists j :: index < j < |counts| && FourLarger(m[counts[j]]).Fault?
                         && forall k :: index < k < j ==> FourQualifies(m[counts[k]])
    ensures exists j :: FourFault(m, counts, j)
  {
    var j :| index < j < |counts| && FourLarger(m[counts[j]]).Fault?
             && forall k :: index < k < j ==> FourQualifies(m[counts[k]]);
    assert FourFault(m, counts, j);
  }

  // ---------------------------------------------------------------- eight workers

  type Table = map<int, Gate>

  /** Every entry is what direct computation gives. */
  ghost predicate Direct(m: Matrix, table: Table) {
    forall c :: c in table ==> c in m && table[c] == MemoryGate(m[c])
  }

  /** Any point but the first can fault: the larger points are tested even behind a point that does not qualify. */
  predicate EightFault(m: Matrix, counts: seq<int>, j: nat)
    requires Covers(m, counts)
  {
    0 < j < |counts| && EightLarger(m[counts[j]]).Fault?
  }

  /** Test the larger points, for time and for memory, computing the gates the table does not have yet. */
  method LargerEight(m: Matrix, counts: seq<int>, host: Host, index: nat, before: Table)
    returns (timing: Verdict, memory: bool, table: Table)
    requires Covers(m, counts) && index < |counts| && Direct(m, before)
    ensures Direct(m, table)
    ensures timing.Fault? ==> exists j: nat :: index < j && EightFault(m, counts, j)
    ensures index + 1 < |counts| && EightFault(m, counts, index + 1) ==> timing.Fault?
    ensures timing.Pass? ==> forall k :: index < k < |counts| ==> EightQualifies(m[counts[k]])
    ensures timing.Fail? ==> exists k :: index < k < |counts| && !EightQualifies(m[counts[k]])
    ensures !timing.Fault? ==> (memory <==> forall k :: index < k < |counts| ==> MemoryQualifies(host, m[counts[k]]))
    ensures !timing.Fault? ==> before.Keys <= table.Keys && forall k :: index < k < |counts| ==> counts[k] in table
  {
    timing, memory, table := Pass, true, before;
    for j := index + 1 to |counts|
      invariant Direct(m, table) && before.Keys <= table.Keys
      invariant forall k :: index < k < j ==> counts[k] in table
      invariant !timing.Fault? && (j > index + 1 ==> !EightFault(m, counts, index + 1))
      invariant timing.Pass? ==> forall k :: index < k < j ==> EightQualifies(m[counts[k]])
      invariant timing.Fail? ==> exists k :: index < k < j && !EightQualifies(m[counts[k]])
      invariant memory <==> forall k :: index < k < j ==> MemoryQualifies(host, m[counts[k]])
    {
      var count: int := counts[j];
      var larger := m[count];
      if timing.Pass? {
        LargerIsQualifies(larger);
        timing := EightLarger(larger);
        if timing.Fault? {
          assert EightFault(m, counts, j);
          return;
        }
      }
      if count !in table {
        table := table[count := MemoryGate(larger)];
      }
      assert table[count] == MemoryGate(larger);
      memory := memory && HostReady(host) && table[count].ok;
    }
  }

  datatype EightResult = EightResult(candidates: seq<int>, timing: seq<int>, memory: seq<int>, table: Table)

  function Passing(m: Matrix, counts: seq<int>, test: Point -> bool, n: nat): seq<int>
    requires Covers(m, counts) && n <= |counts|
  {
    if n == 0 then [] else Append(Passing(m, counts, test, n - 1), counts[n - 1], test(m[counts[n - 1]]))
  }

  /** The table has an entry for each of the first `n` counts. */
  ghost predicate Known(counts: seq<int>, table: Table, n: nat)
    requires n <= |counts|
  {
    forall k :: 0 <= k < n ==> counts[k] in table
  }

  /** The start of what both tests sustain. */
  ghost function EightStart(m: Matrix, counts: seq<int>, host: Host): (s: nat)
    requires Covers(m, counts)
    ensures s <= |counts|
  {
    Max(Start(m, counts, EightTest()), Start(m, counts, MemoryTest(host)))
  }

  /** One count: whether it qualifies in time and in memory, and whether it is a candidate; `None` is the error. */
  method EightAt(m: Matrix, counts: seq<int>, host: Host, index: nat, before: Table)
    returns (timing: bool, memory: bool, candidate: Option<bool>, table: Table)
    requires Covers(m, counts) && index < |counts| && Direct(m, before) && Known(counts, before, index)
    ensures timing <==> EightQualifies(m[counts[index]])
    ensures memory <==> MemoryQualifies(host, m[counts[index]])
    ensures candidate.None? ==> exists j: nat :: EightFault(m, counts, j)
    ensures candidate.Some? ==> Direct(m, table) && Known(counts, table, index + 1)
    ensures candidate.Some? ==> !EightFault(m, counts, index + 1)
    ensures candidate.Some? ==> (candidate.value <==> EightStart(m, counts, host) <= index)
  {
    FromStart(m, counts, EightTest(), index);
    FromStart(m, counts, MemoryTest(host), index);
    var count: int := counts[index];
    var gate := MemoryGate(m[count]);
    table := before[count := gate];
    assert Known(counts, table, index + 1);
    timing := EightQualifies(m[count]);
    memory := HostReady(host) && gate.ok;
    var timingLarger, memoryLarger, larger := LargerEight(m, counts, host, index, table);
    if timingLarger.Fault? {
      return timing, memory, None, table;
    }
    table := larger;
    candidate := Some(timing && timingLarger.Pass? && memory && memoryLarger);
  }

  /** What is known of the first `n` counts. */
  ghost predicate SoFar(m: Matrix, counts: seq<int>, host: Host, r: EightResult, n: nat)
    requires Covers(m, counts) && n <= |counts|
  {
    && r.candidates == From(counts, EightStart(m, counts, host), n)
    && r.timing == Passing(m, counts, EightTest(), n) && r.memory == Passing(m, counts, MemoryTest(host), n)
    && Direct(m, r.table) && Known(counts, r.table, n)
  }

  /** One turn of the loop over counts. */
  method EightTurn(m: Matrix, counts: seq<int>, host: Host, index: nat, before: EightResult)
    returns (r: Option<EightResult>)
    requires Covers(m, counts) && index < |counts| && SoFar(m, counts, host, before, index)
    ensures r.None? ==> exists j: nat :: EightFault(m, counts, j)
    ensures r.Some? ==> SoFar(m, counts, host, r.value, index + 1) && !EightFault(m, counts, index + 1)
  {
    var inTime, inMemory, candidate, table := EightAt(m, counts, host, index, before.table);
    if candidate.None? {
      return None;
    }
    r := Some(EightResult(Append(before.candidates, counts[index], candidate.value),
                          Append(before.timing, counts[index], inTime),
                          Append(before.memory, counts[index], inMemory), table));
  }

  /** The candidates for eight workers; `None` is the error of comparing a missing fraction. */
  method EightCandidates(m: Matrix, counts: seq<int>, host: Host) returns (r: Option<EightResult>)
    requires Covers(m, counts)
    ensures r.None? <==> exists j :: EightFault(m, counts, j)
    ensures r.Some? ==>
      && r.value.candidates == counts[EightStart(m, counts, host)..]
      && r.value.timing == Passing(m, counts, EightTest(), |counts|)
      && r.value.memory == Passing(m, counts, MemoryTest(host), |counts|)
      && Direct(m, r.value.table) && Known(counts, r.value.table, |counts|)
  {
    var result := EightResult([], [], [], map[]);
    for index := 0 to |counts|
      invariant SoFar(m, counts, host, result, index)
      invariant forall j: nat :: j <= index ==> !EightFault(m, counts, j)
    {
      var next := EightTurn(m, counts, host, index, result);
      if next.None? {
        return None;
      }
      result := next.value;
    }
    FromIsSlice(counts, EightStart(m, counts, host), |counts|);
    r := Some(result);
  }

  // ---------------------------------------------------------------- decision

  datatype Choice = Serial | FourWorkers | EightWorkers

  datatype Decision = Decision(choice: Choice, threshold: Option<int>, four: seq<int>, eight: seq<int>)

  // The rule in plain terms, over times and memory only.

  /** At least `least` milliseconds and fifteen percent of a base that is not zero. */
  ghost predicate Saves(base: Option<real>, candidate: Option<real>, least: real) {
    && base.Some? && candidate.Some? && base.value != 0.0
    && base.value - candidate.value >= least && (base.value - candidate.value) / base.value >= 0.15
  }

  ghost predicate FourWorth(p: Point) {
    p.fourParity && p.fourOrdering && p.fourCross && Saves(p.serialMs, p.fourMs, 10.0)
  }

  ghost predicate EightWorth(p: Point) {
    p.eightParity && p.eightOrdering && p.eightCross && Saves(p.fourMs, p.eightMs, 15.0)
  }

  /** Twelve processors, a gibibyte and a half, and eight workers with at most one and a half times the memory. */
  ghost predicate MemoryWorth(h: Host, p: Point) {
    && h.cpus.Some? && h.cpus.value >= 12 && h.memory.Some? && h.memory.value >= 1_610_612_736
    && p.fourWorker.Some? && p.fourParent.Some? && p.eightWorker.Some? && p.eightParent.Some?
    && p.fourWorker.value + p.fourParent.value > 0
    && 2 * (p.eightWorker.value + p.eightParent.value) <= 3 * (p.fourWorker.value + p.fourParent.value)
  }

  /** Enough saved on a base of zero, of which there is no fraction. */
  ghost predicate NoFraction(base: Option<real>, candidate: Option<real>, least: real) {
    base == Some(0.0) && candidate.Some? && -candidate.value >= least
  }

  lemma {:induction false} WorthIsQualifies(h: Host, p: Point)
    ensures FourQualifies(p) <==> FourWorth(p)
    ensures EightQualifies(p) <==> EightWorth(p)
    ensures MemoryQualifies(h, p) <==> MemoryWorth(h, p)
    ensures FourLarger(p).Fault? <==> NoFraction(p.serialMs, p.fourMs, 10.0)
    ensures EightLarger(p).Fault? <==> NoFraction(p.fourMs, p.eightMs, 15.0)
  {
    MemoryGateMeaning(p);
  }

  /** The counts from which on every point is worth it. */
  ghost predicate Sustained(m: Matrix, counts: seq<int>, worth: Point -> bool, i: int)
    requires Covers(m, counts)
  {
    0 <= i < |counts| && forall k :: i <= k < |counts| ==> worth(m[counts[k]])
  }

  ghost predicate Candidates(m: Matrix, counts: seq<int>, worth: Point -> bool, chosen: seq<int>)
    requires Covers(m, counts)
  {
    && Increasing(chosen)
    && forall c :: c in chosen <==> exists i :: Sustained(m, counts, worth, i) && counts[i] == c
  }

  lemma {:induction false} SuffixIsCandidates(m: Matrix, counts: seq<int>, worth: Point -> bool, s: nat)
    requires Covers(m, counts) && Increasing(counts) && s <= |counts|
    requires forall i: nat :: i < |counts| ==> (Sustained(m, counts, worth, i) <==> s <= i)
    ensures Candidates(m, counts, worth, counts[s..])
  {
    forall c ensures c in counts[s..] <==> exists i :: Sustained(m, counts, worth, i) && counts[i] == c {
      InSuffix(counts, s, c);
      if i :| Sustained(m, counts, worth, i) && counts[i] == c {
        assert s <= i;
      }
      if i :| s <= i < |counts| && counts[i] == c {
        assert Sustained(m, counts, worth, i);
      }
    }
  }

  /** The decision in plain terms. */
  ghost predicate Decides(m: Matrix, counts: seq<int>, host: Host, d: Decision)
    requires Covers(m, counts)
  {
    && Candidates(m, counts, (p: Point) => FourWorth(p), d.four)
    && Candidates(m, counts, (p: Point) => EightWorth(p) && MemoryWorth(host, p), d.eight)
    && if d.eight != [] then d.choice == EightWorkers && d.threshold == Some(d.eight[0])
       else if d.four != [] then d.choice == FourWorkers && d.threshold == Some(d.four[0])
       else d.choice == Serial && d.threshold == None
  }

  /** A comparison without fraction: for four workers behind a point worth it, for eight at any point but the first. */
  ghost predicate Unfounded(m: Matrix, counts: seq<int>, j: int)
    requires Covers(m, counts)
  {
    0 < j < |counts|
    && ((FourWorth(m[counts[j - 1]]) && NoFraction(m[counts[j]].serialMs, m[counts[j]].fourMs, 10.0))
        || NoFraction(m[counts[j]].fourMs, m[counts[j]].eightMs, 15.0))
  }

  lemma {:induction false} FourIsCandidates(m: Matrix, counts: seq<int>)
    requires Covers(m, counts) && Increasing(counts)
    ensures Candidates(m, counts, (p: Point) => FourWorth(p), counts[Start(m, counts, FourTest())..])
  {
    var worth := (p: Point) => FourWorth(p);
    forall p: Point ensures worth(p) == FourTest()(p) {
      WorthIsQualifies(Host(None, None), p);
    }
    forall i: nat | i < |counts|
      ensures Sustained(m, counts, worth, i) <==> Start(m, counts, FourTest()) <= i
    {
      FromStart(m, counts, FourTest(), i);
    }
    SuffixIsCandidates(m, counts, worth, Start(m, counts, FourTest()));
  }

  lemma {:induction false} EightIsCandidates(m: Matrix, counts: seq<int>, host: Host)
    requires Covers(m, counts) && Increasing(counts)
    ensures Candidates(m, counts, (p: Point) => EightWorth(p) && MemoryWorth(host, p),
                       counts[EightStart(m, counts, host)..])
  {
    var worth := (p: Point) => EightWorth(p) && MemoryWorth(host, p);
    forall p: Point ensures worth(p) == (EightTest()(p) && MemoryTest(host)(p)) {
      WorthIsQualifies(host, p);
    }
    forall i: nat | i < |counts|
      ensures Sustained(m, counts, worth, i) <==> EightStart(m, counts, host) <= i
    {
      FromStart(m, counts, EightTest(), i);
      FromStart(m, counts, MemoryTest(host), i);
    }
    SuffixIsCandidates(m, counts, worth, EightStart(m, counts, host));
  }

  lemma {:induction false} FaultIsUnfounded(m: Matrix, counts: seq<int>)
    requires Covers(m, counts)
    ensures (exists j :: FourFault(m, counts, j) || EightFault(m, counts, j)) <==> exists j :: Unfounded(m, counts, j)
  {
    forall j: nat ensures FourFault(m, counts, j) || EightFault(m, counts, j) <==> Unfounded(m, counts, j) {
      if 0 < j < |counts| {
        WorthIsQualifies(Host(None, None), m[counts[j]]);
        WorthIsQualifies(Host(None, None), m[counts[j - 1]]);
      }
    }
    if j :| Unfounded(m, counts, j) {
      var n: nat := j;
      assert Unfounded(m, counts, n);
    }
  }

  /** Decide; `None` is the error of comparing a missing fraction. */
  method PromotionDecision(m: Matrix, counts: seq<int>, host: Host) returns (d: Option<Decision>)
    requires Covers(m, counts) && Increasing(counts)
    ensures d.None? <==> exists j :: Unfounded(m, counts, j)
    ensures d.Some? ==> Decides(m, counts, host, d.value)
    ensures d.None? <==> exists j :: FourFault(m, counts, j) || EightFault(m, counts, j)
    ensures d.Some? ==>
      var four, eight := Start(m, counts, FourTest()), EightStart(m, counts, host);
      && d.value.four == counts[four..] && d.value.eight == counts[eight..]
      && d.value.choice == (if eight < |counts| then EightWorkers else if four < |counts| then FourWorkers else Serial)
      && d.value.threshold == (if eight < |counts| then Some(counts[eight]) else Least(counts, four))
  {
    FaultIsUnfounded(m, counts);
    FourIsCandidates(m, counts);
    EightIsCandidates(m, counts, host);
    var four := FourCandidates(m, counts);
    if four.None? {
      var j :| FourFault(m, counts, j);
      return None;
    }
    var fourThreshold := Minimum(four.value);
    LeastOfSuffix(counts, Start(m, counts, FourTest()), fourThreshold);
    var eight := EightCandidates(m, counts, host);
    if eight.None? {
      var j :| EightFault(m, counts, j);
      return None;
    }
    var eightThreshold := Minimum(eight.value.candidates);
    LeastOfSuffix(counts, EightStart(m, counts, host), eightThreshold);
    var choice := if eightThreshold.Some? then EightWorkers else if fourThreshold.Some? then FourWorkers else Serial;
    d := Some(Decision(choice, if eightThreshold.Some? then eightThreshold else fourThreshold,
                       four.value, eight.value.candidates));
  }

  /** Counts are candidates upward closed: with a count, every larger one. */
  lemma {:induction false} UpwardClosed(m: Matrix, counts: seq<int>, test: Point -> bool, c: int, larger: int)
    requires Covers(m, counts) && Increasing(counts)
    requires c in counts[Start(m, counts, test)..] && larger in counts && c < larger
    ensures larger in counts[Start(m, counts, test)..] && larger in m && test(m[larger])
  {
    var s := Start(m, counts, test);
    var i :| s <= i < |counts| && counts[i] == c;
    var j :| 0 <= j < |counts| && counts[j] == larger;
    assert i < j;
    assert counts[s..][j - s] == counts[j];
  }

  /** The candidates for eight are those sustained by time and sustained by memory, no more and no fewer. */
  lemma {:induction false} EightIsIntersection(m: Matrix, counts: seq<int>, host: Host, c: int)
    requires Covers(m, counts) && Increasing(counts)
    ensures c in counts[EightStart(m, counts, host)..]
            <==> c in counts[Start(m, counts, EightTest())..] && c in counts[Start(m, counts, MemoryTest(host))..]
  {
    InSuffix(counts, EightStart(m, counts, host), c);
    InSuffix(counts, Start(m, counts, EightTest()), c);
    InSuffix(counts, Start(m, counts, MemoryTest(host)), c);
  }

  lemma {:induction false} InSuffix(counts: seq<int>, s: nat, c: int)
    requires Increasing(counts) && s <= |counts|
    ensures c in counts[s..] <==> exists i :: s <= i < |counts| && counts[i] == c
  {
    forall i | s <= i < |counts| && counts[i] == c ensures c in counts[s..] {
      assert counts[s..][i - s] == c;
    }
  }

  /** With times that are not negative the rule never fails. */
  lemma {:induction false} NeverFaults(m: Matrix, counts: seq<int>, j: nat)
    requires Covers(m, counts) && forall k :: 0 <= k < |counts| ==> NonNegative(m[counts[k]])
    ensures !FourFault(m, counts, j) && !EightFault(m, counts, j)
  {
    if j < |counts| {
      NoFault(m[counts[j]]);
    }
  }
}
