/**
 Reading selected cycles from a table that is stored in row groups: an index from cycle labels
 to groups, a read of the indexed groups only, and a filter, against a filter of the whole table.
 */
module RowGroups {
  import opened Common

  /** A missing cycle is `None`. */
  datatype Row = Row(cycle: Option<real>, time: Option<real>, voltage: Option<real>)

  type Group = seq<Row>

  // ---------------------------------------------------------------- cycle labels

  /** Rounding to the nearest integer, halves to even. */
  function Round(v: real): int {
    var up := (v + 0.5).Floor;
    if up as real == v + 0.5 && up % 2 != 0 then up - 1 else up
  }

  function Abs(x: real): real { if x < 0.0 then -x else x }

  /** A label may differ from an integer by the usual closeness tolerance. */
  predicate IntegerLike(v: real) { Abs(v - Round(v) as real) <= 0.00000001 + 0.00001 * Abs(Round(v) as real) }

  predicate Labelled(rows: Group) { forall r <- rows :: r.cycle.Some? ==> IntegerLike(r.cycle.value) }

  /** The labels observed in a group; rows without a cycle have none. */
  function Labels(rows: Group): set<int> { set r | r in rows && r.cycle.Some? :: Round(r.cycle.value) }

  lemma {:induction false} RoundOfInteger(n: int)
    ensures Round(n as real) == n
  {
    assert (n as real + 0.5).Floor == n;
  }

  /** The nearest integer, the even one of two. */
  ghost predicate Nearest(v: real, n: int) {
    && -0.5 <= v - n as real <= 0.5
    && (v - n as real == -0.5 || v - n as real == 0.5 ==> n % 2 == 0)
  }

  lemma {:induction false} RoundMeaning(v: real, n: int)
    ensures Round(v) == n <==> Nearest(v, n)
  {
    var up := (v + 0.5).Floor;
    assert up as real <= v + 0.5 < (up + 1) as real;
    if Nearest(v, n) {
      assert n as real <= v + 0.5 <= (n + 1) as real;
      assert n == up || n + 1 == up;
    }
  }

  /** A label is an integer up to 1e-8 and a hundred-thousandth of that integer. */
  lemma {:induction false} LabelMeaning(v: real, n: int)
    requires Nearest(v, n)
    ensures n >= 0 ==> (IntegerLike(v) <==> -0.00000001 - n as real / 100000.0 <= v - n as real
                                          <= 0.00000001 + n as real / 100000.0)
    ensures n < 0 ==> (IntegerLike(v) <==> -0.00000001 + n as real / 100000.0 <= v - n as real
                                         <= 0.00000001 - n as real / 100000.0)
  {
    RoundMeaning(v, n);
  }

  /** A group observes the integers nearest to its labels. */
  lemma {:induction false} LabelsMeaning(rows: Group, c: int)
    ensures c in Labels(rows) <==> exists k :: 0 <= k < |rows| && rows[k].cycle.Some? && Nearest(rows[k].cycle.value, c)
  {
    forall k | 0 <= k < |rows| && rows[k].cycle.Some?
      ensures Round(rows[k].cycle.value) == c <==> Nearest(rows[k].cycle.value, c)
    {
      RoundMeaning(rows[k].cycle.value, c);
    }
    if c in Labels(rows) {
      var r :| r in rows && r.cycle.Some? && Round(r.cycle.value) == c;
      var k :| 0 <= k < |rows| && rows[k] == r;
    } else if k :| 0 <= k < |rows| && rows[k].cycle.Some? && Nearest(rows[k].cycle.value, c) {
      assert rows[k] in rows;
    }
  }

  // ---------------------------------------------------------------- filtering

  predicate Requested(r: Row, cycles: seq<int>) {
    r.cycle.Some? && exists i :: 0 <= i < |cycles| && r.cycle.value == cycles[i] as real
  }

  function Filter(rows: Group, cycles: seq<int>): Group { Keep(rows, r => Requested(r, cycles)) }

  function Keep(rows: Group, test: Row -> bool): Group {
    if rows == [] then [] else (if test(rows[0]) then [rows[0]] else []) + Keep(rows[1..], test)
  }

  lemma {:induction false} KeepConcat(a: Group, b: Group, test: Row -> bool)
    ensures Keep(a + b, test) == Keep(a, test) + Keep(b, test)
    decreases |a|
  {
    if a == [] {
      assert a + b == b;
    } else {
      assert (a + b)[0] == a[0] && (a + b)[1..] == a[1..] + b;
      KeepConcat(a[1..], b, test);
      var head := if test(a[0]) then [a[0]] else [];
      assert head + (Keep(a[1..], test) + Keep(b, test)) == head + Keep(a[1..], test) + Keep(b, test);
    }
  }

  lemma {:induction false} KeepNothing(rows: Group, test: Row -> bool)
    ensures Keep(rows, test) == [] <==> forall r <- rows :: !test(r)
    decreases |rows|
  {
    if rows != [] {
      KeepNothing(rows[1..], test);
      assert forall r <- rows :: r == rows[0] || r in rows[1..];
    }
  }

  /** A row is kept, in its place, exactly if its cycle is one of the requested. */
  lemma {:induction false} FilterMeaning(before: Group, r: Row, behind: Group, cycles: seq<int>)
    ensures Filter([], cycles) == []
    ensures (exists c :: c in cycles && r.cycle == Some(c as real)) ==>
              Filter(before + [r] + behind, cycles) == Filter(before, cycles) + [r] + Filter(behind, cycles)
    ensures !(exists c :: c in cycles && r.cycle == Some(c as real)) ==>
              Filter(before + [r] + behind, cycles) == Filter(before, cycles) + Filter(behind, cycles)
  {
    var test := (q: Row) => Requested(q, cycles);
    KeepConcat(before, [r], test);
    KeepConcat(before + [r], behind, test);
    assert [r][1..] == [];
    assert Keep([r], test) == if test(r) then [r] else [];
    if c :| c in cycles && r.cycle == Some(c as real) {
      var i :| 0 <= i < |cycles| && cycles[i] == c;
      assert r.cycle.value == cycles[i] as real;
    } else {
      assert forall i :: 0 <= i < |cycles| ==> cycles[i] in cycles;
      assert Keep(before, test) + [] == Keep(before, test);
    }
  }

  // ---------------------------------------------------------------- groups

  function Sum(counts: seq<nat>): nat { if counts == [] then 0 else counts[0] + Sum(counts[1..]) }

  /** The table cut into consecutive groups. */
  function Cut(frame: Group, counts: seq<nat>): (groups: seq<Group>)
    requires Sum(counts) == |frame|
    ensures |groups| == |counts|
  {
    if counts == [] then [] else [frame[..counts[0]]] + Cut(frame[counts[0]..], counts[1..])
  }

  lemma {:induction false} FlattenOfCut(frame: Group, counts: seq<nat>)
    requires Sum(counts) == |frame|
    ensures Flatten(Cut(frame, counts)) == frame
    decreases |counts|
  {
    if counts != [] {
      var n := counts[0];
      FlattenOfCut(frame[n..], counts[1..]);
      var rest := Cut(frame[n..], counts[1..]);
      FlattenAppend([], frame[..n]);
      FlattenConcat([frame[..n]], rest);
      assert [] + [frame[..n]] == [frame[..n]];
    }
  }

  // ---------------------------------------------------------------- the index

  /** The groups, in order, among the first `n` that observe label `c`. */
  function Positions(groups: seq<Group>, c: int, n: nat): seq<int>
    requires n <= |groups|
  {
    if n == 0 then [] else Positions(groups, c, n - 1) + (if c in Labels(groups[n - 1]) then [n - 1] else [])
  }

  lemma {:induction false} PositionsExact(groups: seq<Group>, c: int, n: nat, g: int)
    requires n <= |groups|
    ensures g in Positions(groups, c, n) <==> 0 <= g < n && c in Labels(groups[g])
    decreases n
  {
    if n > 0 {
      PositionsExact(groups, c, n - 1, g);
    }
  }

  function Get(index: map<int, seq<int>>, c: int): seq<int> { if c in index then index[c] else [] }

  /** A group is wanted when some row's label is requested. */
  function Wanted(groups: seq<Group>, cycles: seq<int>): set<int> {
    set g: nat | g < |groups| && Observes(groups[g], cycles)
  }

  predicate Observes(rows: Group, cycles: seq<int>) { exists i :: 0 <= i < |cycles| && cycles[i] in Labels(rows) }

  lemma {:induction false} SumAppend(counts: seq<nat>, k: nat)
    requires k < |counts|
    ensures Sum(counts[..k + 1]) == Sum(counts[..k]) + counts[k]
    decreases k
  {
    if k == 0 {
      assert counts[..1] == [counts[0]];
    } else {
      assert counts[..k + 1][1..] == counts[1..][..k] && counts[..k][1..] == counts[1..][..k - 1];
      SumAppend(counts[1..], k - 1);
    }
  }

  lemma {:induction false} SumPrefix(counts: seq<nat>, k: nat)
    requires k <= |counts|
    ensures Sum(counts[..k]) <= Sum(counts)
    decreases k
  {
    if k > 0 {
      assert counts[..k][1..] == counts[1..][..k - 1];
      SumPrefix(counts[1..], k - 1);
    }
  }

  lemma {:induction false} SumBehindFirst(counts: seq<nat>, k: nat)
    requires 0 < k <= |counts|
    ensures Sum(counts[..k]) == counts[0] + Sum(counts[1..][..k - 1])
  {
    assert counts[..k][1..] == counts[1..][..k - 1];
  }

  /** Group `k` is the slice that starts behind the groups before it. */
  lemma {:induction false} CutAt(frame: Group, counts: seq<nat>, k: nat)
    requires Sum(counts) == |frame| && k < |counts|
    ensures Sum(counts[..k]) + counts[k] <= |frame|
    ensures Cut(frame, counts)[k] == frame[Sum(counts[..k])..Sum(counts[..k]) + counts[k]]
    decreases k
  {
    if k == 0 {
      assert counts[..0] == [];
    } else {
      var n, rest := counts[0], counts[1..];
      var before := Sum(rest[..k - 1]);
      CutAt(frame[n..], rest, k - 1);
      SumBehindFirst(counts, k);
      assert frame[n..] == frame[n..|frame|];
      SliceOfSlice(frame, n, |frame|, before, before + rest[k - 1]);
    }
  }

  /** Every label leads to exactly the groups, among the first `n`, that observe it. */
  ghost predicate Indexes(index: map<int, seq<int>>, groups: seq<Group>, n: nat) {
    n <= |groups| && forall c :: Get(index, c) == Positions(groups, c, n)
  }

  method BuildIndex(frame: Group, counts: seq<nat>, cycles: seq<int>) returns (r: Option<map<int, seq<int>>>)
    requires Sum(counts) == |frame|
    ensures r.Some? <==> forall k :: 0 <= k < |counts| ==> Labelled(Cut(frame, counts)[k])
    ensures r.Some? ==> Indexes(r.value, Cut(frame, counts), |counts|)
  {
    ghost var groups := Cut(frame, counts);
    var index := StartIndex(cycles, groups);
    var cursor := 0;
    for group := 0 to |counts|
      invariant cursor == Sum(counts[..group])
      invariant forall k :: 0 <= k < group ==> Labelled(groups[k])
      invariant Indexes(index, groups, group)
    {
      CutAt(frame, counts, group);
      SumAppend(counts, group);
      var next := IndexGroup(index, frame[cursor..cursor + counts[group]], group, groups);
      if next.None? {
        return None;
      }
      index := next.value;
      cursor := cursor + counts[group];
    }
    r := Some(index);
  }

  method StartIndex(cycles: seq<int>, ghost groups: seq<Group>) returns (index: map<int, seq<int>>)
    ensures Indexes(index, groups, 0)
  {
    index := map c | c in cycles :: [];
  }

  /** One turn of the index loop: the group is appended to every label it observes. */
  method IndexGroup(index: map<int, seq<int>>, rows: Group, group: nat, ghost groups: seq<Group>)
    returns (r: Option<map<int, seq<int>>>)
    requires group < |groups| && rows == groups[group] && Indexes(index, groups, group)
    ensures r.Some? <==> Labelled(rows)
    ensures r.Some? ==> Indexes(r.value, groups, group + 1)
  {
    var labels := ObservedLabels(rows);
    if labels.None? {
      return None;
    }
    var next := AddGroup(index, labels.value, group);
    r := Some(next);
  }

  /** The observed labels in ascending order, or nothing if one is not integer-like. */
  method ObservedLabels(rows: Group) returns (r: Option<seq<int>>)
    ensures r.Some? <==> Labelled(rows)
    ensures r.Some? ==> StrictlyIncreasing(r.value) && forall c :: c in r.value <==> c in Labels(rows)
  {
    var labels: seq<int> := [];
    for i := 0 to |rows|
      invariant Labelled(rows[..i]) && StrictlyIncreasing(labels)
      invariant forall c :: c in labels <==> c in Labels(rows[..i])
    {
      assert rows[..i + 1] == rows[..i] + [rows[i]];
      if rows[i].cycle.Some? {
        if !IntegerLike(rows[i].cycle.value) {
          return None;
        }
        LabelsGrow(rows, i);
        labels := InsertAscending(labels, Round(rows[i].cycle.value));
      }
    }
    assert rows[..|rows|] == rows;
    r := Some(labels);
  }

  lemma {:induction false} LabelsGrow(rows: Group, i: nat)
    requires i < |rows| && rows[i].cycle.Some?
    ensures forall c :: c in Labels(rows[..i + 1]) <==> c in Labels(rows[..i]) || c == Round(rows[i].cycle.value)
  {
    assert rows[..i + 1] == rows[..i] + [rows[i]];
    assert rows[i] in rows[..i + 1];
  }

  method AddGroup(index: map<int, seq<int>>, labels: seq<int>, group: int) returns (r: map<int, seq<int>>)
    requires StrictlyIncreasing(labels)
    ensures forall c :: Get(r, c) == Get(index, c) + (if c in labels then [group] else [])
  {
    r := index;
    for i := 0 to |labels|
      invariant forall c :: Get(r, c) == Get(index, c) + (if c in labels[..i] then [group] else [])
    {
      var c := labels[i];
      r := r[c := Get(r, c) + [group]];
    }
  }

  /** The positions found for any of the requested cycles. */
  method Collect(index: map<int, seq<int>>, cycles: seq<int>) returns (chosen: set<int>)
    ensures forall g :: g in chosen <==> exists k :: 0 <= k < |cycles| && g in Get(index, cycles[k])
  {
    chosen := {};
    for i := 0 to |cycles|
      invariant forall g :: g in chosen <==> exists k :: 0 <= k < i && g in Get(index, cycles[k])
    {
      var found := Get(index, cycles[i]);
      chosen := chosen + (set g | g in found);
    }
  }

  lemma {:induction false} CollectedAreWanted(index: map<int, seq<int>>, cycles: seq<int>, groups: seq<Group>,
                                              chosen: set<int>)
    requires Indexes(index, groups, |groups|)
    requires forall g :: g in chosen <==> exists k :: 0 <= k < |cycles| && g in Get(index, cycles[k])
    ensures chosen == Wanted(groups, cycles)
  {
    forall g ensures g in chosen <==> g in Wanted(groups, cycles) {
      forall k | 0 <= k < |cycles|
        ensures g in Get(index, cycles[k]) <==> 0 <= g < |groups| && cycles[k] in Labels(groups[g])
      {
        PositionsExact(groups, cycles[k], |groups|, g);
      }
    }
  }

  method SelectGroups(index: map<int, seq<int>>, cycles: seq<int>, count: nat, ghost groups: seq<Group>)
    returns (selected: seq<int>)
    requires count == |groups| && Indexes(index, groups, count)
    ensures selected == Ordered(Wanted(groups, cycles), 0, |groups|)
  {
    var chosen := Collect(index, cycles);
    CollectedAreWanted(index, cycles, groups, chosen);
    selected := Ordered(chosen, 0, count);
  }

  // ---------------------------------------------------------------- the selective read

  datatype Reading = Reading(returned: Group, materialized: nat, physical: nat, groups: seq<int>)

  /** The measured read of one request. It fails exactly when a group holds a label that is not integer-like. */
  method Measure(frame: Group, counts: seq<nat>, cycles: seq<int>, requested: seq<int>) returns (r: Option<Reading>)
    requires Sum(counts) == |frame|
    ensures r.Some? <==> forall k :: 0 <= k < |counts| ==> Labelled(Cut(frame, counts)[k])
    ensures r.Some? ==>
              && r.value.returned == Filter(frame, requested)
              && r.value.groups == Ordered(Wanted(Cut(frame, counts), requested), 0, |counts|)
              && r.value.physical == r.value.materialized
  {
    var index := BuildIndex(frame, counts, cycles);
    if index.None? {
      return None;
    }
    var groups := Cut(frame, counts);
    var selected := SelectGroups(index.value, requested, |counts|, groups);
    IndexEqualsScan(frame, counts, requested);
    var loaded, physical := ReadGroups(frame, counts, selected);
    r := Some(Reading(Filter(loaded, requested), |loaded|, physical, selected));
  }

  lemma {:induction false} ObservesMeaning(rows: Group, cycles: seq<int>)
    ensures Observes(rows, cycles) <==> exists c :: c in cycles && c in Labels(rows)
  {
    if c :| c in cycles && c in Labels(rows) {
      var i :| 0 <= i < |cycles| && cycles[i] == c;
    }
    assert forall i :: 0 <= i < |cycles| ==> cycles[i] in cycles;
  }

  /** The groups read are, ascending, exactly those with a label whose nearest integer is requested. */
  lemma {:induction false} WantedMeaning(groups: seq<Group>, cycles: seq<int>, g: int)
    ensures StrictlyIncreasing(Ordered(Wanted(groups, cycles), 0, |groups|))
    ensures g in Ordered(Wanted(groups, cycles), 0, |groups|)
            <==> 0 <= g < |groups| && exists c :: c in cycles && c in Labels(groups[g])
  {
    OrderedMembers(Wanted(groups, cycles), 0, |groups|);
    if 0 <= g < |groups| {
      ObservesMeaning(groups[g], cycles);
    }
  }

  /** Reading groups by position, and adding up their recorded sizes. */
  method ReadGroups(frame: Group, counts: seq<nat>, selected: seq<int>) returns (loaded: Group, physical: nat)
    requires Sum(counts) == |frame| && forall i :: 0 <= i < |selected| ==> 0 <= selected[i] < |counts|
    ensures loaded == Flatten(Gather(Cut(frame, counts), selected)) && physical == |loaded|
  {
    var groups := Cut(frame, counts);
    loaded, physical := [], 0;
    ghost var done: seq<Group> := [];
    for i := 0 to |selected|
      invariant done == Gather(groups, selected[..i])
      invariant loaded == Flatten(done) && physical == |loaded|
    {
      CutAt(frame, counts, selected[i]);
      FlattenAppend(done, groups[selected[i]]);
      done := done + [groups[selected[i]]];
      loaded := loaded + groups[selected[i]];
      physical := physical + counts[selected[i]];
    }
    assert done == Gather(groups, selected);
  }

  /** Main result: for every table, every cut into groups and every request, the indexed read returns the full scan. */
  lemma {:induction false} IndexEqualsScan(frame: Group, counts: seq<nat>, cycles: seq<int>)
    requires Sum(counts) == |frame|
    ensures var groups := Cut(frame, counts);
            var selected := Ordered(Wanted(groups, cycles), 0, |groups|);
            (forall i :: 0 <= i < |selected| ==> 0 <= selected[i] < |groups|)
            && Filter(Flatten(Gather(groups, selected)), cycles) == Filter(frame, cycles)
  {
    var groups := Cut(frame, counts);
    FlattenOfCut(frame, counts);
    WantedKeeps(groups, cycles);
    assert groups[..|groups|] == groups;
  }

  lemma {:induction false} WantedKeeps(groups: seq<Group>, cycles: seq<int>)
    ensures var selected := Ordered(Wanted(groups, cycles), 0, |groups|);
            (forall i :: 0 <= i < |selected| ==> 0 <= selected[i] < |groups|)
            && Filter(Flatten(Gather(groups, selected)), cycles) == Filter(Flatten(groups[..|groups|]), cycles)
  {
    var test := (r: Row) => Requested(r, cycles);
    forall a, b, g ensures Extends(HitsOf(test), a, b, g) {
      HitsAppend(test, a, b, g);
    }
    forall a, k | 0 <= k < |groups| && k !in Wanted(groups, cycles)
      ensures AddsNone(HitsOf(test), a, groups[k])
    {
      UnwantedFiltersEmpty(groups[k], cycles);
      HitsAppend(test, a, a, groups[k]);
    }
    SelectedKeeps(groups, Wanted(groups, cycles), HitsOf(test), |groups|);
  }

  function HitsOf(test: Row -> bool): seq<Group> -> Group { (groups: seq<Group>) => Keep(Flatten(groups), test) }

  predicate Extends(hits: seq<Group> -> Group, a: seq<Group>, b: seq<Group>, g: Group) {
    hits(a) == hits(b) ==> hits(a + [g]) == hits(b + [g])
  }

  predicate AddsNone(hits: seq<Group> -> Group, a: seq<Group>, g: Group) { hits(a + [g]) == hits(a) }

  lemma {:induction false} GatherLast(groups: seq<Group>, order: seq<int>, k: nat)
    requires k < |groups| && forall i :: 0 <= i < |order| ==> 0 <= order[i] < |groups|
    ensures Gather(groups, order + [k]) == Gather(groups, order) + [groups[k]]
  {
  }

  /** Leaving out groups that add no hits leaves the hits as they are, whatever hits are. */
  lemma {:induction false} SelectedKeeps(groups: seq<Group>, pick: set<int>, hits: seq<Group> -> Group, n: nat)
    requires n <= |groups|
    requires forall a, b, g :: Extends(hits, a, b, g)
    requires forall a, k :: 0 <= k < |groups| && k !in pick ==> AddsNone(hits, a, groups[k])
    ensures forall i :: 0 <= i < |Ordered(pick, 0, n)| ==> 0 <= Ordered(pick, 0, n)[i] < n
    ensures hits(Gather(groups, Ordered(pick, 0, n))) == hits(groups[..n])
    decreases n
  {
    if n > 0 {
      SelectedKeeps(groups, pick, hits, n - 1);
      var before := Ordered(pick, 0, n - 1);
      assert groups[..n] == groups[..n - 1] + [groups[n - 1]];
      if n - 1 in pick {
        GatherLast(groups, before, n - 1);
        assert Extends(hits, Gather(groups, before), groups[..n - 1], groups[n - 1]);
      } else {
        assert before + [] == before;
        assert AddsNone(hits, groups[..n - 1], groups[n - 1]);
      }
    } else {
      assert Gather(groups, []) == groups[..0];
    }
  }

  lemma {:induction false} HitsAppend(test: Row -> bool, a: seq<Group>, b: seq<Group>, g: Group)
    ensures Extends(HitsOf(test), a, b, g)
    ensures Keep(g, test) == [] ==> AddsNone(HitsOf(test), a, g)
  {
    KeepAppend(a, g, test);
    KeepAppend(b, g, test);
  }

  lemma {:induction false} KeepAppend(groups: seq<Group>, g: Group, test: Row -> bool)
    ensures Keep(Flatten(groups + [g]), test) == Keep(Flatten(groups), test) + Keep(g, test)
  {
    FlattenAppend(groups, g);
    KeepConcat(Flatten(groups), g, test);
  }

  lemma {:induction false} UnwantedFiltersEmpty(g: Group, cycles: seq<int>)
    requires !Observes(g, cycles)
    ensures Filter(g, cycles) == []
  {
    forall i | 0 <= i < |cycles| ensures Round(cycles[i] as real) == cycles[i] {
      RoundOfInteger(cycles[i]);
    }
    assert forall r <- g :: r.cycle.Some? ==> Round(r.cycle.value) in Labels(g);
    KeepNothing(g, r => Requested(r, cycles));
  }

  /** Some row of the group carries the integer that this row is labelled with. */
  predicate Carried(g: Group, r: Row) {
    r.cycle.Some? ==> exists q :: q in g && q.cycle == Some(Round(r.cycle.value) as real)
  }

  lemma {:induction false} CarriedHits(g: Group, cycles: seq<int>)
    requires (forall r <- g :: Carried(g, r)) && Observes(g, cycles)
    ensures Filter(g, cycles) != []
  {
    KeepNothing(g, r => Requested(r, cycles));
    var i :| 0 <= i < |cycles| && cycles[i] in Labels(g);
    var r :| r in g && r.cycle.Some? && Round(r.cycle.value) == cycles[i];
    assert Carried(g, r);
    var q :| q in g && q.cycle == Some(cycles[i] as real);
    assert Requested(q, cycles);
  }

  /** A request for a label that no row carries exactly reads the group for nothing. */
  lemma {:induction false} UncarriedMisses(g: Group, r: Row)
    requires r in g && !Carried(g, r)
    ensures Observes(g, [Round(r.cycle.value)]) && Filter(g, [Round(r.cycle.value)]) == []
  {
    var cycles := [Round(r.cycle.value)];
    assert cycles[0] in Labels(g);
    KeepNothing(g, q => Requested(q, cycles));
    forall q | q in g ensures !Requested(q, cycles) {
      assert q.cycle != Some(cycles[0] as real);
    }
  }

  /** No request reads the group for nothing, exactly when each of its labels is also carried exactly by some row. */
  lemma {:induction false} ReadGroupHits(g: Group)
    ensures (forall cycles: seq<int> :: Observes(g, cycles) ==> Filter(g, cycles) != [])
            <==> (forall r <- g :: r.cycle.Some? ==>
                    exists q :: q in g && q.cycle == Some(Round(r.cycle.value) as real))
  {
    if forall r <- g :: Carried(g, r) {
      forall cycles: seq<int> | Observes(g, cycles) ensures Filter(g, cycles) != [] {
        CarriedHits(g, cycles);
      }
    } else {
      var r :| r in g && !Carried(g, r);
      UncarriedMisses(g, r);
    }
  }

  /** With a tolerated label that is not exactly an integer, the group is read and yields no row. */
  lemma {:induction false} NearIntegerReadsForNothing()
    ensures exists g: Group, cycles :: Labelled(g) && Observes(g, cycles) && Filter(g, cycles) == []
  {
    var r := Row(Some(2.00001), None, None);
    var g, cycles := [r], [2];
    assert (2.00001 + 0.5).Floor == 2;
    assert Round(2.00001) == 2;
    assert r in g && cycles[0] in Labels(g);
    assert Observes(g, cycles) && Labelled(g);
    assert !Requested(r, cycles);
    KeepNothing(g, r => Requested(r, cycles));
  }
}
