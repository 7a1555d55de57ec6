/**
 Merging one-Cell results that finished in any order: sorting by ordinal, replicate groups,
 compatibility verdicts, and the resolution of voltage channels.
 */
module Merge {
  import opened Common
  import opened Sorting

  datatype Item<T> = Item(ordinal: int, value: T)

  // ---------------------------------------------------------------- completion order

  predicate Earlier<T>(a: Item<T>, b: Item<T>) { a.ordinal <= b.ordinal }

  /** Each cell once, in the order they were selected. */
  predicate Selection<T>(xs: seq<Item<T>>) { forall i, j :: 0 <= i < j < |xs| ==> xs[i].ordinal < xs[j].ordinal }

  /** Stable sorting by ordinal. */
  function Arranged<T>(xs: seq<Item<T>>): seq<Item<T>> { Sort(xs, Earlier<T>) }

  lemma {:induction false} EarlierCompares<T(!new)>()
    ensures Preorder(Earlier<T>)
  {
    forall a, b, c ensures Chains(Earlier<T>, a, b, c) {
    }
  }

  /** Sorting items of distinct ordinals gives a selection. */
  lemma {:induction false} ArrangedSelects<T(!new)>(xs: seq<Item<T>>)
    requires forall i, j :: 0 <= i < j < |xs| ==> xs[i].ordinal != xs[j].ordinal
    ensures Selection(Arranged(xs)) && multiset(Arranged(xs)) == multiset(xs)
  {
    EarlierCompares<T>();
    SortSorts(xs, Earlier<T>);
    SortMembers(xs, Earlier<T>);
    var r := Arranged(xs);
    forall i, j | 0 <= i < j < |r| ensures r[i].ordinal < r[j].ordinal {
      assert Earlier(r[i], r[j]);
      if r[i].ordinal == r[j].ordinal {
        TwiceInBoth(r, xs, i, j);
      }
    }
  }

  /** Two members of a rearrangement with one ordinal come from two members with one ordinal. */
  lemma {:induction false} TwiceInBoth<T>(r: seq<Item<T>>, xs: seq<Item<T>>, i: nat, j: nat)
    requires multiset(r) == multiset(xs) && i < j < |r| && r[i].ordinal == r[j].ordinal
    ensures exists k, l :: 0 <= k < l < |xs| && xs[k].ordinal == xs[l].ordinal
  {
    assert r[i] in multiset(xs);
    var k :| 0 <= k < |xs| && xs[k] == r[i];
    WithoutMembers(r, i);
    WithoutMembers(xs, k);
    Cancel(multiset(Without(r, i)), multiset(Without(xs, k)), r[i]);
    assert Without(r, i)[j - 1] == r[j];
    assert r[j] in multiset(Without(xs, k));
    var l :| 0 <= l < |Without(xs, k)| && Without(xs, k)[l] == r[j];
    assert xs[if l < k then l else l + 1] == r[j];
  }

  /** Main result on order: sorting any completion order of a selection restores the selection. */
  lemma {:induction false} SortRestores<T(!new)>(selection: seq<Item<T>>, completed: seq<Item<T>>)
    requires Selection(selection) && multiset(completed) == multiset(selection)
    ensures Arranged(completed) == selection
  {
    EarlierCompares<T>();
    SortSorts(completed, Earlier<T>);
    SortMembers(completed, Earlier<T>);
    forall i, j | 0 <= i < j < |selection| ensures Earlier(selection[i], selection[j]) {
    }
    SortedUnique(selection, Arranged(completed), Earlier<T>);
  }

  function Values<T>(xs: seq<Item<T>>): seq<T> { seq(|xs|, i requires 0 <= i < |xs| => xs[i].value) }

  // ---------------------------------------------------------------- replicate groups

  /** One Cell's series: whether it has points, whether it is excluded, and its group. */
  datatype Series = Series(cell: int, group: Option<int>, groupName: string, excluded: bool, hasPoints: bool,
                           cycles: int)

  datatype CycleResult = CycleResult(series: Series, source: string, badges: seq<string>)

  datatype Group = Group(id: int, name: string, members: seq<Series>)

  datatype CycleMerge = CycleMerge(series: seq<Series>, sources: seq<string>, badges: seq<string>,
                                   aggregates: seq<Group>, metrics: seq<Group>)

  predicate Averaged(s: Series) { s.group.Some? && !s.excluded && s.hasPoints }

  function Where(ss: seq<Series>, test: Series -> bool): seq<Series> {
    if ss == [] then [] else Where(ss[..|ss| - 1], test) + (if test(ss[|ss| - 1]) then [ss[|ss| - 1]] else [])
  }

  /** Each number once, where it first appears. */
  function FirstSeen(ids: seq<int>): seq<int> {
    if ids == [] then []
    else
      var front := FirstSeen(ids[..|ids| - 1]);
      if ids[|ids| - 1] in front then front else front + [ids[|ids| - 1]]
  }

  /** The groups of the series that have one. */
  function GroupIds(ss: seq<Series>): seq<int> {
    if ss == [] then []
    else GroupIds(ss[..|ss| - 1]) + (if ss[|ss| - 1].group.Some? then [ss[|ss| - 1].group.value] else [])
  }

  function InGroup(id: int): Series -> bool { (s: Series) => s.group == Some(id) }

  function MembersOf(ss: seq<Series>, id: int): seq<Series> { Where(ss, InGroup(id)) }

  /** A group's name as it is recorded: the last member's. */
  function LastName(members: seq<Series>): string { if members == [] then "" else members[|members| - 1].groupName }

  function GroupsOf(averaged: seq<Series>, ids: seq<int>): seq<Group> {
    seq(|ids|, i requires 0 <= i < |ids| =>
      var members := MembersOf(averaged, ids[i]); Group(ids[i], LastName(members), members))
  }

  function Aggregates(ss: seq<Series>, replicateMean: bool): seq<Group> {
    if !replicateMean then []
    else
      var averaged := Where(ss, Averaged);
      GroupsOf(averaged, FirstSeen(GroupIds(averaged)))
  }

  /** Members of the metrics of a group; the group takes its first member's name. */
  function MeasuredIn(id: int): Series -> bool { (s: Series) => s.group == Some(id) && !s.excluded && s.cycles != 0 }

  function Metrics(ss: seq<Series>, ids: seq<int>): seq<Group> {
    if ids == [] then []
    else
      var members := Where(ss, MeasuredIn(ids[|ids| - 1]));
      var last := if members == [] then [] else [Group(ids[|ids| - 1], members[0].groupName, members)];
      Metrics(ss, ids[..|ids| - 1]) + last
  }

  /** The merge as a fold over results in selection order. */
  function MergedCycles(results: seq<CycleResult>, replicateMean: bool): CycleMerge {
    var series := seq(|results|, i requires 0 <= i < |results| => results[i].series);
    CycleMerge(
      series,
      seq(|results|, i requires 0 <= i < |results| => results[i].source),
      Flatten(seq(|results|, i requires 0 <= i < |results| => results[i].badges)),
      Aggregates(series, replicateMean),
      Metrics(series, FirstSeen(GroupIds(series))))
  }

  lemma {:induction false} WhereStep(ss: seq<Series>, i: nat, test: Series -> bool)
    requires i < |ss|
    ensures Where(ss[..i + 1], test) == Where(ss[..i], test) + (if test(ss[i]) then [ss[i]] else [])
  {
    assert ss[..i + 1][..i] == ss[..i];
  }

  /** The dictionaries hold each group's members in order and its last member's name. */
  ghost predicate Holds(averaged: seq<Series>, members: map<int, seq<Series>>, names: map<int, string>, id: int) {
    && id in members && members[id] == MembersOf(averaged, id)
    && id in names && names[id] == LastName(MembersOf(averaged, id))
  }

  ghost predicate Grouped(averaged: seq<Series>, order: seq<int>, members: map<int, seq<Series>>,
                          names: map<int, string>)
  {
    && order == FirstSeen(GroupIds(averaged))
    && forall id :: if id in order then Holds(averaged, members, names, id) else MembersOf(averaged, id) == []
  }

  /** The insertion-ordered dictionary of groups that the merge builds series by series. */
  method BuildGroups(ss: seq<Series>) returns (order: seq<int>, members: map<int, seq<Series>>, names: map<int, string>)
    ensures Grouped(Where(ss, Averaged), order, members, names)
  {
    order, members, names := [], map[], map[];
    ghost var averaged: seq<Series> := [];
    for i := 0 to |ss|
      invariant averaged == Where(ss[..i], Averaged)
      invariant Grouped(averaged, order, members, names)
    {
      var s := ss[i];
      WhereStep(ss, i, Averaged);
      if Averaged(s) {
        order, members, names := AddMember(s, order, members, names, averaged);
        averaged := averaged + [s];
      }
    }
    assert ss[..|ss|] == ss;
  }

  /** Append one series to its group, opening the group if it is new. */
  method AddMember(s: Series, order: seq<int>, members: map<int, seq<Series>>, names: map<int, string>,
                   ghost averaged: seq<Series>)
    returns (order': seq<int>, members': map<int, seq<Series>>, names': map<int, string>)
    requires s.group.Some? && Grouped(averaged, order, members, names)
    ensures Grouped(averaged + [s], order', members', names')
  {
    var id := s.group.value;
    GroupStep(averaged, s);
    order' := if id in order then order else order + [id];
    var old' := if id in order then members[id] else [];
    members' := members[id := old' + [s]];
    names' := names[id := s.groupName];
    assert MembersOf(averaged + [s], id) == old' + [s];
    forall i
      ensures if i in order' then Holds(averaged + [s], members', names', i) else MembersOf(averaged + [s], i) == []
    {
      assert i in order' <==> i in order || i == id;
      assert i != id ==> MembersOf(averaged + [s], i) == MembersOf(averaged, i);
      if i != id && i in order {
        assert Holds(averaged, members, names, i);
      }
    }
  }

  lemma {:induction false} GroupStep(averaged: seq<Series>, s: Series)
    requires s.group.Some?
    ensures var after := averaged + [s];
            && FirstSeen(GroupIds(after)) == (var ids := FirstSeen(GroupIds(averaged));
                                              if s.group.value in ids then ids else ids + [s.group.value])
            && forall id :: MembersOf(after, id)
                            == MembersOf(averaged, id) + (if s.group == Some(id) then [s] else [])
  {
    forall id ensures MembersOf(averaged + [s], id)
                      == MembersOf(averaged, id) + (if s.group == Some(id) then [s] else [])
    {
    }
  }

  method MergeCycles(completed: seq<Item<CycleResult>>, replicateMean: bool) returns (m: CycleMerge)
    ensures m == MergedCycles(Values(Arranged(completed)), replicateMean)
  {
    var ordered := Values(Arranged(completed));
    var series := seq(|ordered|, i requires 0 <= i < |ordered| => ordered[i].series);
    var sources := seq(|ordered|, i requires 0 <= i < |ordered| => ordered[i].source);
    var badges := Flatten(seq(|ordered|, i requires 0 <= i < |ordered| => ordered[i].badges));
    var aggregates := MergeAggregates(series, replicateMean);
    var metrics := MergeMetrics(series);
    m := CycleMerge(series, sources, badges, aggregates, metrics);
  }

  method MergeAggregates(ss: seq<Series>, replicateMean: bool) returns (aggregates: seq<Group>)
    ensures aggregates == Aggregates(ss, replicateMean)
  {
    aggregates := [];
    if replicateMean {
      var order, members, names := BuildGroups(ss);
      ghost var averaged := Where(ss, Averaged);
      ghost var groups := GroupsOf(averaged, order);
      for i := 0 to |order|
        invariant aggregates == groups[..i]
      {
        var id := order[i];
        assert Holds(averaged, members, names, id);
        assert groups[i] == Group(id, names[id], members[id]);
        aggregates := aggregates + [Group(id, names[id], members[id])];
      }
    }
  }

  method MergeMetrics(ss: seq<Series>) returns (metrics: seq<Group>)
    ensures metrics == Metrics(ss, FirstSeen(GroupIds(ss)))
  {
    var seen: seq<int> := [];
    ghost var ids: seq<int> := [];
    for i := 0 to |ss|
      invariant ids == GroupIds(ss[..i]) && seen == FirstSeen(ids)
    {
      assert ss[..i + 1] == ss[..i] + [ss[i]];
      if ss[i].group.Some? {
        ids := ids + [ss[i].group.value];
        if ss[i].group.value !in seen {
          seen := seen + [ss[i].group.value];
        }
      }
    }
    assert ss[..|ss|] == ss;
    metrics := [];
    for i := 0 to |seen|
      invariant metrics == Metrics(ss, seen[..i])
    {
      assert seen[..i + 1][..i] == seen[..i];
      var members := Where(ss, MeasuredIn(seen[i]));
      if members != [] {
        metrics := metrics + [Group(seen[i], members[0].groupName, members)];
      }
    }
    assert seen[..|seen|] == seen;
  }

  /** Main result on cycles: whatever order the Cells finish in, the merge is the fold over the selection. */
  lemma {:induction false} CycleMergeOrderIrrelevant(selection: seq<Item<CycleResult>>,
                                                     completed: seq<Item<CycleResult>>, replicateMean: bool)
    requires Selection(selection) && multiset(completed) == multiset(selection)
    ensures MergedCycles(Values(Arranged(completed)), replicateMean) == MergedCycles(Values(selection), replicateMean)
  {
    SortRestores(selection, completed);
  }

  // ---------------------------------------------------------------- groups partition the averaged series

  lemma {:induction false} WhereMembers(ss: seq<Series>, test: Series -> bool)
    ensures forall s :: s in Where(ss, test) <==> s in ss && test(s)
    ensures forall s :: multiset(Where(ss, test))[s] == if test(s) then multiset(ss)[s] else 0
    decreases |ss|
  {
    if ss != [] {
      WhereMembers(ss[..|ss| - 1], test);
      assert ss == ss[..|ss| - 1] + [ss[|ss| - 1]];
    }
  }

  lemma {:induction false} FirstSeenMembers(ids: seq<int>)
    ensures forall x :: x in FirstSeen(ids) <==> x in ids
    ensures forall i, j :: 0 <= i < j < |FirstSeen(ids)| ==> FirstSeen(ids)[i] != FirstSeen(ids)[j]
    decreases |ids|
  {
    if ids != [] {
      FirstSeenMembers(ids[..|ids| - 1]);
      assert ids == ids[..|ids| - 1] + [ids[|ids| - 1]];
    }
  }

  lemma {:induction false} GroupIdOf(ss: seq<Series>, s: Series)
    requires s in ss && s.group.Some?
    ensures s.group.value in GroupIds(ss)
    decreases |ss|
  {
    if s != ss[|ss| - 1] {
      GroupIdOf(ss[..|ss| - 1], s);
    }
  }

  lemma {:induction false} GroupIdsMembers(ss: seq<Series>)
    ensures forall id :: id in GroupIds(ss) <==> exists s :: s in ss && s.group == Some(id)
    decreases |ss|
  {
    if ss != [] {
      var front, last := ss[..|ss| - 1], ss[|ss| - 1];
      GroupIdsMembers(front);
      assert ss == front + [last];
      assert forall s :: s in ss <==> s in front || s == last;
    }
  }

  /**
   The replicate groups partition the averaged series: every series that has a group, points and no exclusion
   is in exactly one group, as often as it was selected; no group is empty and no group appears twice.
   */
  lemma {:induction false} GroupsPartition(ss: seq<Series>)
    ensures var groups := Aggregates(ss, true);
            && (forall i, j :: 0 <= i < j < |groups| ==> groups[i].id != groups[j].id)
            && (forall i :: 0 <= i < |groups| ==> groups[i].members != [])
            && (forall i, s :: 0 <= i < |groups| ==>
                  multiset(groups[i].members)[s]
                  == (if Averaged(s) && s.group == Some(groups[i].id) then multiset(ss)[s] else 0))
            && (forall s :: s in ss && Averaged(s) ==> exists i :: 0 <= i < |groups| && s.group == Some(groups[i].id))
  {
    var averaged := Where(ss, Averaged);
    var ids := FirstSeen(GroupIds(averaged));
    WhereMembers(ss, Averaged);
    FirstSeenMembers(GroupIds(averaged));
    GroupIdsMembers(averaged);
    var groups := Aggregates(ss, true);
    assert forall i :: 0 <= i < |ids| ==> groups[i].id == ids[i] && groups[i].members == MembersOf(averaged, ids[i]);
    forall i | 0 <= i < |groups|
      ensures groups[i].members != []
      ensures forall s :: multiset(groups[i].members)[s]
                       == (if Averaged(s) && s.group == Some(groups[i].id) then multiset(ss)[s] else 0)
    {
      WhereMembers(averaged, InGroup(ids[i]));
      assert ids[i] in ids;
      var s :| s in averaged && s.group == Some(ids[i]);
      assert s in MembersOf(averaged, ids[i]);
    }
    forall s | s in ss && Averaged(s) ensures exists i :: 0 <= i < |groups| && s.group == Some(groups[i].id) {
      assert s in averaged;
      GroupIdOf(averaged, s);
      var i :| 0 <= i < |ids| && ids[i] == s.group.value;
      assert groups[i].id == ids[i];
    }
  }

  // ---------------------------------------------------------------- the groups in plain terms

  /** `at` are the positions, among the first `n`, of the series that are wanted, in order. */
  ghost predicate Positions(ss: seq<Series>, n: nat, wanted: Series -> bool, at: seq<nat>) {
    && n <= |ss| && (forall i, j :: 0 <= i < j < |at| ==> at[i] < at[j])
    && (forall p: nat :: p in at <==> p < n && wanted(ss[p]))
  }

  /** `members` are exactly the series among the first `n` that are wanted, as often and in the order selected. */
  ghost predicate Lists(members: seq<Series>, ss: seq<Series>, n: nat, wanted: Series -> bool, at: seq<nat>) {
    && Positions(ss, n, wanted, at) && |members| == |at|
    && forall k :: 0 <= k < |at| ==> at[k] < n && members[k] == ss[at[k]]
  }

  /** Among the series that count, group `a` appears before group `b` does. */
  ghost predicate Sooner(ss: seq<Series>, counts: Series -> bool, a: int, b: int) {
    exists p :: 0 <= p < |ss| && counts(ss[p]) && ss[p].group == Some(a)
                && forall q :: 0 <= q <= p && counts(ss[q]) ==> ss[q].group != Some(b)
  }

  ghost function Of(wanted: Series -> bool, id: int): Series -> bool {
    (s: Series) => wanted(s) && s.group == Some(id)
  }

  /** Of a group: it has members, and they are exactly the wanted series with its number. */
  ghost predicate HasMembers(g: Group, ss: seq<Series>, wanted: Series -> bool) {
    g.members != [] && exists at :: Lists(g.members, ss, |ss|, Of(wanted, g.id), at)
  }

  predicate Any(s: Series) { true }

  /** One group for each number that a wanted series has, in the order in which they appear among those that count. */
  ghost predicate Groups(groups: seq<Group>, ss: seq<Series>, wanted: Series -> bool, counts: Series -> bool) {
    && (forall i :: 0 <= i < |groups| ==> HasMembers(groups[i], ss, wanted))
    && (forall s :: s in ss && wanted(s) && s.group.Some? ==>
          exists i :: 0 <= i < |groups| && Some(groups[i].id) == s.group)
    && (forall i, j :: 0 <= i < j < |groups| ==>
          groups[i].id != groups[j].id && Sooner(ss, counts, groups[i].id, groups[j].id))
  }

  lemma {:induction false} PositionsGrow(ss: seq<Series>, n: nat, wanted: Series -> bool, at: seq<nat>)
    requires n < |ss| && Positions(ss, n, wanted, at)
    ensures Positions(ss, n + 1, wanted, if wanted(ss[n]) then at + [n] else at)
  {
    assert forall k :: 0 <= k < |at| ==> at[k] in at;
  }

  lemma {:induction false} ListsGrow(members: seq<Series>, ss: seq<Series>, n: nat, wanted: Series -> bool,
                                     at: seq<nat>)
    requires n < |ss| && Lists(members, ss, n, wanted, at)
    ensures wanted(ss[n]) ==> Lists(members + [ss[n]], ss, n + 1, wanted, at + [n])
    ensures !wanted(ss[n]) ==> Lists(members, ss, n + 1, wanted, at)
  {
    PositionsGrow(ss, n, wanted, at);
  }

  lemma {:induction false} WhereListsTo(ss: seq<Series>, n: nat, test: Series -> bool, wanted: Series -> bool)
    returns (at: seq<nat>)
    requires n <= |ss| && forall s :: test(s) == wanted(s)
    ensures Lists(Where(ss[..n], test), ss, n, wanted, at)
  {
    at := [];
    if n > 0 {
      var front := WhereListsTo(ss, n - 1, test, wanted);
      var members := Where(ss[..n - 1], test);
      WhereStep(ss, n - 1, test);
      ListsGrow(members, ss, n - 1, wanted, front);
      if wanted(ss[n - 1]) {
        at := front + [n - 1];
        assert Where(ss[..n], test) == members + [ss[n - 1]];
      } else {
        at := front;
        assert Where(ss[..n], test) == members;
      }
    }
  }

  lemma {:induction false} WhereLists(ss: seq<Series>, test: Series -> bool, wanted: Series -> bool)
    returns (at: seq<nat>)
    requires forall s :: test(s) == wanted(s)
    ensures Lists(Where(ss, test), ss, |ss|, wanted, at)
  {
    at := WhereListsTo(ss, |ss|, test, wanted);
    assert ss[..|ss|] == ss;
  }

  lemma {:induction false} WhereLast(ss: seq<Series>, test: Series -> bool)
    requires ss != []
    ensures var front := Where(ss[..|ss| - 1], test);
            Where(ss, test) == if test(ss[|ss| - 1]) then front + [ss[|ss| - 1]] else front
  {
  }

  lemma {:induction false} GroupIdsLast(ss: seq<Series>)
    requires ss != []
    ensures var front, last := GroupIds(ss[..|ss| - 1]), ss[|ss| - 1];
            GroupIds(ss) == if last.group.Some? then front + [last.group.value] else front
  {
  }

  lemma {:induction false} WhereAppend(ss: seq<Series>, s: Series, test: Series -> bool)
    ensures Where(ss + [s], test) == Where(ss, test) + (if test(s) then [s] else [])
  {
    assert (ss + [s])[..|ss|] == ss;
  }

  lemma {:induction false} WhereTwice(ss: seq<Series>, first: Series -> bool, second: Series -> bool,
                                      both: Series -> bool)
    requires forall s :: both(s) == (first(s) && second(s))
    ensures Where(Where(ss, first), second) == Where(ss, both)
    decreases |ss|
  {
    if ss != [] {
      var front, last := ss[..|ss| - 1], ss[|ss| - 1];
      WhereTwice(front, first, second, both);
      WhereLast(ss, first);
      WhereLast(ss, both);
      WhereAppend(Where(front, first), last, second);
    }
  }

  lemma {:induction false} SeenAppend(ids: seq<int>, x: int)
    ensures FirstSeen(ids + [x]) == if x in FirstSeen(ids) then FirstSeen(ids) else FirstSeen(ids) + [x]
  {
    assert (ids + [x])[..|ids|] == ids;
  }

  ghost predicate At(ss: seq<Series>, p: int, a: int, b: int) {
    0 <= p < |ss| && ss[p].group == Some(a) && forall q :: 0 <= q <= p ==> ss[q].group != Some(b)
  }

  lemma {:induction false} SeenSooner(ss: seq<Series>, i: nat, j: nat) returns (p: nat)
    requires i < j < |FirstSeen(GroupIds(ss))|
    ensures At(ss, p, FirstSeen(GroupIds(ss))[i], FirstSeen(GroupIds(ss))[j])
    decreases |ss|
  {
    var front, last := ss[..|ss| - 1], ss[|ss| - 1];
    var before := FirstSeen(GroupIds(front));
    GroupIdsLast(ss);
    if last.group.Some? {
      SeenAppend(GroupIds(front), last.group.value);
    }
    if j < |before| {
      p := SeenSooner(front, i, j);
    } else {
      NewGroup(front, before, last.group.value);
      p := SeenAt(front, i);
    }
    assert forall q :: 0 <= q <= p ==> ss[q] == front[q];
  }

  lemma {:induction false} SeenAt(ss: seq<Series>, i: nat) returns (p: nat)
    requires i < |FirstSeen(GroupIds(ss))|
    ensures p < |ss| && ss[p].group == Some(FirstSeen(GroupIds(ss))[i])
  {
    var id := FirstSeen(GroupIds(ss))[i];
    assert id in FirstSeen(GroupIds(ss));
    FirstSeenMembers(GroupIds(ss));
    GroupIdsMembers(ss);
    var s :| s in ss && s.group == Some(id);
    p :| 0 <= p < |ss| && ss[p] == s;
  }

  lemma {:induction false} NewGroup(ss: seq<Series>, seen: seq<int>, x: int)
    requires seen == FirstSeen(GroupIds(ss)) && x !in seen
    ensures forall q :: 0 <= q < |ss| ==> ss[q].group != Some(x)
  {
    FirstSeenMembers(GroupIds(ss));
    GroupIdsMembers(ss);
    forall q | 0 <= q < |ss| ensures ss[q].group != Some(x) {
      assert ss[q] in ss;
    }
  }

  ghost predicate MetricOf(g: Group, id: int, members: seq<Series>) {
    g.id == id && g.members == members && g.members != [] && g.name == g.members[0].groupName
  }

  /** Where each entry of the metrics stands among the first `n` groups seen, with `of` the members of each group. */
  ghost predicate MetricsStand(groups: seq<Group>, of: int -> seq<Series>, ids: seq<int>, n: nat, at: seq<nat>) {
    && n <= |ids| && |at| == |groups| && (forall i, j :: 0 <= i < j < |at| ==> at[i] < at[j])
    && (forall i :: 0 <= i < |at| ==> at[i] < n && MetricOf(groups[i], ids[at[i]], of(ids[at[i]])))
    && (forall k: nat :: k < n && of(ids[k]) != [] ==> k in at)
  }

  lemma {:induction false} StandGrow(groups: seq<Group>, of: int -> seq<Series>, ids: seq<int>, n: nat, at: seq<nat>)
    requires n < |ids| && MetricsStand(groups, of, ids, n, at)
    ensures of(ids[n]) == [] ==> MetricsStand(groups, of, ids, n + 1, at)
    ensures of(ids[n]) != [] ==>
              MetricsStand(groups + [Group(ids[n], of(ids[n])[0].groupName, of(ids[n]))], of, ids, n + 1, at + [n])
  {
    var members := of(ids[n]);
    assert members != [] ==> MetricOf(Group(ids[n], members[0].groupName, members), ids[n], members);
  }

  ghost function MeasuredOf(ss: seq<Series>): int -> seq<Series> { (id: int) => Where(ss, MeasuredIn(id)) }

  lemma {:induction false} MetricsStep(ss: seq<Series>, of: int -> seq<Series>, ids: seq<int>, n: nat)
    requires n < |ids| && of == MeasuredOf(ss)
    ensures of(ids[n]) == [] ==> Metrics(ss, ids[..n + 1]) == Metrics(ss, ids[..n])
    ensures of(ids[n]) != [] ==>
              Metrics(ss, ids[..n + 1])
              == Metrics(ss, ids[..n]) + [Group(ids[n], of(ids[n])[0].groupName, of(ids[n]))]
  {
    assert ids[..n + 1][..n] == ids[..n];
  }

  lemma {:induction false} MetricsAt(ss: seq<Series>, of: int -> seq<Series>, ids: seq<int>, n: nat)
    returns (at: seq<nat>)
    requires n <= |ids| && of == MeasuredOf(ss)
    ensures MetricsStand(Metrics(ss, ids[..n]), of, ids, n, at)
  {
    at := [];
    if n > 0 {
      at := MetricsAt(ss, of, ids, n - 1);
      MetricsStep(ss, of, ids, n - 1);
      StandGrow(Metrics(ss, ids[..n - 1]), of, ids, n - 1, at);
      if of(ids[n - 1]) != [] {
        at := at + [n - 1];
      }
    }
  }

  lemma {:induction false} MeasuredIsSeen(ss: seq<Series>, s: Series)
    requires s in ss && s.group.Some?
    ensures exists k: nat :: k < |FirstSeen(GroupIds(ss))| && FirstSeen(GroupIds(ss))[k] == s.group.value
  {
    GroupIdOf(ss, s);
    FirstSeenMembers(GroupIds(ss));
    var ids, x := FirstSeen(GroupIds(ss)), s.group.value;
    assert x in GroupIds(ss) && x in ids;
  }

  lemma {:induction false} MetricHasMembers(g: Group, ss: seq<Series>, id: int, wanted: Series -> bool)
    requires MetricOf(g, id, Where(ss, MeasuredIn(id)))
    requires forall s :: wanted(s) == (s.group.Some? && !s.excluded && s.cycles != 0)
    ensures HasMembers(g, ss, wanted)
  {
    var at := WhereLists(ss, MeasuredIn(id), Of(wanted, id));
    assert Lists(g.members, ss, |ss|, Of(wanted, g.id), at);
  }

  lemma {:induction false} MeasuredHasMetric(ss: seq<Series>, ids: seq<int>, groups: seq<Group>, at: seq<nat>,
                                             s: Series)
    requires s in ss && s.group.Some? && !s.excluded && s.cycles != 0
    requires |at| == |groups| && ids == FirstSeen(GroupIds(ss))
    requires forall i :: 0 <= i < |at| ==> at[i] < |ids| && groups[i].id == ids[at[i]]
    requires forall k: nat :: k < |ids| && Where(ss, MeasuredIn(ids[k])) != [] ==> k in at
    ensures exists i :: 0 <= i < |groups| && Some(groups[i].id) == s.group
  {
    MeasuredIsSeen(ss, s);
    var k: nat :| k < |ids| && ids[k] == s.group.value;
    WhereMembers(ss, MeasuredIn(ids[k]));
    assert s in Where(ss, MeasuredIn(ids[k]));
    var i :| 0 <= i < |at| && at[i] == k;
    assert groups[i].id == ids[k];
  }

  /**
   The metrics in plain terms: one entry for each group in which some series is not excluded and has cycles, in the
   order in which groups first appear among all series; its members are exactly those series, as often and in the order
   selected, and its name is the first member's.
   */
  lemma {:induction false} MetricsMeaning(results: seq<CycleResult>, replicateMean: bool)
    ensures var m := MergedCycles(results, replicateMean);
            && Groups(m.metrics, m.series, (s: Series) => s.group.Some? && !s.excluded && s.cycles != 0, Any)
            && forall i :: 0 <= i < |m.metrics| ==> m.metrics[i].members != []
                                                    && m.metrics[i].name == m.metrics[i].members[0].groupName
  {
    var wanted := (s: Series) => s.group.Some? && !s.excluded && s.cycles != 0;
    MeasuredGroups(MergedCycles(results, replicateMean).series, wanted);
  }

  lemma {:induction false} MetricsApart(ss: seq<Series>, ids: seq<int>, groups: seq<Group>, at: seq<nat>, i: nat,
                                        j: nat)
    requires ids == FirstSeen(GroupIds(ss)) && MetricsStand(groups, MeasuredOf(ss), ids, |ids|, at) && i < j < |groups|
    ensures groups[i].id != groups[j].id && Sooner(ss, Any, groups[i].id, groups[j].id)
  {
    FirstSeenMembers(GroupIds(ss));
    var p := SeenSooner(ss, at[i], at[j]);
    assert At(ss, p, groups[i].id, groups[j].id) && Any(ss[p]);
  }

  lemma {:induction false} MetricsHaveMembers(ss: seq<Series>, ids: seq<int>, groups: seq<Group>, at: seq<nat>,
                                              wanted: Series -> bool)
    requires MetricsStand(groups, MeasuredOf(ss), ids, |ids|, at)
    requires forall s :: wanted(s) == (s.group.Some? && !s.excluded && s.cycles != 0)
    ensures forall i :: 0 <= i < |groups| ==> HasMembers(groups[i], ss, wanted)
    ensures forall i :: 0 <= i < |groups| ==>
              groups[i].members != [] && groups[i].name == groups[i].members[0].groupName
  {
    forall i | 0 <= i < |groups| ensures HasMembers(groups[i], ss, wanted) {
      MetricHasMembers(groups[i], ss, ids[at[i]], wanted);
    }
  }

  lemma {:induction false} MetricsCover(ss: seq<Series>, ids: seq<int>, groups: seq<Group>, at: seq<nat>,
                                        wanted: Series -> bool)
    requires ids == FirstSeen(GroupIds(ss)) && MetricsStand(groups, MeasuredOf(ss), ids, |ids|, at)
    requires forall s :: wanted(s) == (s.group.Some? && !s.excluded && s.cycles != 0)
    ensures forall s :: s in ss && wanted(s) && s.group.Some? ==>
              exists i :: 0 <= i < |groups| && Some(groups[i].id) == s.group
  {
    forall s | s in ss && wanted(s) ensures exists i :: 0 <= i < |groups| && Some(groups[i].id) == s.group {
      MeasuredHasMetric(ss, ids, groups, at, s);
    }
  }

  lemma {:induction false} MeasuredGroups(ss: seq<Series>, wanted: Series -> bool)
    requires forall s :: wanted(s) == (s.group.Some? && !s.excluded && s.cycles != 0)
    ensures var groups := Metrics(ss, FirstSeen(GroupIds(ss)));
            && Groups(groups, ss, wanted, Any)
            && forall i :: 0 <= i < |groups| ==> groups[i].members != []
                                                 && groups[i].name == groups[i].members[0].groupName
  {
    var ids := FirstSeen(GroupIds(ss));
    var groups := Metrics(ss, ids);
    var at := MetricsAt(ss, MeasuredOf(ss), ids, |ids|);
    assert ids[..|ids|] == ids;
    MetricsHaveMembers(ss, ids, groups, at, wanted);
    MetricsCover(ss, ids, groups, at, wanted);
    forall i, j | 0 <= i < j < |groups|
      ensures groups[i].id != groups[j].id && Sooner(ss, Any, groups[i].id, groups[j].id)
    {
      MetricsApart(ss, ids, groups, at, i, j);
    }
  }

  /** A group that appears sooner among the averaged series, seen in the whole selection. */
  lemma {:induction false} SoonerInAll(ss: seq<Series>, averaged: seq<Series>, wanted: Series -> bool, at: seq<nat>,
                                       p: nat, a: int, b: int)
    requires Lists(averaged, ss, |ss|, wanted, at) && At(averaged, p, a, b)
    ensures Sooner(ss, wanted, a, b)
  {
    assert at[p] in at;
    forall q | 0 <= q <= at[p] && wanted(ss[q]) ensures ss[q].group != Some(b) {
      assert q in at;
      var k :| 0 <= k < |at| && at[k] == q;
      assert k <= p;
      assert averaged[k] == ss[q];
    }
    assert ss[at[p]].group == Some(a);
  }

  /**
   The aggregates in plain terms: none without replicate means; with them one for each group in which some series is not
   excluded and has points, in the order in which groups first appear among such series; its members are exactly those
   series, as often and in the order selected, and its name is the last member's.
   */
  lemma {:induction false} AggregatesMeaning(results: seq<CycleResult>, replicateMean: bool)
    ensures var m := MergedCycles(results, replicateMean);
            var wanted := (s: Series) => s.group.Some? && !s.excluded && s.hasPoints;
            if !replicateMean then m.aggregates == []
            else
              && Groups(m.aggregates, m.series, wanted, wanted)
              && forall i :: 0 <= i < |m.aggregates| ==>
                   var members := m.aggregates[i].members;
                   members != [] && m.aggregates[i].name == members[|members| - 1].groupName
  {
    if replicateMean {
      AveragedGroups(MergedCycles(results, replicateMean).series,
                     (s: Series) => s.group.Some? && !s.excluded && s.hasPoints);
    }
  }

  lemma {:induction false} AggregateHasMembers(ss: seq<Series>, wanted: Series -> bool, g: Group)
    requires forall s :: wanted(s) == (s.group.Some? && !s.excluded && s.hasPoints)
    requires g.members == MembersOf(Where(ss, Averaged), g.id) && g.members != []
    ensures HasMembers(g, ss, wanted)
  {
    WhereTwice(ss, Averaged, InGroup(g.id), Of(wanted, g.id));
    var at := WhereLists(ss, Of(wanted, g.id), Of(wanted, g.id));
    assert Lists(g.members, ss, |ss|, Of(wanted, g.id), at);
  }

  lemma {:induction false} AveragedGroups(ss: seq<Series>, wanted: Series -> bool)
    requires forall s :: wanted(s) == (s.group.Some? && !s.excluded && s.hasPoints)
    ensures var groups := Aggregates(ss, true);
            && Groups(groups, ss, wanted, wanted)
            && forall i :: 0 <= i < |groups| ==>
                 var members := groups[i].members;
                 members != [] && groups[i].name == members[|members| - 1].groupName
  {
    var groups, averaged := Aggregates(ss, true), Where(ss, Averaged);
    var at := WhereLists(ss, Averaged, wanted);
    GroupsPartition(ss);
    forall i | 0 <= i < |groups| ensures HasMembers(groups[i], ss, wanted) {
      AggregateHasMembers(ss, wanted, groups[i]);
    }
    forall i, j | 0 <= i < j < |groups| ensures Sooner(ss, wanted, groups[i].id, groups[j].id) {
      var p := SeenSooner(averaged, i, j);
      SoonerInAll(ss, averaged, wanted, at, p, groups[i].id, groups[j].id);
    }
  }

  // ---------------------------------------------------------------- compatibility verdicts

  datatype Match = Match(cell: int, fingerprint: string)

  datatype Verdict = Verdict(compatible: bool, complete: bool, fingerprints: set<string>)

  function Fingerprints(matches: seq<Match>): set<string> { set m | m in matches :: m.fingerprint }

  function Cells(matches: seq<Match>): set<int> { set m | m in matches :: m.cell }

  function Chargeability(matches: seq<Match>, selected: set<int>): Verdict {
    var prints := Fingerprints(matches);
    Verdict(matches != [] && |prints| == 1, selected != {} && Cells(matches) == selected, prints)
  }

  /** One family of rate-capability blocks: unlike chargeability, an empty selection counts as complete. */
  function RateFamily(blocks: seq<Match>, selected: set<int>): Verdict {
    var prints := Fingerprints(blocks);
    Verdict(blocks != [] && |prints| == 1, Cells(blocks) == selected, prints)
  }

  lemma {:induction false} SingletonSet(s: set<string>, x: string)
    requires x in s
    ensures |s| == 1 <==> forall y <- s :: y == x
  {
    if |s| == 1 {
      assert |s - {x}| == 0;
      assert s == {x} + (s - {x});
    }
    assert (forall y <- s :: y == x) ==> s == {x};
  }

  ghost predicate OneProtocol(matches: seq<Match>) {
    forall m, n :: m in matches && n in matches ==> m.fingerprint == n.fingerprint
  }

  lemma {:induction false} OnePrint(matches: seq<Match>)
    requires matches != []
    ensures |Fingerprints(matches)| == 1 <==> OneProtocol(matches)
  {
    var first := matches[0];
    assert first in matches && first.fingerprint in Fingerprints(matches);
    SingletonSet(Fingerprints(matches), first.fingerprint);
    if |Fingerprints(matches)| == 1 {
      forall m, n | m in matches && n in matches ensures m.fingerprint == n.fingerprint {
        assert m.fingerprint in Fingerprints(matches) && n.fingerprint in Fingerprints(matches);
      }
    }
  }

  /** Every selected Cell was matched and no other. */
  ghost predicate MatchedExactly(matches: seq<Match>, selected: set<int>) {
    (forall m <- matches :: m.cell in selected) && forall c <- selected :: exists m :: m in matches && m.cell == c
  }

  /**
   Compatible means at least one match and one protocol for all; complete means every selected Cell and no other
   matched.
   */
  lemma {:induction false} VerdictMeaning(matches: seq<Match>, selected: set<int>)
    ensures var v, r := Chargeability(matches, selected), RateFamily(matches, selected);
            && (v.compatible <==> matches != [] && OneProtocol(matches)) && r.compatible == v.compatible
            && (r.complete <==> MatchedExactly(matches, selected)) && (v.complete <==> r.complete && selected != {})
  {
    if matches != [] {
      OnePrint(matches);
    }
    CellsCover(matches, selected);
  }

  lemma {:induction false} CellsCover(matches: seq<Match>, selected: set<int>)
    ensures Cells(matches) == selected <==> MatchedExactly(matches, selected)
  {
    assert forall m <- matches :: m.cell in Cells(matches);
    if Cells(matches) == selected {
      forall c | c in selected ensures exists m :: m in matches && m.cell == c {
        assert c in Cells(matches);
      }
    }
    if forall c <- selected :: exists m :: m in matches && m.cell == c {
      forall c | c in selected ensures c in Cells(matches) {
        var m :| m in matches && m.cell == c;
      }
      assert selected <= Cells(matches);
    }
  }

  /** The verdicts depend only on which matches were found, not on the order or repetition of the results. */
  lemma {:induction false} VerdictOrderIrrelevant(a: seq<Match>, b: seq<Match>, selected: set<int>)
    requires forall m :: m in a <==> m in b
    ensures Chargeability(a, selected) == Chargeability(b, selected)
            && RateFamily(a, selected) == RateFamily(b, selected)
  {
    assert Fingerprints(a) == Fingerprints(b) && Cells(a) == Cells(b);
    assert a != [] ==> a[0] in b;
    assert b != [] ==> b[0] in a;
  }

  /** What one Cell contributes to a chargeability merge. */
  datatype ChargePart = ChargePart(matches: seq<Match>, cells: seq<string>, badges: seq<string>, sources: seq<string>)

  datatype ChargeMerge = ChargeMerge(matches: seq<Match>, cells: seq<string>, badges: seq<string>, sources: seq<string>,
                                     verdict: Verdict)

  const MISMATCH := "chargeability_protocol_mismatch"

  /**
   Merge chargeability results. Whatever order the Cells finish in, matches, cells, badges and sources are those of the
   selection in its order, the verdict is theirs, and a mismatch badge closes the list exactly when something matched
   but not one protocol.
   */
  method MergeChargeability(completed: seq<Item<ChargePart>>, selected: seq<int>,
                            ghost selection: seq<Item<ChargePart>>)
    returns (m: ChargeMerge)
    requires Selection(selection) && multiset(completed) == multiset(selection)
    ensures var parts := Values(selection);
            && m.matches == Flatten(Column(parts, (p: ChargePart) => p.matches))
            && m.cells == Flatten(Column(parts, (p: ChargePart) => p.cells))
            && m.sources == Flatten(Column(parts, (p: ChargePart) => p.sources))
            && m.verdict == Chargeability(m.matches, set c | c in selected)
            && m.badges == Flatten(Column(parts, (p: ChargePart) => p.badges))
                           + (if m.matches != [] && !m.verdict.compatible then [MISMATCH] else [])
  {
    var ordered := Values(Arranged(completed));
    SortRestores(selection, completed);
    var matches := Flatten(Column(ordered, (p: ChargePart) => p.matches));
    var verdict := Chargeability(matches, set c | c in selected);
    var badges := Flatten(Column(ordered, (p: ChargePart) => p.badges));
    if matches != [] && !verdict.compatible {
      badges := badges + [MISMATCH];
    }
    m := ChargeMerge(matches, Flatten(Column(ordered, (p: ChargePart) => p.cells)), badges,
                     Flatten(Column(ordered, (p: ChargePart) => p.sources)), verdict);
  }

  /** A block of one family, with the Cell and the protocol it matched. */
  datatype Block = Block(family: string, found: Match)

  function FamilyOf(blocks: seq<Block>, family: string): seq<Match> {
    if blocks == [] then []
    else FamilyOf(blocks[..|blocks| - 1], family)
         + (if blocks[|blocks| - 1].family == family then [blocks[|blocks| - 1].found] else [])
  }

  /** What one Cell contributes to a rate-capability merge. */
  datatype RatePart = RatePart(blocks: seq<Block>, badges: seq<string>, sources: seq<string>, invalid: int)

  datatype RateMerge = RateMerge(blocks: seq<Block>, charge: Verdict, discharge: Verdict, badges: seq<string>,
                                 sources: seq<string>, invalid: int)

  function Total(counts: seq<int>): int {
    if counts == [] then 0 else Total(counts[..|counts| - 1]) + counts[|counts| - 1]
  }

  lemma {:induction false} TotalMeaning(a: seq<int>, x: int)
    ensures Total([]) == 0 && Total(a + [x]) == Total(a) + x
  {
    assert (a + [x])[..|a|] == a;
  }

  /** The matches of a family are those of its blocks, in order. */
  lemma {:induction false} FamilyMeaning(a: seq<Block>, b: Block, family: string)
    ensures FamilyOf([], family) == []
    ensures FamilyOf(a + [b], family) == FamilyOf(a, family) + (if b.family == family then [b.found] else [])
  {
    assert (a + [b])[..|a|] == a;
  }

  /**
   Merge rate-capability results; `compare` is the common comparison, a function of the blocks in selection order.
   Blocks, both verdicts, badges, sources and the count do not depend on the order of completion.
   */
  method MergeRate(completed: seq<Item<RatePart>>, selected: seq<int>, compare: seq<Block> -> seq<Block>,
                   ghost selection: seq<Item<RatePart>>)
    returns (m: RateMerge)
    requires Selection(selection) && multiset(completed) == multiset(selection)
    ensures var parts := Values(selection);
            && m.blocks == compare(Flatten(Column(parts, (p: RatePart) => p.blocks)))
            && m.charge == RateFamily(FamilyOf(m.blocks, "charge"), set c | c in selected)
            && m.discharge == RateFamily(FamilyOf(m.blocks, "discharge"), set c | c in selected)
            && m.badges == Flatten(Column(parts, (p: RatePart) => p.badges))
            && m.sources == Flatten(Column(parts, (p: RatePart) => p.sources))
            && m.invalid == Total(Column(parts, (p: RatePart) => p.invalid))
  {
    var ordered := Values(Arranged(completed));
    SortRestores(selection, completed);
    var blocks := compare(Flatten(Column(ordered, (p: RatePart) => p.blocks)));
    var cells := set c | c in selected;
    m := RateMerge(blocks, RateFamily(FamilyOf(blocks, "charge"), cells),
                   RateFamily(FamilyOf(blocks, "discharge"), cells),
                   Flatten(Column(ordered, (p: RatePart) => p.badges)),
                   Flatten(Column(ordered, (p: RatePart) => p.sources)),
                   Total(Column(ordered, (p: RatePart) => p.invalid)));
  }

  // ---------------------------------------------------------------- voltage channels

  datatype Fact = Fact(quantity: string, hasData: bool, role: string, reference: Option<string>)

  /** What the batches establish about one quantity. */
  datatype Evidence = Evidence(available: bool, roles: set<string>, references: set<Option<string>>)

  datatype ChannelState = ChannelState(available: bool, role: string, reference: Option<string>)

  const MIXED := "mixed"

  function Join(a: Evidence, b: Evidence): Evidence {
    Evidence(a.available || b.available, a.roles + b.roles, a.references + b.references)
  }

  const NOTHING := Evidence(false, {}, {})

  function Roles(facts: set<Fact>): set<string> { set f | f in facts :: f.role }

  function References(facts: set<Fact>): set<Option<string>> { set f | f in facts :: f.reference }

  function Relevant(facts: seq<Fact>, quantity: string): set<Fact> {
    set f | f in facts && f.hasData && f.quantity == quantity
  }

  function EvidenceOf(facts: seq<Fact>, quantity: string): Evidence {
    var relevant := Relevant(facts, quantity);
    Evidence(relevant != {}, Roles(relevant), References(relevant))
  }

  /** The member of a set of one. */
  function Only<T(==)>(s: set<T>): (r: Option<T>)
    ensures r.Some? <==> |s| == 1
    ensures r.Some? ==> s == {r.value}
  {
    OneMember(s);
    if exists x :: x in s && s == {x} then
      var x :| x in s && s == {x};
      Some(x)
    else None
  }

  lemma {:induction false} OneMember<T>(s: set<T>)
    ensures |s| == 1 <==> exists x :: x in s && s == {x}
  {
    if |s| == 1 {
      var x :| x in s;
      assert |s - {x}| == 0;
      assert s == {x} + (s - {x});
    }
  }

  /** The default role stands in for none, one role for itself, several for a mixture, which has no reference. */
  function Resolve(e: Evidence, defaultRole: string): (c: ChannelState)
    ensures c.available == e.available
    ensures e.roles == {} ==> c.role == defaultRole
    ensures |e.roles| == 1 ==> e.roles == {c.role}
    ensures |e.roles| > 1 ==> c.role == "mixed"
    ensures c.reference.Some? <==> c.role != "mixed" && |e.references| == 1 && None !in e.references
    ensures c.reference.Some? ==> e.references == {c.reference}
  {
    var role := if e.roles == {} then defaultRole else if Only(e.roles).Some? then Only(e.roles).value else MIXED;
    var reference := if Only(e.references).Some? then Only(e.references).value else None;
    ChannelState(e.available, role, if role == MIXED then None else reference)
  }

  predicate Known(f: Fact, quantities: set<string>) { f.hasData ==> f.quantity in quantities }

  ghost predicate AllKnown(facts: seq<Fact>, quantities: set<string>) {
    forall i :: 0 <= i < |facts| ==> Known(facts[i], quantities)
  }

  lemma {:induction false} KnownConcat(a: seq<Fact>, b: seq<Fact>, quantities: set<string>)
    ensures AllKnown(a + b, quantities) <==> AllKnown(a, quantities) && AllKnown(b, quantities)
  {
    if AllKnown(a + b, quantities) {
      assert forall i :: 0 <= i < |a| ==> a[i] == (a + b)[i];
      assert forall i :: 0 <= i < |b| ==> b[i] == (a + b)[|a| + i];
    }
  }

  lemma {:induction false} KnownBatches(batches: seq<seq<Fact>>, i: nat, quantities: set<string>)
    requires i < |batches| && AllKnown(Flatten(batches[..i]), quantities)
    ensures AllKnown(Flatten(batches[..i + 1]), quantities) <==> AllKnown(batches[i], quantities)
    ensures AllKnown(Flatten(batches), quantities) ==> AllKnown(batches[i], quantities)
  {
    FlattenOne(batches, i);
    KnownConcat(Flatten(batches[..i]), batches[i], quantities);
    FlattenPrefix(batches, i + 1, |batches|);
    assert batches[..|batches|] == batches;
    var prefix, whole := Flatten(batches[..i + 1]), Flatten(batches);
    assert forall k :: 0 <= k < |prefix| ==> prefix[k] == whole[k];
  }

  /** The loop over payloads; `None` is the error of data about a quantity that does not exist. */
  method CollectEvidence(batches: seq<seq<Fact>>, quantities: set<string>)
    returns (evidence: Option<map<string, Evidence>>)
    ensures evidence.Some? <==> AllKnown(Flatten(batches), quantities)
    ensures evidence.Some? ==> evidence.value.Keys == quantities
                               && forall q <- quantities :: evidence.value[q] == EvidenceOf(Flatten(batches), q)
  {
    var current := map q | q in quantities :: NOTHING;
    for i := 0 to |batches|
      invariant current.Keys == quantities && AllKnown(Flatten(batches[..i]), quantities)
      invariant forall q <- quantities :: current[q] == EvidenceOf(Flatten(batches[..i]), q)
    {
      KnownBatches(batches, i, quantities);
      var next := AddBatch(current, batches[i], quantities, Flatten(batches[..i]));
      if next.None? {
        return None;
      }
      FlattenOne(batches, i);
      current := next.value;
    }
    assert batches[..|batches|] == batches;
    evidence := Some(current);
  }

  method AddBatch(before: map<string, Evidence>, facts: seq<Fact>, quantities: set<string>, ghost seen: seq<Fact>)
    returns (evidence: Option<map<string, Evidence>>)
    requires before.Keys == quantities && forall q <- quantities :: before[q] == EvidenceOf(seen, q)
    ensures evidence.Some? <==> AllKnown(facts, quantities)
    ensures evidence.Some? ==> evidence.value.Keys == quantities
                               && forall q <- quantities :: evidence.value[q] == EvidenceOf(seen + facts, q)
  {
    var current := before;
    assert seen + facts[..0] == seen;
    for i := 0 to |facts|
      invariant current.Keys == quantities && forall j :: 0 <= j < i ==> Known(facts[j], quantities)
      invariant forall q <- quantities :: current[q] == EvidenceOf(seen + facts[..i], q)
    {
      var f := facts[i];
      assert seen + facts[..i + 1] == (seen + facts[..i]) + [f];
      forall q | q in quantities
        ensures EvidenceOf(seen + facts[..i + 1], q)
             == if f.hasData && f.quantity == q
                then Join(EvidenceOf(seen + facts[..i], q), Evidence(true, {f.role}, {f.reference}))
                else EvidenceOf(seen + facts[..i], q)
      {
      }
      if !f.hasData {
        continue;
      }
      if f.quantity !in current {
        return None;
      }
      var e := current[f.quantity];
      current := current[f.quantity := Evidence(true, e.roles + {f.role}, e.references + {f.reference})];
    }
    assert facts[..|facts|] == facts;
    evidence := Some(current);
  }

  /** The evidence on a quantity: whether some fact has data on it, and which roles and references such facts report. */
  lemma {:induction false} EvidenceMeaning(facts: seq<Fact>, q: string)
    ensures var e := EvidenceOf(facts, q);
            && (e.available <==> exists f :: f in facts && f.hasData && f.quantity == q)
            && (forall r :: r in e.roles <==> exists f :: f in facts && f.hasData && f.quantity == q && f.role == r)
            && forall r :: r in e.references
                           <==> exists f :: f in facts && f.hasData && f.quantity == q && f.reference == r
  {
    var relevant := Relevant(facts, q);
    assert forall f :: f in relevant <==> f in facts && f.hasData && f.quantity == q;
  }

  /** The evidence of two batches together is the join of their evidence. */
  lemma {:induction false} EvidenceJoins(a: seq<Fact>, b: seq<Fact>, q: string)
    ensures EvidenceOf(a + b, q) == Join(EvidenceOf(a, q), EvidenceOf(b, q))
  {
    var x, y := Relevant(a, q), Relevant(b, q);
    assert Relevant(a + b, q) == x + y;
    assert Roles(x + y) == Roles(x) + Roles(y) && References(x + y) == References(x) + References(y);
  }

  /** Joining is associative, commutative and idempotent, so batches can arrive in any order and more than once. */
  lemma {:induction false} JoinLaws(a: Evidence, b: Evidence, c: Evidence)
    ensures Join(a, b) == Join(b, a) && Join(Join(a, b), c) == Join(a, Join(b, c))
    ensures Join(a, a) == a && Join(a, NOTHING) == a
  {
  }

  /** A channel's role is mixed exactly when two roles were reported (or the only one is itself "mixed"). */
  lemma {:induction false} MixedExactly(facts: seq<Fact>, q: string, defaultRole: string)
    requires defaultRole != "mixed"
    ensures Resolve(EvidenceOf(facts, q), defaultRole).role == "mixed"
       <==> exists f, g :: f in facts && g in facts && f.hasData && g.hasData && f.quantity == q && g.quantity == q
                           && (f.role != g.role || f.role == "mixed")
  {
    var e := EvidenceOf(facts, q);
    var relevant := Relevant(facts, q);
    assert forall f <- relevant :: f.role in e.roles;
    if e.roles != {} {
      var r :| r in e.roles;
      var f :| f in relevant && f.role == r;
      if exists x :: x in e.roles && e.roles == {x} {
        var x :| x in e.roles && e.roles == {x};
        assert forall g <- relevant :: g.role == x;
      } else {
        assert e.roles != {r};
        var r' :| r' in e.roles && r' != r;
        var g :| g in relevant && g.role == r';
      }
    }
  }

  // ---------------------------------------------------------------- whole Cells

  /** What one Cell contributes to a merged response. */
  datatype Part = Part(trace: string, badges: seq<string>, facts: seq<Fact>, sources: seq<string>, parsers: seq<string>)

  datatype Whole = Whole(traces: seq<string>, badges: seq<string>, sources: seq<string>, parsers: seq<string>,
                         channels: map<string, ChannelState>)

  function Badges(parts: seq<Part>): seq<seq<string>> { Column(parts, (p: Part) => p.badges) }

  function Facts(parts: seq<Part>): seq<seq<Fact>> { Column(parts, (p: Part) => p.facts) }

  /**
   A merge that is the in-order assembly of `parts` behind the request's own badges, with every channel resolved from
   what all parts report; it fails exactly on data about a quantity without a default role.
   */
  ghost predicate Assembles(m: Option<Whole>, own: seq<string>, parts: seq<Part>, roles: map<string, string>) {
    && (m.Some? <==> AllKnown(Flatten(Facts(parts)), roles.Keys))
    && (m.Some? ==>
          && m.value.traces == Column(parts, (p: Part) => p.trace)
          && m.value.badges == own + Flatten(Badges(parts))
          && m.value.sources == Flatten(Column(parts, (p: Part) => p.sources))
          && m.value.parsers == Flatten(Column(parts, (p: Part) => p.parsers))
          && m.value.channels.Keys == roles.Keys
          && forall q <- roles :: m.value.channels[q] == Resolve(EvidenceOf(Flatten(Facts(parts)), q), roles[q]))
  }

  /** Merge whole-Cell results. Whatever order they were completed in, the result is the selection's assembly. */
  method MergeWholeCells(own: seq<string>, completed: seq<Item<Part>>, roles: map<string, string>,
                         ghost selection: seq<Item<Part>>)
    returns (m: Option<Whole>)
    requires Selection(selection) && multiset(completed) == multiset(selection)
    ensures Assembles(m, own, Values(selection), roles)
  {
    var ordered := Values(Arranged(completed));
    SortRestores(selection, completed);
    var badges := own;
    for i := 0 to |ordered|
      invariant badges == own + Flatten(Badges(ordered)[..i])
    {
      FlattenOne(Badges(ordered), i);
      assert own + (Flatten(Badges(ordered)[..i]) + ordered[i].badges)
          == own + Flatten(Badges(ordered)[..i]) + ordered[i].badges;
      badges := badges + ordered[i].badges;
    }
    assert Badges(ordered)[..|ordered|] == Badges(ordered);
    var channels := ResolveChannels(Facts(ordered), roles);
    if channels.None? {
      return None;
    }
    m := Some(Whole(Column(ordered, (p: Part) => p.trace), badges, Flatten(Column(ordered, (p: Part) => p.sources)),
                    Flatten(Column(ordered, (p: Part) => p.parsers)), channels.value));
  }

  method ResolveChannels(batches: seq<seq<Fact>>, roles: map<string, string>)
    returns (channels: Option<map<string, ChannelState>>)
    ensures channels.Some? <==> AllKnown(Flatten(batches), roles.Keys)
    ensures channels.Some? ==>
              && channels.value.Keys == roles.Keys
              && forall q <- roles :: channels.value[q] == Resolve(EvidenceOf(Flatten(batches), q), roles[q])
  {
    var evidence := CollectEvidence(batches, roles.Keys);
    if evidence.None? {
      return None;
    }
    channels := Some(map q | q in roles :: Resolve(evidence.value[q], roles[q]));
  }
}
