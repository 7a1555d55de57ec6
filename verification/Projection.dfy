/** The projection of one Cell's frame into the payload a plot consumes. */
module Projection {
  import opened Common
  import opened Sorting

  // The rewrites under trial: skipping the cycle filter (T7) and the sort (T6), remapping cycles through a dense table
  // (T8), gathering columns instead of rows (T10), table-encoded provenance (T13), the second null conversion (T14).

  /** `None` for a number that is not finite. A column that is missing reads as `None` in every row. */
  type Value = Option<real>

  datatype Row = Row(cycle: Value, segment: Value, record: Value, hash: Option<string>, sourceCycle: Value,
                     time: Value, voltage: Value, current: Value)

  datatype Frame = Frame(rows: seq<Row>, hasHash: bool, hasSourceCycle: bool)

  datatype Axis = TimeAxis | CapacityAxis | OtherAxis

  /** A Python dictionary, in insertion order. */
  type Entries<V> = seq<(int, V)>

  datatype Settings = Settings(cycles: seq<int>, cycleStart: Option<int>, cycleEnd: Option<int>,
                               exactSelection: bool, canonicalOrder: bool,
                               maps: seq<(string, Entries<int>)>, sourceOrder: seq<string>,
                               axis: Axis, maxPoints: int)

  datatype Features = Features(t6: bool, t7: bool, t8: bool, t10: bool, t13: bool, t14: bool)

  /** The unchanged projection. */
  const A0 := Features(false, false, false, false, false, false)

  // ---------------------------------------------------------------- order of rows

  predicate ValueLe(a: Value, b: Value) { b.None? || (a.Some? && a.value <= b.value) }

  /** Production order: cycle, then segment, then record index, missing values last. */
  predicate Le(a: Row, b: Row) {
    if a.cycle != b.cycle then ValueLe(a.cycle, b.cycle)
    else if a.segment != b.segment then ValueLe(a.segment, b.segment)
    else ValueLe(a.record, b.record)
  }

  /** Row `i` comes before row `j`; rows with the same key come in the order they had. */
  predicate Before(rows: seq<Row>, i: nat, j: nat)
    requires i < |rows| && j < |rows|
  {
    Le(rows[i], rows[j]) && (Le(rows[j], rows[i]) ==> i < j)
  }

  /** The order of positions, made total: behind all rows come the positions without one. */
  function Standing(rows: seq<Row>): (nat, nat) -> bool {
    (i: nat, j: nat) =>
      if i < |rows| && j < |rows| then i == j || Before(rows, i, j) else i < |rows| || (j >= |rows| && i <= j)
  }

  function Identity(n: nat): (r: seq<nat>)
    ensures |r| == n && forall k :: 0 <= k < n ==> r[k] == k
  {
    seq(n, k => k)
  }

  /** Positions in the order a stable sort gives their rows. */
  function Order(rows: seq<Row>): seq<nat> { Sort(Identity(|rows|), Standing(rows)) }

  /** Every position once. */
  ghost predicate Arranges(order: seq<nat>, n: nat) { multiset(order) == multiset(Identity(n)) }

  lemma {:induction false} ArrangesExactly(order: seq<nat>, n: nat)
    requires Arranges(order, n)
    ensures |order| == n && forall p: nat :: p in order <==> p < n
  {
    assert |order| == |multiset(order)| && n == |multiset(Identity(n))|;
    forall p: nat ensures p in order <==> p < n {
      assert p in order <==> p in multiset(order);
      assert p in Identity(n) <==> p in multiset(Identity(n));
      assert p < n ==> Identity(n)[p] == p;
    }
  }

  lemma {:induction false} StandingCompares(rows: seq<Row>)
    ensures Preorder(Standing(rows))
  {
    forall a: nat, b: nat, c: nat ensures Chains(Standing(rows), a, b, c) {
    }
  }

  lemma {:induction false} OrderArranges(rows: seq<Row>)
    ensures Arranges(Order(rows), |rows|) && |Order(rows)| == |rows|
    ensures forall k :: 0 <= k < |rows| ==> Order(rows)[k] < |rows|
  {
    SortMembers(Identity(|rows|), Standing(rows));
    ArrangesExactly(Order(rows), |rows|);
    assert forall k :: 0 <= k < |rows| ==> Order(rows)[k] in Order(rows);
  }

  function StableSort(rows: seq<Row>): seq<Row> {
    OrderArranges(rows);
    Gather(rows, Order(rows))
  }

  /** No row is above a later row. */
  ghost predicate InOrder(rows: seq<Row>) { forall i, j :: 0 <= i < j < |rows| ==> Le(rows[i], rows[j]) }

  /** Every row once, in order, rows of equal key in the order they had. */
  ghost predicate StablySorts(rows: seq<Row>, order: seq<nat>) {
    && Arranges(order, |rows|) && (forall k :: 0 <= k < |order| ==> order[k] < |rows|)
    && forall a, b :: 0 <= a < b < |order| ==> order[a] == order[b] || Before(rows, order[a], order[b])
  }

  /** The sort is the stable one: its order is the only one that fits. */
  lemma {:induction false} StableSortMeaning(rows: seq<Row>, order: seq<nat>)
    ensures StablySorts(rows, order) <==> order == Order(rows)
  {
    var le := Standing(rows);
    StandingCompares(rows);
    OrderArranges(rows);
    SortSorts(Identity(|rows|), le);
    if StablySorts(rows, order) {
      forall i, j | 0 <= i < j < |order| ensures le(order[i], order[j]) {
      }
      SortedUnique(order, Order(rows), le);
    } else if order == Order(rows) {
      forall a, b | 0 <= a < b < |order| ensures order[a] == order[b] || Before(rows, order[a], order[b]) {
        assert le(order[a], order[b]);
      }
    }
  }

  lemma {:induction false} OrderOfSorted(rows: seq<Row>)
    ensures Order(rows) == Identity(|rows|) <==> InOrder(rows)
  {
    var le := Standing(rows);
    if InOrder(rows) {
      forall i, j | 0 <= i < j < |rows| ensures le(Identity(|rows|)[i], Identity(|rows|)[j]) {
      }
      SortOfSorted(Identity(|rows|), le);
    } else if Order(rows) == Identity(|rows|) {
      StandingCompares(rows);
      SortSorts(Identity(|rows|), le);
      forall i: nat, j: nat | i < j < |rows| ensures Le(rows[i], rows[j]) {
        assert le(Identity(|rows|)[i], Identity(|rows|)[j]);
      }
    }
  }

  lemma {:induction false} SortOfInOrder(rows: seq<Row>)
    requires InOrder(rows)
    ensures StableSort(rows) == rows
  {
    OrderOfSorted(rows);
    OrderArranges(rows);
  }

  /** The order check compares index labels: sorting the labels with the rows must leave them as they are. */
  ghost predicate SortedCheck(rows: seq<Row>, labels: seq<int>)
    requires |labels| == |rows|
  {
    OrderArranges(rows);
    Gather(labels, Order(rows)) == labels
  }

  /** Row `k` has key `k`, but rows `i` and `j` are exchanged. */
  function Exchanged(n: nat, i: nat, j: nat): seq<Row> {
    var key := (k: nat) => if k == i then j else if k == j then i else k;
    seq(n, (k: nat) => Row(Some(key(k) as real), None, None, None, None, None, None, None))
  }

  lemma {:induction false} ExchangedSorts(n: nat, i: nat, j: nat, order: seq<nat>)
    requires i < j < n && order == Identity(n)[i := j][j := i] && Arranges(order, n)
    ensures StablySorts(Exchanged(n, i, j), order)
  {
    var rows := Exchanged(n, i, j);
    forall k | 0 <= k < n ensures order[k] < n && rows[order[k]].cycle == Some(k as real) {
      assert order[k] == if k == i then j else if k == j then i else k;
    }
    forall a, b | 0 <= a < b < n ensures Before(rows, order[a], order[b]) {
      assert rows[order[a]].cycle == Some(a as real) && rows[order[b]].cycle == Some(b as real);
    }
  }

  lemma {:induction false} ExchangedOrder(n: nat, i: nat, j: nat)
    requires i < j < n
    ensures Order(Exchanged(n, i, j)) == Identity(n)[i := j][j := i] && !InOrder(Exchanged(n, i, j))
  {
    var rows, order := Exchanged(n, i, j), Identity(n)[i := j][j := i];
    SwapMembers(Identity(n), i, j);
    ExchangedSorts(n, i, j, order);
    StableSortMeaning(rows, order);
    assert rows[i].cycle == Some(j as real) && rows[j].cycle == Some(i as real);
    assert !Le(rows[i], rows[j]);
  }

  /**
   Rows in order pass the check; the check tells rows that are not in order exactly when no two labels are the same.
   */
  lemma {:induction false} SortedCheckExact(labels: seq<int>)
    ensures forall rows :: |rows| == |labels| && InOrder(rows) ==> SortedCheck(rows, labels)
    ensures (forall rows :: |rows| == |labels| && SortedCheck(rows, labels) ==> InOrder(rows)) <==> Distinct(labels)
  {
    forall rows | |rows| == |labels| && InOrder(rows) ensures SortedCheck(rows, labels) {
      OrderOfSorted(rows);
    }
    if Distinct(labels) {
      forall rows | |rows| == |labels| && SortedCheck(rows, labels) ensures InOrder(rows) {
        CheckedIsInOrder(rows, labels);
      }
    } else {
      var i: nat, j: nat :| i < j < |labels| && labels[i] == labels[j];
      ExchangedOrder(|labels|, i, j);
      assert SortedCheck(Exchanged(|labels|, i, j), labels);
    }
  }

  lemma {:induction false} CheckedIsInOrder(rows: seq<Row>, labels: seq<int>)
    requires |rows| == |labels| && Distinct(labels) && SortedCheck(rows, labels)
    ensures InOrder(rows)
  {
    OrderArranges(rows);
    forall k | 0 <= k < |rows| ensures Order(rows)[k] == k {
      assert Gather(labels, Order(rows))[k] == labels[k];
    }
    assert Order(rows) == Identity(|rows|);
    OrderOfSorted(rows);
  }

  // ---------------------------------------------------------------- selection

  predicate Keeps(s: Settings, row: Row) {
    if s.cycles != [] then row.cycle.Some? && exists c :: c in s.cycles && c as real == row.cycle.value
    else
      && (s.cycleStart.Some? ==> row.cycle.Some? && row.cycle.value >= s.cycleStart.value as real)
      && (s.cycleEnd.Some? ==> row.cycle.Some? && row.cycle.value <= s.cycleEnd.value as real)
  }

  function Filter(s: Settings, rows: seq<Row>): (kept: seq<Row>)
    ensures |kept| <= |rows|
    ensures forall k :: 0 <= k < |kept| ==> kept[k] in rows && Keeps(s, kept[k])
  {
    if rows == [] then []
    else Filter(s, rows[..|rows| - 1]) + (if Keeps(s, rows[|rows| - 1]) then [rows[|rows| - 1]] else [])
  }

  /** The filter changes nothing exactly when the selection was exact. */
  lemma {:induction false} FilterIdentityExactly(s: Settings, rows: seq<Row>)
    ensures Filter(s, rows) == rows <==> forall k :: 0 <= k < |rows| ==> Keeps(s, rows[k])
  {
    if rows != [] {
      FilterIdentityExactly(s, rows[..|rows| - 1]);
      assert rows == rows[..|rows| - 1] + [rows[|rows| - 1]];
    }
  }

  lemma {:induction false} FilterInOrder(s: Settings, rows: seq<Row>)
    requires InOrder(rows)
    ensures InOrder(Filter(s, rows))
  {
    if rows != [] {
      var front := rows[..|rows| - 1];
      FilterInOrder(s, front);
      forall r | r in Filter(s, front) ensures Le(r, rows[|rows| - 1]) {
        assert r in front;
      }
    }
  }

  // Two gates: a step is skipped only if its feature is on and its invariant is recorded.

  predicate Unfiltered(s: Settings, f: Features) { f.t7 && s.exactSelection }

  predicate Unsorted(s: Settings, f: Features) { f.t6 && s.canonicalOrder }

  /** The rows that stay for sorting. */
  function Kept(frame: Frame, s: Settings, f: Features): seq<Row> {
    if Unfiltered(s, f) then frame.rows else Filter(s, frame.rows)
  }

  /** The selected frame. */
  function Selected(frame: Frame, s: Settings, f: Features): Frame {
    frame.(rows := if Unsorted(s, f) then Kept(frame, s, f) else StableSort(Kept(frame, s, f)))
  }

  // ---------------------------------------------------------------- cycle remapping

  /** Toward zero, as a cast from float to integer does. */
  function Trunc(v: real): int { if v >= 0.0 then v.Floor else -((-v).Floor) }

  /** Dictionary lookup. */
  function Find<V>(entries: Entries<V>, key: int): Option<V> {
    if entries == [] then None
    else if entries[|entries| - 1].0 == key then Some(entries[|entries| - 1].1)
    else Find(entries[..|entries| - 1], key)
  }

  function AsValue(found: Option<int>): Value { if found.Some? then Some(found.value as real) else None }

  /** Mapping a label through the dictionary: missing for a label without entry. */
  function ByDictionary(entries: Entries<int>, local: Value): Value {
    if local.Some? && local.value == local.value.Floor as real then AsValue(Find(entries, local.value.Floor)) else None
  }

  /** What the owner of a source's map writes: a label without entry is display-only and gets cycle 0. */
  function ByOwner(entries: Entries<int>, local: Value): Value {
    var mapped := ByDictionary(entries, local);
    if mapped.Some? then mapped else Some(0.0)
  }

  /** What the dense table gives; with an empty dictionary labels stay as they are. */
  function ByTable(entries: Entries<int>, local: Value): Value {
    if entries == [] then local
    else if local.Some? then AsValue(Find(entries, Trunc(local.value)))
    else None
  }

  predicate Whole(local: Value) { local.Some? ==> local.value == local.value.Floor as real }

  /**
   The dense table is the dictionary exactly on labels that are whole, missing, or cut to a number without entry; with
   an empty dictionary only on missing labels.
   */
  lemma {:induction false} TableIsDictionary(entries: Entries<int>, local: Value)
    ensures ByTable(entries, local) == ByDictionary(entries, local)
            <==> if entries == [] then local == None else Whole(local) || Find(entries, Trunc(local.value)).None?
  {
  }

  /**
   The dense table is what the owner wrote exactly on labels that have an entry and are whole, or whose entry is 0; with
   an empty dictionary only on the label 0.
   */
  lemma {:induction false} TableIsOwner(entries: Entries<int>, local: Value)
    ensures ByTable(entries, local) == ByOwner(entries, local)
            <==> if entries == [] then local == Some(0.0)
                 else local.Some? && var found := Find(entries, Trunc(local.value));
                      found.Some? && (Whole(local) || found.value == 0)
  {
    if local.Some? && !Whole(local) && entries != [] {
      assert ByOwner(entries, local) == Some(0.0);
    }
  }

  /** A fractional cycle has no entry in the dictionary, but is cut to one in the table. */
  lemma {:induction false} FractionIsCut()
    ensures ByDictionary([(2, 7)], Some(2.5)) == None && ByTable([(2, 7)], Some(2.5)) == Some(7.0)
  {
    assert 2.5.Floor == 2;
    assert Find([(2, 7)], 2) == Some(7);
  }

  predicate Within(entries: Entries<int>, low: int, high: int) {
    forall k :: 0 <= k < |entries| ==> low <= entries[k].0 <= high
  }

  lemma {:induction false} NoneOutside(entries: Entries<int>, low: int, high: int, key: int)
    requires Within(entries, low, high) && !(low <= key <= high)
    ensures Find(entries, key).None?
  {
    if entries != [] {
      NoneOutside(entries[..|entries| - 1], low, high, key);
    }
  }

  method Extent(entries: Entries<int>) returns (low: int, high: int)
    requires entries != []
    ensures Within(entries, low, high)
    ensures exists k :: 0 <= k < |entries| && entries[k].0 == low
    ensures exists k :: 0 <= k < |entries| && entries[k].0 == high
  {
    low, high := entries[0].0, entries[0].0;
    for k := 1 to |entries|
      invariant forall j :: 0 <= j < k ==> low <= entries[j].0 <= high
      invariant exists j :: 0 <= j < |entries| && entries[j].0 == low
      invariant exists j :: 0 <= j < |entries| && entries[j].0 == high
    {
      if entries[k].0 < low { low := entries[k].0; }
      if entries[k].0 > high { high := entries[k].0; }
    }
  }

  function Limit(n: nat): nat { if n * 32 > 4096 then n * 32 else 4096 }

  /** Two labels of the dictionary lie further apart than the table may be long. */
  ghost predicate TooWide(entries: Entries<int>) {
    exists i, j :: 0 <= i < |entries| && 0 <= j < |entries| && entries[j].0 - entries[i].0 > Limit(|entries|)
  }

  method FillTable(entries: Entries<int>, low: int, high: int) returns (table: array<Value>)
    requires low <= high && Within(entries, low, high)
    ensures fresh(table) && table.Length == high - low + 1
    ensures forall i :: 0 <= i < table.Length ==> table[i] == AsValue(Find(entries, low + i))
  {
    table := new Value[high - low + 1](i => None);
    for k := 0 to |entries|
      invariant forall i :: 0 <= i < table.Length ==> table[i] == AsValue(Find(entries[..k], low + i))
    {
      assert entries[..k + 1][..k] == entries[..k];
      table[entries[k].0 - low] := Some(entries[k].1 as real);
    }
    assert entries[..|entries|] == entries;
  }

  /** Map labels through a table; `None` is the error for a span that is not dense enough. */
  method DenseCycleMapping(labels: seq<Value>, entries: Entries<int>) returns (mapped: Option<seq<Value>>)
    ensures mapped.None? <==> TooWide(entries)
    ensures mapped.Some? ==> |mapped.value| == |labels|
                             && forall i :: 0 <= i < |labels| ==> mapped.value[i] == ByTable(entries, labels[i])
  {
    if entries == [] {
      return Some(labels);
    }
    var low, high := Extent(entries);
    if high - low > Limit(|entries|) {
      return None;
    }
    var table := FillTable(entries, low, high);
    var numeric := seq(|labels|, i => None);
    for k := 0 to |labels|
      invariant forall i :: 0 <= i < table.Length ==> table[i] == AsValue(Find(entries, low + i))
      invariant |numeric| == |labels|
      invariant forall i :: 0 <= i < k ==> numeric[i] == ByTable(entries, labels[i])
      invariant forall i :: k <= i < |labels| ==> numeric[i] == None
    {
      if labels[k].Some? {
        var index := Trunc(labels[k].value) - low;
        if 0 <= index < table.Length {
          numeric := numeric[k := table[index]];
        } else {
          NoneOutside(entries, low, high, low + index);
        }
        assert low + index == Trunc(labels[k].value);
      }
    }
    mapped := Some(numeric);
  }

  /** The dictionary for a source, if it has one. */
  function MapOf(maps: seq<(string, Entries<int>)>, hash: Option<string>): Option<Entries<int>> {
    if maps == [] then None
    else if hash == Some(maps[|maps| - 1].0) then Some(maps[|maps| - 1].1)
    else MapOf(maps[..|maps| - 1], hash)
  }

  function Remap(maps: seq<(string, Entries<int>)>, row: Row): Value {
    var entries := MapOf(maps, row.hash);
    if entries.Some? then ByTable(entries.value, row.sourceCycle) else row.cycle
  }

  predicate Remaps(frame: Frame, s: Settings) { s.maps != [] && frame.hasHash && frame.hasSourceCycle }

  function Remapped(frame: Frame, s: Settings): Frame {
    if !Remaps(frame, s) then frame
    else frame.(rows := seq(|frame.rows|, i requires 0 <= i < |frame.rows| =>
                              frame.rows[i].(cycle := Remap(s.maps, frame.rows[i]))))
  }

  /** Some map in use is too wide for its table. */
  ghost predicate Refused(rows: seq<Row>, maps: seq<(string, Entries<int>)>) {
    exists k, i :: 0 <= k < |maps| && 0 <= i < |rows| && rows[i].hash == Some(maps[k].0) && TooWide(maps[k].1)
  }

  method PositionsOf(rows: seq<Row>, hash: string) returns (mask: seq<nat>)
    ensures forall i: nat :: i in mask <==> i < |rows| && rows[i].hash == Some(hash)
    ensures forall k :: 0 <= k < |mask| ==> mask[k] < |rows|
    ensures forall a, b :: 0 <= a < b < |mask| ==> mask[a] < mask[b]
  {
    mask := [];
    for i := 0 to |rows|
      invariant forall j: nat :: j in mask <==> j < i && rows[j].hash == Some(hash)
      invariant forall k :: 0 <= k < |mask| ==> mask[k] < i
      invariant forall a, b :: 0 <= a < b < |mask| ==> mask[a] < mask[b]
    {
      if rows[i].hash == Some(hash) {
        mask := mask + [i];
      }
    }
  }

  /** One source: its rows take what its table says, all others stay. */
  method RemapSource(rows: seq<Row>, hash: string, entries: Entries<int>, values: array<Value>) returns (ok: bool)
    requires values.Length == |rows|
    modifies values
    ensures !ok <==> TooWide(entries) && exists i :: 0 <= i < |rows| && rows[i].hash == Some(hash)
    ensures ok ==> forall i :: 0 <= i < |rows| ==>
              values[i] == if rows[i].hash == Some(hash) then ByTable(entries, rows[i].sourceCycle) else old(values[i])
  {
    var mask := PositionsOf(rows, hash);
    if mask == [] {
      assert forall i: nat :: i < |rows| ==> i !in mask;
      return true;
    }
    assert mask[0] in mask;
    var local := seq(|mask|, k requires 0 <= k < |mask| => rows[mask[k]].sourceCycle);
    var mapped := DenseCycleMapping(local, entries);
    if mapped.None? {
      return false;
    }
    for k := 0 to |mask|
      invariant forall j :: 0 <= j < k ==> values[mask[j]] == ByTable(entries, rows[mask[j]].sourceCycle)
      invariant forall i: nat :: i < |rows| && i !in mask ==> values[i] == old(values[i])
    {
      values[mask[k]] := mapped.value[k];
    }
    ok := true;
  }

  /** Apply every source's dictionary to the rows of that source; `None` is the error of a map in use. */
  method ApplyOwnerCycleMapping(frame: Frame, s: Settings) returns (r: Option<Frame>)
    ensures r.None? <==> Remaps(frame, s) && Refused(frame.rows, s.maps)
    ensures r.Some? ==> r.value == Remapped(frame, s)
  {
    if s.maps == [] || !frame.hasHash || !frame.hasSourceCycle {
      return Some(frame);
    }
    var rows := frame.rows;
    var values := new Value[|rows|](i requires 0 <= i < |rows| => rows[i].cycle);
    for k := 0 to |s.maps|
      invariant !Refused(rows, s.maps[..k])
      invariant values.Length == |rows|
      invariant forall i :: 0 <= i < |rows| ==> values[i] == Remap(s.maps[..k], rows[i])
    {
      assert s.maps[..k + 1][..k] == s.maps[..k];
      ghost var before := values[..];
      var ok := RemapSource(rows, s.maps[k].0, s.maps[k].1, values);
      if !ok {
        return None;
      }
    }
    assert s.maps[..|s.maps|] == s.maps;
    r := Some(frame.(rows := seq(|rows|, i requires 0 <= i < |rows| reads values requires values.Length == |rows| =>
                                   rows[i].(cycle := values[i]))));
  }

  // ---------------------------------------------------------------- provenance

  /** Expand a compact table back to one hash per row; an index outside the table reads as missing. */
  function Expand(indices: seq<Option<nat>>, table: seq<string>): seq<Option<string>> {
    seq(|indices|, k requires 0 <= k < |indices| =>
      if indices[k].Some? && indices[k].value < |table| then Some(table[indices[k].value]) else None)
  }

  /** The last position of a hash in the table. */
  function Position(table: seq<string>, hash: string): (p: Option<nat>)
    ensures p.None? <==> hash !in table
    ensures p.Some? ==> p.value < |table| && table[p.value] == hash
  {
    if table == [] then None
    else if table[|table| - 1] == hash then Some(|table| - 1)
    else Position(table[..|table| - 1], hash)
  }

  /** First the known sources in their order, then any other hash at its first row. */
  method BuildTable(hashes: seq<Option<string>>, sourceOrder: seq<string>) returns (table: seq<string>)
    ensures forall h :: h in table <==> Some(h) in hashes
    ensures Distinct(sourceOrder) ==> Distinct(table)
  {
    table := [];
    for k := 0 to |sourceOrder|
      invariant forall h :: h in table <==> h in sourceOrder[..k] && Some(h) in hashes
      invariant Distinct(sourceOrder) ==> Distinct(table)
    {
      assert sourceOrder[..k + 1] == sourceOrder[..k] + [sourceOrder[k]];
      if Some(sourceOrder[k]) in hashes {
        assert Distinct(sourceOrder) ==> sourceOrder[k] !in sourceOrder[..k];
        table := table + [sourceOrder[k]];
      }
    }
    for k := 0 to |hashes|
      invariant forall h :: h in table ==> Some(h) in hashes
      invariant forall j :: 0 <= j < k && hashes[j].Some? ==> hashes[j].value in table
      invariant Distinct(sourceOrder) ==> Distinct(table)
    {
      if hashes[k].Some? && hashes[k].value !in table {
        table := table + [hashes[k].value];
      }
    }
  }

  /** Encode provenance against a table. Expanding the encoding gives the hashes back. */
  method EncodeProvenance(hashes: seq<Option<string>>, sourceOrder: seq<string>)
    returns (indices: seq<Option<nat>>, table: seq<string>)
    ensures Expand(indices, table) == hashes
    ensures forall h :: h in table <==> Some(h) in hashes
    ensures Distinct(sourceOrder) ==> Distinct(table)
  {
    table := BuildTable(hashes, sourceOrder);
    indices := [];
    for k := 0 to |hashes|
      invariant |indices| == k
      invariant forall j :: 0 <= j < k ==>
                  indices[j] == if hashes[j].Some? then Position(table, hashes[j].value) else None
    {
      indices := indices + [if hashes[k].Some? then Position(table, hashes[k].value) else None];
    }
    forall j | 0 <= j < |hashes| ensures Expand(indices, table)[j] == hashes[j] {
      if hashes[j].Some? {
        assert hashes[j] in hashes;
      }
    }
  }

  // ---------------------------------------------------------------- payload

  /**
   The analysis functions the projection calls, as they are, one value per row of the frame they are given.
   `downsample` chooses the rows to keep of a long frame.
   */
  datatype Engine = Engine(phase: (Frame, nat) -> string, time: (Frame, nat) -> Value, capacity: (Frame, nat) -> Value,
                           displayX: (Frame, nat) -> Value, downsample: (Frame, int) -> seq<nat>,
                           round: (real, nat) -> real)

  /** An item of a list made from a float array. */
  datatype Item = Missing | NotANumber | Number(value: real)

  /** Compact provenance: table indices and table. */
  datatype Compact = Compact(indices: seq<Option<nat>>, table: seq<string>)

  /** `hashes` and `compact` are keys the payload may lack. */
  datatype Payload = Payload(cycle: seq<Option<int>>, displayX: seq<Value>, capacity: seq<Value>, voltage: seq<Value>,
                             current: seq<Value>, time: seq<Value>, phase: seq<string>, sourceCycle: seq<Value>,
                             boundaries: seq<nat>, hashes: Option<seq<Option<string>>>, compact: Option<Compact>)

  /** Null conversion of a rounded array, element by element. */
  function Plot(e: Engine, digits: nat, values: seq<Value>): seq<Value> {
    seq(|values|, k requires 0 <= k < |values| =>
      if values[k].Some? then Some(e.round(values[k].value, digits)) else None)
  }

  function ToList(e: Engine, digits: nat, values: seq<Value>): seq<Item> {
    seq(|values|, k requires 0 <= k < |values| =>
      if values[k].Some? then Number(e.round(values[k].value, digits)) else NotANumber)
  }

  /** The second null conversion, over the list made from the rounded array. */
  function PlotList(e: Engine, digits: nat, values: seq<Value>): seq<Value> {
    var items := ToList(e, digits, values);
    seq(|items|, k requires 0 <= k < |items| =>
      if items[k].Missing? || items[k].NotANumber? then None else Some(items[k].value))
  }

  lemma {:induction false} PlotListIsPlot(e: Engine, digits: nat, values: seq<Value>)
    ensures PlotList(e, digits, values) == Plot(e, digits, values)
  {
  }

  function Safe(e: Engine, f: Features, digits: nat, values: seq<Value>): seq<Value> {
    if f.t14 then PlotList(e, digits, values) else Plot(e, digits, values)
  }

  function WholeCycles(values: seq<Value>): seq<Option<int>> {
    seq(|values|, k requires 0 <= k < |values| => if values[k].Some? then Some(Trunc(values[k].value)) else None)
  }

  function PerRow<T>(frame: Frame, read: (Frame, nat) -> T): seq<T> {
    seq(|frame.rows|, k requires 0 <= k < |frame.rows| => read(frame, k))
  }

  function HashColumn(rows: seq<Row>): seq<Option<string>> { Column(rows, (r: Row) => r.hash) }

  function SourceCycles(rows: seq<Row>): seq<Value> { Column(rows, (r: Row) => r.sourceCycle) }

  /** Continuous time replaces the clock when time is plotted. */
  function Timed(frame: Frame, s: Settings, e: Engine): Frame {
    if !s.axis.TimeAxis? then frame
    else frame.(rows := seq(|frame.rows|, k requires 0 <= k < |frame.rows| =>
                              frame.rows[k].(time := e.time(frame, k))))
  }

  /** A segment starts at row `k`; a missing number differs from everything. */
  predicate Boundary(frame: Frame, k: nat) {
    0 < k < |frame.rows| && (frame.rows[k].segment != frame.rows[k - 1].segment || frame.rows[k].segment.None?)
  }

  predicate InRange(take: seq<nat>, n: nat) { forall k :: 0 <= k < |take| ==> take[k] < n }

  function MaxPoints(s: Settings): int { if s.maxPoints == 0 then 4000 else s.maxPoints }

  /** The kept rows and every segment start, ascending; `None` for a kept row that does not exist. */
  function Take(frame: Frame, s: Settings, e: Engine): (take: Option<seq<nat>>)
    ensures take.Some? ==> InRange(take.value, |frame.rows|)
  {
    var n := |frame.rows|;
    if n <= MaxPoints(s) then Some(Identity(n))
    else
      var kept := e.downsample(frame, MaxPoints(s));
      if !InRange(kept, n) then None
      else
        var all := set k: nat | k < n && (k in kept || Boundary(frame, k));
        OrderedMembers(all, 0, n);
        var ordered := Ordered(all, 0, n);
        assert forall i :: 0 <= i < |ordered| ==> ordered[i] in ordered;
        Some(seq(|ordered|, i requires 0 <= i < |ordered| => ordered[i]))
  }

  function Gaps(take: seq<nat>): seq<nat> { GapsTo(take, |take|) }

  function GapsTo(take: seq<nat>, n: nat): seq<nat>
    requires n <= |take|
  {
    if n < 2 then [] else GapsTo(take, n - 1) + (if take[n - 1] as int - take[n - 2] as int > 1 then [n - 2] else [])
  }

  lemma {:induction false} HashesCommute(rows: seq<Row>, take: seq<nat>)
    requires InRange(take, |rows|)
    ensures Gather(HashColumn(rows), take) == HashColumn(Gather(rows, take))
  {
  }

  lemma {:induction false} SourceCyclesCommute(rows: seq<Row>, take: seq<nat>)
    requires InRange(take, |rows|)
    ensures Gather(SourceCycles(rows), take) == SourceCycles(Gather(rows, take))
  {
  }

  /** The payload of the unchanged projection for a selected frame and the rows taken. */
  function Reference(selected: Frame, take: seq<nat>, s: Settings, e: Engine): Payload
    requires InRange(take, |selected.rows|)
  {
    var frame := Timed(selected, s, e);
    Payload(WholeCycles(Gather(Column(frame.rows, (r: Row) => r.cycle), take)),
            Plot(e, 6, Gather(PerRow(frame, e.displayX), take)),
            Plot(e, 6, if s.axis.CapacityAxis? then Gather(PerRow(frame, e.capacity), take) else Nones(|take|)),
            Plot(e, 5, Gather(Column(frame.rows, (r: Row) => r.voltage), take)),
            Plot(e, 5, Gather(Column(frame.rows, (r: Row) => r.current), take)),
            Plot(e, 3, Gather(Column(frame.rows, (r: Row) => r.time), take)),
            Gather(PerRow(selected, e.phase), take),
            SourceCycles(Gather(frame.rows, take)),
            Gaps(take),
            Some(if frame.hasHash then HashColumn(Gather(frame.rows, take)) else NoHashes(|take|)),
            None)
  }

  function Nones(n: nat): seq<Value> { seq(n, k => None) }

  function NoHashes(n: nat): seq<Option<string>> { seq(n, k => None) }

  /** What the consumer sees: with T13 a compact payload is expanded, replacing any hashes, and the table dropped. */
  function Consumer(p: Payload, f: Features): Payload {
    if f.t13 && p.compact.Some?
    then p.(hashes := Some(Expand(p.compact.value.indices, p.compact.value.table)), compact := None)
    else p.(compact := None)
  }

  datatype Fault = MapTooWide | RowMissing

  datatype Outcome = Done(payload: Payload) | Raised(fault: Fault)

  /** The rows the payload is made of, or the error raised before. */
  ghost function Chosen(frame: Frame, s: Settings, f: Features): Option<Frame> {
    if f.t8 && Remaps(frame, s) && Refused(frame.rows, s.maps) then None
    else Some(Selected(Source(frame, s, f), s, f))
  }

  /** What the consumer sees of a projection. */
  ghost function Seen(frame: Frame, s: Settings, f: Features, e: Engine): Outcome {
    var selected := Chosen(frame, s, f);
    if selected.None? then Raised(MapTooWide)
    else
      var take := Take(Timed(selected.value, s, e), s, e);
      if take.None? then Raised(RowMissing)
      else
        var plain := Reference(selected.value, take.value, s, e);
        Done(if f.t13 && !frame.hasHash then plain.(hashes := Some([])) else plain)
  }

  /** Gather the provenance columns, by rows or by columns. */
  method GatherProvenance(frame: Frame, take: seq<nat>, f: Features)
    returns (hashes: seq<Option<string>>, sourceCycle: seq<Value>)
    requires InRange(take, |frame.rows|)
    ensures hashes == HashColumn(Gather(frame.rows, take)) && sourceCycle == SourceCycles(Gather(frame.rows, take))
  {
    if f.t10 {
      hashes := Gather(HashColumn(frame.rows), take);
      sourceCycle := Gather(SourceCycles(frame.rows), take);
      HashesCommute(frame.rows, take);
      SourceCyclesCommute(frame.rows, take);
    } else {
      var rows := Gather(frame.rows, take);
      hashes := HashColumn(rows);
      sourceCycle := SourceCycles(rows);
    }
  }

  /** Build the payload for a selected frame and the rows taken. */
  method Emit(selected: Frame, take: seq<nat>, s: Settings, f: Features, e: Engine) returns (p: Payload)
    requires InRange(take, |selected.rows|)
    ensures p.compact.Some? ==> f.t13
    ensures Consumer(p, f) == var plain := Reference(selected, take, s, e);
                              if f.t13 && !selected.hasHash then plain.(hashes := Some([])) else plain
  {
    var frame := Timed(selected, s, e);
    var hashes, sourceCycle := GatherProvenance(frame, take, f);
    var capacity := if s.axis.CapacityAxis? then Gather(PerRow(frame, e.capacity), take) else Nones(|take|);
    var compactHashes: Option<seq<Option<string>>> := if f.t13 && frame.hasHash then Some(hashes) else None;
    var sourceHash :=
      if compactHashes.Some? then None else if frame.hasHash then Some(hashes) else Some(NoHashes(|take|));
    PlotAll(e);
    p := Payload(WholeCycles(Gather(Column(frame.rows, (r: Row) => r.cycle), take)),
                 Safe(e, f, 6, Gather(PerRow(frame, e.displayX), take)),
                 Safe(e, f, 6, capacity),
                 Safe(e, f, 5, Gather(Column(frame.rows, (r: Row) => r.voltage), take)),
                 Safe(e, f, 5, Gather(Column(frame.rows, (r: Row) => r.current), take)),
                 Safe(e, f, 3, Gather(Column(frame.rows, (r: Row) => r.time), take)),
                 Gather(PerRow(selected, e.phase), take),
                 sourceCycle, Gaps(take), sourceHash, None);
    if f.t13 {
      var indices, table := EncodeProvenance(if compactHashes.Some? then compactHashes.value else [], s.sourceOrder);
      p := p.(compact := Some(Compact(indices, table)));
    }
  }

  lemma {:induction false} PlotAll(e: Engine)
    ensures forall digits, values :: PlotList(e, digits, values) == Plot(e, digits, values)
  {
    forall digits, values ensures PlotList(e, digits, values) == Plot(e, digits, values) {
      PlotListIsPlot(e, digits, values);
    }
  }

  // ---------------------------------------------------------------- the projection in plain terms

  /** `t` is `v` without its fraction. */
  ghost predicate CutTo(v: real, t: int) {
    if v >= 0.0 then t as real <= v < (t + 1) as real else (t - 1) as real < v <= t as real
  }

  /** What a dictionary has for a key; the last entry counts. */
  ghost predicate Entry(entries: Entries<int>, key: int, found: Option<int>) {
    match found
    case None => forall j :: 0 <= j < |entries| ==> entries[j].0 != key
    case Some(x) => exists j :: 0 <= j < |entries| && entries[j] == (key, x)
                                && forall l :: j < l < |entries| ==> entries[l].0 != key
  }

  /** The cycle that a source's map gives a label. */
  ghost predicate MapsTo(entries: Entries<int>, local: Value, cycle: Value) {
    if entries == [] then cycle == local
    else if local == None then cycle == None
    else exists t, found :: CutTo(local.value, t) && Entry(entries, t, found)
                            && cycle == if found == None then None else Some(found.value as real)
  }

  /** The row before selection: as it is, or with T8 with the cycle that its source's map gives its label. */
  ghost predicate Renumbered(frame: Frame, s: Settings, f: Features, row: Row, source: Row) {
    if f.t8 && frame.hasHash && frame.hasSourceCycle && exists k :: 0 <= k < |s.maps| && row.hash == Some(s.maps[k].0)
    then
      && source == row.(cycle := source.cycle)
      && forall k :: 0 <= k < |s.maps| && row.hash == Some(s.maps[k].0)
                     && (forall l :: k < l < |s.maps| ==> row.hash != Some(s.maps[l].0)) ==>
           MapsTo(s.maps[k].1, row.sourceCycle, source.cycle)
    else source == row
  }

  /** A map in use whose keys lie further apart than 4096 and than thirty-two times their number. */
  ghost predicate UsesWideMap(frame: Frame, s: Settings, f: Features) {
    && f.t8 && frame.hasHash && frame.hasSourceCycle
    && exists k, i :: 0 <= k < |s.maps| && 0 <= i < |frame.rows| && frame.rows[i].hash == Some(s.maps[k].0)
                      && FarApart(s.maps[k].1)
  }

  ghost predicate FarApart(entries: Entries<int>) {
    exists a, b :: 0 <= a < |entries| && 0 <= b < |entries|
                   && entries[b].0 - entries[a].0 > 4096 && entries[b].0 - entries[a].0 > 32 * |entries|
  }

  /** The row's cycle is one of those asked for, or in the range asked for. */
  ghost predicate Wanted(s: Settings, row: Row) {
    if s.cycles != [] then exists c :: c in s.cycles && row.cycle == Some(c as real)
    else
      && (s.cycleStart == None || (row.cycle != None && s.cycleStart.value as real <= row.cycle.value))
      && (s.cycleEnd == None || (row.cycle != None && row.cycle.value <= s.cycleEnd.value as real))
  }

  ghost predicate Less(a: Value, b: Value) { a != None && (b == None || a.value < b.value) }

  /** By cycle, then segment, then record index, missing values last. */
  ghost predicate Precedes(x: Row, y: Row) {
    || Less(x.cycle, y.cycle)
    || (x.cycle == y.cycle && Less(x.segment, y.segment))
    || (x.cycle == y.cycle && x.segment == y.segment && Less(x.record, y.record))
  }

  ghost predicate SameKey(x: Row, y: Row) {
    x.cycle == y.cycle && x.segment == y.segment && x.record == y.record
  }

  /**
   `order` lists, each once, the positions of the rows that are wanted, or of all rows if T7 relies on a recorded exact
   selection; sorted, equal keys as they were, or as they were if T6 relies on a recorded order.
   */
  ghost predicate Selects(s: Settings, f: Features, rows: seq<Row>, order: seq<nat>) {
    && (forall p: nat :: p in order <==> p < |rows| && ((f.t7 && s.exactSelection) || Wanted(s, rows[p])))
    && (forall i :: 0 <= i < |order| ==> order[i] < |rows|)
    && forall i, j :: 0 <= i < j < |order| ==>
         if f.t6 && s.canonicalOrder then order[i] < order[j]
         else Precedes(rows[order[i]], rows[order[j]])
              || (SameKey(rows[order[i]], rows[order[j]]) && order[i] < order[j])
  }

  /** The selected rows, with continuous time if time is plotted. */
  ghost predicate Plots(s: Settings, e: Engine, selected: Frame, plotted: Frame) {
    && |plotted.rows| == |selected.rows|
    && plotted.hasHash == selected.hasHash && plotted.hasSourceCycle == selected.hasSourceCycle
    && forall i :: 0 <= i < |selected.rows| ==>
         plotted.rows[i] == if s.axis == TimeAxis then selected.rows[i].(time := e.time(selected, i))
                            else selected.rows[i]
  }

  /** Up to the budget all rows are taken, above it those that the downsampler keeps and all segment starts. */
  ghost predicate Takes(s: Settings, e: Engine, plotted: Frame, take: seq<nat>) {
    var n, budget := |plotted.rows|, if s.maxPoints == 0 then 4000 else s.maxPoints;
    && (forall i, j :: 0 <= i < j < |take| ==> take[i] < take[j]) && (forall i :: 0 <= i < |take| ==> take[i] < n)
    && forall p: nat :: p in take
                        <==> p < n && (n <= budget || p in e.downsample(plotted, budget)
                                       || (p > 0 && (plotted.rows[p].segment != plotted.rows[p - 1].segment
                                                     || plotted.rows[p].segment == None)))
  }

  /** A value rounded to some digits, a missing one missing. */
  ghost predicate Rounds(e: Engine, digits: nat, v: Value, shown: Value) {
    shown == if v == None then None else Some(e.round(v.value, digits))
  }

  /** Entry `k` of every column of the payload, for the row taken there. */
  ghost predicate Carries(p: Payload, s: Settings, e: Engine, selected: Frame, plotted: Frame, take: seq<nat>, k: nat)
    requires k < |take| && take[k] < |plotted.rows| && Sized(p, |take|)
  {
    var row := plotted.rows[take[k]];
    && (if row.cycle == None then p.cycle[k] == None
        else p.cycle[k] != None && CutTo(row.cycle.value, p.cycle[k].value))
    && Rounds(e, 5, row.voltage, p.voltage[k]) && Rounds(e, 5, row.current, p.current[k])
    && Rounds(e, 3, row.time, p.time[k]) && Rounds(e, 6, e.displayX(plotted, take[k]), p.displayX[k])
    && Rounds(e, 6, if s.axis == CapacityAxis then e.capacity(plotted, take[k]) else None, p.capacity[k])
    && p.phase[k] == e.phase(selected, take[k]) && p.sourceCycle[k] == row.sourceCycle
  }

  ghost predicate Sized(p: Payload, n: nat) {
    && |p.cycle| == n && |p.displayX| == n && |p.capacity| == n && |p.voltage| == n && |p.current| == n
    && |p.time| == n && |p.phase| == n && |p.sourceCycle| == n
  }

  /** The hashes of the rows taken, in the payload itself or as places in a table of hashes. */
  ghost predicate Traces(p: Payload, f: Features, plotted: Frame, take: seq<nat>) {
    if f.t13 && !plotted.hasHash then p.compact != None ==> p.compact.value.indices == []
    else if p.compact == None then
      p.hashes != None && |p.hashes.value| == |take|
      && forall k :: 0 <= k < |take| && take[k] < |plotted.rows| ==>
           p.hashes.value[k] == if plotted.hasHash then plotted.rows[take[k]].hash else None
    else
      var c := p.compact.value;
      |c.indices| == |take|
      && forall k :: 0 <= k < |take| && take[k] < |plotted.rows| ==>
           var hash := plotted.rows[take[k]].hash;
           if hash == None then c.indices[k] == None || c.indices[k].value >= |c.table|
           else c.indices[k] != None && c.indices[k].value < |c.table| && c.table[c.indices[k].value] == hash.value
  }

  /** Rows are missing behind the `k`-th row taken. */
  ghost predicate GapAt(take: seq<nat>, k: nat) { k + 1 < |take| && take[k + 1] as int - take[k] as int > 1 }

  ghost predicate GapsOf(boundaries: seq<nat>, take: seq<nat>) {
    && (forall i, j :: 0 <= i < j < |boundaries| ==> boundaries[i] < boundaries[j])
    && forall k: nat :: k in boundaries <==> GapAt(take, k)
  }

  /** All of the payload. */
  ghost predicate Describes(p: Payload, s: Settings, f: Features, e: Engine, selected: Frame, plotted: Frame,
                            take: seq<nat>)
  {
    && Sized(p, |take|)
    && (forall k :: 0 <= k < |take| && take[k] < |plotted.rows| ==> Carries(p, s, e, selected, plotted, take, k))
    && GapsOf(p.boundaries, take) && Traces(p, f, plotted, take)
  }

  lemma {:induction false} FindIsEntry(entries: Entries<int>, key: int)
    ensures Entry(entries, key, Find(entries, key))
    decreases |entries|
  {
    if entries != [] {
      FindIsEntry(entries[..|entries| - 1], key);
      if entries[|entries| - 1].0 == key {
        assert entries[|entries| - 1] == (key, Find(entries, key).value);
      } else if Find(entries, key).Some? {
        var front := entries[..|entries| - 1];
        var j :| 0 <= j < |front| && front[j] == (key, Find(front, key).value)
                 && forall l :: j < l < |front| ==> front[l].0 != key;
        assert entries[j] == front[j];
        assert forall l :: j < l < |front| ==> entries[l] == front[l];
      } else {
        assert forall j :: 0 <= j < |entries| - 1 ==> entries[j] == entries[..|entries| - 1][j];
      }
    }
  }

  lemma {:induction false} TruncCuts(v: real)
    ensures CutTo(v, Trunc(v))
  {
  }

  lemma {:induction false} TableMaps(entries: Entries<int>, local: Value)
    ensures MapsTo(entries, local, ByTable(entries, local))
  {
    if entries != [] && local != None {
      TruncCuts(local.value);
      FindIsEntry(entries, Trunc(local.value));
    }
  }

  lemma {:induction false} MapIsLast(maps: seq<(string, Entries<int>)>, hash: Option<string>, k: nat)
    requires k < |maps| && hash == Some(maps[k].0) && forall l :: k < l < |maps| ==> hash != Some(maps[l].0)
    ensures MapOf(maps, hash) == Some(maps[k].1)
    decreases |maps|
  {
    if k < |maps| - 1 {
      MapIsLast(maps[..|maps| - 1], hash, k);
    }
  }

  lemma {:induction false} NoMap(maps: seq<(string, Entries<int>)>, hash: Option<string>)
    requires forall k :: 0 <= k < |maps| ==> hash != Some(maps[k].0)
    ensures MapOf(maps, hash) == None
    decreases |maps|
  {
    if maps != [] {
      NoMap(maps[..|maps| - 1], hash);
    }
  }

  lemma {:induction false} SourceMeaning(frame: Frame, s: Settings, f: Features, i: nat)
    requires i < |frame.rows|
    ensures |Source(frame, s, f).rows| == |frame.rows|
    ensures Renumbered(frame, s, f, frame.rows[i], Source(frame, s, f).rows[i])
  {
    var row := frame.rows[i];
    if f.t8 && frame.hasHash && frame.hasSourceCycle {
      if exists k :: 0 <= k < |s.maps| && row.hash == Some(s.maps[k].0) {
        forall k | 0 <= k < |s.maps| && row.hash == Some(s.maps[k].0)
                   && (forall l :: k < l < |s.maps| ==> row.hash != Some(s.maps[l].0))
          ensures MapsTo(s.maps[k].1, row.sourceCycle, Source(frame, s, f).rows[i].cycle)
        {
          MapIsLast(s.maps, row.hash, k);
          TableMaps(s.maps[k].1, row.sourceCycle);
        }
      } else {
        NoMap(s.maps, row.hash);
      }
    }
  }

  lemma {:induction false} WideIsFar(entries: Entries<int>)
    ensures TooWide(entries) <==> FarApart(entries)
  {
    if i, j :| 0 <= i < |entries| && 0 <= j < |entries| && entries[j].0 - entries[i].0 > Limit(|entries|) {
      assert entries[j].0 - entries[i].0 > 4096;
    }
    if a, b :| 0 <= a < |entries| && 0 <= b < |entries| && entries[b].0 - entries[a].0 > 4096
               && entries[b].0 - entries[a].0 > 32 * |entries| {
      assert entries[b].0 - entries[a].0 > Limit(|entries|);
    }
  }

  lemma {:induction false} WideMeaning(frame: Frame, s: Settings, f: Features)
    ensures f.t8 && Remaps(frame, s) && Refused(frame.rows, s.maps) <==> UsesWideMap(frame, s, f)
  {
    forall k | 0 <= k < |s.maps| ensures TooWide(s.maps[k].1) <==> FarApart(s.maps[k].1) {
      WideIsFar(s.maps[k].1);
    }
  }

  /** `at` are the positions, among the first `n`, of the rows that stay for sorting. */
  ghost predicate StaysAt(s: Settings, f: Features, rows: seq<Row>, n: nat, kept: seq<Row>, at: seq<nat>) {
    && n <= |rows| && |kept| == |at|
    && (forall i, j :: 0 <= i < j < |at| ==> at[i] < at[j])
    && (forall p: nat :: p in at <==> p < n && ((f.t7 && s.exactSelection) || Wanted(s, rows[p])))
    && forall k :: 0 <= k < |at| ==> at[k] < n && kept[k] == rows[at[k]]
  }

  lemma {:induction false} KeepsIsWanted(s: Settings, row: Row)
    ensures Keeps(s, row) <==> Wanted(s, row)
  {
  }

  lemma {:induction false} StaysMore(s: Settings, f: Features, rows: seq<Row>, n: nat, kept: seq<Row>, at: seq<nat>)
    requires n < |rows| && StaysAt(s, f, rows, n, kept, at)
    ensures (f.t7 && s.exactSelection) || Wanted(s, rows[n]) ==>
              StaysAt(s, f, rows, n + 1, kept + [rows[n]], at + [n])
    ensures !((f.t7 && s.exactSelection) || Wanted(s, rows[n])) ==> StaysAt(s, f, rows, n + 1, kept, at)
  {
    assert forall k :: 0 <= k < |at| ==> at[k] in at;
  }

  lemma {:induction false} FilterStays(s: Settings, f: Features, rows: seq<Row>, n: nat) returns (at: seq<nat>)
    requires n <= |rows| && !Unfiltered(s, f)
    ensures StaysAt(s, f, rows, n, Filter(s, rows[..n]), at)
  {
    at := [];
    if n > 0 {
      var before := FilterStays(s, f, rows, n - 1);
      var kept := Filter(s, rows[..n - 1]);
      assert rows[..n][..n - 1] == rows[..n - 1];
      KeepsIsWanted(s, rows[n - 1]);
      StaysMore(s, f, rows, n - 1, kept, before);
      if Keeps(s, rows[n - 1]) {
        at := before + [n - 1];
        assert Filter(s, rows[..n]) == kept + [rows[n - 1]];
      } else {
        at := before;
        assert Filter(s, rows[..n]) == kept + [] == kept;
      }
    }
  }

  lemma {:induction false} KeptStays(frame: Frame, s: Settings, f: Features) returns (at: seq<nat>)
    ensures StaysAt(s, f, frame.rows, |frame.rows|, Kept(frame, s, f), at)
  {
    if Unfiltered(s, f) {
      at := Identity(|frame.rows|);
      forall p: nat ensures p in at <==> p < |frame.rows| {
        assert p < |frame.rows| ==> at[p] == p;
      }
    } else {
      at := FilterStays(s, f, frame.rows, |frame.rows|);
      assert frame.rows[..|frame.rows|] == frame.rows;
    }
  }

  lemma {:induction false} BeforePrecedes(rows: seq<Row>, i: nat, j: nat)
    requires i < |rows| && j < |rows| && Before(rows, i, j)
    ensures Precedes(rows[i], rows[j]) || (SameKey(rows[i], rows[j]) && i < j)
  {
  }

  /** The sorted positions among the rows that stay, seen in all rows. */
  lemma {:induction false} SortedSelects(s: Settings, f: Features, rows: seq<Row>, kept: seq<Row>, at: seq<nat>)
    returns (order: seq<nat>)
    requires StaysAt(s, f, rows, |rows|, kept, at) && !Unsorted(s, f)
    ensures Selects(s, f, rows, order) && |order| == |kept|
    ensures forall k :: 0 <= k < |order| ==> StableSort(kept)[k] == rows[order[k]]
  {
    var sorting := Order(kept);
    OrderArranges(kept);
    ArrangesExactly(sorting, |kept|);
    StableSortMeaning(kept, sorting);
    order := seq(|kept|, k requires 0 <= k < |kept| => at[sorting[k]]);
    forall p: nat ensures p in order <==> p in at {
      if p in at {
        var q: nat :| q < |at| && at[q] == p;
        assert q in sorting;
        var k :| 0 <= k < |sorting| && sorting[k] == q;
        assert order[k] == p;
      }
    }
    forall i, j | 0 <= i < j < |order|
      ensures Precedes(rows[order[i]], rows[order[j]])
              || (SameKey(rows[order[i]], rows[order[j]]) && order[i] < order[j])
    {
      OrderDistinct(kept, i, j);
      BeforePrecedes(kept, sorting[i], sorting[j]);
    }
  }

  lemma {:induction false} OrderDistinct(rows: seq<Row>, i: nat, j: nat)
    requires i < j < |rows|
    ensures |Order(rows)| == |rows| && Order(rows)[i] < |rows| && Order(rows)[j] < |rows|
    ensures Before(rows, Order(rows)[i], Order(rows)[j])
  {
    var order := Order(rows);
    OrderArranges(rows);
    StableSortMeaning(rows, order);
    if order[i] == order[j] {
      DistinctIdentity(|rows|, order, i, j);
    }
  }

  lemma {:induction false} DistinctIdentity(n: nat, order: seq<nat>, i: nat, j: nat)
    requires Arranges(order, n) && i < j < |order|
    ensures order[i] != order[j]
  {
    if order[i] == order[j] {
      var x := order[i];
      WithoutMembers(order, j);
      assert Without(order, j)[i] == x;
      assert x in multiset(Without(order, j));
      assert multiset(order)[x] >= 2;
      IdentityOnce(n, x);
    }
  }

  lemma {:induction false} IdentityOnce(n: nat, x: nat)
    ensures multiset(Identity(n))[x] <= 1
  {
    if n > 0 {
      IdentityOnce(n - 1, x);
      assert Identity(n) == Identity(n - 1) + [n - 1];
      assert n - 1 !in Identity(n - 1);
    }
  }

  lemma {:induction false} SelectedMeaning(frame: Frame, s: Settings, f: Features) returns (order: seq<nat>)
    ensures Selects(s, f, frame.rows, order) && |Selected(frame, s, f).rows| == |order|
    ensures forall k :: 0 <= k < |order| ==> Selected(frame, s, f).rows[k] == frame.rows[order[k]]
  {
    var at := KeptStays(frame, s, f);
    if Unsorted(s, f) {
      order := at;
    } else {
      order := SortedSelects(s, f, frame.rows, Kept(frame, s, f), at);
    }
  }

  /** A row that the downsampler keeps does not exist. */
  ghost predicate KeepsMissingRow(s: Settings, e: Engine, plotted: Frame) {
    var n, budget := |plotted.rows|, if s.maxPoints == 0 then 4000 else s.maxPoints;
    n > budget && exists p: nat :: p in e.downsample(plotted, budget) && p >= n
  }

  lemma {:induction false} TakeMeaning(frame: Frame, s: Settings, e: Engine)
    ensures Take(frame, s, e).None? <==> KeepsMissingRow(s, e, frame)
    ensures Take(frame, s, e).Some? ==> Takes(s, e, frame, Take(frame, s, e).value)
  {
    var n := |frame.rows|;
    if n > MaxPoints(s) {
      var kept := e.downsample(frame, MaxPoints(s));
      if !InRange(kept, n) {
        var k :| 0 <= k < |kept| && kept[k] >= n;
        assert kept[k] in kept;
      } else {
        var all := set k: nat | k < n && (k in kept || Boundary(frame, k));
        OrderedMembers(all, 0, n);
        var ordered, take := Ordered(all, 0, n), Take(frame, s, e).value;
        forall p: nat ensures p in take <==> p in all {
          if i :| 0 <= i < |ordered| && ordered[i] == p {
            assert take[i] == p;
          }
          if i :| 0 <= i < |take| && take[i] == p {
            assert ordered[i] == p;
          }
        }
      }
    } else {
      forall p: nat ensures p in Identity(n) <==> p < n {
        assert p < n ==> Identity(n)[p] == p;
      }
    }
  }

  lemma {:induction false} GapsMeaning(take: seq<nat>, n: nat)
    requires n <= |take|
    ensures forall i, j :: 0 <= i < j < |GapsTo(take, n)| ==> GapsTo(take, n)[i] < GapsTo(take, n)[j]
    ensures forall k: nat :: k in GapsTo(take, n) <==> GapAt(take, k) && k + 1 < n
  {
    if n >= 2 {
      GapsMeaning(take, n - 1);
      var before, last: nat := GapsTo(take, n - 1), n - 2;
      assert forall k :: 0 <= k < |before| ==> before[k] in before;
      assert GapsTo(take, n) == if GapAt(take, last) then before + [last] else before;
    }
  }

  /** What the reference payload holds. */
  lemma {:induction false} ReferenceMeaning(selected: Frame, take: seq<nat>, s: Settings, e: Engine)
    requires InRange(take, |selected.rows|)
    ensures var p, plotted := Reference(selected, take, s, e), Timed(selected, s, e);
            && |plotted.rows| == |selected.rows| && Sized(p, |take|) && GapsOf(p.boundaries, take)
            && (forall k :: 0 <= k < |take| ==> Carries(p, s, e, selected, plotted, take, k))
            && p.hashes.Some? && |p.hashes.value| == |take|
            && forall k :: 0 <= k < |take| ==>
                 p.hashes.value[k] == if plotted.hasHash then plotted.rows[take[k]].hash else None
  {
    var p, plotted := Reference(selected, take, s, e), Timed(selected, s, e);
    GapsMeaning(take, |take|);
    forall k | 0 <= k < |take| ensures Carries(p, s, e, selected, plotted, take, k) {
      if plotted.rows[take[k]].cycle.Some? {
        TruncCuts(plotted.rows[take[k]].cycle.value);
      }
    }
  }

  lemma {:induction false} TracesMeaning(p: Payload, f: Features, plotted: Frame, take: seq<nat>,
                                         hashes: seq<Option<string>>)
    requires |hashes| == |take| && InRange(take, |plotted.rows|)
    requires forall k :: 0 <= k < |take| ==>
               hashes[k] == if plotted.hasHash then plotted.rows[take[k]].hash else None
    requires Consumer(p, f).hashes == Some(if f.t13 && !plotted.hasHash then [] else hashes)
    requires p.compact.Some? ==> f.t13
    ensures Traces(p, f, plotted, take)
  {
    if p.compact.Some? {
      var c := p.compact.value;
      assert |Expand(c.indices, c.table)| == |c.indices|;
      assert forall k :: 0 <= k < |c.indices| ==>
          Expand(c.indices, c.table)[k]
          == if c.indices[k].Some? && c.indices[k].value < |c.table| then Some(c.table[c.indices[k].value]) else None;
    }
  }

  /** The payload, if the consumer sees the reference in it. */
  lemma {:induction false} PayloadMeaning(p: Payload, f: Features, selected: Frame, take: seq<nat>, s: Settings,
                                          e: Engine)
    requires InRange(take, |selected.rows|) && (p.compact.Some? ==> f.t13)
    requires var plain := Reference(selected, take, s, e);
             Consumer(p, f) == if f.t13 && !selected.hasHash then plain.(hashes := Some([])) else plain
    ensures Describes(p, s, f, e, selected, Timed(selected, s, e), take)
  {
    var plain, plotted := Reference(selected, take, s, e), Timed(selected, s, e);
    ReferenceMeaning(selected, take, s, e);
    TracesMeaning(p, f, plotted, take, plain.hashes.value);
    SameColumns(p, plain, s, e, selected, plotted, take);
  }

  lemma {:induction false} SameColumns(p: Payload, plain: Payload, s: Settings, e: Engine, selected: Frame,
                                       plotted: Frame, take: seq<nat>)
    requires p == plain.(hashes := p.hashes, compact := p.compact) && Sized(plain, |take|)
    requires InRange(take, |plotted.rows|)
    requires forall k :: 0 <= k < |take| ==> Carries(plain, s, e, selected, plotted, take, k)
    ensures Sized(p, |take|) && forall k :: 0 <= k < |take| ==> Carries(p, s, e, selected, plotted, take, k)
  {
    forall k | 0 <= k < |take| ensures Carries(p, s, e, selected, plotted, take, k) {
      assert Carries(plain, s, e, selected, plotted, take, k);
    }
  }

  /** The frames a projection goes through, the places of the selected rows, and the rows taken. */
  datatype Stages = Stages(source: Frame, order: seq<nat>, selected: Frame, plotted: Frame, take: seq<nat>)

  ghost predicate SelectsRows(frame: Frame, s: Settings, f: Features, e: Engine, w: Stages) {
    && |w.source.rows| == |frame.rows|
    && (forall i :: 0 <= i < |frame.rows| ==> Renumbered(frame, s, f, frame.rows[i], w.source.rows[i]))
    && Selects(s, f, w.source.rows, w.order)
    && w.selected == frame.(rows := w.selected.rows) && |w.selected.rows| == |w.order|
    && (forall k :: 0 <= k < |w.order| ==>
          w.order[k] < |w.source.rows| && w.selected.rows[k] == w.source.rows[w.order[k]])
    && Plots(s, e, w.selected, w.plotted)
  }

  /** What a projection returns, column by column, for the rows of the given frame. */
  ghost predicate Explains(frame: Frame, s: Settings, f: Features, e: Engine, r: Outcome, w: Stages) {
    && (r == Raised(MapTooWide) <==> UsesWideMap(frame, s, f))
    && (r != Raised(MapTooWide) ==> SelectsRows(frame, s, f, e, w))
    && (r == Raised(RowMissing) <==> !UsesWideMap(frame, s, f) && KeepsMissingRow(s, e, w.plotted))
    && (r.Done? ==>
          Takes(s, e, w.plotted, w.take) && Describes(r.payload, s, f, e, w.selected, w.plotted, w.take))
  }

  lemma {:induction false} StagesOf(frame: Frame, s: Settings, f: Features, e: Engine) returns (w: Stages)
    ensures SelectsRows(frame, s, f, e, w)
    ensures w.selected == Selected(Source(frame, s, f), s, f) && w.plotted == Timed(w.selected, s, e)
    ensures w.take == (var take := Take(w.plotted, s, e); if take.Some? then take.value else [])
  {
    var source := Source(frame, s, f);
    SourceRows(frame, s, f);
    var order := SelectedMeaning(source, s, f);
    var selected := Selected(source, s, f);
    var plotted := Timed(selected, s, e);
    var take := Take(plotted, s, e);
    w := Stages(source, order, selected, plotted, if take.Some? then take.value else []);
  }

  /** A payload in which the consumer sees the reference is explained by the stages. */
  lemma {:induction false} ViewExplained(frame: Frame, s: Settings, f: Features, e: Engine, r: Outcome, w: Stages)
    requires Viewed(r, f) == Seen(frame, s, f, e) && (r.Done? && r.payload.compact.Some? ==> f.t13)
    requires w.selected == Selected(Source(frame, s, f), s, f) && w.plotted == Timed(w.selected, s, e)
    requires w.take == (var take := Take(w.plotted, s, e); if take.Some? then take.value else [])
    requires SelectsRows(frame, s, f, e, w)
    ensures Explains(frame, s, f, e, r, w)
  {
    WideMeaning(frame, s, f);
    TakeMeaning(w.plotted, s, e);
    if r.Done? {
      PayloadMeaning(r.payload, f, w.selected, w.take, s, e);
    }
  }

  /** What the consumer makes of an outcome. */
  function Viewed(r: Outcome, f: Features): Outcome { if r.Done? then Done(Consumer(r.payload, f)) else r }

  /**
   The projection with a set of features. What it returns is said twice: in one piece, as the consumer sees it, for the
   theorems below; and column by column, for the rows of the given frame.
   */
  method Project(frame: Frame, s: Settings, f: Features, e: Engine) returns (r: Outcome)
    ensures Viewed(r, f) == Seen(frame, s, f, e)
    ensures exists w :: Explains(frame, s, f, e, r, w)
  {
    r := ProjectStages(frame, s, f, e);
    ghost var w := StagesOf(frame, s, f, e);
    ViewExplained(frame, s, f, e, r, w);
  }

  method ProjectStages(frame: Frame, s: Settings, f: Features, e: Engine) returns (r: Outcome)
    ensures Viewed(r, f) == Seen(frame, s, f, e) && (r.Done? && r.payload.compact.Some? ==> f.t13)
  {
    var source := frame;
    if f.t8 {
      var mapped := ApplyOwnerCycleMapping(frame, s);
      if mapped.None? {
        return Raised(MapTooWide);
      }
      source := mapped.value;
    }
    var selected := Selected(source, s, f);
    var take := Take(Timed(selected, s, e), s, e);
    if take.None? {
      return Raised(RowMissing);
    }
    var payload := Emit(selected, take.value, s, f, e);
    r := Done(payload);
  }

  lemma {:induction false} SourceRows(frame: Frame, s: Settings, f: Features)
    ensures var source := Source(frame, s, f);
            && |source.rows| == |frame.rows| && source == frame.(rows := source.rows)
            && forall i :: 0 <= i < |frame.rows| ==> Renumbered(frame, s, f, frame.rows[i], source.rows[i])
  {
    forall i | 0 <= i < |frame.rows|
      ensures |Source(frame, s, f).rows| == |frame.rows|
      ensures Renumbered(frame, s, f, frame.rows[i], Source(frame, s, f).rows[i])
    {
      SourceMeaning(frame, s, f, i);
    }
  }

  // ---------------------------------------------------------------- what is selected

  /**
   A row's cycle is what the owner of its source wrote: the mapped label, or the label itself in a source that has no
   labels to map.
   */
  predicate OwnedRow(row: Row, maps: seq<(string, Entries<int>)>) {
    var entries := MapOf(maps, row.hash);
    entries.Some? ==>
      || row.cycle == ByOwner(entries.value, row.sourceCycle)
      || (entries.value == [] && row.cycle == row.sourceCycle)
  }

  ghost predicate Owned(frame: Frame, s: Settings) {
    Remaps(frame, s) ==> forall i :: 0 <= i < |frame.rows| ==> OwnedRow(frame.rows[i], s.maps)
  }

  function RemapRow(row: Row, maps: seq<(string, Entries<int>)>): Row { row.(cycle := Remap(maps, row)) }

  /** The owner made the row display-only, and the table gives it something else than cycle 0. */
  predicate Moved(row: Row, maps: seq<(string, Entries<int>)>) {
    row.cycle == Some(0.0) && Remap(maps, row) != Some(0.0)
  }

  /** A row as it was, or one that has lost cycle 0. */
  predicate Remade(a: Row, b: Row) {
    b == a || (a.cycle == Some(0.0) && b.cycle != Some(0.0) && b == a.(cycle := b.cycle))
  }

  /** Remapping an owned row changes it exactly if it was display-only and the table gives it another cycle or none. */
  lemma {:induction false} RemapOwned(row: Row, maps: seq<(string, Entries<int>)>)
    requires OwnedRow(row, maps)
    ensures Remade(row, RemapRow(row, maps)) && (RemapRow(row, maps) != row <==> Moved(row, maps))
  {
    var entries := MapOf(maps, row.hash);
    if entries.Some? {
      TableIsOwner(entries.value, row.sourceCycle);
    }
  }

  /** Which display-only rows are moved: all but those whose label is cut to one with entry 0, or is itself 0. */
  lemma {:induction false} MovedMeaning(row: Row, maps: seq<(string, Entries<int>)>)
    requires row.cycle == Some(0.0)
    ensures Moved(row, maps)
            <==> var entries := MapOf(maps, row.hash);
                 && entries.Some?
                 && if entries.value == [] then row.sourceCycle != Some(0.0)
                    else row.sourceCycle.None? || Find(entries.value, Trunc(row.sourceCycle.value)) != Some(0)
  {
  }

  /** Remapping a frame whose cycles are its owner's changes it exactly if it holds a display-only row that is moved. */
  lemma {:induction false} RemapIdentity(frame: Frame, s: Settings)
    requires Remaps(frame, s) && Owned(frame, s)
    ensures Remapped(frame, s) == frame <==> forall i :: 0 <= i < |frame.rows| ==> !Moved(frame.rows[i], s.maps)
  {
    var rows := Remapped(frame, s).rows;
    forall i | 0 <= i < |rows| ensures rows[i] == frame.rows[i] <==> !Moved(frame.rows[i], s.maps) {
      RemapOwned(frame.rows[i], s.maps);
      assert rows[i] == RemapRow(frame.rows[i], s.maps);
    }
    if forall i :: 0 <= i < |frame.rows| ==> !Moved(frame.rows[i], s.maps) {
      assert rows == frame.rows;
    }
  }

  predicate AtZero(row: Row) { row.cycle == Some(0.0) }

  /** How many rows have cycle 0, or how many do not. */
  ghost function CountOf(rows: seq<Row>, zero: bool): nat { multiset(Column(rows, AtZero))[zero] }

  lemma {:induction false} CountOne(rows: seq<Row>, row: Row, zero: bool)
    ensures CountOf(rows + [row], zero) == CountOf(rows, zero) + (if AtZero(row) == zero then 1 else 0)
  {
    assert Column(rows + [row], AtZero) == Column(rows, AtZero) + [AtZero(row)];
  }

  lemma {:induction false} CountSort(rows: seq<Row>, zero: bool)
    ensures CountOf(StableSort(rows), zero) == CountOf(rows, zero)
  {
    OrderArranges(rows);
    var read := (p: nat) => p < |rows| && AtZero(rows[p]);
    ColumnOfSame(Order(rows), Identity(|rows|), read);
    assert Column(Order(rows), read) == Column(StableSort(rows), AtZero);
    assert Column(Identity(|rows|), read) == Column(rows, AtZero);
  }

  /** A row that is moved is selected, before or after. */
  ghost predicate Shows(s: Settings, a: seq<Row>, b: seq<Row>)
    requires |a| == |b|
  {
    exists i :: 0 <= i < |a| && ShowsRow(s, a[i], b[i])
  }

  predicate ShowsRow(s: Settings, a: Row, b: Row) { b != a && (Keeps(s, a) || Keeps(s, b)) }

  lemma {:induction false} ShowsStep(s: Settings, a: seq<Row>, b: seq<Row>, n: nat)
    requires |a| == |b| == n + 1
    ensures Shows(s, a, b) <==> Shows(s, a[..n], b[..n]) || ShowsRow(s, a[n], b[n])
  {
    if Shows(s, a[..n], b[..n]) {
      var i :| 0 <= i < n && ShowsRow(s, a[..n][i], b[..n][i]);
      assert ShowsRow(s, a[i], b[i]);
    }
    if Shows(s, a, b) && !ShowsRow(s, a[n], b[n]) {
      var i :| 0 <= i < n && ShowsRow(s, a[i], b[i]);
      assert ShowsRow(s, a[..n][i], b[..n][i]);
    }
  }

  /** How the counts of two selections compare: fewer rows at 0, more elsewhere; `strict` if they are not the same. */
  ghost predicate Loses(a: seq<Row>, b: seq<Row>, strict: bool) {
    && CountOf(b, true) <= CountOf(a, true) && CountOf(a, false) <= CountOf(b, false)
    && (strict ==> CountOf(b, true) < CountOf(a, true) || CountOf(a, false) < CountOf(b, false))
  }

  lemma {:induction false} LosesOne(a: seq<Row>, b: seq<Row>, strict: bool, s: Settings, x: Row, y: Row)
    requires Loses(a, b, strict) && Remade(x, y)
    ensures Loses(if Keeps(s, x) then a + [x] else a, if Keeps(s, y) then b + [y] else b, strict || ShowsRow(s, x, y))
  {
    CountOne(a, x, true);
    CountOne(a, x, false);
    CountOne(b, y, true);
    CountOne(b, y, false);
  }

  /** Rows remade are selected as before, unless one that was changed is selected: then the counts differ. */
  lemma {:induction false} FilterRemade(s: Settings, a: seq<Row>, b: seq<Row>)
    requires |a| == |b| && forall i :: 0 <= i < |a| ==> Remade(a[i], b[i])
    ensures !Shows(s, a, b) ==> Filter(s, a) == Filter(s, b)
    ensures Loses(Filter(s, a), Filter(s, b), Shows(s, a, b))
    decreases |a|
  {
    if a != [] {
      var n := |a| - 1;
      assert Remade(a[n], b[n]);
      FilterRemade(s, a[..n], b[..n]);
      ShowsStep(s, a, b, n);
      FilterStep(s, a);
      FilterStep(s, b);
      LosesOne(Filter(s, a[..n]), Filter(s, b[..n]), Shows(s, a[..n], b[..n]), s, a[n], b[n]);
    }
  }

  lemma {:induction false} FilterStep(s: Settings, rows: seq<Row>)
    requires rows != []
    ensures var front, last := Filter(s, rows[..|rows| - 1]), rows[|rows| - 1];
            Filter(s, rows) == if Keeps(s, last) then front + [last] else front
  {
  }

  lemma {:induction false} FilterShorter(s: Settings, rows: seq<Row>, i: nat)
    requires i < |rows| && !Keeps(s, rows[i])
    ensures |Filter(s, rows)| < |rows|
    decreases |rows|
  {
    FilterStep(s, rows);
    if i < |rows| - 1 {
      FilterShorter(s, rows[..|rows| - 1], i);
    }
  }

  /** The rows selection starts from. */
  function Source(frame: Frame, s: Settings, f: Features): Frame { if f.t8 then Remapped(frame, s) else frame }

  lemma {:induction false} SourceRemade(frame: Frame, s: Settings, f: Features)
    requires Owned(frame, s)
    ensures var rows := Source(frame, s, f).rows;
            && |rows| == |frame.rows|
            && (forall i :: 0 <= i < |rows| ==> Remade(frame.rows[i], rows[i]))
            && (forall i :: 0 <= i < |rows| ==>
                  (rows[i] != frame.rows[i] <==> f.t8 && Remaps(frame, s) && Moved(frame.rows[i], s.maps)))
            && (f.t8 && Remaps(frame, s) ==>
                  forall i :: 0 <= i < |rows| ==> rows[i] == RemapRow(frame.rows[i], s.maps))
  {
    var rows := Source(frame, s, f).rows;
    forall i | 0 <= i < |rows|
      ensures Remade(frame.rows[i], rows[i])
      ensures rows[i] != frame.rows[i] <==> f.t8 && Remaps(frame, s) && Moved(frame.rows[i], s.maps)
    {
      if f.t8 && Remaps(frame, s) {
        RemapOwned(frame.rows[i], s.maps);
      }
    }
  }

  /** T8 refuses the frame. */
  ghost predicate TooWideInUse(frame: Frame, s: Settings, f: Features) {
    f.t8 && Remaps(frame, s) && Refused(frame.rows, s.maps)
  }

  /** T8 moves a display-only row that is selected, with cycle 0 or with what the table gives. */
  ghost predicate MovesSelected(frame: Frame, s: Settings, f: Features) {
    && f.t8 && Remaps(frame, s)
    && exists i :: 0 <= i < |frame.rows| && Moved(frame.rows[i], s.maps)
                   && (Keeps(s, frame.rows[i]) || Keeps(s, RemapRow(frame.rows[i], s.maps)))
  }

  /** Nothing is skipped that would have done something, and no selected row is moved. */
  ghost predicate SelectsAlike(frame: Frame, s: Settings, f: Features) {
    && !MovesSelected(frame, s, f)
    && (Unfiltered(s, f) ==> forall i :: 0 <= i < |frame.rows| ==> Keeps(s, frame.rows[i]))
    && (Unsorted(s, f) ==> InOrder(Filter(s, frame.rows)))
  }

  ghost predicate Sound(frame: Frame, s: Settings, f: Features) {
    !TooWideInUse(frame, s, f) && SelectsAlike(frame, s, f)
  }

  lemma {:induction false} ShowsIsMoves(frame: Frame, s: Settings, f: Features)
    requires Owned(frame, s)
    ensures |Source(frame, s, f).rows| == |frame.rows|
    ensures Shows(s, frame.rows, Source(frame, s, f).rows) <==> MovesSelected(frame, s, f)
  {
    SourceRemade(frame, s, f);
    var a, b := frame.rows, Source(frame, s, f).rows;
    if Shows(s, a, b) {
      var i :| 0 <= i < |a| && ShowsRow(s, a[i], b[i]);
      assert Moved(a[i], s.maps) && b[i] == RemapRow(a[i], s.maps);
    }
    if MovesSelected(frame, s, f) {
      var i :| 0 <= i < |a| && Moved(a[i], s.maps) && (Keeps(s, a[i]) || Keeps(s, RemapRow(a[i], s.maps)));
      assert ShowsRow(s, a[i], b[i]);
    }
  }

  lemma {:induction false} AllKept(s: Settings, rows: seq<Row>)
    requires forall i :: 0 <= i < |rows| ==> Keeps(s, rows[i])
    ensures Filter(s, rows) == rows
  {
    FilterIdentityExactly(s, rows);
  }

  /** Without a moved row, and with the filter skipped only where it keeps all, the same rows stay. */
  lemma {:induction false} KeptAlike(frame: Frame, s: Settings, f: Features)
    requires Owned(frame, s) && !MovesSelected(frame, s, f)
    requires Unfiltered(s, f) ==> forall i :: 0 <= i < |frame.rows| ==> Keeps(s, frame.rows[i])
    ensures Kept(Source(frame, s, f), s, f) == Filter(s, frame.rows)
  {
    var a, b := frame.rows, Source(frame, s, f).rows;
    SourceRemade(frame, s, f);
    ShowsIsMoves(frame, s, f);
    FilterRemade(s, a, b);
    if Unfiltered(s, f) {
      AllKept(s, a);
      forall i | 0 <= i < |a| ensures a[i] == b[i] {
        assert !ShowsRow(s, a[i], b[i]);
      }
      assert a == b;
    }
  }

  /** Otherwise rows stay that no order makes the same. */
  lemma {:induction false} KeptDiffer(frame: Frame, s: Settings, f: Features)
    requires Owned(frame, s)
    requires MovesSelected(frame, s, f)
             || (Unfiltered(s, f) && exists i :: 0 <= i < |frame.rows| && !Keeps(s, frame.rows[i]))
    ensures var a, b := Filter(s, frame.rows), Kept(Source(frame, s, f), s, f);
            |a| != |b| || CountOf(a, true) != CountOf(b, true) || CountOf(a, false) != CountOf(b, false)
  {
    var a, b := frame.rows, Source(frame, s, f).rows;
    SourceRemade(frame, s, f);
    ShowsIsMoves(frame, s, f);
    if !Unfiltered(s, f) {
      FilterRemade(s, a, b);
    } else if i :| 0 <= i < |a| && !Keeps(s, a[i]) {
      FilterShorter(s, a, i);
    } else {
      AllKept(s, a);
      AllRemade(a, b);
    }
  }

  lemma {:induction false} AllRemade(a: seq<Row>, b: seq<Row>)
    requires |a| == |b| && a != b && forall i :: 0 <= i < |a| ==> Remade(a[i], b[i])
    ensures Loses(a, b, true)
  {
    var every := Settings([], None, None, false, false, [], [], OtherAxis, 0);
    AllKept(every, a);
    AllKept(every, b);
    FilterRemade(every, a, b);
    var i :| 0 <= i < |a| && a[i] != b[i];
    assert ShowsRow(every, a[i], b[i]);
  }

  lemma {:induction false} SelectedCounts(frame: Frame, s: Settings, f: Features, zero: bool)
    ensures CountOf(Selected(frame, s, f).rows, zero) == CountOf(Kept(frame, s, f), zero)
    ensures |Selected(frame, s, f).rows| == |Kept(frame, s, f)|
  {
    CountSort(Kept(frame, s, f), zero);
    OrderArranges(Kept(frame, s, f));
  }

  lemma {:induction false} SortSortsRows(rows: seq<Row>)
    ensures InOrder(StableSort(rows))
  {
    var order := Order(rows);
    OrderArranges(rows);
    StableSortMeaning(rows, order);
    forall i, j | 0 <= i < j < |rows| ensures Le(StableSort(rows)[i], StableSort(rows)[j]) {
      assert order[i] == order[j] || Before(rows, order[i], order[j]);
    }
  }

  lemma {:induction false} SortIsIdentity(rows: seq<Row>)
    ensures StableSort(rows) == rows <==> InOrder(rows)
  {
    if InOrder(rows) {
      SortOfInOrder(rows);
    } else {
      SortSortsRows(rows);
    }
  }

  lemma {:induction false} AlikeSelects(frame: Frame, s: Settings, f: Features)
    requires Owned(frame, s) && !MovesSelected(frame, s, f)
    requires Unfiltered(s, f) ==> forall i :: 0 <= i < |frame.rows| ==> Keeps(s, frame.rows[i])
    ensures Selected(Source(frame, s, f), s, f) == Selected(frame, s, A0) <==> SelectsAlike(frame, s, f)
  {
    KeptAlike(frame, s, f);
    SortIsIdentity(Filter(s, frame.rows));
  }

  lemma {:induction false} OthersSelect(frame: Frame, s: Settings, f: Features)
    requires Owned(frame, s)
    requires MovesSelected(frame, s, f)
             || (Unfiltered(s, f) && exists i :: 0 <= i < |frame.rows| && !Keeps(s, frame.rows[i]))
    ensures Selected(Source(frame, s, f), s, f) != Selected(frame, s, A0)
  {
    KeptDiffer(frame, s, f);
    forall zero ensures CountOf(Selected(frame, s, A0).rows, zero) == CountOf(Filter(s, frame.rows), zero) {
      SelectedCounts(frame, s, A0, zero);
    }
    SelectedCounts(frame, s, A0, true);
    SelectedCounts(Source(frame, s, f), s, f, true);
    SelectedCounts(Source(frame, s, f), s, f, false);
  }

  /**
   Main result on selection: on every frame whose cycles are its owner's, whatever the recorded invariants claim, a
   feature set selects what the unchanged projection selects if and only if T8 meets no map in use that is too wide and
   moves no selected row, a skipped filter would have kept every row, and a skipped sort finds the selection in order.
   */
  lemma {:induction false} SelectionParity(frame: Frame, s: Settings, f: Features)
    requires Owned(frame, s)
    ensures Chosen(frame, s, f) == Chosen(frame, s, A0) <==> Sound(frame, s, f)
  {
    if !SelectsAlike(frame, s, f)
       && (MovesSelected(frame, s, f)
           || (Unfiltered(s, f) && exists i :: 0 <= i < |frame.rows| && !Keeps(s, frame.rows[i])))
    {
      OthersSelect(frame, s, f);
    } else {
      AlikeSelects(frame, s, f);
    }
  }

  /** The recorded invariants are true of the frame. */
  ghost predicate Invariants(frame: Frame, s: Settings) {
    && (s.exactSelection ==> forall i :: 0 <= i < |frame.rows| ==> Keeps(s, frame.rows[i]))
    && (s.canonicalOrder ==> InOrder(frame.rows))
  }

  /** With true invariants T6 and T7 change nothing, so only T8 is left. */
  lemma {:induction false} TrueInvariants(frame: Frame, s: Settings, f: Features)
    requires Invariants(frame, s)
    ensures SelectsAlike(frame, s, f) <==> !MovesSelected(frame, s, f)
  {
    if s.canonicalOrder {
      FilterInOrder(s, frame.rows);
    }
  }

  // ---------------------------------------------------------------- parity

  /** How many rows a projection takes. */
  ghost function Taken(o: Outcome): nat { if o.Done? then |o.payload.cycle| else 0 }

  /**
   Main result: for every frame whose cycles are its owner's, every set of features and every engine, if the same rows
   are selected the consumer sees what it sees of the unchanged projection, exactly unless T8 meets a map in use that is
   too wide, where the candidate raises, or T13 meets a frame without provenance column and some row is taken, where the
   consumer finds an empty list instead of one missing hash per row. (If other rows are selected see
   `ParityForEveryEngine`.)
   */
  lemma {:induction false} CandidateParity(frame: Frame, s: Settings, f: Features, e: Engine)
    requires Owned(frame, s)
    ensures SelectsAlike(frame, s, f) ==>
              (Seen(frame, s, f, e) == Seen(frame, s, A0, e)
               <==> !TooWideInUse(frame, s, f)
                    && (!f.t13 || frame.hasHash || Taken(Seen(frame, s, A0, e)) == 0))
    ensures TooWideInUse(frame, s, f) ==> Seen(frame, s, f, e) != Seen(frame, s, A0, e)
  {
    SelectionParity(frame, s, f);
    if Sound(frame, s, f) {
      ViewOfSame(frame, s, f, e);
    }
  }

  /** If the same rows are selected the view is the same, or has an empty list in place of missing hashes. */
  lemma {:induction false} ViewOfSame(frame: Frame, s: Settings, f: Features, e: Engine)
    requires Chosen(frame, s, f) == Chosen(frame, s, A0)
    ensures Seen(frame, s, f, e) == Seen(frame, s, A0, e)
            <==> !f.t13 || frame.hasHash || Taken(Seen(frame, s, A0, e)) == 0
  {
    var plain := Seen(frame, s, A0, e);
    if f.t13 && !frame.hasHash && plain.Done? {
      assert plain.payload.hashes == Some(NoHashes(|plain.payload.cycle|));
      assert Seen(frame, s, f, e) == Done(plain.payload.(hashes := Some([])));
      assert |NoHashes(|plain.payload.cycle|)| == |plain.payload.cycle|;
    }
  }

  /** An engine that keeps the first row of a long frame and tells one frame from all others. */
  function Telling(frame: Frame): Engine {
    Engine((x: Frame, k: nat) => if x == frame then "this" else "other", (x: Frame, k: nat) => None,
           (x: Frame, k: nat) => None, (x: Frame, k: nat) => None,
           (x: Frame, n: int) => if x.rows == [] then [] else [0],
           (v: real, digits: nat) => v)
  }

  lemma {:induction false} TellingTakes(frame: Frame, known: Frame, s: Settings)
    ensures Take(frame, s, Telling(known)).Some?
    ensures frame.rows != [] <==> Take(frame, s, Telling(known)).value != []
  {
    var n := |frame.rows|;
    if n > MaxPoints(s) {
      var kept := Telling(known).downsample(frame, MaxPoints(s));
      assert kept == if frame.rows == [] then [] else [0];
      var all := set k: nat | k < n && (k in kept || Boundary(frame, k));
      OrderedMembers(all, 0, n);
      if frame.rows != [] {
        assert 0 in all;
        assert 0 in Ordered(all, 0, n);
      } else {
        assert Ordered(all, 0, n) == [];
      }
    }
  }

  lemma {:induction false} TellsAll(frame: Frame, p: seq<nat>, s: Settings, known: Frame)
    requires InRange(p, |frame.rows|)
    ensures var phase := Reference(frame, p, s, Telling(known)).phase;
            |phase| == |p|
            && forall k :: 0 <= k < |p| ==> phase[k] == if frame == known then "this" else "other"
  {
  }

  /** Frames that differ are told apart, as soon as one of them has a row. */
  lemma {:induction false} TellingApart(a: Frame, b: Frame, s: Settings, p: seq<nat>, q: seq<nat>)
    requires a != b && a.hasHash == b.hasHash && a.hasSourceCycle == b.hasSourceCycle
    requires Take(Timed(a, s, Telling(a)), s, Telling(a)) == Some(p)
    requires Take(Timed(b, s, Telling(a)), s, Telling(a)) == Some(q)
    ensures InRange(p, |a.rows|) && InRange(q, |b.rows|)
    ensures Reference(a, p, s, Telling(a)).phase != Reference(b, q, s, Telling(a)).phase
  {
    TellingTakes(Timed(a, s, Telling(a)), a, s);
    TellingTakes(Timed(b, s, Telling(a)), a, s);
    var e := Telling(a);
    assert a.rows != [] || b.rows != [];
    var x, y := Reference(a, p, s, e).phase, Reference(b, q, s, e).phase;
    TellsAll(a, p, s, a);
    TellsAll(b, q, s, a);
    assert "this"[0] != "other"[0];
    assert p != [] ==> x[0] == "this";
    assert q != [] ==> y[0] == "other";
  }

  lemma {:induction false} OtherRowsTold(frame: Frame, s: Settings, f: Features)
    requires Chosen(frame, s, f).Some? && Chosen(frame, s, f) != Chosen(frame, s, A0)
    ensures var e := Telling(Selected(frame, s, A0)); Seen(frame, s, f, e) != Seen(frame, s, A0, e)
  {
    var plain, other := Selected(frame, s, A0), Chosen(frame, s, f).value;
    var e := Telling(plain);
    TellingTakes(Timed(plain, s, e), plain, s);
    TellingTakes(Timed(other, s, e), plain, s);
    TellingApart(plain, other, s, Take(Timed(plain, s, e), s, e).value, Take(Timed(other, s, e), s, e).value);
  }

  lemma {:induction false} TellingTakesSome(frame: Frame, s: Settings)
    ensures var plain := Selected(frame, s, A0);
            Taken(Seen(frame, s, A0, Telling(plain))) != 0 <==> plain.rows != []
  {
    var plain := Selected(frame, s, A0);
    TellingTakes(Timed(plain, s, Telling(plain)), plain, s);
  }

  /**
   Main result: over all engines at once the exception is exact for every frame whose cycles are its owner's, whatever
   the recorded invariants claim: the selection differs as `SelectionParity` says, or T13 meets a frame without
   provenance column of which a row is selected.
   */
  lemma {:induction false} ParityForEveryEngine(frame: Frame, s: Settings, f: Features)
    requires Owned(frame, s)
    ensures (forall e :: Seen(frame, s, f, e) == Seen(frame, s, A0, e))
            <==> Sound(frame, s, f) && (!f.t13 || frame.hasHash || Selected(frame, s, A0).rows == [])
  {
    var known := Telling(Selected(frame, s, A0));
    SelectionParity(frame, s, f);
    if Sound(frame, s, f) {
      forall e
        ensures !f.t13 || frame.hasHash || Selected(frame, s, A0).rows == [] ==>
                  Seen(frame, s, f, e) == Seen(frame, s, A0, e)
      {
        ViewOfSame(frame, s, f, e);
      }
      ViewOfSame(frame, s, f, known);
      TellingTakesSome(frame, s);
    } else if TooWideInUse(frame, s, f) {
      CandidateParity(frame, s, f, known);
    } else {
      OtherRowsTold(frame, s, f);
    }
  }

  // ---------------------------------------------------------------- inputs on which features fail

  const T7 := Features(false, true, false, false, false, false)

  const T8 := Features(false, false, true, false, false, false)

  const T13 := Features(false, false, false, false, true, false)

  function MapsOnly(maps: seq<(string, Entries<int>)>): Settings {
    Settings([], None, None, false, false, maps, [], OtherAxis, 4000)
  }

  /** A row of source "h" with a label and a cycle. */
  function RowOf(local: real, cycle: real): Row {
    Row(Some(cycle), None, None, Some("h"), Some(local), None, None, None)
  }

  lemma {:induction false} SelectedOne(row: Row, column: bool, s: Settings, f: Features)
    requires f == A0 || f == T7 || f == T8 || f == T13
    ensures var kept := Unfiltered(s, f) || Keeps(s, row);
            Selected(Frame([row], column, column), s, f) == Frame(if kept then [row] else [], column, column)
  {
    assert Filter(s, [row][..0]) == [];
    FilterStep(s, [row]);
    assert [] + [row] == [row];
    SortOfInOrder([row]);
    SortOfInOrder([]);
  }

  /** The cycles the consumer sees of one row. */
  function Shown(s: Settings, row: Row): seq<Option<int>> {
    if !Keeps(s, row) then [] else if row.cycle.Some? then [Some(Trunc(row.cycle.value))] else [None]
  }

  lemma {:induction false} SeenOne(frame: Frame, s: Settings, f: Features, e: Engine, chosen: Frame)
    requires Chosen(frame, s, f) == Some(chosen) && |chosen.rows| <= 1 && s.maxPoints == 4000 && s.axis == OtherAxis
    ensures Seen(frame, s, f, e).Done?
    ensures Seen(frame, s, f, e).payload.cycle == WholeCycles(Column(chosen.rows, (r: Row) => r.cycle))
  {
    var n := |chosen.rows|;
    assert Take(Timed(chosen, s, e), s, e) == Some(Identity(n));
    var cycles := Column(chosen.rows, (r: Row) => r.cycle);
    assert Gather(cycles, Identity(n)) == cycles;
  }

  lemma {:induction false} RemappedOne(row: Row, entries: Entries<int>, s: Settings)
    requires row.hash == Some("h") && !TooWide(entries) && s.maps == [("h", entries)]
    ensures var frame := Frame([row], true, true);
            && !Refused(frame.rows, s.maps) && MapOf(s.maps, row.hash) == Some(entries)
            && Remapped(frame, s) == Frame([row.(cycle := ByTable(entries, row.sourceCycle))], true, true)
            && (row.cycle == ByOwner(entries, row.sourceCycle) ==> Owned(frame, s))
  {
    var frame := Frame([row], true, true);
    assert s.maps[0].1 == entries;
    assert Remapped(frame, s).rows == [row.(cycle := ByTable(entries, row.sourceCycle))];
  }

  lemma {:induction false} ViewOne(frame: Frame, s: Settings, f: Features, e: Engine, row: Row)
    requires Chosen(frame, s, f) == Some(Frame(if Keeps(s, row) then [row] else [], true, true))
    requires s.maxPoints == 4000 && s.axis == OtherAxis
    ensures Seen(frame, s, f, e).Done? && Seen(frame, s, f, e).payload.cycle == Shown(s, row)
  {
    var rows := if Keeps(s, row) then [row] else [];
    SeenOne(frame, s, f, e, Frame(rows, true, true));
    assert Shown(s, row) == WholeCycles(Column(rows, (r: Row) => r.cycle));
  }

  /** What the consumer sees of one row, with the steps of the unchanged projection and with T8. */
  lemma {:induction false} MovedOne(row: Row, entries: Entries<int>, s: Settings, e: Engine)
    requires row.hash == Some("h") && !TooWide(entries) && s.maps == [("h", entries)]
    requires s.maxPoints == 4000 && s.axis == OtherAxis
    ensures var frame := Frame([row], true, true);
            && Seen(frame, s, A0, e).Done? && Seen(frame, s, A0, e).payload.cycle == Shown(s, row)
            && Seen(frame, s, T8, e).Done?
            && Seen(frame, s, T8, e).payload.cycle == Shown(s, row.(cycle := ByTable(entries, row.sourceCycle)))
  {
    var frame, moved := Frame([row], true, true), row.(cycle := ByTable(entries, row.sourceCycle));
    RemappedOne(row, entries, s);
    SelectedOne(row, true, s, A0);
    SelectedOne(moved, true, s, T8);
    ViewOne(frame, s, A0, e, row);
    ViewOne(frame, s, T8, e, moved);
  }

  lemma {:induction false} OneOwned(row: Row, entries: Entries<int>, s: Settings)
    requires row.hash == Some("h") && !TooWide(entries) && row.cycle == ByOwner(entries, row.sourceCycle)
    requires s.maps == [("h", entries)] && !s.exactSelection && !s.canonicalOrder
    ensures var frame := Frame([row], true, true);
            Owned(frame, s) && Invariants(frame, s) && !TooWideInUse(frame, s, T8)
  {
    RemappedOne(row, entries, s);
  }

  /** A display-only row as its owner wrote it, which T8 gives another cycle or none. */
  lemma {:induction false} DisplayOnlyMoves(row: Row, entries: Entries<int>, e: Engine)
    requires row.hash == Some("h") && !TooWide(entries)
    requires row.cycle == ByOwner(entries, row.sourceCycle) == Some(0.0)
    requires var moved := ByTable(entries, row.sourceCycle); moved.None? || Trunc(moved.value) != 0
    ensures var s, frame := MapsOnly([("h", entries)]), Frame([row], true, true);
            && Owned(frame, s) && Invariants(frame, s) && !TooWideInUse(frame, s, T8)
            && Seen(frame, s, T8, e) != Seen(frame, s, A0, e)
  {
    var s := MapsOnly([("h", entries)]);
    OneOwned(row, entries, s);
    MovedOne(row, entries, s, e);
    ShownApart(s, row, ByTable(entries, row.sourceCycle));
  }

  lemma {:induction false} ShownApart(s: Settings, row: Row, cycle: Value)
    requires s.cycles == [] && s.cycleStart == None && s.cycleEnd == None
    requires row.cycle == Some(0.0) && (cycle.None? || Trunc(cycle.value) != 0)
    ensures Shown(s, row) != Shown(s, row.(cycle := cycle))
  {
    assert Shown(s, row)[0] == Some(0);
    assert Shown(s, row.(cycle := cycle))[0] != Some(0);
  }

  /** A label without entry: the owner made the row display-only, with T8 it has no cycle. */
  lemma {:induction false} NoEntryShows(e: Engine)
    ensures var s, frame := MapsOnly([("h", [(1, 1)])]), Frame([RowOf(5.0, 0.0)], true, true);
            && Owned(frame, s) && Invariants(frame, s) && !TooWideInUse(frame, s, T8)
            && Seen(frame, s, T8, e) != Seen(frame, s, A0, e)
  {
    var entries := [(1, 1)];
    assert Find(entries[..0], 5) == None && Find(entries, 5) == None;
    DisplayOnlyMoves(RowOf(5.0, 0.0), entries, e);
  }

  /** A fractional label: the owner made the row display-only, T8 gives it the cycle of the label cut to a number. */
  lemma {:induction false} CutRowShows(e: Engine)
    ensures var s, frame := MapsOnly([("h", [(2, 7)])]), Frame([RowOf(2.5, 0.0)], true, true);
            && Owned(frame, s) && Invariants(frame, s) && !TooWideInUse(frame, s, T8)
            && Seen(frame, s, T8, e) != Seen(frame, s, A0, e)
  {
    FractionIsCut();
    DisplayOnlyMoves(RowOf(2.5, 0.0), [(2, 7)], e);
  }

  /** A source without complete cycles, shown from cycle 1: T8 joins its display-only row to cycle 1. */
  lemma {:induction false} EmptyMapShows(e: Engine)
    ensures var s := MapsOnly([("h", [])]).(cycleStart := Some(1));
            var frame := Frame([RowOf(1.0, 0.0)], true, true);
            && Owned(frame, s) && Invariants(frame, s) && !TooWideInUse(frame, s, T8)
            && Seen(frame, s, A0, e).Done? && Seen(frame, s, A0, e).payload.cycle == []
            && Seen(frame, s, T8, e).Done? && Seen(frame, s, T8, e).payload.cycle == [Some(1)]
  {
    var entries: Entries<int>, row := [], RowOf(1.0, 0.0);
    var s := MapsOnly([("h", entries)]).(cycleStart := Some(1));
    OneOwned(row, entries, s);
    MovedOne(row, entries, s, e);
    assert Shown(s, row) == [] && Shown(s, row.(cycle := Some(1.0))) == [Some(1)];
  }

  lemma {:induction false} TakesAll(frame: Frame, s: Settings, f: Features, e: Engine, chosen: Frame)
    requires Chosen(frame, s, f) == Some(chosen) && |chosen.rows| <= MaxPoints(s)
    ensures Seen(frame, s, f, e).Done? && Taken(Seen(frame, s, f, e)) == |chosen.rows|
  {
  }

  /**
   The exact selection is recorded without looking at rows. Of a curve-only source and one with a complete cycle, shown
   from cycle 1, the unchanged projection shows the row of the cycle; T7 shows the display-only row, too.
   */
  lemma {:induction false} DisplayOnlyKept(e: Engine)
    ensures var s := MapsOnly([("f", []), ("h", [(7, 1)])]).(cycleStart := Some(1), exactSelection := true);
            var frame := Frame([RowOf(1.0, 0.0).(hash := Some("f")), RowOf(7.0, 1.0)], true, true);
            && Owned(frame, s) && Taken(Seen(frame, s, A0, e)) == 1 && Taken(Seen(frame, s, T7, e)) == 2
  {
    var maps: seq<(string, Entries<int>)> := [("f", []), ("h", [(7, 1)])];
    var s := MapsOnly(maps).(cycleStart := Some(1), exactSelection := true);
    var curve, cycling := RowOf(1.0, 0.0).(hash := Some("f")), RowOf(7.0, 1.0);
    var frame := Frame([curve, cycling], true, true);
    TwoOwned(maps, curve, cycling);
    FilterTwo(s, curve, cycling);
    TakesAll(frame, s, A0, e, Selected(frame, s, A0));
    TakesAll(frame, s, T7, e, Selected(frame, s, T7));
  }

  lemma {:induction false} TwoOwned(maps: seq<(string, Entries<int>)>, curve: Row, cycling: Row)
    requires maps == [("f", []), ("h", [(7, 1)])]
    requires curve == RowOf(1.0, 0.0).(hash := Some("f")) && cycling == RowOf(7.0, 1.0)
    ensures OwnedRow(curve, maps) && OwnedRow(cycling, maps)
  {
    assert maps[..1] == [maps[0]] && "f"[0] != "h"[0];
    assert MapOf(maps, Some("h")) == Some(maps[1].1) && MapOf(maps[..1], Some("f")) == Some(maps[0].1);
    assert Find(maps[1].1, 7) == Some(1);
  }

  lemma {:induction false} FilterTwo(s: Settings, a: Row, b: Row)
    requires !Keeps(s, a) && Keeps(s, b)
    ensures Filter(s, [a, b]) == [b]
  {
    assert [a, b][..1] == [a] && [a][..0] == [];
    FilterStep(s, [a]);
    FilterStep(s, [a, b]);
  }

  /** A dictionary of two entries that lie too far apart, whose cycles are right: T8 raises. */
  lemma {:induction false} WideMapRaises(e: Engine)
    ensures var s, frame := MapsOnly([("h", [(1, 1), (5000, 2)])]), Frame([RowOf(1.0, 1.0)], true, true);
            && Owned(frame, s) && Invariants(frame, s)
            && Seen(frame, s, T8, e) == Raised(MapTooWide) != Seen(frame, s, A0, e)
  {
    var entries, row := [(1, 1), (5000, 2)], RowOf(1.0, 1.0);
    var s, frame := MapsOnly([("h", entries)]), Frame([row], true, true);
    assert Find(entries[..1], 1) == Some(1) && Find(entries, 1) == Some(1);
    assert MapOf(s.maps, row.hash) == Some(entries) && OwnedRow(row, s.maps);
    assert entries[1].0 - entries[0].0 == 4999 > Limit(2);
    assert TooWide(entries) && s.maps[0].1 == entries && frame.rows[0].hash == Some("h");
    assert Refused(frame.rows, s.maps);
    CandidateParity(frame, s, T8, e);
  }

  /** One row without a provenance column is enough for T13 to change what the consumer sees. */
  lemma {:induction false} NoColumnChangesView(row: Row, e: Engine)
    ensures var s, frame := MapsOnly([]), Frame([row], false, false);
            Invariants(frame, s) && Seen(frame, s, T13, e) != Seen(frame, s, A0, e)
  {
    var s, frame := MapsOnly([]), Frame([row], false, false);
    SelectedOne(row, false, s, A0);
    SeenOne(frame, s, A0, e, frame);
    assert SelectsAlike(frame, s, T13);
    CandidateParity(frame, s, T13, e);
  }

  // ---------------------------------------------------------------- whose map is applied

  /** The first dictionary of a source. */
  function FirstMap(sources: seq<(string, Entries<int>)>, hash: string): Option<Entries<int>> {
    if sources == [] then None
    else
      var before := FirstMap(sources[..|sources| - 1], hash);
      if before.Some? || sources[|sources| - 1].0 != hash then before else Some(sources[|sources| - 1].1)
  }

  /** Each source of each Cell's plan once, with the dictionary of the first plan that has it. */
  ghost predicate Collects(maps: seq<(string, Entries<int>)>, order: seq<string>,
                           sources: seq<(string, Entries<int>)>)
  {
    && order == Column(maps, (m: (string, Entries<int>)) => m.0)
    && forall hash :: MapOf(maps, Some(hash)) == FirstMap(sources, hash)
  }

  /** The maps and the source order that are recorded for all Cells together. */
  method CollectMaps(plans: seq<seq<(string, Entries<int>)>>)
    returns (maps: seq<(string, Entries<int>)>, order: seq<string>)
    ensures Distinct(order) && Collects(maps, order, Flatten(plans))
  {
    maps, order := [], [];
    ghost var sources: seq<(string, Entries<int>)> := [];
    for p := 0 to |plans|
      invariant Distinct(order) && sources == Flatten(plans[..p]) && Collects(maps, order, sources)
    {
      FlattenOne(plans, p);
      maps, order := CollectPlan(plans[p], maps, order, sources);
      sources := sources + plans[p];
    }
    assert plans[..|plans|] == plans;
  }

  method CollectPlan(plan: seq<(string, Entries<int>)>, before: seq<(string, Entries<int>)>, known: seq<string>,
                     ghost sources: seq<(string, Entries<int>)>)
    returns (maps: seq<(string, Entries<int>)>, order: seq<string>)
    requires Distinct(known) && Collects(before, known, sources)
    ensures Distinct(order) && Collects(maps, order, sources + plan)
  {
    maps, order := before, known;
    assert sources + plan[..0] == sources;
    for k := 0 to |plan|
      invariant Distinct(order) && Collects(maps, order, sources + plan[..k])
    {
      CollectOne(maps, order, sources + plan[..k], plan[k]);
      assert sources + plan[..k + 1] == (sources + plan[..k]) + [plan[k]];
      if plan[k].0 !in order {
        maps, order := maps + [plan[k]], order + [plan[k].0];
      }
    }
    assert plan[..|plan|] == plan;
  }

  lemma {:induction false} CollectOne(maps: seq<(string, Entries<int>)>, order: seq<string>,
                                      sources: seq<(string, Entries<int>)>, next: (string, Entries<int>))
    requires Collects(maps, order, sources)
    ensures if next.0 in order then Collects(maps, order, sources + [next])
            else Collects(maps + [next], order + [next.0], sources + [next])
  {
    assert (sources + [next])[..|sources|] == sources && (maps + [next])[..|maps|] == maps;
    MapOfKnown(maps, order, next.0);
  }

  lemma {:induction false} MapOfKnown(maps: seq<(string, Entries<int>)>, order: seq<string>, hash: string)
    requires order == Column(maps, (m: (string, Entries<int>)) => m.0)
    ensures MapOf(maps, Some(hash)).Some? <==> hash in order
    decreases |maps|
  {
    if maps != [] {
      var front := maps[..|maps| - 1];
      MapOfKnown(front, Column(front, (m: (string, Entries<int>)) => m.0), hash);
      assert order == Column(front, (m: (string, Entries<int>)) => m.0) + [maps[|maps| - 1].0];
    }
  }

  /**
   Two Cells that use a source at different places: the recorded map is the first Cell's, so the second Cell's cycles
   are not the recorded owner's, and T8 renumbers them.
   */
  lemma {:induction false} SharedSourceShows(e: Engine)
    ensures var first, second := [("h", [(1, 1)])], [("h", [(1, 2)])];
            var row := RowOf(1.0, 2.0);
            var frame := Frame([row], true, true);
            && (forall maps, order :: Collects(maps, order, first + second) ==>
                  MapOf(maps, row.hash) == Some(first[0].1))
            && OwnedRow(row, second) && !Owned(frame, MapsOnly(first))
            && Seen(frame, MapsOnly(first), T8, e) != Seen(frame, MapsOnly(first), A0, e)
  {
    var first, second := [("h", [(1, 1)])], [("h", [(1, 2)])];
    var row := RowOf(1.0, 2.0);
    var s := MapsOnly(first);
    assert (first + second)[..1] == first && first[..0] == [];
    assert FirstMap(first, "h") == Some(first[0].1) && FirstMap(first + second, "h") == Some(first[0].1);
    assert Find(first[0].1, 1) == Some(1) && Find(second[0].1, 1) == Some(2);
    RemappedOne(row, first[0].1, s);
    MovedOne(row, first[0].1, s, e);
    assert MapOf(second, row.hash) == Some(second[0].1);
    assert Shown(s, row)[0] == Some(2) && Shown(s, row.(cycle := Some(1.0)))[0] == Some(1);
  }
}
