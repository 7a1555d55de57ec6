/** The request-local span timer. */
module Recorder {
  import opened Common

  // Nested spans with inclusive and exclusive times per name. The clock is a real number of seconds that every event
  // carries; times are kept in milliseconds.

  /** An open span: its name, when it started, and the time its direct children took. */
  datatype Frame = Frame(name: string, started: real, child: real)

  datatype Books = Books(
    elapsed: map<string, real>, exclusive: map<string, real>, calls: map<string, int>,
    edges: map<string, set<Option<string>>>, parents: map<string, Option<string>>,
    active: seq<Frame>)

  function Get(m: map<string, real>, n: string): real { if n in m then m[n] else 0.0 }

  function Count(m: map<string, int>, n: string): int { if n in m then m[n] else 0 }

  function EdgesOf(m: map<string, set<Option<string>>>, n: string): set<Option<string>> { if n in m then m[n] else {} }

  function Clamp(x: real): real { if x < 0.0 then 0.0 else x }

  /** The name of the innermost open span, or the caller's hint when nothing is open. */
  function Parent(active: seq<Frame>, hint: Option<string>): Option<string> {
    if active == [] then hint else Some(active[|active| - 1].name)
  }

  // ---------------------------------------------------------------- what each operation does to the books

  function Added(b: Books, name: string, ms: real, exclusive: real, calls: int, hint: Option<string>): Books {
    var parent := Parent(b.active, hint);
    Books(b.elapsed[name := Get(b.elapsed, name) + ms],
          b.exclusive[name := Get(b.exclusive, name) + exclusive],
          b.calls[name := Count(b.calls, name) + calls],
          b.edges[name := EdgesOf(b.edges, name) + {parent}],
          if name in b.parents then b.parents else b.parents[name := parent],
          b.active)
  }

  function Entered(b: Books, name: string, now: real): Books {
    b.(active := b.active + [Frame(name, now, 0.0)])
  }

  function Top(b: Books): Frame
    requires b.active != []
  {
    b.active[|b.active| - 1]
  }

  function Popped(b: Books): Books
    requires b.active != []
  {
    b.(active := b.active[..|b.active| - 1])
  }

  function Duration(started: real, now: real): real { (now - started) * 1000.0 }

  /** Credit the time of a finished span to the span around it. */
  function Credited(b: Books, ms: real): Books {
    if b.active == [] then b
    else b.(active := b.active[|b.active| - 1 := Top(b).(child := Top(b).child + ms)])
  }

  function Left(b: Books, now: real, hint: Option<string>): Books
    requires b.active != []
  {
    var frame := Top(b);
    var ms := Duration(frame.started, now);
    Credited(Added(Popped(b), frame.name, ms, Clamp(ms - frame.child), 1, hint), ms)
  }

  const EMPTY := Books(map[], map[], map[], map[], map[], [])

  class Recorder {
    var elapsedMs: map<string, real>
    var exclusiveMs: map<string, real>
    var calls: map<string, int>
    var parents: map<string, Option<string>>
    var parentEdges: map<string, set<Option<string>>>
    var active: seq<Frame>

    function Contents(): Books
      reads this
    {
      Books(elapsedMs, exclusiveMs, calls, parentEdges, parents, active)
    }

    constructor ()
      ensures Contents() == EMPTY
    {
      elapsedMs, exclusiveMs, calls, parents, parentEdges, active := map[], map[], map[], map[], map[], [];
    }

    /** `exclusive` defaults to the whole elapsed time. */
    method Add(name: string, ms: real, parent: Option<string>, exclusive: Option<real>, count: int)
      modifies this
      ensures Contents()
              == Added(old(Contents()), name, ms, if exclusive.Some? then exclusive.value else ms, count, parent)
    {
      var actual := if active != [] then Some(active[|active| - 1].name) else parent;
      var own := if exclusive.Some? then exclusive.value else ms;
      var inclusiveMap := elapsedMs[name := Get(elapsedMs, name) + ms];
      var exclusiveMap := exclusiveMs[name := Get(exclusiveMs, name) + own];
      var callMap := calls[name := Count(calls, name) + count];
      var edgeMap := parentEdges[name := EdgesOf(parentEdges, name) + {actual}];
      var parentMap := if name in parents then parents else parents[name := actual];
      assert Books(inclusiveMap, exclusiveMap, callMap, edgeMap, parentMap, active)
          == Added(Contents(), name, ms, own, count, parent);
      elapsedMs, exclusiveMs, calls, parentEdges, parents := inclusiveMap, exclusiveMap, callMap, edgeMap, parentMap;
    }

    method Enter(name: string, now: real)
      modifies this
      ensures Contents() == Entered(old(Contents()), name, now)
    {
      active := active + [Frame(name, now, 0.0)];
    }

    /** The `finally` block of a span: it runs on success and on failure alike. */
    method Leave(now: real, parent: Option<string>)
      requires active != []
      modifies this
      ensures Contents() == Left(old(Contents()), now, parent)
    {
      var frame := active[|active| - 1];
      var ms := Duration(frame.started, now);
      active := active[..|active| - 1];
      Add(frame.name, ms, parent, Some(Clamp(ms - frame.child)), 1);
      if active != [] {
        var top := active[|active| - 1];
        active := active[|active| - 1 := top.(child := top.child + ms)];
      }
    }
  }

  // ---------------------------------------------------------------- runs

  datatype Event =
    | Begin(name: string, at: real)
    | End(at: real, hint: Option<string>)
    | Direct(name: string, ms: real, hint: Option<string>, count: int)

  predicate Ready(b: Books, e: Event) { e.End? ==> b.active != [] }

  function Step(b: Books, e: Event): Books
    requires Ready(b, e)
  {
    match e
    case Begin(name, at) => Entered(b, name, at)
    case End(at, hint) => Left(b, at, hint)
    case Direct(name, ms, hint, count) => Added(b, name, ms, ms, count, hint)
  }

  predicate Runs(b: Books, events: seq<Event>)
    decreases |events|
  {
    events == [] || (Ready(b, events[0]) && Runs(Step(b, events[0]), events[1..]))
  }

  function After(b: Books, events: seq<Event>): Books
    requires Runs(b, events)
    decreases |events|
  {
    if events == [] then b else After(Step(b, events[0]), events[1..])
  }

  /** The clock never goes back. */
  predicate Clocked(events: seq<Event>, now: real) {
    events == [] ||
    (if events[0].Direct? then Clocked(events[1..], now) else events[0].at >= now && Clocked(events[1..], events[0].at))
  }

  // ---------------------------------------------------------------- one event in plain terms

  /**
   `t` is `b` with one booking under `name`: times added, calls counted, the parent noted - the innermost open span, or
   the hint if nothing is open - and kept as the name's parent if it is the first. Other names are as they were.
   */
  ghost predicate Booked(b: Books, t: Books, name: string, ms: real, own: real, count: int, parent: Option<string>) {
    && name in t.elapsed && t.elapsed[name] == (if name in b.elapsed then b.elapsed[name] else 0.0) + ms
    && name in t.exclusive && t.exclusive[name] == (if name in b.exclusive then b.exclusive[name] else 0.0) + own
    && name in t.calls && t.calls[name] == (if name in b.calls then b.calls[name] else 0) + count
    && name in t.edges && t.edges[name] == (if name in b.edges then b.edges[name] else {}) + {parent}
    && name in t.parents && t.parents[name] == (if name in b.parents then b.parents[name] else parent)
    && forall n :: n != name ==>
         && (n in t.elapsed <==> n in b.elapsed) && (n in b.elapsed ==> t.elapsed[n] == b.elapsed[n])
         && (n in t.exclusive <==> n in b.exclusive) && (n in b.exclusive ==> t.exclusive[n] == b.exclusive[n])
         && (n in t.calls <==> n in b.calls) && (n in b.calls ==> t.calls[n] == b.calls[n])
         && (n in t.edges <==> n in b.edges) && (n in b.edges ==> t.edges[n] == b.edges[n])
         && (n in t.parents <==> n in b.parents) && (n in b.parents ==> t.parents[n] == b.parents[n])
  }

  /** The span around: the innermost of the open ones, or the hint if nothing is open. */
  ghost predicate IsParent(active: seq<Frame>, hint: Option<string>, parent: Option<string>) {
    parent == if active == [] then hint else Some(active[|active| - 1].name)
  }

  /** A span opens: nothing is booked. */
  lemma {:induction false} BeginMeaning(b: Books, name: string, at: real)
    ensures Step(b, Begin(name, at)) == b.(active := b.active + [Frame(name, at, 0.0)])
  {
  }

  /** A direct addition: all of its time is its own, and no open span is credited with it. */
  lemma {:induction false} DirectMeaning(b: Books, name: string, ms: real, hint: Option<string>, count: int,
                                         parent: Option<string>)
    requires IsParent(b.active, hint, parent)
    ensures var t := Step(b, Direct(name, ms, hint, count));
            Booked(b, t, name, ms, ms, count, parent) && t.active == b.active
  {
  }

  /**
   The innermost span ends: its milliseconds are booked, its own time is what its children leave of them, at least
   nothing, and the span around it is credited with all of them.
   */
  lemma {:induction false} EndMeaning(b: Books, frame: Frame, below: seq<Frame>, at: real, hint: Option<string>,
                                      parent: Option<string>)
    requires b.active == below + [frame] && IsParent(below, hint, parent)
    ensures var t := Step(b, End(at, hint));
            var ms := 1000.0 * (at - frame.started);
            && Booked(b, t, frame.name, ms, if ms < frame.child then 0.0 else ms - frame.child, 1, parent)
            && |t.active| == |below|
            && (below != [] ==>
                  var n := |below| - 1;
                  t.active == below[..n] + [Frame(below[n].name, below[n].started, below[n].child + ms)])
  {
    assert Popped(b).active == below;
    var t := Step(b, End(at, hint));
    if below != [] {
      var n := |below| - 1;
      assert t.active == below[n := t.active[n]];
      assert below[n := t.active[n]] == below[..n] + [t.active[n]];
    }
  }

  /** A name keeps the parent it was first booked under. */
  lemma {:induction false} FirstParentStays(b: Books, events: seq<Event>, n: string)
    requires Runs(b, events) && n in b.parents
    ensures n in After(b, events).parents && After(b, events).parents[n] == b.parents[n]
    decreases |events|
  {
    if events != [] {
      FirstParentStays(Step(b, events[0]), events[1..], n);
    }
  }

  // ---------------------------------------------------------------- sums over all names

  ghost function SumOver(m: map<string, real>, keys: set<string>): real
    requires keys <= m.Keys
    decreases |keys|
  {
    if keys == {} then 0.0
    else
      var k :| k in keys;
      m[k] + SumOver(m, keys - {k})
  }

  ghost function Total(m: map<string, real>): real { SumOver(m, m.Keys) }

  lemma {:induction false} SumTakeOut(m: map<string, real>, keys: set<string>, k: string)
    requires keys <= m.Keys && k in keys
    ensures SumOver(m, keys) == m[k] + SumOver(m, keys - {k})
    decreases |keys|
  {
    var j :| j in keys && SumOver(m, keys) == m[j] + SumOver(m, keys - {j});
    if j != k {
      SumTakeOut(m, keys - {j}, k);
      SumTakeOut(m, keys - {k}, j);
      assert keys - {j} - {k} == keys - {k} - {j};
    }
  }

  lemma {:induction false} SumAgrees(m: map<string, real>, m': map<string, real>, keys: set<string>)
    requires keys <= m.Keys && keys <= m'.Keys && forall k <- keys :: m[k] == m'[k]
    ensures SumOver(m, keys) == SumOver(m', keys)
    decreases |keys|
  {
    if keys != {} {
      var k :| k in keys;
      SumTakeOut(m, keys, k);
      SumTakeOut(m', keys, k);
      SumAgrees(m, m', keys - {k});
    }
  }

  lemma {:induction false} TotalOfUpdate(m: map<string, real>, k: string, x: real)
    ensures Total(m[k := Get(m, k) + x]) == Total(m) + x
  {
    var m' := m[k := Get(m, k) + x];
    SumTakeOut(m', m'.Keys, k);
    SumAgrees(m, m', m'.Keys - {k});
    if k in m {
      SumTakeOut(m, m.Keys, k);
      assert m'.Keys == m.Keys;
    } else {
      assert m'.Keys - {k} == m.Keys;
    }
  }

  // ---------------------------------------------------------------- time is conserved

  /** The child times of the open spans. */
  function OpenChildren(active: seq<Frame>): real {
    if active == [] then 0.0 else OpenChildren(active[..|active| - 1]) + active[|active| - 1].child
  }

  /** The elapsed times of the outermost spans that end in the run. */
  function RootTime(b: Books, events: seq<Event>): real
    requires Runs(b, events)
    decreases |events|
  {
    if events == [] then 0.0
    else (if events[0].End? && |b.active| == 1 then Duration(Top(b).started, events[0].at) else 0.0)
         + RootTime(Step(b, events[0]), events[1..])
  }

  /** What is added directly, outside any span's own bookkeeping. */
  function DirectTime(events: seq<Event>): real {
    if events == [] then 0.0 else (if events[0].Direct? then events[0].ms else 0.0) + DirectTime(events[1..])
  }

  /** No open span's children took longer than the span has been open. */
  ghost predicate Timely(b: Books, now: real) {
    && (forall i :: 0 <= i < |b.active| - 1 ==>
          b.active[i].child <= Duration(b.active[i].started, b.active[i + 1].started))
    && (b.active != [] ==> Top(b).child <= Duration(Top(b).started, now))
    && (forall i :: 0 <= i < |b.active| ==> b.active[i].started <= now)
    && (forall i :: 0 <= i < |b.active| - 1 ==> b.active[i].started <= b.active[i + 1].started)
  }

  /** One event: the clamp does not fire, and the account stays balanced. */
  lemma {:induction false} StepBalances(b: Books, e: Event, now: real)
    requires Ready(b, e) && Timely(b, now) && (!e.Direct? ==> e.at >= now)
    ensures Timely(Step(b, e), if e.Direct? then now else e.at)
    ensures e.End? ==> Top(b).child <= Duration(Top(b).started, e.at)
    ensures Total(Step(b, e).exclusive) - OpenChildren(Step(b, e).active)
         == Total(b.exclusive) - OpenChildren(b.active) + DirectTime([e])
            + (if e.End? && |b.active| == 1 then Duration(Top(b).started, e.at) else 0.0)
  {
    match e
    case Begin(name, at) =>
    case Direct(name, ms, hint, count) =>
      TotalOfUpdate(b.exclusive, name, ms);
    case End(at, hint) =>
      LeaveBalances(b, at, hint, now);
  }

  lemma {:induction false} CreditOpens(b: Books, ms: real)
    ensures OpenChildren(Credited(b, ms).active) == OpenChildren(b.active) + (if b.active == [] then 0.0 else ms)
  {
    if b.active != [] {
      var n := |b.active| - 1;
      assert Credited(b, ms).active[..n] == b.active[..n];
    }
  }

  lemma {:induction false} LeaveTimely(b: Books, at: real, hint: Option<string>, now: real)
    requires b.active != [] && Timely(b, now) && at >= now
    ensures Timely(Left(b, at, hint), at)
  {
  }

  lemma {:induction false} LeaveBalances(b: Books, at: real, hint: Option<string>, now: real)
    requires b.active != [] && Timely(b, now) && at >= now
    ensures Timely(Left(b, at, hint), at)
    ensures Total(Left(b, at, hint).exclusive) - OpenChildren(Left(b, at, hint).active)
         == Total(b.exclusive) - OpenChildren(b.active)
            + (if |b.active| == 1 then Duration(Top(b).started, at) else 0.0)
  {
    var ms := Duration(Top(b).started, at);
    LeaveTimely(b, at, hint, now);
    TotalOfUpdate(b.exclusive, Top(b).name, ms - Top(b).child);
    CreditOpens(Popped(b), ms);
  }

  /**
   Main result: over every run, with names reused and spans nested in any way, the exclusive times of all
   names add up to the outermost spans' elapsed times, the direct additions, and what the children of
   still open spans took.
   */
  lemma {:induction false} Conservation(b: Books, events: seq<Event>, now: real)
    requires Runs(b, events) && Clocked(events, now) && Timely(b, now)
    ensures Total(After(b, events).exclusive) - OpenChildren(After(b, events).active)
         == Total(b.exclusive) - OpenChildren(b.active) + RootTime(b, events) + DirectTime(events)
    decreases |events|
  {
    if events != [] {
      StepBalances(b, events[0], now);
      Conservation(Step(b, events[0]), events[1..], if events[0].Direct? then now else events[0].at);
    }
  }

  /** From an empty recorder to the end of all spans: exclusive times are exactly the outermost elapsed times. */
  lemma {:induction false} ClosedRunConserves(events: seq<Event>, now: real)
    requires Runs(EMPTY, events) && Clocked(events, now) && After(EMPTY, events).active == []
    ensures Total(After(EMPTY, events).exclusive) == RootTime(EMPTY, events) + DirectTime(events)
  {
    Conservation(EMPTY, events, now);
  }

  // ---------------------------------------------------------------- the books of a call tree

  /** A finished span with what happened inside it, in order; or time that is added directly. */
  datatype Node =
    | Span(name: string, hint: Option<string>, start: real, finish: real, inner: seq<Node>)
    | Addition(name: string, hint: Option<string>, ms: real, count: int)
  {
    /** What it takes of the time around it: a direct addition takes nothing. */
    function Lasts(): real { if Span? then Duration(start, finish) else 0.0 }

    function Booked(): real { if Span? then Duration(start, finish) else ms }

    function Calls(): int { if Span? then 1 else count }

    /** What its direct children do not account for. */
    function Rest(): real { if Span? then Duration(start, finish) - SumLasts(inner) else ms }
  }

  function Events(s: Node): seq<Event>
    decreases s, 0
  {
    match s
    case Span(name, hint, start, finish, inner) => [Begin(name, start)] + EventsAll(inner) + [End(finish, hint)]
    case Addition(name, hint, ms, count) => [Direct(name, ms, hint, count)]
  }

  function EventsAll(f: seq<Node>): seq<Event>
    decreases f, |f|
  {
    if f == [] then [] else Events(f[0]) + EventsAll(f[1..])
  }

  /** The spans follow one another within `[from, to]`, and so do the spans inside each of them. */
  predicate Sequential(f: seq<Node>, from: real, to: real)
    decreases f, |f|
  {
    if f == [] then from <= to
    else if f[0].Addition? then Sequential(f[1..], from, to)
    else from <= f[0].start && Sequential(f[0].inner, f[0].start, f[0].finish) && Sequential(f[1..], f[0].finish, to)
  }

  function SumLasts(f: seq<Node>): real { if f == [] then 0.0 else f[0].Lasts() + SumLasts(f[1..]) }

  /** Total time booked under `n`, at any depth. */
  function Inclusive(f: seq<Node>, n: string): real
    decreases f, |f|
  {
    if f == [] then 0.0
    else (if f[0].name == n then f[0].Booked() else 0.0)
         + (if f[0].Span? then Inclusive(f[0].inner, n) else 0.0) + Inclusive(f[1..], n)
  }

  /** Total own time under `n`. */
  function Own(f: seq<Node>, n: string): real
    decreases f, |f|
  {
    if f == [] then 0.0
    else (if f[0].name == n then f[0].Rest() else 0.0)
         + (if f[0].Span? then Own(f[0].inner, n) else 0.0) + Own(f[1..], n)
  }

  function Occurrences(f: seq<Node>, n: string): int
    decreases f, |f|
  {
    if f == [] then 0
    else (if f[0].name == n then f[0].Calls() else 0)
         + (if f[0].Span? then Occurrences(f[0].inner, n) else 0) + Occurrences(f[1..], n)
  }

  /** The parent that counts: the span around it, or its hint if there is none. */
  function Around(around: Option<string>, hint: Option<string>): Option<string> {
    if around.Some? then around else hint
  }

  /** The parents under which `n` occurs. */
  function Enclosing(f: seq<Node>, n: string, around: Option<string>): set<Option<string>>
    decreases f, |f|
  {
    if f == [] then {}
    else (if f[0].name == n then {Around(around, f[0].hint)} else {})
         + (if f[0].Span? then Enclosing(f[0].inner, n, Some(f[0].name)) else {}) + Enclosing(f[1..], n, around)
  }

  /** What running a forest adds to the books under one name. */
  predicate AccountsFor(b: Books, t: Books, f: seq<Node>, n: string) {
    && Get(t.elapsed, n) == Get(b.elapsed, n) + Inclusive(f, n)
    && Get(t.exclusive, n) == Get(b.exclusive, n) + Own(f, n)
    && Count(t.calls, n) == Count(b.calls, n) + Occurrences(f, n)
    && EdgesOf(t.edges, n) == EdgesOf(b.edges, n) + Enclosing(f, n, Parent(b.active, None))
  }

  ghost predicate Accounts(b: Books, t: Books, f: seq<Node>) {
    && t.active == Credited(b, SumLasts(f)).active
    && forall n :: AccountsFor(b, t, f, n)
  }

  lemma {:induction false} SequentialBound(f: seq<Node>, from: real, to: real)
    requires Sequential(f, from, to)
    ensures 0.0 <= SumLasts(f) <= Duration(from, to) && from <= to
    decreases |f|
  {
    if f != [] {
      if f[0].Span? {
        SequentialEnds(f[0].inner, f[0].start, f[0].finish);
      }
      SequentialBound(f[1..], if f[0].Span? then f[0].finish else from, to);
    }
  }

  lemma {:induction false} SequentialEnds(f: seq<Node>, from: real, to: real)
    requires Sequential(f, from, to)
    ensures from <= to
    decreases f, |f|
  {
    if f != [] {
      if f[0].Span? {
        SequentialEnds(f[0].inner, f[0].start, f[0].finish);
      }
      SequentialEnds(f[1..], if f[0].Span? then f[0].finish else from, to);
    }
  }

  lemma {:induction false} AfterConcat(b: Books, x: seq<Event>, y: seq<Event>)
    requires Runs(b, x) && Runs(After(b, x), y)
    ensures Runs(b, x + y) && After(b, x + y) == After(After(b, x), y)
    decreases |x|
  {
    if x == [] {
      assert x + y == y;
    } else {
      assert (x + y)[0] == x[0] && (x + y)[1..] == x[1..] + y;
      AfterConcat(Step(b, x[0]), x[1..], y);
    }
  }

  /**
   Main result: after the events of any call tree, with direct additions anywhere in it, every name's inclusive time,
   exclusive time, call count and observed parents are exactly those of the tree.
   */
  lemma {:induction false} ForestAccounts(b: Books, f: seq<Node>, from: real, to: real)
    requires Sequential(f, from, to)
    ensures Runs(b, EventsAll(f)) && Accounts(b, After(b, EventsAll(f)), f)
    decreases f, |f|
  {
    if f == [] {
      assert b.active != [] ==> Credited(b, 0.0).active == b.active;
    } else {
      NodeAccounts(b, f[0]);
      var m := After(b, Events(f[0]));
      ForestAccounts(m, f[1..], if f[0].Span? then f[0].finish else from, to);
      AfterConcat(b, Events(f[0]), EventsAll(f[1..]));
      JoinAccounts(b, m, After(m, EventsAll(f[1..])), f[0], f[1..]);
      assert f == [f[0]] + f[1..];
    }
  }

  lemma {:induction false} NodeAccounts(b: Books, s: Node)
    requires s.Span? ==> Sequential(s.inner, s.start, s.finish)
    ensures Runs(b, Events(s)) && Accounts(b, After(b, Events(s)), [s])
    decreases s, 1
  {
    match s
    case Span(_, _, _, _, _) => SpanAccounts(b, s);
    case Addition(name, hint, ms, count) =>
      OneEvent(b, Direct(name, ms, hint, count));
      AdditionAccounts(b, s);
  }

  lemma {:induction false} AdditionAccounts(b: Books, s: Node)
    requires s.Addition?
    ensures Accounts(b, Added(b, s.name, s.ms, s.ms, s.count, s.hint), [s])
  {
    var t := Added(b, s.name, s.ms, s.ms, s.count, s.hint);
    SumOne(s, []);
    assert [s] + [] == [s];
    assert b.active != [] ==> Credited(b, 0.0).active == b.active;
    forall n ensures AccountsFor(b, t, [s], n) {
      OneNode(s, n, Parent(b.active, None));
    }
  }

  lemma {:induction false} JoinAccounts(b: Books, m: Books, t: Books, s: Node, f: seq<Node>)
    requires Accounts(b, m, [s]) && Accounts(m, t, f)
    ensures Accounts(b, t, [s] + f)
  {
    assert Parent(b.active, None) == Parent(m.active, None);
    forall n ensures AccountsFor(b, t, [s] + f, n) {
      assert AccountsFor(b, m, [s], n) && AccountsFor(m, t, f, n);
      JoinName(b, m, t, s, f, n);
    }
    SumOne(s, f);
    SumOne(s, []);
    assert [s] + [] == [s];
  }

  lemma {:induction false} SumOne(s: Node, f: seq<Node>)
    ensures SumLasts([s] + f) == s.Lasts() + SumLasts(f)
  {
    assert ([s] + f)[1..] == f;
  }

  lemma {:induction false} OneNode(s: Node, n: string, around: Option<string>)
    ensures Inclusive([s], n)
            == (if s.name == n then s.Booked() else 0.0) + (if s.Span? then Inclusive(s.inner, n) else 0.0)
    ensures Own([s], n) == (if s.name == n then s.Rest() else 0.0) + (if s.Span? then Own(s.inner, n) else 0.0)
    ensures Occurrences([s], n)
            == (if s.name == n then s.Calls() else 0) + (if s.Span? then Occurrences(s.inner, n) else 0)
    ensures Enclosing([s], n, around)
            == (if s.name == n then {Around(around, s.hint)} else {})
               + (if s.Span? then Enclosing(s.inner, n, Some(s.name)) else {})
  {
    assert [s] + [] == [s];
  }

  lemma {:induction false} JoinName(b: Books, m: Books, t: Books, s: Node, f: seq<Node>, n: string)
    requires AccountsFor(b, m, [s], n) && AccountsFor(m, t, f, n) && Parent(b.active, None) == Parent(m.active, None)
    ensures AccountsFor(b, t, [s] + f, n)
  {
    OneNode(s, n, Parent(b.active, None));
    assert ([s] + f)[0] == s && ([s] + f)[1..] == f;
  }

  lemma {:induction false} SpanAccounts(b: Books, s: Node)
    requires s.Span? && Sequential(s.inner, s.start, s.finish)
    ensures Runs(b, Events(s)) && Accounts(b, After(b, Events(s)), [s])
    decreases s, 0
  {
    var e := Entered(b, s.name, s.start);
    ForestAccounts(e, s.inner, s.start, s.finish);
    var m := After(e, EventsAll(s.inner));
    SequentialBound(s.inner, s.start, s.finish);
    assert m.active == b.active + [Frame(s.name, s.start, SumLasts(s.inner))];
    OneEvent(b, Begin(s.name, s.start));
    OneEvent(m, End(s.finish, s.hint));
    AfterConcat(b, [Begin(s.name, s.start)], EventsAll(s.inner));
    AfterConcat(b, [Begin(s.name, s.start)] + EventsAll(s.inner), [End(s.finish, s.hint)]);
    CloseAccounts(b, e, m, s);
  }

  lemma {:induction false} OneEvent(b: Books, e: Event)
    requires Ready(b, e)
    ensures Runs(b, [e]) && After(b, [e]) == Step(b, e)
  {
    assert [e][1..] == [];
    assert Runs(Step(b, e), []) && After(Step(b, e), []) == Step(b, e);
  }

  lemma {:induction false} CloseAccounts(b: Books, e: Books, m: Books, s: Node)
    requires s.Span? && e == Entered(b, s.name, s.start) && Accounts(e, m, s.inner)
    requires m.active == b.active + [Frame(s.name, s.start, SumLasts(s.inner))] && SumLasts(s.inner) <= s.Lasts()
    ensures Accounts(b, Left(m, s.finish, s.hint), [s])
  {
    assert Popped(m).active == b.active;
    SumOne(s, []);
    assert [s] + [] == [s];
    forall n ensures AccountsFor(b, Left(m, s.finish, s.hint), [s], n) {
      assert AccountsFor(e, m, s.inner, n);
      ClosedBooks(m, s, b.active);
      CloseName(b, e, m, Left(m, s.finish, s.hint), s, n);
    }
  }

  lemma {:induction false} CloseName(b: Books, e: Books, m: Books, l: Books, s: Node, n: string)
    requires s.Span? && e == Entered(b, s.name, s.start) && AccountsFor(e, m, s.inner, n)
    requires l.elapsed == m.elapsed[s.name := Get(m.elapsed, s.name) + s.Booked()]
    requires l.exclusive == m.exclusive[s.name := Get(m.exclusive, s.name) + s.Rest()]
    requires l.calls == m.calls[s.name := Count(m.calls, s.name) + 1]
    requires l.edges == m.edges[s.name := EdgesOf(m.edges, s.name) + {Parent(b.active, s.hint)}]
    ensures AccountsFor(b, l, [s], n)
  {
    OneNode(s, n, Parent(b.active, None));
    assert Parent(e.active, None) == Some(s.name);
  }

  lemma {:induction false} ClosedBooks(m: Books, s: Node, below: seq<Frame>)
    requires s.Span? && m.active == below + [Frame(s.name, s.start, SumLasts(s.inner))]
    requires SumLasts(s.inner) <= s.Lasts()
    ensures var l := Left(m, s.finish, s.hint);
            && l.elapsed == m.elapsed[s.name := Get(m.elapsed, s.name) + s.Booked()]
            && l.exclusive == m.exclusive[s.name := Get(m.exclusive, s.name) + s.Rest()]
            && l.calls == m.calls[s.name := Count(m.calls, s.name) + 1]
            && l.edges == m.edges[s.name := EdgesOf(m.edges, s.name) + {Parent(below, s.hint)}]
  {
    assert Popped(m).active == below;
  }
}
