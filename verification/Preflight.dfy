/**
 The preflight runner and its skip cache: one run's exit code and cache update, and the
 soundness of skipping over every history of runs, edits, failures and interruptions.
 */
module Preflight {
  import opened Common

  /** What the two input hashes are taken over. */
  datatype Tree = Tree(build: string, policy: string)

  /** The content hash; only its values matter. */
  type Hash = string -> string

  /** A cache file that is missing, unreadable or not an object counts as absent. Fields may be missing. */
  datatype Cache = Absent | Cache(build: Option<string>, policy: Option<string>, passed: bool)

  datatype Stage = Version | Tests | TypeCheck | Bundle

  datatype Interrupt = Never | DuringVersion | DuringParallel

  /** One invocation: the exit codes its commands would give, and the order the parallel stages finish in. */
  datatype Attempt = Attempt(noCache: bool, ready: bool, code: Stage -> int, order: seq<Stage>, interrupt: Interrupt)

  const PARALLEL := [Tests, TypeCheck, Bundle]

  predicate AnyOrder(order: seq<Stage>) { multiset(order) == multiset(PARALLEL) }

  // ---------------------------------------------------------------- skipping

  predicate Matches(cached: Option<string>, current: string) {
    cached.Some? && cached.value != "" && cached.value == current
  }

  predicate SkipBuild(c: Cache, buildHash: string, noCache: bool) {
    !noCache && c.Cache? && c.passed && Matches(c.build, buildHash)
  }

  predicate SkipPolicy(c: Cache, policyHash: string, noCache: bool) {
    !noCache && c.Cache? && c.passed && Matches(c.policy, policyHash)
  }

  /** A skipped stage reports success without running. */
  function StageCode(a: Attempt, s: Stage, skipBuild: bool): int {
    if skipBuild && (s.TypeCheck? || s.Bundle?) then 0 else a.code(s)
  }

  // ---------------------------------------------------------------- one run

  function FirstFailure(a: Attempt, order: seq<Stage>, skipBuild: bool): int {
    if order == [] then 0
    else
      var code := StageCode(a, order[0], skipBuild);
      if code != 0 then code else FirstFailure(a, order[1..], skipBuild)
  }

  function ExitCode(a: Attempt, skipBuild: bool): int {
    if !a.ready then 1
    else if a.interrupt.DuringVersion? then 130
    else if a.code(Version) != 0 then (if a.code(Version) > 0 then a.code(Version) else 1)
    else if a.interrupt.DuringParallel? then 130
    else FirstFailure(a, a.order, skipBuild)
  }

  /** The run gets as far as finishing its stages, so that it writes the cache. */
  predicate Finishes(a: Attempt) {
    a.ready && !a.interrupt.DuringVersion? && (a.code(Version) != 0 || !a.interrupt.DuringParallel?)
  }

  /** The cache a run leaves behind; `end` is the tree when the hashes are taken. */
  function CacheAfter(c: Cache, a: Attempt, skipBuild: bool, end: Tree, h: Hash): Cache {
    if !Finishes(a) then c else Cache(Some(h(end.build)), Some(h(end.policy)), ExitCode(a, skipBuild) == 0)
  }

  class Workspace {
    var cache: Cache

    constructor (found: Cache)
      ensures cache == found
    {
      cache := found;
    }

    method WriteCache(buildHash: string, policyHash: string, passed: bool)
      modifies this
      ensures cache == Cache(Some(buildHash), Some(policyHash), passed)
    {
      cache := Cache(Some(buildHash), Some(policyHash), passed);
    }

    method ShouldSkipBuild(noCache: bool, buildHash: string) returns (skip: bool)
      ensures skip == SkipBuild(cache, buildHash, noCache)
    {
      if noCache || cache.Absent? || !cache.passed {
        return false;
      }
      if cache.build.None? || cache.build.value == "" {
        return false;
      }
      return cache.build.value == buildHash;
    }

    method RunPreflight(a: Attempt, start: Tree, end: Tree, h: Hash) returns (exit: int)
      modifies this
      ensures exit == ExitCode(a, SkipBuild(old(cache), h(start.build), a.noCache))
      ensures cache == CacheAfter(old(cache), a, SkipBuild(old(cache), h(start.build), a.noCache), end, h)
    {
      if !a.ready {
        return 1;
      }
      var skipBuild := ShouldSkipBuild(a.noCache, h(start.build));
      if a.interrupt.DuringVersion? {
        return 130;
      }
      var version := a.code(Version);
      if version != 0 {
        WriteCache(h(end.build), h(end.policy), false);
        return if version > 0 then version else 1;
      }
      if a.interrupt.DuringParallel? {
        return 130;
      }
      var failures: seq<(Stage, int)> := [];
      for i := 0 to |a.order|
        invariant cache == old(cache)
        invariant forall k :: 0 <= k < |failures| ==> failures[k].1 != 0
        invariant FirstFailure(a, a.order, skipBuild)
               == if failures != [] then failures[0].1 else FirstFailure(a, a.order[i..], skipBuild)
      {
        assert a.order[i..][0] == a.order[i] && a.order[i..][1..] == a.order[i + 1..];
        var code := StageCode(a, a.order[i], skipBuild);
        if code != 0 {
          failures := failures + [(a.order[i], code)];
        }
      }
      if failures != [] {
        WriteCache(h(end.build), h(end.policy), false);
        return failures[0].1;
      }
      WriteCache(h(end.build), h(end.policy), true);
      exit := 0;
    }
  }

  // ---------------------------------------------------------------- the exit code

  lemma {:induction false} NoFailure(a: Attempt, order: seq<Stage>, skipBuild: bool)
    ensures FirstFailure(a, order, skipBuild) == 0 <==> forall s <- order :: StageCode(a, s, skipBuild) == 0
    decreases |order|
  {
    if order != [] {
      NoFailure(a, order[1..], skipBuild);
      assert forall s <- order :: s == order[0] || s in order[1..];
    }
  }

  /** The exit code is 0 exactly when every stage that was not skipped returned 0, in whatever order they finish. */
  lemma {:induction false} ExitZero(a: Attempt, skipBuild: bool)
    requires AnyOrder(a.order)
    ensures ExitCode(a, skipBuild) == 0 <==>
              && a.ready && a.interrupt.Never? && a.code(Version) == 0 && a.code(Tests) == 0
              && (skipBuild || (a.code(TypeCheck) == 0 && a.code(Bundle) == 0))
  {
    NoFailure(a, a.order, skipBuild);
    forall s ensures s in a.order <==> s in PARALLEL {
      assert s in a.order <==> s in multiset(a.order);
      assert s in PARALLEL <==> s in multiset(PARALLEL);
    }
    assert PARALLEL[0] == Tests && PARALLEL[1] == TypeCheck && PARALLEL[2] == Bundle;
    assert Tests in PARALLEL && TypeCheck in PARALLEL && Bundle in PARALLEL;
  }

  /** A stage that the cache spares, or that returned 0. */
  predicate Quiet(a: Attempt, s: Stage, skipBuild: bool) {
    a.code(s) == 0 || (skipBuild && (s == TypeCheck || s == Bundle))
  }

  /** The exit code is the code of the first stage to finish badly; a version check killed by a signal counts as 1. */
  lemma {:induction false} ExitMeaning(a: Attempt, skipBuild: bool, k: nat)
    ensures !a.ready ==> ExitCode(a, skipBuild) == 1
    ensures a.ready && a.interrupt == DuringVersion ==> ExitCode(a, skipBuild) == 130
    ensures a.ready && a.interrupt != DuringVersion && a.code(Version) > 0 ==>
              ExitCode(a, skipBuild) == a.code(Version)
    ensures a.ready && a.interrupt != DuringVersion && a.code(Version) < 0 ==> ExitCode(a, skipBuild) == 1
    ensures a.ready && a.interrupt == DuringParallel && a.code(Version) == 0 ==> ExitCode(a, skipBuild) == 130
    ensures a.ready && a.interrupt == Never && a.code(Version) == 0 && k < |a.order|
            && !Quiet(a, a.order[k], skipBuild) && (forall j :: 0 <= j < k ==> Quiet(a, a.order[j], skipBuild)) ==>
              ExitCode(a, skipBuild) == a.code(a.order[k])
  {
    if k < |a.order| && !Quiet(a, a.order[k], skipBuild) && forall j :: 0 <= j < k ==> Quiet(a, a.order[j], skipBuild) {
      FirstIsExit(a, a.order, skipBuild, k);
    }
  }

  lemma {:induction false} FirstIsExit(a: Attempt, order: seq<Stage>, skipBuild: bool, k: nat)
    requires k < |order| && !Quiet(a, order[k], skipBuild) && forall j :: 0 <= j < k ==> Quiet(a, order[j], skipBuild)
    ensures FirstFailure(a, order, skipBuild) == a.code(order[k])
    decreases |order|
  {
    if k > 0 {
      assert Quiet(a, order[0], skipBuild);
      FirstIsExit(a, order[1..], skipBuild, k - 1);
    }
  }

  /** The cache is written exactly by a run that is neither refused nor interrupted before its last stage. */
  lemma {:induction false} CacheMeaning(c: Cache, a: Attempt, skipBuild: bool, end: Tree, h: Hash)
    requires AnyOrder(a.order)
    ensures var written := a.ready && (a.interrupt == Never || (a.interrupt == DuringParallel && a.code(Version) != 0));
            CacheAfter(c, a, skipBuild, end, h)
            == if written
               then Cache(Some(h(end.build)), Some(h(end.policy)),
                          a.interrupt == Never && a.code(Version) == 0
                          && forall s :: s != Version ==> Quiet(a, s, skipBuild))
               else c
  {
    ExitZero(a, skipBuild);
    assert Quiet(a, Tests, skipBuild) <==> a.code(Tests) == 0;
    assert Quiet(a, TypeCheck, skipBuild) && Quiet(a, Bundle, skipBuild)
      <==> skipBuild || (a.code(TypeCheck) == 0 && a.code(Bundle) == 0);
  }

  /** What is skipped depends on the cache and on nothing else. */
  lemma {:induction false} SkipMeaning(c: Cache, hash: string)
    ensures SkipBuild(c, hash, false) <==> exists policy :: hash != "" && c == Cache(Some(hash), policy, true)
    ensures SkipPolicy(c, hash, false) <==> exists build :: hash != "" && c == Cache(build, Some(hash), true)
    ensures !SkipBuild(c, hash, true) && !SkipPolicy(c, hash, true)
  {
    if c.Cache? {
      assert SkipBuild(c, hash, false) ==> c == Cache(Some(hash), c.policy, true);
      assert SkipPolicy(c, hash, false) ==> c == Cache(c.build, Some(hash), true);
    }
  }

  /** Which order the parallel stages finish in changes neither success nor the cache. */
  lemma {:induction false} OrderIrrelevant(c: Cache, a: Attempt, order: seq<Stage>, skipBuild: bool, end: Tree, h: Hash)
    requires AnyOrder(a.order) && AnyOrder(order)
    ensures var b := a.(order := order);
            && (ExitCode(a, skipBuild) == 0 <==> ExitCode(b, skipBuild) == 0)
            && CacheAfter(c, a, skipBuild, end, h) == CacheAfter(c, b, skipBuild, end, h)
  {
    ExitZero(a, skipBuild);
    ExitZero(a.(order := order), skipBuild);
  }

  // ---------------------------------------------------------------- histories

  /** A stage that ran and succeeded, and what it ran on. The policy tests are part of the test stage. */
  datatype Success = Success(stage: Stage, content: string)

  datatype World = World(tree: Tree, cache: Cache, proved: set<Success>)

  /** Files that change while a run is under way: what each stage reads of its inputs, and what is there at the end. */
  datatype Change = Change(saw: Stage -> string, end: Tree)

  datatype Event = Edit(tree: Tree) | Run(attempt: Attempt, during: Option<Change>)

  function Inputs(tree: Tree, s: Stage): string { if s.Tests? then tree.policy else tree.build }

  /** What a stage reads. */
  function Reads(w: World, during: Option<Change>, s: Stage): string {
    if during.Some? then during.value.saw(s) else Inputs(w.tree, s)
  }

  function SkipsBuild(w: World, a: Attempt, h: Hash): bool { SkipBuild(w.cache, h(w.tree.build), a.noCache) }

  /** Whether the cache spares a stage: the policy tests within the tests, type check and bundle for the build. */
  function Skips(w: World, a: Attempt, s: Stage, h: Hash): bool {
    if s.Tests? then SkipPolicy(w.cache, h(w.tree.policy), a.noCache) else SkipsBuild(w, a, h)
  }

  function AchievedBy(w: World, a: Attempt, during: Option<Change>, s: Stage, h: Hash): set<Success> {
    if !Skips(w, a, s, h) && a.code(s) == 0 then {Success(s, Reads(w, during, s))} else {}
  }

  /** The successes a run adds: only stages that really ran, in a run that finished its parallel stages. */
  function Achieved(w: World, a: Attempt, during: Option<Change>, h: Hash): set<Success> {
    if !Finishes(a) || a.code(Version) != 0 then {}
    else
      AchievedBy(w, a, during, TypeCheck, h) + AchievedBy(w, a, during, Bundle, h)
      + AchievedBy(w, a, during, Tests, h)
  }

  function Next(w: World, e: Event, h: Hash): World {
    match e
    case Edit(tree) => w.(tree := tree)
    case Run(a, during) =>
      var end := if during.Some? then during.value.end else w.tree;
      World(end, CacheAfter(w.cache, a, SkipsBuild(w, a, h), end, h), w.proved + Achieved(w, a, during, h))
  }

  function After(w: World, events: seq<Event>, h: Hash): World
    decreases |events|
  {
    if events == [] then w else After(Next(w, events[0], h), events[1..], h)
  }

  /** Some content with the same hash went through the stage. */
  ghost predicate Proved(w: World, s: Stage, hash: string, h: Hash) {
    exists p :: p in w.proved && p.stage == s && h(p.content) == hash
  }

  /** A passing cache only ever vouches for what was proved. */
  ghost predicate Honest(w: World, h: Hash) {
    w.cache.Cache? && w.cache.passed ==>
      && (w.cache.build.Some? && w.cache.build.value != "" ==>
          Proved(w, TypeCheck, w.cache.build.value, h) && Proved(w, Bundle, w.cache.build.value, h))
      && (w.cache.policy.Some? && w.cache.policy.value != "" ==> Proved(w, Tests, w.cache.policy.value, h))
  }

  /** Files are edited between runs only, and every run's parallel stages finish in some order. */
  ghost predicate Orderly(events: seq<Event>) {
    forall e <- events :: e.Run? ==> e.during.None? && AnyOrder(e.attempt.order)
  }

  /** A hash that vouches for a stage after a run: empty, proved before, or that of what the stage read if it ran. */
  ghost predicate Covered(w: World, a: Attempt, during: Option<Change>, s: Stage, ended: string, h: Hash) {
    ended == "" || Proved(w, s, ended, h) || (!Skips(w, a, s, h) && ended == h(Reads(w, during, s)))
  }

  lemma {:induction false} AchievedExactly(w: World, a: Attempt, during: Option<Change>, p: Success, h: Hash)
    requires AnyOrder(a.order) && ExitCode(a, SkipsBuild(w, a, h)) == 0 && p.stage != Version
    ensures p in Achieved(w, a, during, h) <==> !Skips(w, a, p.stage, h) && p.content == Reads(w, during, p.stage)
  {
    ExitZero(a, SkipsBuild(w, a, h));
  }

  lemma {:induction false} ProvedByRun(w: World, a: Attempt, during: Option<Change>, s: Stage, hash: string, h: Hash)
    requires AnyOrder(a.order) && s != Version && hash != "" && ExitCode(a, SkipsBuild(w, a, h)) == 0
    ensures Proved(Next(w, Run(a, during), h), s, hash, h) <==> Covered(w, a, during, s, hash, h)
  {
    var w' := Next(w, Run(a, during), h);
    if Proved(w, s, hash, h) {
      var p :| p in w.proved && p.stage == s && h(p.content) == hash;
      assert p in w'.proved;
    } else if Proved(w', s, hash, h) {
      var p :| p in w'.proved && p.stage == s && h(p.content) == hash;
      AchievedExactly(w, a, during, p, h);
    } else if !Skips(w, a, s, h) {
      AchievedExactly(w, a, during, Success(s, Reads(w, during, s)), h);
      assert Success(s, Reads(w, during, s)) in w'.proved;
    }
  }

  /**
   Main result on one run, with files changing under it or not: in every honest world the cache stays honest if and only
   if the run fails or, for each stage, the hash taken at the end is empty (it never matches), was proved before, or is
   that of what the stage read, if it ran.
   */
  lemma {:induction false} HonestAfterChange(w: World, a: Attempt, during: Option<Change>, h: Hash)
    requires Honest(w, h) && AnyOrder(a.order)
    ensures var end := Next(w, Run(a, during), h).tree;
            Honest(Next(w, Run(a, during), h), h)
            <==> ExitCode(a, SkipsBuild(w, a, h)) != 0
                 || (&& Covered(w, a, during, TypeCheck, h(end.build), h)
                     && Covered(w, a, during, Bundle, h(end.build), h)
                     && Covered(w, a, during, Tests, h(end.policy), h))
  {
    var w' := Next(w, Run(a, during), h);
    if ExitCode(a, SkipsBuild(w, a, h)) == 0 {
      if h(w'.tree.build) != "" {
        ProvedByRun(w, a, during, TypeCheck, h(w'.tree.build), h);
        ProvedByRun(w, a, during, Bundle, h(w'.tree.build), h);
      }
      if h(w'.tree.policy) != "" {
        ProvedByRun(w, a, during, Tests, h(w'.tree.policy), h);
      }
    } else if !Finishes(a) {
      assert w'.cache == w.cache && w'.proved == w.proved;
    }
  }

  lemma {:induction false} RunStaysHonest(w: World, a: Attempt, h: Hash)
    requires Honest(w, h) && AnyOrder(a.order)
    ensures Honest(Next(w, Run(a, None), h), h)
  {
    HonestAfterChange(w, a, None, h);
  }

  lemma {:induction false} HistoryStaysHonest(w: World, events: seq<Event>, h: Hash)
    requires Honest(w, h) && Orderly(events)
    ensures Honest(After(w, events, h), h)
    decreases |events|
  {
    if events != [] {
      assert events[0] in events;
      match events[0] {
        case Edit(tree) =>
        case Run(a, _) => RunStaysHonest(w, a, h);
      }
      HistoryStaysHonest(Next(w, events[0], h), events[1..], h);
    }
  }

  ghost predicate Injective(h: Hash) { forall x, y :: h(x) == h(y) ==> x == y }

  /**
   Main result: over every history that starts without a cache and edits files between runs only, a stage that
   the next run skips has succeeded before on exactly the present inputs.
   */
  lemma {:induction false} SkipIsSound(tree: Tree, events: seq<Event>, noCache: bool, h: Hash)
    requires Orderly(events) && Injective(h)
    ensures var w := After(World(tree, Absent, {}), events, h);
            && (SkipBuild(w.cache, h(w.tree.build), noCache) ==>
                Success(TypeCheck, w.tree.build) in w.proved && Success(Bundle, w.tree.build) in w.proved)
            && (SkipPolicy(w.cache, h(w.tree.policy), noCache) ==> Success(Tests, w.tree.policy) in w.proved)
  {
    HistoryStaysHonest(World(tree, Absent, {}), events, h);
  }

  /** A change between the reading of a stage and the end is enough to skip a type check that never saw the files. */
  lemma {:induction false} EditDuringRunUnsound(before: string, changed: string, policy: string, h: Hash)
    requires before != changed && h(changed) != ""
    ensures exists a, during ::
              var w := Next(World(Tree(before, policy), Absent, {}), Run(a, Some(during)), h);
              && w.tree.build == changed && SkipBuild(w.cache, h(changed), false)
              && Success(TypeCheck, changed) !in w.proved
  {
    var a := Attempt(false, true, s => 0, PARALLEL, Never);
    var start := World(Tree(before, policy), Absent, {});
    ExitZero(a, false);
    var during := Change(s => Inputs(start.tree, s), Tree(changed, policy));
    var w := Next(start, Run(a, Some(during)), h);
    assert w.proved == Achieved(start, a, Some(during), h);
    AchievedExactly(start, a, Some(during), Success(TypeCheck, changed), h);
    assert w.tree.build == changed && SkipBuild(w.cache, h(changed), false);
  }

  /** So is a change that is taken back before the end: the tree is the one before, but no stage ever saw it. */
  lemma {:induction false} RevertedEditUnsound(tree: Tree, changed: string, h: Hash)
    requires tree.build != changed && h(tree.build) != ""
    ensures exists a, during ::
              var w := Next(World(tree, Absent, {}), Run(a, Some(during)), h);
              && w.tree == tree && SkipBuild(w.cache, h(tree.build), false)
              && Success(TypeCheck, tree.build) !in w.proved
  {
    var a := Attempt(false, true, s => 0, PARALLEL, Never);
    var start := World(tree, Absent, {});
    ExitZero(a, false);
    var during := Change(s => changed, tree);
    var w := Next(start, Run(a, Some(during)), h);
    assert w.proved == Achieved(start, a, Some(during), h);
    AchievedExactly(start, a, Some(during), Success(TypeCheck, tree.build), h);
    assert w.tree == tree && SkipBuild(w.cache, h(tree.build), false);
  }

  /** A change that all stages read is harmless, if none of them was skipped on the files at the start. */
  lemma {:induction false} EarlyEditIsHonest(w: World, a: Attempt, end: Tree, h: Hash)
    requires Honest(w, h) && AnyOrder(a.order) && forall s :: s != Version ==> !Skips(w, a, s, h)
    ensures Honest(Next(w, Run(a, Some(Change(s => Inputs(end, s), end))), h), h)
  {
    HonestAfterChange(w, a, Some(Change(s => Inputs(end, s), end)), h);
  }
}
