/**
 The persistent test workers: what a suite finds when it is loaded, how modules are dealt to shards, and what a
 reported success means.

 A module is given by its place in the sorted list of module names, so comparing places is comparing names.
 */
module Workers {
  import opened Common
  import opened Sorting
  import M = Merge

  type Env = map<string, string>

  datatype World = World(env: Env, cwd: string, path: seq<string>, modules: set<string>, dirs: set<string>)

  /** What every module is to start from. */
  datatype Base = Base(env: Env, cwd: string, path: seq<string>)

  /** The machine: number of processors, zero if unknown, and conversions of numbers and paths. */
  datatype Host = Host(cpus: nat, parse: string -> Option<int>, show: int -> string, join: (string, string) -> string)

  datatype Disposal = Disposal(after: World, raised: bool)

  datatype Run = Run(after: World, raised: bool, successful: bool, failures: seq<string>)

  /** Code under test: what disposing of its engines does, and what a module's suite does; both may do anything. */
  datatype Suites = Suites(dispose: World -> Disposal, run: (int, World) -> Run)

  datatype Payload = Payload(name: int, successful: bool, failures: seq<string>)

  // ---------------------------------------------------------------- one worker

  predicate Under(name: string, prefix: string) {
    name == prefix || (|name| > |prefix| && name[..|prefix| + 1] == prefix + ".")
  }

  predicate IsApp(name: string) { Under(name, "app") || Under(name, "backend") || Under(name, "tests") }

  function Max(a: int, b: int): int { if a < b then b else a }

  function Min(a: int, b: int): int { if a < b then a else b }

  function Cpus(host: Host): nat { if host.cpus == 0 then 4 else host.cpus }

  function Budget(env: Env, host: Host): int {
    var name := "CELLXPLORER_PREFLIGHT_CPU_BUDGET";
    if name in env && env[name] != "" && host.parse(env[name]).Some? then Max(1, host.parse(env[name]).value)
    else Cpus(host)
  }

  const DATA := "CELLXPLORER_DATA"

  function Configured(env: Env, dataRoot: string, jobs: int, host: Host): Env {
    var own := env[DATA := dataRoot]["CELLXPLORER_BACKEND_TEST_PARALLEL" := "1"]
               ["CELLXPLORER_BACKEND_TEST_JOBS" := host.show(Max(1, jobs))];
    var reserve := Max(1, jobs) + 2;
    own["CELLXPLORER_NDAX_MAX_WORKERS" := host.show(Max(1, Min(12, Budget(own, host) - reserve)))]
  }

  const OWN := {DATA, "CELLXPLORER_BACKEND_TEST_PARALLEL", "CELLXPLORER_BACKEND_TEST_JOBS",
                "CELLXPLORER_NDAX_MAX_WORKERS"}

  /** The processors a run may use: the variable, if it holds a number, else the machine's, four if unknown. */
  ghost predicate MayUse(env: Env, host: Host, budget: int) {
    var name := "CELLXPLORER_PREFLIGHT_CPU_BUDGET";
    if name in env && env[name] != "" && host.parse(env[name]).Some? then
      var n := host.parse(env[name]).value;
      budget == if n < 1 then 1 else n
    else budget == if host.cpus == 0 then 4 else host.cpus
  }

  /**
   Four variables are set: data root, the parallel flag, the job count, and a worker cap that leaves room for the jobs
   and two more, within one and twelve; all others are inherited.
   */
  lemma {:induction false} ConfiguredMeaning(env: Env, dataRoot: string, jobs: int, host: Host, budget: int)
    requires MayUse(env, host, budget)
    ensures var c := Configured(env, dataRoot, jobs, host);
            var own := if jobs < 1 then 1 else jobs;
            var left := budget - own - 2;
            && c.Keys == env.Keys + {"CELLXPLORER_DATA", "CELLXPLORER_BACKEND_TEST_PARALLEL",
                                     "CELLXPLORER_BACKEND_TEST_JOBS", "CELLXPLORER_NDAX_MAX_WORKERS"}
            && c["CELLXPLORER_DATA"] == dataRoot && c["CELLXPLORER_BACKEND_TEST_PARALLEL"] == "1"
            && c["CELLXPLORER_BACKEND_TEST_JOBS"] == host.show(own)
            && c["CELLXPLORER_NDAX_MAX_WORKERS"] == host.show(if left < 1 then 1 else if left > 12 then 12 else left)
            && forall name <- env.Keys - OWN :: c[name] == env[name]
  {
    assert Budget(env[DATA := dataRoot]["CELLXPLORER_BACKEND_TEST_PARALLEL" := "1"]
                  ["CELLXPLORER_BACKEND_TEST_JOBS" := host.show(Max(1, jobs))], host) == budget;
  }

  /** An app module is one of three packages or inside one. */
  lemma {:induction false} IsAppMeaning(name: string)
    ensures IsApp(name)
            <==> || name == "app" || name == "backend" || name == "tests"
                 || (exists rest :: name == "app" + "." + rest) || (exists rest :: name == "backend" + "." + rest)
                 || (exists rest :: name == "tests" + "." + rest)
  {
    UnderMeaning(name, "app");
    UnderMeaning(name, "backend");
    UnderMeaning(name, "tests");
  }

  lemma {:induction false} UnderMeaning(name: string, prefix: string)
    ensures Under(name, prefix) <==> name == prefix || exists rest :: name == prefix + "." + rest
  {
    if |name| > |prefix| && name[..|prefix| + 1] == prefix + "." {
      assert name == prefix + "." + name[|prefix| + 1..];
    }
  }

  /** Environment, directory and import path are those of the base, the data root and the job count; no app module. */
  ghost predicate Isolated(w: World, base: Base, root: string, dataRoot: string, jobs: int, host: Host) {
    && w.env == Configured(base.env, dataRoot, jobs, host) && w.cwd == root
    && w.path == [host.join(root, "backend"), root] + base.path
    && forall m :: m in w.modules ==> !IsApp(m)
  }

  datatype Request = Stop | Test(name: int, dataRoot: string)

  /** A payload answers its request, after a load in isolation if there was one, with the suite's own verdict. */
  ghost predicate Fair(request: Request, payload: Payload, loaded: Option<World>, base: Base, root: string, jobs: int,
                       host: Host, s: Suites) {
    && request.Test? && payload.name == request.name
    && (loaded.Some? ==> Isolated(loaded.value, base, root, request.dataRoot, jobs, host))
    && (payload.successful ==>
          loaded.Some? && var run := s.run(payload.name, loaded.value); !run.raised && run.successful)
  }

  /** How many requests come before the first stop. */
  function UntilStop(requests: seq<Request>): (n: nat)
    ensures n <= |requests| && (n < |requests| ==> requests[n] == Stop)
    ensures forall k :: 0 <= k < n ==> requests[k] != Stop
  {
    if requests == [] || requests[0].Stop? then 0 else 1 + UntilStop(requests[1..])
  }

  class Process {
    var env: Env
    var cwd: string
    var path: seq<string>
    var modules: set<string>
    var dirs: set<string>

    function Now(): World
      reads this
    {
      World(env, cwd, path, modules, dirs)
    }

    method Become(w: World)
      modifies this
      ensures Now() == w
    {
      env, cwd, path, modules, dirs := w.env, w.cwd, w.path, w.modules, w.dirs;
    }

    /** Back to the base; fails when disposing raises or the base directory is gone. */
    method Reset(base: Base, s: Suites) returns (ok: bool)
      modifies this
      ensures var disposed := s.dispose(old(Now()));
              && (ok <==> !disposed.raised && base.cwd in disposed.after.dirs)
              && dirs == disposed.after.dirs
              && (ok ==> env == base.env && cwd == base.cwd && path == base.path
                         && modules == set m | m in disposed.after.modules && !IsApp(m))
    {
      var disposed := s.dispose(Now());
      Become(disposed.after);
      if disposed.raised {
        return false;
      }
      env := base.env;
      if base.cwd !in dirs {
        return false;
      }
      cwd := base.cwd;
      path := base.path;
      modules := set m | m in modules && !IsApp(m);
      ok := true;
    }

    /** Run one module. `loaded` is the state its suite was loaded in, if it came to that. */
    method RunModule(base: Base, root: string, name: int, dataRoot: string, jobs: int, host: Host, s: Suites)
      returns (payload: Option<Payload>, ghost loaded: Option<World>)
      modifies this
      ensures loaded.Some? ==> Isolated(loaded.value, base, root, dataRoot, jobs, host)
      ensures loaded.Some? ==> loaded.value.modules == set m | m in s.dispose(old(Now())).after.modules && !IsApp(m)
      ensures payload.Some? <==> loaded.Some? && !s.run(name, loaded.value).raised
      ensures payload.Some? ==> var run := s.run(name, loaded.value);
                                payload.value == Payload(name, run.successful, run.failures)
    {
      var ok := Reset(base, s);
      if !ok {
        return None, None;
      }
      dirs := dirs + {dataRoot};
      env := Configured(env, dataRoot, jobs, host);
      path := [root] + path;
      path := [host.join(root, "backend")] + path;
      if root !in dirs {
        return None, None;
      }
      cwd := root;
      loaded := Some(Now());
      assert path == [host.join(root, "backend"), root] + base.path;
      var run := s.run(name, Now());
      Become(run.after);
      if run.raised {
        return None, loaded;
      }
      payload := Some(Payload(name, run.successful, run.failures));
    }

    /**
     Serve requests until told to stop: one payload each. Whatever the modules before it did, a suite is loaded in a
     state fixed by the worker's own start, the data root and the job count; and success is the suite's own.
     */
    method Serve(requests: seq<Request>, root: string, jobs: int, host: Host, s: Suites)
      returns (payloads: seq<Payload>, ghost loads: seq<Option<World>>, ghost base: Base)
      modifies this
      ensures base == Base(old(env) - {DATA}, old(cwd), old(path))
      ensures Served(Session(requests, payloads, loads, base), root, jobs, host, s)
    {
      var start := Base(env - {DATA}, cwd, path);
      base := start;
      payloads, loads := [], [];
      var k := 0;
      while k < |requests| && !requests[k].Stop?
        invariant k <= |requests| && |payloads| == |loads| == k
        invariant UntilStop(requests) == k + UntilStop(requests[k..])
        invariant forall j :: 0 <= j < k ==> Fair(requests[j], payloads[j], loads[j], base, root, jobs, host, s)
      {
        var payload, loaded := ServeOne(requests[k], start, root, jobs, host, s);
        payloads := payloads + [payload];
        loads := loads + [loaded];
        assert requests[k..][1..] == requests[k + 1..];
        k := k + 1;
      }
    }

    method ServeOne(request: Request, base: Base, root: string, jobs: int, host: Host, s: Suites)
      returns (payload: Payload, ghost loaded: Option<World>)
      requires request.Test?
      modifies this
      ensures Fair(request, payload, loaded, base, root, jobs, host, s)
    {
      var ran: Option<Payload>;
      ran, loaded := RunModule(base, root, request.name, request.dataRoot, jobs, host, s);
      payload := if ran.Some? then ran.value else Payload(request.name, false, ["persistent worker exception"]);
    }
  }

  // ---------------------------------------------------------------- shards

  function EffectiveShards(requested: int, count: nat, budget: int, host: Host): (n: nat)
    ensures n >= 1 && (count > 0 ==> n <= count) && (count > 0 && requested > 0 ==> n <= requested)
  {
    Max(1, Min(Min(if requested == 0 then Cpus(host) else requested, count), budget))
  }

  /** Dealing round robin: which shard each module goes to. */
  function Robin(count: nat, n: nat): seq<nat>
    requires n > 0
  {
    seq(count, k => k % n)
  }

  /** The modules of shard `i` among the first `k`. */
  function ShardOf(modules: seq<int>, hand: seq<nat>, i: nat, k: nat): seq<int>
    requires k <= |modules| == |hand|
  {
    if k == 0 then []
    else if hand[k - 1] == i then ShardOf(modules, hand, i, k - 1) + [modules[k - 1]]
    else ShardOf(modules, hand, i, k - 1)
  }

  /** Every `n`-th module from module `i` on. */
  function Shard(modules: seq<int>, i: nat, n: nat): seq<int>
    requires i < n
  {
    ShardOf(modules, Robin(|modules|, n), i, |modules|)
  }

  /** Shard `i` has module `i` and every `n`-th from there, in order. */
  lemma {:induction false} ShardMeaning(modules: seq<int>, i: nat, n: nat)
    requires i < n
    ensures var shard := Shard(modules, i, n);
            && i + |shard| * n >= |modules|
            && AllItems(modules, i, n, shard)
  {
    ShardSize(modules, i, n, |modules|);
    Reach(|modules|, n, i, |Shard(modules, i, n)|);
    ShardItems(modules, i, n, |modules|);
  }

  lemma {:induction false} Reach(k: nat, n: nat, i: nat, size: nat)
    requires i < n && size == k / n + (if i < k % n then 1 else 0)
    ensures i + size * n >= k
  {
    var q, r := k / n, k % n;
    assert k == q * n + r;
    assert (q + 1) * n == q * n + n;
  }

  lemma {:induction false} Turn(k: nat, n: nat, i: nat)
    requires i < n && k % n == i
    ensures k == i + k / n * n
  {
  }

  lemma {:induction false} ShardItems(modules: seq<int>, i: nat, n: nat, k: nat)
    requires i < n && k <= |modules|
    ensures AllItems(modules, i, n, ShardOf(modules, Robin(|modules|, n), i, k))
  {
    if k > 0 {
      ShardItems(modules, i, n, k - 1);
      if (k - 1) % n == i {
        ShardSize(modules, i, n, k - 1);
        NextItem(modules, i, n, k - 1);
        ItemsGrow(modules, i, n, ShardOf(modules, Robin(|modules|, n), i, k - 1), modules[k - 1]);
      }
    }
  }

  ghost predicate AllItems(modules: seq<int>, i: nat, n: nat, shard: seq<int>) {
    forall q :: 0 <= q < |shard| ==> ItemOf(modules, i, n, q, shard[q])
  }

  lemma {:induction false} ItemsGrow(modules: seq<int>, i: nat, n: nat, shard: seq<int>, m: int)
    requires AllItems(modules, i, n, shard) && ItemOf(modules, i, n, |shard|, m)
    ensures AllItems(modules, i, n, shard + [m])
  {
  }

  lemma {:induction false} NextItem(modules: seq<int>, i: nat, n: nat, k: nat)
    requires i < n && k < |modules| && k % n == i
    ensures ItemOf(modules, i, n, k / n, modules[k])
  {
    Turn(k, n, i);
  }

  ghost predicate ItemOf(modules: seq<int>, i: nat, n: nat, q: int, m: int) {
    0 <= i + q * n < |modules| && m == modules[i + q * n]
  }

  lemma {:induction false} NextDivision(k: nat, n: nat)
    requires n > 0
    ensures if k % n == n - 1 then (k + 1) / n == k / n + 1 && (k + 1) % n == 0
            else (k + 1) / n == k / n && (k + 1) % n == k % n + 1
  {
    var q, r := k / n, k % n;
    assert k == q * n + r;
    if r == n - 1 {
      assert k + 1 == (q + 1) * n;
      DivisionUnique(k + 1, n, q + 1, 0);
    } else {
      DivisionUnique(k + 1, n, q, r + 1);
    }
  }

  lemma {:induction false} DivisionUnique(x: nat, n: nat, q: nat, r: nat)
    requires n > 0 && x == q * n + r && r < n
    ensures x / n == q && x % n == r
  {
    var p := x / n;
    assert x == p * n + x % n;
    Monotone(p + 1, q, n);
    Monotone(q + 1, p, n);
  }

  lemma {:induction false} Monotone(a: nat, b: nat, n: nat)
    ensures a <= b ==> a * n <= b * n
  {
    if a <= b {
      assert (b - a) * n >= 0;
      assert b * n == a * n + (b - a) * n;
    }
  }

  /** Shard `i` gets an even share, and one more if it is among the first of the remainder. */
  lemma {:induction false} ShardSize(modules: seq<int>, i: nat, n: nat, k: nat)
    requires i < n && k <= |modules|
    ensures |ShardOf(modules, Robin(|modules|, n), i, k)| == k / n + (if i < k % n then 1 else 0)
  {
    if k > 0 {
      ShardSize(modules, i, n, k - 1);
      NextDivision(k - 1, n);
    }
  }

  /** Shards differ by at most one module, and none is empty if there are as many modules as shards. */
  lemma {:induction false} ShardsBalanced(modules: seq<int>, n: nat, i: nat, j: nat)
    requires i < n && j < n
    ensures -1 <= |Shard(modules, i, n)| - |Shard(modules, j, n)| <= 1
    ensures n <= |modules| ==> Shard(modules, i, n) != []
  {
    ShardSize(modules, i, n, |modules|);
    ShardSize(modules, j, n, |modules|);
  }

  /** All shards, of the first `k` modules. */
  function Shards(modules: seq<int>, hand: seq<nat>, n: nat, k: nat): seq<seq<int>>
    requires k <= |modules| == |hand|
  {
    seq(n, i requires 0 <= i < n => ShardOf(modules, hand, i, k))
  }

  lemma {:induction false} NextShards(modules: seq<int>, hand: seq<nat>, n: nat, k: nat)
    requires k < |modules| == |hand| && hand[k] < n
    ensures var now := Shards(modules, hand, n, k);
            Shards(modules, hand, n, k + 1) == now[hand[k] := now[hand[k]] + [modules[k]]]
  {
  }

  lemma {:induction false} OneMore<T>(xss: seq<seq<T>>, j: nat, x: T)
    requires j < |xss|
    ensures multiset(Flatten(xss[j := xss[j] + [x]])) == multiset(Flatten(xss)) + multiset{x}
  {
    var more := xss[j := xss[j] + [x]];
    FlattenWithout(more, j);
    FlattenWithout(xss, j);
    assert Without(more, j) == Without(xss, j);
  }

  lemma {:induction false} NoShards(xss: seq<seq<int>>)
    requires forall i :: 0 <= i < |xss| ==> xss[i] == []
    ensures Flatten(xss) == []
    decreases |xss|
  {
    if xss != [] {
      NoShards(xss[..|xss| - 1]);
    }
  }

  lemma {:induction false} ShardsGrow(modules: seq<int>, hand: seq<nat>, n: nat, k: nat)
    requires k < |modules| == |hand| && hand[k] < n
    ensures multiset(Flatten(Shards(modules, hand, n, k + 1)))
         == multiset(Flatten(Shards(modules, hand, n, k))) + multiset{modules[k]}
  {
    NextShards(modules, hand, n, k);
    OneMore(Shards(modules, hand, n, k), hand[k], modules[k]);
  }

  lemma {:induction false} PrefixGrows(modules: seq<int>, k: nat)
    requires k < |modules|
    ensures multiset(modules[..k + 1]) == multiset(modules[..k]) + multiset{modules[k]}
  {
    assert modules[..k + 1] == modules[..k] + [modules[k]];
  }

  /** What starts empty and grows by each module is, in the end, all modules. */
  lemma {:induction false} GrowsToAll(held: nat -> multiset<int>, modules: seq<int>, k: nat)
    requires k <= |modules| && held(0) == multiset{}
    requires forall j: nat :: j < |modules| ==> held(j + 1) == held(j) + multiset{modules[j]}
    ensures held(k) == multiset(modules[..k])
  {
    if k == 0 {
      assert modules[..0] == [];
    } else {
      var j: nat := k - 1;
      GrowsToAll(held, modules, j);
      PrefixGrows(modules, j);
      assert held(j + 1) == held(j) + multiset{modules[j]};
    }
  }

  ghost function HeldBy(modules: seq<int>, hand: seq<nat>, n: nat): nat -> multiset<int>
    requires |hand| == |modules|
  {
    (k: nat) => if k <= |modules| then multiset(Flatten(Shards(modules, hand, n, k))) else multiset{}
  }

  lemma {:induction false} HeldGrows(modules: seq<int>, hand: seq<nat>, n: nat)
    requires |hand| == |modules| && forall j :: 0 <= j < |hand| ==> hand[j] < n
    ensures HeldBy(modules, hand, n)(0) == multiset{}
    ensures forall j: nat :: j < |modules| ==>
              HeldBy(modules, hand, n)(j + 1) == HeldBy(modules, hand, n)(j) + multiset{modules[j]}
  {
    NoShards(Shards(modules, hand, n, 0));
    forall j: nat | j < |modules|
      ensures HeldBy(modules, hand, n)(j + 1) == HeldBy(modules, hand, n)(j) + multiset{modules[j]}
    {
      ShardsGrow(modules, hand, n, j);
    }
  }

  function AllShards(modules: seq<int>, n: nat): seq<seq<int>> { seq(n, i requires 0 <= i < n => Shard(modules, i, n)) }

  /** The shards together hold every module as often as it is listed. */
  lemma {:induction false} ShardsPartition(modules: seq<int>, n: nat)
    requires n > 0
    ensures multiset(Flatten(AllShards(modules, n))) == multiset(modules)
  {
    var hand := Robin(|modules|, n);
    HeldGrows(modules, hand, n);
    GrowsToAll(HeldBy(modules, hand, n), modules, |modules|);
    assert modules[..|modules|] == modules;
    assert AllShards(modules, n) == Shards(modules, hand, n, |modules|);
  }

  // ---------------------------------------------------------------- a sharded run

  /**
   What one shard's worker answers to its requests, `None` if it is gone; whether it is still there to take the stop
   command after its last answer; and how it exits.
   */
  datatype Worker = Worker(reply: nat -> Option<Payload>, takesStop: bool, exitCode: int)

  datatype ShardResult = ShardResult(modules: seq<Payload>, exitCode: int)

  /** Feed a shard's modules to its worker one by one, then stop it; `None` is the error of a worker that is gone. */
  method RunShard(modules: seq<int>, w: Worker) returns (r: Option<ShardResult>)
    ensures r.None? <==> modules != [] && (!w.takesStop || exists k: nat :: k < |modules| && w.reply(k).None?)
    ensures r.Some? ==> |r.value.modules| == |modules|
                        && forall k :: 0 <= k < |modules| ==> w.reply(k) == Some(r.value.modules[k])
    ensures r.Some? ==> r.value.exitCode == if modules == [] then 0 else w.exitCode
  {
    if modules == [] {
      return Some(ShardResult([], 0));
    }
    var results := [];
    for k := 0 to |modules|
      invariant |results| == k && forall j :: 0 <= j < k ==> w.reply(j) == Some(results[j])
    {
      var response := w.reply(k);
      if response.None? {
        return None;
      }
      results := results + [response.value];
    }
    if !w.takesStop {
      return None;
    }
    r := Some(ShardResult(results, w.exitCode));
  }

  datatype Report = Report(successful: bool, failures: seq<string>, modules: seq<Payload>)

  /** The dealt modules and the workers they are dealt to. */
  datatype Deal = Deal(modules: seq<int>, n: nat, workers: nat -> Worker)

  /** The worker of a shard is gone before it has answered everything and taken the stop command. */
  ghost predicate Gone(d: Deal, i: nat)
    requires i < d.n
  {
    var shard := Shard(d.modules, i, d.n);
    shard != [] && (!d.workers(i).takesStop || exists k: nat :: k < |shard| && d.workers(i).reply(k).None?)
  }

  /** Workers answer with the module they were asked for, as `Serve` shows they do. */
  ghost predicate Honest(d: Deal) {
    forall i: nat, k: nat :: i < d.n && k < |Shard(d.modules, i, d.n)| && d.workers(i).reply(k).Some? ==>
      d.workers(i).reply(k).value.name == Shard(d.modules, i, d.n)[k]
  }

  ghost predicate AllAnswer(d: Deal) {
    d.n > 0 && forall i: nat :: i < d.n ==> !Gone(d, i) && Shard(d.modules, i, d.n) != []
  }

  ghost function Answers(d: Deal, i: nat): seq<Payload>
    requires AllAnswer(d) && i < d.n
  {
    assert !Gone(d, i);
    seq(|Shard(d.modules, i, d.n)|, k requires 0 <= k < |Shard(d.modules, i, d.n)| => d.workers(i).reply(k).value)
  }

  /** A shard's answers, keyed by the first module they name. */
  ghost function Keyed(d: Deal, i: nat): M.Item<seq<Payload>>
    requires AllAnswer(d) && i < d.n
  {
    M.Item(Answers(d, i)[0].name, Answers(d, i))
  }

  ghost function KeyedAll(d: Deal): seq<M.Item<seq<Payload>>>
    requires AllAnswer(d)
  {
    seq(d.n, i requires 0 <= i < d.n => Keyed(d, i))
  }

  ghost function AllAnswers(d: Deal): seq<seq<Payload>>
    requires AllAnswer(d)
  {
    seq(d.n, i requires 0 <= i < d.n => Answers(d, i))
  }

  /** The order in which shards were completed. */
  ghost predicate Arrangement(idx: seq<nat>, n: nat) {
    && |idx| == n && (forall a, b :: 0 <= a < b < |idx| ==> idx[a] != idx[b])
    && (forall a :: 0 <= a < |idx| ==> idx[a] < n) && forall i: nat :: i < n ==> i in idx
  }

  lemma {:induction false} WithoutArrangement(idx: seq<nat>, n: nat, j: nat)
    requires Arrangement(idx, n + 1) && j < |idx| && idx[j] == n
    ensures Arrangement(Without(idx, j), n)
  {
    var rest := Without(idx, j);
    assert forall a :: 0 <= a < |rest| ==> rest[a] == idx[if a < j then a else a + 1];
    forall i: nat | i < n ensures i in rest {
      assert i in idx;
      var a :| 0 <= a < |idx| && idx[a] == i;
      assert rest[if a < j then a else a - 1] == i;
    }
  }

  ghost predicate Follows<T>(all: seq<T>, idx: seq<nat>, items: seq<T>) {
    |items| == |idx| && forall a :: 0 <= a < |idx| ==> idx[a] < |all| && items[a] == all[idx[a]]
  }

  lemma {:induction false} WithoutFollows<T>(all: seq<T>, idx: seq<nat>, items: seq<T>, n: nat, j: nat)
    requires Follows(all, idx, items) && |all| == n + 1 && Arrangement(idx, n + 1) && j < |idx| && idx[j] == n
    ensures Follows(all[..n], Without(idx, j), Without(items, j))
  {
    WithoutArrangement(idx, n, j);
    var rest, others := Without(idx, j), Without(items, j);
    forall a | 0 <= a < |rest| ensures others[a] == all[..n][rest[a]] {
      assert rest[a] == idx[if a < j then a else a + 1] && others[a] == items[if a < j then a else a + 1];
    }
  }

  /** Items in completion order are the items in shard order, rearranged. */
  lemma {:induction false} Rearranged<T>(all: seq<T>, idx: seq<nat>, items: seq<T>)
    requires Arrangement(idx, |all|) && Follows(all, idx, items)
    ensures multiset(items) == multiset(all)
    decreases |all|
  {
    if all != [] {
      var n: nat := |all| - 1;
      assert n in idx;
      var j :| 0 <= j < |idx| && idx[j] == n;
      WithoutArrangement(idx, n, j);
      WithoutFollows(all, idx, items, n, j);
      Rearranged(all[..n], Without(idx, j), Without(items, j));
      WithoutMembers(items, j);
      assert all == all[..n] + [all[n]];
    }
  }

  function Names(ps: seq<Payload>): seq<int> { seq(|ps|, k requires 0 <= k < |ps| => ps[k].name) }

  lemma {:induction false} NamesOfSum(a: seq<Payload>, b: seq<Payload>)
    ensures Names(a + b) == Names(a) + Names(b)
  {
  }

  /** The payloads of a report if modules are named as asked: shards in the order of their first modules. */
  ghost function Combined(d: Deal): seq<Payload>
    requires AllAnswer(d)
  {
    Flatten(M.Values(M.Arranged(KeyedAll(d))))
  }

  lemma {:induction false} SameLengths<A, B>(a: seq<seq<A>>, b: seq<seq<B>>)
    requires |a| == |b| && forall i :: 0 <= i < |a| ==> |a[i]| == |b[i]|
    ensures |Flatten(a)| == |Flatten(b)|
    decreases |a|
  {
    if a != [] {
      SameLengths(a[..|a| - 1], b[..|b| - 1]);
    }
  }

  lemma {:induction false} NamesOfFlatten(a: seq<seq<Payload>>, b: seq<seq<int>>)
    requires |a| == |b| && forall i :: 0 <= i < |a| ==> Names(a[i]) == b[i]
    ensures Names(Flatten(a)) == Flatten(b)
    decreases |a|
  {
    if a != [] {
      NamesOfFlatten(a[..|a| - 1], b[..|b| - 1]);
      NamesOfSum(Flatten(a[..|a| - 1]), a[|a| - 1]);
    }
  }

  /** In whatever order shards were completed, the report has the payloads of all of them. */
  lemma {:induction false} ReportsAll(d: Deal, completed: seq<M.Item<seq<Payload>>>)
    requires AllAnswer(d) && multiset(completed) == multiset(KeyedAll(d))
    ensures multiset(Flatten(M.Values(M.Arranged(completed)))) == multiset(Flatten(AllAnswers(d)))
  {
    SortMembers(completed, M.Earlier<seq<Payload>>);
    SameValues(M.Arranged(completed), KeyedAll(d));
    assert M.Values(KeyedAll(d)) == AllAnswers(d);
    FlattenOfSame(M.Values(M.Arranged(completed)), AllAnswers(d));
  }

  lemma {:induction false} SameValues<T>(a: seq<M.Item<T>>, b: seq<M.Item<T>>)
    requires multiset(a) == multiset(b)
    ensures multiset(M.Values(a)) == multiset(M.Values(b))
  {
    var value := (x: M.Item<T>) => x.value;
    ColumnOfSame(a, b, value);
    assert M.Values(a) == Column(a, value) && M.Values(b) == Column(b, value);
  }

  /** As many payloads as modules. */
  lemma {:induction false} OnePayloadEach(d: Deal)
    requires AllAnswer(d)
    ensures |Flatten(AllAnswers(d))| == |d.modules|
  {
    ShardsPartition(d.modules, d.n);
    SameLengths(AllAnswers(d), AllShards(d.modules, d.n));
    var all := Flatten(AllShards(d.modules, d.n));
    assert |all| == |multiset(all)| && |d.modules| == |multiset(d.modules)|;
  }

  lemma {:induction false} AnswersNamed(d: Deal, i: nat)
    requires AllAnswer(d) && Honest(d) && i < d.n
    ensures Names(Answers(d, i)) == Shard(d.modules, i, d.n)
  {
    assert !Gone(d, i);
  }

  /** Payloads that name what they were asked for name every module exactly as often as it is listed. */
  lemma {:induction false} AnswersCover(d: Deal)
    requires AllAnswer(d) && Honest(d)
    ensures multiset(Names(Flatten(AllAnswers(d)))) == multiset(d.modules)
  {
    forall i | 0 <= i < d.n ensures Names(AllAnswers(d)[i]) == AllShards(d.modules, d.n)[i] {
      AnswersNamed(d, i);
    }
    NamesOfFlatten(AllAnswers(d), AllShards(d.modules, d.n));
    ShardsPartition(d.modules, d.n);
  }

  // ---------------------------------------------------------------- the run

  /** The items completed so far: those of the shards `idx`, each once. */
  ghost predicate Completed(idx: seq<nat>, pending: set<nat>, n: nat) {
    && (forall a, b :: 0 <= a < b < |idx| ==> idx[a] != idx[b])
    && (forall i: nat :: i in idx <==> i < n && i !in pending)
    && |idx| + |pending| == n
  }

  lemma {:induction false} CompletedAll(idx: seq<nat>, n: nat)
    requires Completed(idx, {}, n)
    ensures Arrangement(idx, n)
  {
    assert forall a :: 0 <= a < |idx| ==> idx[a] in idx;
  }

  lemma {:induction false} CompleteOne(idx: seq<nat>, pending: set<nat>, n: nat, i: nat)
    requires Completed(idx, pending, n) && i in pending && i < n
    ensures Completed(idx + [i], pending - {i}, n)
  {
    assert forall a :: 0 <= a < |idx| ==> idx[a] in idx;
  }

  /** Keys are distinct when modules are, so sorting has one result for every completion order. */
  lemma {:induction false} KeysDistinct(d: Deal, i: nat, j: nat)
    requires AllAnswer(d) && Honest(d) && Distinct(d.modules) && i < j < d.n
    ensures Keyed(d, i).ordinal != Keyed(d, j).ordinal
  {
    var hand := Robin(|d.modules|, d.n);
    AnswersNamed(d, i);
    AnswersNamed(d, j);
    assert Names(Answers(d, i))[0] == Answers(d, i)[0].name && Names(Answers(d, j))[0] == Answers(d, j)[0].name;
    var a := MemberOf(d.modules, hand, i, |d.modules|, 0);
    var b := MemberOf(d.modules, hand, j, |d.modules|, 0);
  }

  lemma {:induction false} MemberOf(modules: seq<int>, hand: seq<nat>, i: nat, k: nat, p: nat) returns (a: nat)
    requires k <= |modules| == |hand| && p < |ShardOf(modules, hand, i, k)|
    ensures a < k && hand[a] == i && modules[a] == ShardOf(modules, hand, i, k)[p]
  {
    if hand[k - 1] == i && p == |ShardOf(modules, hand, i, k)| - 1 {
      a := k - 1;
    } else {
      a := MemberOf(modules, hand, i, k - 1, p);
    }
  }

  /** With payloads that name distinct modules as asked, sorting gives one order whatever finished first. */
  lemma {:induction false} SortedKeys(d: Deal, completed: seq<M.Item<seq<Payload>>>)
    requires AllAnswer(d) && Honest(d) && Distinct(d.modules) && multiset(completed) == multiset(KeyedAll(d))
    ensures M.Arranged(completed) == M.Arranged(KeyedAll(d))
  {
    var items := KeyedAll(d);
    forall i, j | 0 <= i < j < |items| ensures items[i].ordinal != items[j].ordinal {
      KeysDistinct(d, i, j);
    }
    M.ArrangedSelects(items);
    M.SortRestores(M.Arranged(items), completed);
  }

  predicate Good(p: Payload) { p.successful && p.failures == [] }

  /** Every answer is a success without failures, and every worker exited with zero. */
  ghost predicate AllWell(d: Deal)
    requires AllAnswer(d)
  {
    && (forall p <- Flatten(AllAnswers(d)) :: Good(p))
    && forall i: nat :: i < d.n ==> d.workers(i).exitCode == 0
  }

  lemma {:induction false} SamePayloads(a: seq<Payload>, b: seq<Payload>)
    requires multiset(a) == multiset(b)
    ensures (forall p <- a :: Good(p)) <==> (forall p <- b :: Good(p))
    ensures |a| == |b|
  {
    assert |a| == |multiset(a)| && |b| == |multiset(b)|;
    assert forall p :: p in a <==> p in multiset(a);
    assert forall p :: p in b <==> p in multiset(b);
  }

  /** All failures of the modules, in order. */
  method CollectFailures(modules: seq<Payload>) returns (failures: seq<string>)
    ensures failures == Flatten(Column(modules, (p: Payload) => p.failures))
    ensures failures == [] <==> forall k :: 0 <= k < |modules| ==> modules[k].failures == []
  {
    failures := [];
    ghost var each := Column(modules, (p: Payload) => p.failures);
    for k := 0 to |modules|
      invariant failures == Flatten(each[..k])
      invariant failures == [] <==> forall j :: 0 <= j < k ==> modules[j].failures == []
    {
      FlattenOne(each, k);
      failures := failures + modules[k].failures;
    }
    assert each[..|modules|] == each;
  }

  function Below(n: nat): (r: set<nat>)
    ensures |r| == n && forall i: nat :: i in r <==> i < n
  {
    if n == 0 then {} else Below(n - 1) + {n - 1}
  }

  /** Shards finish in any order. A shard that fails leaves a result without modules. */
  method Complete(d: Deal) returns (results: seq<ShardResult>, ghost idx: seq<nat>)
    requires d.n > 0
    ensures Arrangement(idx, d.n) && |results| == d.n
    ensures forall a :: 0 <= a < d.n ==> IsResult(d, idx[a], results[a])
  {
    var pending := Below(d.n);
    results, idx := [], [];
    while pending != {}
      invariant Completed(idx, pending, d.n) && |results| == |idx| && forall i :: i in pending ==> i < d.n
      invariant forall a :: 0 <= a < |idx| ==> idx[a] < d.n && IsResult(d, idx[a], results[a])
    {
      var i :| i in pending;
      var r := RunShard(Shard(d.modules, i, d.n), d.workers(i));
      results := results + [if r.Some? then r.value else ShardResult([], 1)];
      CompleteOne(idx, pending, d.n, i);
      idx := idx + [i];
      pending := pending - {i};
    }
    CompletedAll(idx, d.n);
  }

  ghost predicate IsResult(d: Deal, i: nat, r: ShardResult)
    requires i < d.n
  {
    var shard := Shard(d.modules, i, d.n);
    if Gone(d, i) then r == ShardResult([], 1)
    else
      && |r.modules| == |shard| && (forall k: nat :: k < |shard| ==> d.workers(i).reply(k) == Some(r.modules[k]))
      && r.exitCode == if shard == [] then 0 else d.workers(i).exitCode
  }

  /** Results without an empty list of modules are those of a run in which every worker answered. */
  lemma {:induction false} NoneEmpty(d: Deal, idx: seq<nat>, results: seq<ShardResult>)
    requires d.n > 0 && Arrangement(idx, d.n) && |results| == d.n
    requires forall a :: 0 <= a < d.n ==> IsResult(d, idx[a], results[a])
    ensures (forall a :: 0 <= a < d.n ==> results[a].modules != []) <==> AllAnswer(d)
  {
    if forall a :: 0 <= a < d.n ==> results[a].modules != [] {
      forall i: nat | i < d.n ensures !Gone(d, i) && Shard(d.modules, i, d.n) != [] {
        assert i in idx;
        var a :| 0 <= a < |idx| && idx[a] == i;
        assert IsResult(d, i, results[a]);
      }
    }
  }

  lemma {:induction false} ResultIsAnswers(d: Deal, i: nat, r: ShardResult)
    requires AllAnswer(d) && i < d.n && IsResult(d, i, r)
    ensures r.modules == Answers(d, i) && r.modules != [] && r.exitCode == d.workers(i).exitCode
  {
    assert !Gone(d, i);
  }

  /** Key results by the name of their first module. */
  method KeyResults(d: Deal, ghost idx: seq<nat>, results: seq<ShardResult>) returns (keyed: seq<M.Item<seq<Payload>>>)
    requires AllAnswer(d) && Arrangement(idx, d.n) && |results| == d.n
    requires forall a :: 0 <= a < d.n ==> IsResult(d, idx[a], results[a])
    ensures multiset(keyed) == multiset(KeyedAll(d))
    ensures forall a :: 0 <= a < d.n ==> results[a].exitCode == d.workers(idx[a]).exitCode
  {
    keyed := [];
    for a := 0 to |results|
      invariant |keyed| == a && forall b :: 0 <= b < a ==> keyed[b] == Keyed(d, idx[b])
      invariant forall b :: 0 <= b < a ==> results[b].exitCode == d.workers(idx[b]).exitCode
    {
      ResultIsAnswers(d, idx[a], results[a]);
      keyed := keyed + [M.Item(results[a].modules[0].name, results[a].modules)];
    }
    Rearranged(KeyedAll(d), idx, keyed);
  }

  function Reversed(s: seq<int>): (r: seq<int>)
    ensures |r| == |s| && forall k :: 0 <= k < |s| ==> r[k] == s[|s| - 1 - k]
  {
    seq(|s|, k requires 0 <= k < |s| => s[|s| - 1 - k])
  }

  method ExitFailures(results: seq<ShardResult>) returns (failures: seq<string>)
    ensures failures == [] <==> forall a :: 0 <= a < |results| ==> results[a].exitCode == 0
  {
    failures := [];
    for a := 0 to |results|
      invariant failures == [] <==> forall b :: 0 <= b < a ==> results[b].exitCode == 0
    {
      if results[a].exitCode != 0 {
        failures := failures + ["persistent worker exited with a code other than zero"];
      }
    }
  }

  function Dealt(names: seq<int>, reverse: bool, requested: int, budget: int, host: Host,
                 workers: nat -> Worker): Deal {
    Deal(if reverse then Reversed(names) else names, EffectiveShards(requested, |names|, budget, host), workers)
  }

  /** Modules in reverse if asked; as many shards as asked, or as processors, but not more than modules or budget. */
  lemma {:induction false} DealtMeaning(names: seq<int>, reverse: bool, requested: int, budget: int, host: Host,
                                        workers: nat -> Worker)
    ensures var d := Dealt(names, reverse, requested, budget, host, workers);
            var asked := if requested == 0 then (if host.cpus == 0 then 4 else host.cpus) else requested;
            && |d.modules| == |names| && d.workers == workers
            && (forall k :: 0 <= k < |names| ==> d.modules[k] == names[if reverse then |names| - 1 - k else k])
            && d.n >= 1 && (d.n == 1 || (d.n <= asked && d.n <= |names| && d.n <= budget))
            && (d.n >= asked || d.n >= |names| || d.n >= budget)
  {
  }

  /** A run went well if every module was answered with success and without failures and every worker exited with 0. */
  lemma {:induction false} AllWellMeaning(d: Deal)
    requires AllAnswer(d)
    ensures AllWell(d)
            <==> && (forall i: nat :: i < d.n ==> ShardWell(d, i))
                 && (forall i: nat :: i < d.n ==> d.workers(i).exitCode == 0)
  {
    if forall p <- Flatten(AllAnswers(d)) :: Good(p) {
      forall i: nat | i < d.n ensures ShardWell(d, i) {
        forall k: nat | k < |Shard(d.modules, i, d.n)| ensures AnsweredWell(d, i, k) {
          AnswerInAll(d, i, k);
        }
      }
    }
    if forall i: nat :: i < d.n ==> ShardWell(d, i) {
      forall p | p in Flatten(AllAnswers(d)) ensures Good(p) {
        var i, k := AnswerOf(d, p);
        assert ShardWell(d, i) && AnsweredWell(d, i, k);
      }
    }
  }

  ghost predicate AnsweredWell(d: Deal, i: nat, k: nat) {
    var reply := d.workers(i).reply(k);
    reply.Some? && reply.value.successful && reply.value.failures == []
  }

  ghost predicate ShardWell(d: Deal, i: nat)
    requires i < d.n
  {
    forall k: nat :: k < |Shard(d.modules, i, d.n)| ==> AnsweredWell(d, i, k)
  }

  lemma {:induction false} AnswerInAll(d: Deal, i: nat, k: nat)
    requires AllAnswer(d) && i < d.n && k < |Shard(d.modules, i, d.n)|
    ensures d.workers(i).reply(k).Some? && d.workers(i).reply(k).value in Flatten(AllAnswers(d))
  {
    assert !Gone(d, i);
    FlattenWithout(AllAnswers(d), i);
    assert Answers(d, i)[k] in multiset(Answers(d, i));
    assert Answers(d, i)[k] in multiset(Flatten(AllAnswers(d)));
  }

  lemma {:induction false} FlattenMember<T>(xss: seq<seq<T>>, x: T) returns (i: nat, k: nat)
    requires x in Flatten(xss)
    ensures i < |xss| && k < |xss[i]| && xss[i][k] == x
    decreases |xss|
  {
    var last := xss[|xss| - 1];
    if x in last {
      i := |xss| - 1;
      k :| 0 <= k < |last| && last[k] == x;
    } else {
      i, k := FlattenMember(xss[..|xss| - 1], x);
    }
  }

  lemma {:induction false} AnswerOf(d: Deal, p: Payload) returns (i: nat, k: nat)
    requires AllAnswer(d) && p in Flatten(AllAnswers(d))
    ensures i < d.n && k < |Shard(d.modules, i, d.n)| && d.workers(i).reply(k) == Some(p)
  {
    i, k := FlattenMember(AllAnswers(d), p);
    assert !Gone(d, i);
    assert AllAnswers(d)[i] == Answers(d, i);
  }

  /**
   Deal the modules, let every shard run, and report. `None` is the error of taking the first module of a result that
   has none: a run reports if and only if every shard has modules and its worker answered them all and took the stop
   command. The report holds every answer, in one order if modules are named as asked, and success is success of all
   answers and all workers.
   */
  method RunArchitectureC(names: seq<int>, reverse: bool, requested: int, budget: int, host: Host,
                          workers: nat -> Worker)
    returns (r: Option<Report>)
    ensures var d := Dealt(names, reverse, requested, budget, host, workers);
            && (r.Some? <==> AllAnswer(d))
            && (r.Some? ==> multiset(r.value.modules) == multiset(Flatten(AllAnswers(d)))
                            && (r.value.successful <==> AllWell(d))
                            && Flatten(Column(r.value.modules, (p: Payload) => p.failures)) <= r.value.failures
                            && (Honest(d) && Distinct(names) ==> r.value.modules == Combined(d)))
  {
    var d := Dealt(names, reverse, requested, budget, host, workers);
    var results;
    ghost var idx;
    results, idx := Complete(d);
    NoneEmpty(d, idx, results);
    if exists a :: 0 <= a < |results| && results[a].modules == [] {
      return None;
    }
    var keyed := KeyResults(d, idx, results);
    if Honest(d) && Distinct(names) {
      assert Distinct(d.modules);
      SortedKeys(d, keyed);
    }
    ReportsAll(d, keyed);
    var all := Flatten(M.Values(M.Arranged(keyed)));
    var failures := CollectFailures(all);
    var exits := ExitFailures(results);
    EveryExit(d, idx, results);
    OnePayloadEach(d);
    SamePayloads(all, Flatten(AllAnswers(d)));
    var successful :=
      failures + exits == [] && |all| == |d.modules| && forall k :: 0 <= k < |all| ==> all[k].successful;
    WellMeansGood(all, failures, exits, successful, d);
    r := Some(Report(successful, failures + exits, all));
  }

  lemma {:induction false} WellMeansGood(all: seq<Payload>, failures: seq<string>, exits: seq<string>,
                                         successful: bool, d: Deal)
    requires AllAnswer(d)
    requires failures == [] <==> forall k :: 0 <= k < |all| ==> all[k].failures == []
    requires exits == [] <==> forall i: nat :: i < d.n ==> d.workers(i).exitCode == 0
    requires (forall p <- all :: Good(p)) <==> (forall p <- Flatten(AllAnswers(d)) :: Good(p))
    requires successful <==> failures + exits == [] && forall k :: 0 <= k < |all| ==> all[k].successful
    ensures successful <==> AllWell(d)
  {
    assert failures + exits == [] <==> failures == [] && exits == [];
    if successful {
      forall p | p in all ensures Good(p) {
      }
    }
    if forall p <- all :: Good(p) {
      assert forall k :: 0 <= k < |all| ==> Good(all[k]);
    }
  }

  lemma {:induction false} DistinctOnce(modules: seq<int>, m: int)
    requires Distinct(modules)
    ensures multiset(modules)[m] == if m in modules then 1 else 0
  {
    if modules != [] {
      var front, last := modules[..|modules| - 1], modules[|modules| - 1];
      DistinctOnce(front, m);
      assert modules == front + [last];
      assert last !in front;
    }
  }

  /** A report of success names every module exactly once, with a payload that succeeded. */
  lemma {:induction false} SuccessCoversEach(d: Deal, modules: seq<Payload>, m: int)
    requires AllAnswer(d) && Honest(d) && Distinct(d.modules) && AllWell(d) && m in d.modules
    requires multiset(modules) == multiset(Flatten(AllAnswers(d)))
    ensures multiset(Names(modules))[m] == 1
    ensures exists k :: 0 <= k < |modules| && modules[k].name == m && Good(modules[k])
  {
    var name := (p: Payload) => p.name;
    ColumnOfSame(modules, Flatten(AllAnswers(d)), name);
    assert Names(modules) == Column(modules, name);
    assert Names(Flatten(AllAnswers(d))) == Column(Flatten(AllAnswers(d)), name);
    AnswersCover(d);
    DistinctOnce(d.modules, m);
    SamePayloads(modules, Flatten(AllAnswers(d)));
    assert m in multiset(Names(modules));
    var k :| 0 <= k < |Names(modules)| && Names(modules)[k] == m;
    assert modules[k] in modules;
  }

  // ---------------------------------------------------------------- workers that serve

  /** One worker process: what it was asked, what it answered, and the states its suites were loaded in. */
  datatype Session = Session(requests: seq<Request>, payloads: seq<Payload>, loads: seq<Option<World>>, base: Base)

  /** One answer per request up to the stop, each of them fair. */
  ghost predicate Served(session: Session, root: string, jobs: int, host: Host, s: Suites) {
    && |session.payloads| == |session.loads| == UntilStop(session.requests) <= |session.requests|
    && forall k :: 0 <= k < |session.payloads| ==>
         Fair(session.requests[k], session.payloads[k], session.loads[k], session.base, root, jobs, host, s)
  }

  /** The worker answers with its session's payloads as long as it is there, and was asked for the shard's modules. */
  ghost predicate Backs(session: Session, w: Worker, shard: seq<int>) {
    && (forall k :: 0 <= k < |shard| ==> k < |session.requests| && session.requests[k].Test?
                                         && session.requests[k].name == shard[k])
    && forall k: nat :: w.reply(k).Some? ==> k < |session.payloads| && w.reply(k).value == session.payloads[k]
  }

  ghost predicate Backed(d: Deal, sessions: seq<Session>, root: string, jobs: int, host: Host, s: Suites) {
    && |sessions| == d.n
    && forall i: nat :: i < d.n ==>
         Served(sessions[i], root, jobs, host, s) && Backs(sessions[i], d.workers(i), Shard(d.modules, i, d.n))
  }

  /** Workers that serve name what they were asked for. */
  lemma {:induction false} ServingIsHonest(d: Deal, sessions: seq<Session>, root: string, jobs: int, host: Host,
                                           s: Suites)
    requires Backed(d, sessions, root, jobs, host, s)
    ensures Honest(d)
  {
    forall i: nat, k: nat | i < d.n && k < |Shard(d.modules, i, d.n)| && d.workers(i).reply(k).Some?
      ensures d.workers(i).reply(k).value.name == Shard(d.modules, i, d.n)[k]
    {
      assert Served(sessions[i], root, jobs, host, s);
    }
  }

  /** A module's suite was loaded in isolation and succeeded. */
  ghost predicate RanWell(session: Session, k: nat, m: int, root: string, jobs: int, host: Host, s: Suites) {
    && k < |session.loads| && k < |session.requests| && session.requests[k].Test? && session.requests[k].name == m
    && session.loads[k].Some?
    && Isolated(session.loads[k].value, session.base, root, session.requests[k].dataRoot, jobs, host)
    && var run := s.run(m, session.loads[k].value); !run.raised && run.successful
  }

  /** Every module is somewhere in a shard. */
  lemma {:induction false} InSomeShard(modules: seq<int>, hand: seq<nat>, k: nat, p: nat) returns (q: nat)
    requires k <= |modules| == |hand| && p < k
    ensures q < |ShardOf(modules, hand, hand[p], k)| && ShardOf(modules, hand, hand[p], k)[q] == modules[p]
  {
    if p == k - 1 {
      q := |ShardOf(modules, hand, hand[p], k)| - 1;
    } else {
      q := InSomeShard(modules, hand, k - 1, p);
    }
  }

  /**
   Main result on runs: if workers serve, a report of success means that every module's suite was loaded in isolation
   and succeeded, in the process of the shard it was dealt to.
   */
  lemma {:induction false} SuccessMeansRuns(d: Deal, sessions: seq<Session>, root: string, jobs: int, host: Host,
                                            s: Suites, m: int)
    requires AllAnswer(d) && AllWell(d) && Backed(d, sessions, root, jobs, host, s) && m in d.modules
    ensures exists i: nat, k: nat :: i < d.n && RanWell(sessions[i], k, m, root, jobs, host, s)
  {
    var p :| 0 <= p < |d.modules| && d.modules[p] == m;
    var hand := Robin(|d.modules|, d.n);
    var i := hand[p];
    var q := InSomeShard(d.modules, hand, |d.modules|, p);
    assert Shard(d.modules, i, d.n)[q] == m && !Gone(d, i);
    var answer := Answers(d, i)[q];
    AnswerIsWell(d, i, q);
    assert Served(sessions[i], root, jobs, host, s) && Backs(sessions[i], d.workers(i), Shard(d.modules, i, d.n));
    assert d.workers(i).reply(q) == Some(answer) && sessions[i].payloads[q] == answer;
    assert Fair(sessions[i].requests[q], sessions[i].payloads[q], sessions[i].loads[q], sessions[i].base, root, jobs,
                host, s);
    assert RanWell(sessions[i], q, m, root, jobs, host, s);
  }

  lemma {:induction false} AnswerIsWell(d: Deal, i: nat, q: nat)
    requires AllAnswer(d) && AllWell(d) && i < d.n && q < |Answers(d, i)|
    ensures Good(Answers(d, i)[q])
  {
    FlattenWithout(AllAnswers(d), i);
    assert Answers(d, i)[q] in multiset(Answers(d, i));
    assert Answers(d, i)[q] in multiset(Flatten(AllAnswers(d)));
  }

  function Dead(): nat -> Worker { (i: nat) => Worker((k: nat) => None, false, 1) }

  /** A worker that answers everything and is gone when it is told to stop. */
  function Leaving(p: Payload): nat -> Worker { (i: nat) => Worker((k: nat) => Some(p), false, 1) }

  /**
   One worker that dies, be it after its last answer, or no module at all, and there is no report, not even one of
   failure.
   */
  lemma {:induction false} LostReports(m: int, p: Payload)
    ensures !AllAnswer(Deal([m], 1, Dead())) && !AllAnswer(Deal([m], 1, Leaving(p))) && !AllAnswer(Deal([], 1, Dead()))
  {
    ShardSize([m], 0, 1, 1);
    assert Gone(Deal([m], 1, Dead()), 0);
    assert Gone(Deal([m], 1, Leaving(p)), 0);
    var idle := Deal([], 1, Dead());
    assert Shard(idle.modules, 0, 1) == [];
  }

  lemma {:induction false} EveryExit(d: Deal, idx: seq<nat>, results: seq<ShardResult>)
    requires AllAnswer(d) && Arrangement(idx, d.n) && |results| == d.n
    requires forall a :: 0 <= a < d.n ==> results[a].exitCode == d.workers(idx[a]).exitCode
    ensures (forall a :: 0 <= a < d.n ==> results[a].exitCode == 0)
            <==> forall i: nat :: i < d.n ==> d.workers(i).exitCode == 0
  {
    if forall a :: 0 <= a < d.n ==> results[a].exitCode == 0 {
      forall i: nat | i < d.n ensures d.workers(i).exitCode == 0 {
        assert i in idx;
        var a :| 0 <= a < |idx| && idx[a] == i;
      }
    }
  }
}
