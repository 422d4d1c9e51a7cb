/**
 * run.py: repeated execution of one test file, the cache of finished
 * tests, the per-module summary and the flakiest-module search.
 *
 * Executing a test (`Test._test`, which calls pytest and reads a clock) is
 * an oracle `execute(p, k)`: the outcome of the `k`-th execution of test
 * file `p`, counted from 0 within one `Test.run`.
 */
module Run {
  import opened Wrappers
  import opened Flakiest
  import Collect

  /** One execution of a test file: whether pytest exited OK, and its latency. */
  datatype Trial = Trial(succeeded: bool, latency: real)

  type Runner = (string, nat) -> Trial

  /** The number of passing executions among the first `n`. */
  function PassCount(execute: Runner, p: string, n: nat): nat
  {
    if n == 0 then 0 else PassCount(execute, p, n - 1) + (if execute(p, n - 1).succeeded then 1 else 0)
  }

  /** The number of failing executions among the first `n`. */
  function FailCount(execute: Runner, p: string, n: nat): nat
  {
    if n == 0 then 0 else FailCount(execute, p, n - 1) + (if execute(p, n - 1).succeeded then 0 else 1)
  }

  /** The total latency of the first `n` executions. */
  function LatencyTotal(execute: Runner, p: string, n: nat): real
  {
    if n == 0 then 0.0 else LatencyTotal(execute, p, n - 1) + execute(p, n - 1).latency
  }

  /** The number of executions among the first `n` whose outcome is not `verdict`. */
  function Disagreeing(execute: Runner, p: string, n: nat, verdict: bool): nat
  {
    if n == 0 then 0 else Disagreeing(execute, p, n - 1, verdict) + (if execute(p, n - 1).succeeded != verdict then 1 else 0)
  }

  /** Every execution either passes or fails. */
  lemma {:induction false} PassesAndFailsPartition(execute: Runner, p: string, n: nat)
    ensures PassCount(execute, p, n) + FailCount(execute, p, n) == n
  {
    if n > 0 {
      PassesAndFailsPartition(execute, p, n - 1);
    }
  }

  /** The verdict of `_calculate`: a pass rate of at least 0.75. */
  function Passed(passes: int, trials: int): bool
    requires trials != 0
  {
    (passes as real) / (trials as real) >= 0.75
  }

  /** The threshold is three quarters, not a simple majority. */
  lemma PassedIff(passes: int, trials: int)
    requires trials > 0
    ensures Passed(passes, trials) <==> 4 * passes >= 3 * trials
  {
    var r := (passes as real) / (trials as real);
    assert r * (trials as real) == passes as real;
  }

  /** The flakes of `_calculate`: the outcomes opposite the verdict. */
  function Flakes(passes: nat, fails: nat, passed: bool): nat
  {
    if passed then fails else passes
  }

  /** Flakes are the executions that disagree with the verdict. */
  lemma {:induction false} FlakesAreMinorityOutcomes(execute: Runner, p: string, n: nat)
    requires n > 0
    ensures var passed := Passed(PassCount(execute, p, n), n);
            Flakes(PassCount(execute, p, n), FailCount(execute, p, n), passed) == Disagreeing(execute, p, n, passed)
  {
    DisagreeingCounts(execute, p, n);
  }

  lemma {:induction false} DisagreeingCounts(execute: Runner, p: string, n: nat)
    ensures Disagreeing(execute, p, n, true) == FailCount(execute, p, n)
    ensures Disagreeing(execute, p, n, false) == PassCount(execute, p, n)
  {
    if n > 0 {
      DisagreeingCounts(execute, p, n - 1);
    }
  }

  /**
   * With `passes + fails` trials, the flakes never exceed the trials and
   * the flake rate lies in [0, 3/4); a passing test flakes at most a quarter
   * of the time.
   */
  lemma FlakeRateBounds(passes: nat, fails: nat)
    requires passes + fails > 0
    ensures var trials := passes + fails;
            var flakes := Flakes(passes, fails, Passed(passes, trials));
            flakes <= trials
            && 0.0 <= flakes as real / trials as real < 0.75
            && (Passed(passes, trials) ==> flakes as real / trials as real <= 0.25)
  {
    var trials := passes + fails;
    PassedIff(passes, trials);
    var flakes := Flakes(passes, fails, Passed(passes, trials));
    DivAtMost(flakes as real, trials as real, 1.0);
    if Passed(passes, trials) {
      DivAtMost(flakes as real, trials as real, 0.25);
    } else {
      DivBelow(flakes as real, trials as real, 0.75);
    }
    DivAtMost(0.0, trials as real, 0.0);
    assert 0.0 <= flakes as real / trials as real by {
      var q := flakes as real / trials as real;
      assert q * (trials as real) == flakes as real;
    }
  }

  /** A quotient of a bounded numerator is bounded. */
  lemma DivAtMost(a: real, b: real, c: real)
    requires b > 0.0 && a <= c * b
    ensures a / b <= c
  {
    var q := a / b;
    assert q * b == a;
    if q > c {
      assert (q - c) * b > 0.0;
    }
  }

  /** A quotient of a strictly bounded numerator is strictly bounded. */
  lemma DivBelow(a: real, b: real, c: real)
    requires b > 0.0 && a < c * b
    ensures a / b < c
  {
    var q := a / b;
    assert q * b == a;
    assert (c - q) * b == c * b - a;
  }

  /** Two passes in three trials is a failing test with two flakes. */
  lemma TwoOfThreeExample()
    ensures !Passed(2, 3) && Flakes(2, 1, Passed(2, 3)) == 2
  {
    PassedIff(2, 3);
  }

  /** One passing trial is a passing test with no flakes. */
  lemma OneOfOneExample()
    ensures Passed(1, 1) && Flakes(1, 0, Passed(1, 1)) == 0
  {
  }

  /** The repeated runs of one unit test and their summary. */
  class Test {
    var projectPath: string
    var testPath: string
    var trials: int
    var latencySum: real
    var avgLatency: real
    var passes: nat
    var passRate: real
    var fails: nat
    var failRate: real
    var flakes: nat
    var flakeRate: real
    var passed: bool

    constructor(projectPath: string, testPath: string, trials: int)
      ensures this.projectPath == projectPath && this.testPath == testPath && this.trials == trials
      ensures latencySum == 0.0 && avgLatency == 0.0 && passes == 0 && passRate == 0.0
      ensures fails == 0 && failRate == 0.0 && flakes == 0 && flakeRate == 0.0 && !passed
    {
      this.projectPath := projectPath;
      this.testPath := testPath;
      this.trials := trials;
      latencySum, avgLatency, passes, passRate := 0.0, 0.0, 0, 0.0;
      fails, failRate, flakes, flakeRate, passed := 0, 0.0, 0, 0.0, false;
    }

    /** The summary fields `_calculate` derives from the counters. */
    predicate Calculated()
      reads this
    {
      trials != 0
      && avgLatency == latencySum / trials as real
      && passRate == passes as real / trials as real
      && failRate == fails as real / trials as real
      && passed == Passed(passes, trials)
      && flakes == Flakes(passes, fails, passed)
      && flakeRate == flakes as real / trials as real
    }

    /**
     * `run`: executes the test `trials` times, adding to the counters
     * (which are never reset), then summarises.  With zero trials the
     * summary divides by zero.  A negative `trials` never ends the loop.
     */
    method Run(execute: Runner) returns (err: Option<Error>)
      requires trials >= 0
      modifies this
      ensures projectPath == old(projectPath) && testPath == old(testPath) && trials == old(trials)
      ensures passes == old(passes) + PassCount(execute, testPath, trials)
      ensures fails == old(fails) + FailCount(execute, testPath, trials)
      ensures latencySum == old(latencySum) + LatencyTotal(execute, testPath, trials)
      ensures trials == 0 ==> err == Some(ZeroDivisionError)
                              && unchanged(this`avgLatency, this`passRate, this`failRate)
                              && unchanged(this`passed, this`flakes, this`flakeRate)
      ensures trials != 0 ==> err == None && Calculated()
    {
      var remaining := trials;
      while remaining != 0
        invariant 0 <= remaining <= trials
        invariant unchanged(this`projectPath, this`testPath, this`trials)
        invariant unchanged(this`avgLatency, this`passRate, this`failRate)
        invariant unchanged(this`passed, this`flakes, this`flakeRate)
        invariant passes == old(passes) + PassCount(execute, testPath, trials - remaining)
        invariant fails == old(fails) + FailCount(execute, testPath, trials - remaining)
        invariant latencySum == old(latencySum) + LatencyTotal(execute, testPath, trials - remaining)
      {
        var outcome := execute(testPath, trials - remaining);
        if outcome.succeeded {
          passes := passes + 1;
        } else {
          fails := fails + 1;
        }
        latencySum := latencySum + outcome.latency;
        remaining := remaining - 1;
      }
      err := Calculate();
    }

    /** `_calculate`: rates over the trials, the 0.75 verdict and the flakes. */
    method Calculate() returns (err: Option<Error>)
      modifies this
      ensures unchanged(this`projectPath, this`testPath, this`trials)
      ensures unchanged(this`passes, this`fails, this`latencySum)
      ensures trials == 0 ==> err == Some(ZeroDivisionError) && unchanged(this)
      ensures trials != 0 ==> err == None && Calculated()
    {
      if trials == 0 {
        return Some(ZeroDivisionError);
      }
      avgLatency := latencySum / trials as real;
      passRate := passes as real / trials as real;
      failRate := fails as real / trials as real;
      passed := passRate >= 0.75;
      flakes := if passed then fails else passes;
      flakeRate := flakes as real / trials as real;
      err := None;
    }
  }

  /** The cache of finished tests, by test path. */
  class Cache {
    var results: map<string, Test>

    constructor()
      ensures results == map[]
    {
      results := map[];
    }

    /** `get`: the cached test, or `None` for an absent path. */
    function Get(testPath: string): (r: Option<Test>)
      reads this
      ensures r.Some? <==> testPath in results
      ensures r.Some? ==> r.value == results[testPath]
    {
      if testPath in results then Some(results[testPath]) else None
    }

    /** `put`: afterwards `testPath` yields `result`, and every other path what it yielded before. */
    method Put(testPath: string, result: Test)
      modifies this
      ensures results == old(results)[testPath := result]
      ensures Get(testPath) == Some(result)
      ensures forall p :: p != testPath ==> Get(p) == old(Get(p))
    {
      results := results[testPath := result];
    }
  }

  /** The total of the tests' latency sums. */
  function LatencySum(ts: seq<Test>): real
    reads ts
  {
    if ts == [] then 0.0 else LatencySum(ts[..|ts| - 1]) + ts[|ts| - 1].latencySum
  }

  /** The total of the tests' flakes. */
  function FlakeSum(ts: seq<Test>): int
    reads ts
  {
    if ts == [] then 0 else FlakeSum(ts[..|ts| - 1]) + ts[|ts| - 1].flakes
  }

  /** The total of the tests' flake rates. */
  function RateSum(ts: seq<Test>): real
    reads ts
  {
    if ts == [] then 0.0 else RateSum(ts[..|ts| - 1]) + ts[|ts| - 1].flakeRate
  }

  /**
   * When every test ran `n` trials, the module flake rate `Σ flakes / n`
   * is the sum of the tests' flake rates, so it can exceed 1 for a module
   * covered by several flaky tests.
   */
  lemma {:induction false} ModuleRateIsSumOfRates(ts: seq<Test>, n: int)
    requires n != 0
    requires forall t :: t in ts ==> t.trials == n && t.Calculated()
    ensures FlakeSum(ts) as real / n as real == RateSum(ts)
  {
    if ts != [] {
      var init := ts[..|ts| - 1];
      assert forall t :: t in init ==> t in ts;
      ModuleRateIsSumOfRates(init, n);
      var last := ts[|ts| - 1];
      assert last in ts;
      DivAdd(FlakeSum(init) as real, last.flakes as real, n as real);
    }
  }

  /** Division distributes over a sum. */
  lemma DivAdd(x: real, y: real, n: real)
    requires n != 0.0
    ensures (x + y) / n == x / n + y / n
  {
    assert (x / n + y / n) * n == x + y;
  }

  /** An application module and the tests that cover it. */
  class Module {
    var name: string
    var testResults: seq<Test>
    var flakeRate: real
    var latency: real

    constructor(name: string, testResults: seq<Test>)
      ensures this.name == name && this.testResults == testResults
      ensures flakeRate == 0.0 && latency == 0.0
    {
      this.name := name;
      this.testResults := testResults;
      flakeRate, latency := 0.0, 0.0;
    }

    /**
     * `summarize`: adds the tests' latency sums and flakes to the fields and
     * divides both by the trials of the last test.  No tests leaves
     * `result` unbound; a last test with zero trials fails at the first
     * division, after the sums were added.
     */
    method Summarize() returns (err: Option<Error>)
      modifies this
      ensures name == old(name) && testResults == old(testResults)
      ensures testResults == [] ==> err == Some(UnboundLocalError) && unchanged(this)
      ensures testResults != [] && testResults[|testResults| - 1].trials == 0 ==>
                err == Some(ZeroDivisionError)
                && latency == old(latency) + LatencySum(testResults)
                && flakeRate == old(flakeRate) + FlakeSum(testResults) as real
      ensures testResults != [] && testResults[|testResults| - 1].trials != 0 ==>
                var n := testResults[|testResults| - 1].trials as real;
                err == None
                && latency == (old(latency) + LatencySum(testResults)) / n
                && flakeRate == (old(flakeRate) + FlakeSum(testResults) as real) / n
    {
      if testResults == [] {
        return Some(UnboundLocalError);
      }
      for i := 0 to |testResults|
        invariant name == old(name) && testResults == old(testResults)
        invariant latency == old(latency) + LatencySum(testResults[..i])
        invariant flakeRate == old(flakeRate) + FlakeSum(testResults[..i]) as real
      {
        assert testResults[..i + 1][..i] == testResults[..i];
        latency := latency + testResults[i].latencySum;
        flakeRate := flakeRate + testResults[i].flakes as real;
      }
      assert testResults[..|testResults|] == testResults;
      var result := testResults[|testResults| - 1];
      if result.trials == 0 {
        return Some(ZeroDivisionError);
      }
      latency := latency / result.trials as real;
      flakeRate := flakeRate / result.trials as real;
      err := None;
    }
  }

  /** The modules paired with the flake rates the search reads. */
  function Rates(ms: seq<Module>): (r: seq<Rated<Module>>)
    reads ms
    ensures |r| == |ms|
  {
    if ms == [] then [] else Rates(ms[..|ms| - 1]) + [Rated(ms[|ms| - 1], ms[|ms| - 1].flakeRate)]
  }

  lemma {:induction false} RatesAppend(a: seq<Module>, b: seq<Module>)
    ensures Rates(a + b) == Rates(a) + Rates(b)
    decreases |b|
  {
    if b == [] {
      assert a + b == a;
    } else {
      var init := b[..|b| - 1];
      assert (a + b)[..|a + b| - 1] == a + init;
      assert (a + b)[|a + b| - 1] == b[|b| - 1];
      RatesAppend(a, init);
    }
  }

  /** A list of modules and the flakiest among them. */
  class ModuleList {
    var flakiestModules: seq<Module>
    var modules: seq<Module>
    var maxFlakeRate: Option<real>

    constructor(modules: seq<Module>)
      ensures this.modules == modules && flakiestModules == [] && maxFlakeRate == None
    {
      this.modules := modules;
      flakiestModules, maxFlakeRate := [], None;
    }

    /** The search state held in the fields. */
    function State(): Best<Module>
      reads this
    {
      Best(maxFlakeRate, flakiestModules)
    }

    /**
     * `find_flakiest`: searches `modules`.  A one-element list is popped by
     * the search and, being the field itself, is left empty; longer lists
     * are searched through slices and are kept.
     */
    method FindFlakiest()
      modifies this
      ensures State() == Scan(old(State()), Rates(old(modules)))
      ensures modules == if |old(modules)| == 1 then [] else old(modules)
    {
      var modulesList := modules;
      Search(modulesList);
      if |modulesList| == 1 {
        modules := [];
      }
    }

    /** `_search`: splits the list in halves and visits single modules, left to right. */
    method Search(ms: seq<Module>)
      modifies this
      ensures State() == Scan(old(State()), Rates(ms))
      ensures modules == old(modules)
      decreases |ms|
    {
      if ms == [] {
        return;
      }
      if |ms| == 1 {
        var mod := ms[0];
        Consider(mod);
        assert Rates(ms) == [] + [Rated(mod, mod.flakeRate)];
        ScanSnoc(old(State()), [], Rated(mod, mod.flakeRate));
        return;
      }
      var midpt := (|ms| - 1) / 2;
      var left, right := ms[..midpt + 1], ms[midpt + 1..];
      ghost var rl, rr := Rates(left), Rates(right);
      assert ms == left + right;
      RatesAppend(left, right);
      ScanAppend(State(), rl, rr);
      Search(left);
      assert Rates(left) == rl;
      Search(right);
      assert Rates(right) == rr;
    }

    /** The one-module case of `_search`: a new maximum restarts the ties, an equal rate joins them. */
    method Consider(mod: Module)
      modifies this
      ensures State() == Visit(old(State()), Rated(mod, mod.flakeRate))
      ensures modules == old(modules)
    {
      if maxFlakeRate.None? || mod.flakeRate > maxFlakeRate.value {
        maxFlakeRate := Some(mod.flakeRate);
        flakiestModules := [mod];
      } else if mod.flakeRate == maxFlakeRate.value {
        flakiestModules := flakiestModules + [mod];
      }
    }
  }

  /**
   * `find_flakiest_tests`: the maximum flake rate and exactly the modules
   * at it, in input order; `(None, [])` for no modules.
   */
  method FindFlakiestTests(modules: seq<Module>) returns (rate: Option<real>, flakiest: seq<Module>)
    ensures modules == [] ==> rate == None && flakiest == []
    ensures modules != [] ==> rate == Some(MaxOf(Rates(modules))) && flakiest == Ties(Rates(modules), MaxOf(Rates(modules)))
  {
    var list := new ModuleList(modules);
    list.FindFlakiest();
    rate, flakiest := list.maxFlakeRate, list.flakiestModules;
    SearchFindsAllTies(Rates(modules));
  }

  /** `t` holds the result of running test file `p` once, with `trials` trials, in project `path`. */
  predicate Ran(t: Test, path: string, p: string, trials: int, execute: Runner)
    reads t
  {
    t.projectPath == path && t.testPath == p && t.trials == trials && trials >= 0
    && t.passes == PassCount(execute, p, trials)
    && t.fails == FailCount(execute, p, trials)
    && t.latencySum == LatencyTotal(execute, p, trials)
    && t.Calculated()
  }

  /** Every cached test ran exactly once under its own path. */
  predicate CacheRan(results: map<string, Test>, path: string, trials: int, execute: Runner)
    reads results.Values
  {
    forall p :: p in results ==> Ran(results[p], path, p, trials, execute)
  }

  /** `m` is the summarised module `name` whose tests are the cached results of `tests`, in order. */
  predicate Summarized(m: Module, name: string, tests: seq<string>, results: map<string, Test>, trials: int)
    reads m, results.Values
  {
    m.name == name && trials != 0 && FillsUpTo(m.testResults, tests, |tests|, results)
    && m.flakeRate == FlakeSum(m.testResults) as real / trials as real
    && m.latency == LatencySum(m.testResults) / trials as real
  }

  /** The exception `run_tests` raises: at the first module without tests, or at the first test when there are zero trials. */
  function RunFailure(lists: seq<seq<string>>, trials: int): Option<Error>
  {
    if lists == [] then None
    else if lists[0] == [] then Some(UnboundLocalError)
    else if trials == 0 then Some(ZeroDivisionError)
    else RunFailure(lists[1..], trials)
  }

  /** `run_tests` succeeds iff every module has a test and, unless there are no modules, the trial count is not zero. */
  lemma {:induction false} RunFailureIff(lists: seq<seq<string>>, trials: int)
    ensures RunFailure(lists, trials).None?
        <==> (forall i :: 0 <= i < |lists| ==> lists[i] != []) && (lists == [] || trials != 0)
  {
    if lists != [] {
      RunFailureIff(lists[1..], trials);
      assert forall i :: 1 <= i < |lists| ==> lists[i] == lists[1..][i - 1];
    }
  }

  /** The cached test of `p`, or a new `Test` of `p` that is run and then cached. */
  method TestResult(path: string, trials: int, p: string, cache: Cache, execute: Runner)
    returns (r: Result<Test, Error>)
    requires trials >= 0
    requires CacheRan(cache.results, path, trials, execute)
    modifies cache
    ensures CacheRan(cache.results, path, trials, execute)
    ensures Extends(old(cache.results), cache.results)
    ensures r.Err? <==> trials == 0
    ensures r.Err? ==> r.error == ZeroDivisionError
    ensures forall q :: q in cache.results && q !in old(cache.results) ==> fresh(cache.results[q])
    ensures r.Ok? ==> p in cache.results && r.value == cache.results[p]
  {
    var cached := cache.Get(p);
    if cached.Some? {
      return Ok(cached.value);
    }
    var result := new Test(path, p, trials);
    var err := result.Run(execute);
    if err.Some? {
      return Err(err.value);
    }
    cache.Put(p, result);
    r := Ok(result);
  }

  /** The loop of `run_tests` over one module's tests: appends each test's run or cached result. */
  method AddTestResults(mod: Module, path: string, trials: int, tests: seq<string>, cache: Cache, execute: Runner)
    returns (err: Option<Error>)
    requires trials >= 0 && mod.testResults == []
    requires CacheRan(cache.results, path, trials, execute)
    modifies mod, cache
    ensures CacheRan(cache.results, path, trials, execute)
    ensures Extends(old(cache.results), cache.results)
    ensures forall p :: p in cache.results && p !in old(cache.results) ==> fresh(cache.results[p])
    ensures unchanged(mod`name, mod`flakeRate, mod`latency)
    ensures err.Some? <==> tests != [] && trials == 0
    ensures err.Some? ==> err.value == ZeroDivisionError
    ensures err.None? ==> FillsUpTo(mod.testResults, tests, |tests|, cache.results)
  {
    for j := 0 to |tests|
      invariant unchanged(mod`name, mod`flakeRate, mod`latency)
      invariant FillsUpTo(mod.testResults, tests, j, cache.results)
      invariant CacheRan(cache.results, path, trials, execute)
      invariant Extends(old(cache.results), cache.results)
      invariant forall p :: p in cache.results && p !in old(cache.results) ==> fresh(cache.results[p])
      invariant j > 0 ==> trials != 0
    {
      ghost var before := cache.results;
      var result := TestResult(path, trials, tests[j], cache, execute);
      if result.Err? {
        return Some(result.error);
      }
      FillsGrow(mod.testResults, tests, j, before, cache.results);
      mod.testResults := mod.testResults + [result.value];
    }
    err := None;
  }

  /** The first `j` tests of `ts` are the cached results of the first `j` paths of `tests`. */
  predicate FillsUpTo(ts: seq<Test>, tests: seq<string>, j: int, results: map<string, Test>)
  {
    0 <= j <= |tests| && |ts| == j
    && forall k :: 0 <= k < j ==> tests[k] in results && ts[k] == results[tests[k]]
  }

  /** `r1` keeps every entry of `r0`. */
  predicate Extends(r0: map<string, Test>, r1: map<string, Test>)
  {
    forall p :: p in r0 ==> p in r1 && r1[p] == r0[p]
  }

  /** Appending the cached result of the next path keeps `FillsUpTo`, also across a growing cache. */
  lemma FillsGrow(ts: seq<Test>, tests: seq<string>, j: int, r0: map<string, Test>, r1: map<string, Test>)
    requires FillsUpTo(ts, tests, j, r0) && Extends(r0, r1)
    requires j < |tests| && tests[j] in r1
    ensures FillsUpTo(ts + [r1[tests[j]]], tests, j + 1, r1)
  {
    var ts' := ts + [r1[tests[j]]];
    forall k | 0 <= k < j + 1 ensures tests[k] in r1 && ts'[k] == r1[tests[k]] {
      if k < j {
        assert ts'[k] == ts[k];
      }
    }
  }

  /** One module of `run_tests`: runs or reuses each of its tests, then summarises it. */
  method RunModuleTests(path: string, trials: int, name: string, tests: seq<string>, cache: Cache, execute: Runner)
    returns (r: Result<Module, Error>)
    requires trials >= 0
    requires CacheRan(cache.results, path, trials, execute)
    modifies cache
    ensures CacheRan(cache.results, path, trials, execute)
    ensures Extends(old(cache.results), cache.results)
    ensures forall p :: p in cache.results && p !in old(cache.results) ==> fresh(cache.results[p])
    ensures r.Err? <==> tests == [] || trials == 0
    ensures r.Err? ==> r.error == if tests == [] then UnboundLocalError else ZeroDivisionError
    ensures r.Ok? ==> fresh(r.value) && Summarized(r.value, name, tests, cache.results, trials)
  {
    var mod := new Module(name, []);
    var err := AddTestResults(mod, path, trials, tests, cache, execute);
    if err.Some? {
      return Err(err.value);
    }
    ghost var results := cache.results;
    if tests != [] {
      var last := mod.testResults[|tests| - 1];
      assert last == results[tests[|tests| - 1]];
      assert Ran(last, path, tests[|tests| - 1], trials, execute);
    }
    err := mod.Summarize();
    if err.Some? {
      return Err(err.value);
    }
    r := Ok(mod);
  }

  /** `Summarized` for each module of `ms`, with the name and test list at its index. */
  predicate AllSummarized(ms: seq<Module>, names: seq<string>, lists: seq<seq<string>>,
                          results: map<string, Test>, trials: int)
    reads ms, results.Values
  {
    |ms| <= |names| && |ms| <= |lists|
    && forall k :: 0 <= k < |ms| ==> Summarized(ms[k], names[k], lists[k], results, trials)
  }

  /** One more summarised module, after the cache has grown. */
  lemma AllSummarizedGrow(ms: seq<Module>, names: seq<string>, lists: seq<seq<string>>,
                          r0: map<string, Test>, r1: map<string, Test>, trials: int, m: Module)
    requires AllSummarized(ms, names, lists, r0, trials) && |ms| < |names| && |ms| < |lists|
    requires Extends(r0, r1)
    requires Summarized(m, names[|ms|], lists[|ms|], r1, trials)
    ensures AllSummarized(ms + [m], names, lists, r1, trials)
  {
    var ms' := ms + [m];
    forall k | 0 <= k < |ms'| ensures Summarized(ms'[k], names[k], lists[k], r1, trials) {
      if k < |ms| {
        SummarizedKept(ms[k], names[k], lists[k], r0, r1, trials);
      }
    }
  }

  /** A summarised module stays summarised when the cache only grows. */
  lemma SummarizedKept(m: Module, name: string, tests: seq<string>, r0: map<string, Test>, r1: map<string, Test>, trials: int)
    requires Summarized(m, name, tests, r0, trials)
    requires Extends(r0, r1)
    ensures Summarized(m, name, tests, r1, trials)
  {
  }

  /**
   * `run_tests`: one summarised module per key of `collected`, in key
   * order, whose tests follow the key's list; each distinct test path is
   * run once and the same `Test` is shared through `tested` by every module
   * that lists it.
   */
  method RunTests(path: string, trials: int, collected: Collect.CoverageMap, execute: Runner)
    returns (r: Result<seq<Module>, Error>, ghost tested: map<string, Test>)
    requires collected.Valid()
    requires trials >= 0
    ensures r.Err? <==> RunFailure(collected.Lists(), trials).Some?
    ensures r.Err? ==> r.error == RunFailure(collected.Lists(), trials).value
    ensures r.Ok? ==> |r.value| == |collected.order|
    ensures r.Ok? ==> forall i :: 0 <= i < |r.value| ==>
              Summarized(r.value[i], collected.order[i], collected.Lists()[i], tested, trials)
    ensures r.Ok? ==> forall p :: p in tested ==> fresh(tested[p]) && Ran(tested[p], path, p, trials, execute)
  {
    r, tested := RunModules(path, trials, collected.order, collected.Lists(), execute);
  }

  /** The loop of `run_tests` over the modules `names`, whose test lists are `lists`, with one cache for all of them. */
  method RunModules(path: string, trials: int, names: seq<string>, lists: seq<seq<string>>, execute: Runner)
    returns (r: Result<seq<Module>, Error>, ghost tested: map<string, Test>)
    requires |names| == |lists|
    requires trials >= 0
    ensures r.Err? <==> RunFailure(lists, trials).Some?
    ensures r.Err? ==> r.error == RunFailure(lists, trials).value
    ensures r.Ok? ==> |r.value| == |names|
    ensures r.Ok? ==> forall i :: 0 <= i < |r.value| ==> Summarized(r.value[i], names[i], lists[i], tested, trials)
    ensures r.Ok? ==> forall p :: p in tested ==> fresh(tested[p]) && Ran(tested[p], path, p, trials, execute)
  {
    var modules: seq<Module> := [];
    var cache := new Cache();
    for i := 0 to |lists|
      invariant |modules| == i
      invariant forall p :: p in cache.results ==> fresh(cache.results[p])
      invariant CacheRan(cache.results, path, trials, execute)
      invariant AllSummarized(modules, names, lists, cache.results, trials)
      invariant RunFailure(lists, trials) == RunFailure(lists[i..], trials)
    {
      assert lists[i..][1..] == lists[i + 1..];
      ghost var r0 := cache.results;
      var mod := RunNext(path, trials, names, lists, modules, cache, execute);
      if mod.Err? {
        r, tested := Err(mod.error), cache.results;
        return;
      }
      forall p | p in cache.results
        ensures fresh(cache.results[p])
      {
        if p in r0 {
          assert cache.results[p] == r0[p];
        }
      }
      modules := modules + [mod.value];
    }
    assert lists[|lists|..] == [];
    r, tested := Ok(modules), cache.results;
  }

  /** One iteration of `RunModules`: the next module, summarised like the ones before it. */
  method RunNext(path: string, trials: int, names: seq<string>, lists: seq<seq<string>>,
                 modules: seq<Module>, cache: Cache, execute: Runner)
    returns (r: Result<Module, Error>)
    requires |modules| < |names| && |modules| < |lists|
    requires trials >= 0
    requires CacheRan(cache.results, path, trials, execute)
    requires AllSummarized(modules, names, lists, cache.results, trials)
    modifies cache
    ensures CacheRan(cache.results, path, trials, execute)
    ensures Extends(old(cache.results), cache.results)
    ensures forall p :: p in cache.results && p !in old(cache.results) ==> fresh(cache.results[p])
    ensures r.Err? <==> lists[|modules|] == [] || trials == 0
    ensures r.Err? ==> r.error == if lists[|modules|] == [] then UnboundLocalError else ZeroDivisionError
    ensures r.Ok? ==> fresh(r.value) && AllSummarized(modules + [r.value], names, lists, cache.results, trials)
  {
    ghost var r0 := cache.results;
    r := RunModuleTests(path, trials, names[|modules|], lists[|modules|], cache, execute);
    if r.Ok? {
      AllSummarizedGrow(modules, names, lists, r0, cache.results, trials, r.value);
    }
  }
}
