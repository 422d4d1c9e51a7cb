/**
 * summarize.py: per-module totals over the recorded test results, the
 * collection of summarised modules with its strictly increasing list of
 * distinct floored runtimes, and `keyify`.
 */
module Summarize {
  import opened Wrappers
  import StringOrder
  import Collect

  /** An application module and the totals of the tests that cover it. */
  class Module {
    var name: string
    var trials: int
    var flakes: real
    var totalRuntime: real
    var flakeRate: real
    var runtime: real

    constructor(name: string)
      ensures this.name == name && trials == 0 && flakes == 0.0 && totalRuntime == 0.0
      ensures flakeRate == 0.0 && runtime == 0.0
    {
      this.name := name;
      trials, flakes, totalRuntime, flakeRate, runtime := 0, 0.0, 0.0, 0.0, 0.0;
    }
  }

  /** Every element is below every later one: sorted and free of duplicates. */
  predicate StrictlyIncreasing(rs: seq<int>)
  {
    forall i, j :: 0 <= i < j < |rs| ==> rs[i] < rs[j]
  }

  /** Inserting `v` at index `i` keeps `rs` strictly increasing. */
  predicate InsertPoint(rs: seq<int>, v: int, i: int)
  {
    0 <= i <= |rs| && (i == 0 || rs[i - 1] < v) && (i == |rs| || v < rs[i])
  }

  /**
   * `_runtimes_insert_index`: a binary search over `rs[low..high]` for the
   * place of `v`; `None` when it finds `v` or the range closes.  Below the
   * first element it is 0, above the last it is `|rs|`.
   */
  function InsertIndex(rs: seq<int>, v: int, low: int, high: int): (r: Option<int>)
    requires 0 <= low && high < |rs| && (low <= high || 1 <= low == high + 1)
    ensures v < rs[0] ==> r == Some(0)
    ensures rs[0] <= v && v > rs[|rs| - 1] ==> r == Some(|rs|)
    ensures r.Some? ==> 0 <= r.value <= |rs|
    decreases high - low + 1
  {
    if v < rs[0] then Some(0)
    else if v > rs[|rs| - 1] then Some(|rs|)
    else
      var mid := (high + low) / 2;
      if rs[mid] == v || low >= high then None
      else if mid - 1 >= 0 && rs[mid - 1] < v < rs[mid] then Some(mid)
      else if mid + 1 <= |rs| - 1 && rs[mid] < v < rs[mid + 1] then Some(mid + 1)
      else if v < rs[mid] then InsertIndex(rs, v, low, mid - 1)
      else InsertIndex(rs, v, mid + 1, high)
  }

  /**
   * On a strictly increasing list, a search whose range has `v` between its
   * end elements gives `None` exactly when `v` is present, and otherwise an
   * index where inserting `v` keeps the order.
   */
  lemma {:induction false} InsertIndexInRange(rs: seq<int>, v: int, low: int, high: int)
    requires StrictlyIncreasing(rs)
    requires 0 <= low <= high < |rs| && rs[low] <= v <= rs[high]
    requires rs[0] <= v <= rs[|rs| - 1]
    ensures InsertIndex(rs, v, low, high).None? ==> v in rs
    ensures InsertIndex(rs, v, low, high).Some? ==> InsertPoint(rs, v, InsertIndex(rs, v, low, high).value)
    decreases high - low
  {
    var mid := (high + low) / 2;
    if rs[mid] == v || low >= high {
    } else if mid - 1 >= 0 && rs[mid - 1] < v < rs[mid] {
    } else if mid + 1 <= |rs| - 1 && rs[mid] < v < rs[mid + 1] {
    } else if v < rs[mid] {
      InsertIndexInRange(rs, v, low, mid - 1);
    } else {
      InsertIndexInRange(rs, v, mid + 1, high);
    }
  }

  /** No element of a strictly increasing list lies at an insert point's gap. */
  lemma InsertPointAbsent(rs: seq<int>, v: int, i: int)
    requires StrictlyIncreasing(rs) && InsertPoint(rs, v, i)
    ensures v !in rs
  {
    forall j | 0 <= j < |rs| ensures rs[j] != v {
      if j < i - 1 {
        assert rs[j] < rs[i - 1];
      } else if j > i {
        assert rs[i] < rs[j];
      }
    }
  }

  /** The insert point of a value is unique. */
  lemma InsertPointUnique(rs: seq<int>, v: int, i: int, k: int)
    requires StrictlyIncreasing(rs) && InsertPoint(rs, v, i) && InsertPoint(rs, v, k)
    ensures i == k
  {
  }

  /**
   * The search `_sort_runtime` starts, over the whole of a non-empty
   * strictly increasing list: `None` iff `v` is present, otherwise the
   * unique index at which inserting `v` keeps the list strictly increasing.
   */
  lemma InsertIndexCorrect(rs: seq<int>, v: int)
    requires rs != [] && StrictlyIncreasing(rs)
    ensures InsertIndex(rs, v, 0, |rs| - 1).None? <==> v in rs
    ensures InsertIndex(rs, v, 0, |rs| - 1).Some? ==> InsertPoint(rs, v, InsertIndex(rs, v, 0, |rs| - 1).value)
    ensures forall i :: InsertPoint(rs, v, i) ==> InsertIndex(rs, v, 0, |rs| - 1) == Some(i)
  {
    var r := InsertIndex(rs, v, 0, |rs| - 1);
    if rs[0] <= v <= rs[|rs| - 1] {
      InsertIndexInRange(rs, v, 0, |rs| - 1);
    }
    if r.Some? {
      InsertPointAbsent(rs, v, r.value);
      forall i | InsertPoint(rs, v, i) ensures r == Some(i) {
        InsertPointUnique(rs, v, i, r.value);
      }
    } else {
      forall i | InsertPoint(rs, v, i) ensures false {
        InsertPointAbsent(rs, v, i);
      }
    }
  }

  /** The list of `_sort_runtime` after it has considered `v`. */
  function Inserted(rs: seq<int>, v: int): seq<int>
  {
    if rs == [] then [v]
    else
      var index := InsertIndex(rs, v, 0, |rs| - 1);
      if index.Some? then rs[..index.value] + [v] + rs[index.value..] else rs
  }

  /** `_sort_runtime` keeps the list strictly increasing and adds exactly `v` to its elements. */
  lemma InsertedCorrect(rs: seq<int>, v: int)
    requires StrictlyIncreasing(rs)
    ensures StrictlyIncreasing(Inserted(rs, v))
    ensures (set x | x in Inserted(rs, v)) == (set x | x in rs) + {v}
  {
    if rs != [] {
      InsertIndexCorrect(rs, v);
      var index := InsertIndex(rs, v, 0, |rs| - 1);
      if index.Some? {
        InsertAtPoint(rs, v, index.value);
      }
    }
  }

  /** The list `rs` with `v` inserted at index `i`, element by element. */
  lemma InsertAtElements(rs: seq<int>, v: int, i: int)
    requires 0 <= i <= |rs|
    ensures |rs[..i] + [v] + rs[i..]| == |rs| + 1
    ensures forall k :: 0 <= k < |rs| + 1 ==>
              (rs[..i] + [v] + rs[i..])[k] == if k < i then rs[k] else if k == i then v else rs[k - 1]
    ensures (set x | x in rs[..i] + [v] + rs[i..]) == (set x | x in rs) + {v}
  {
    assert rs == rs[..i] + rs[i..];
  }

  /** Inserting at an insert point keeps the order and adds exactly `v`. */
  lemma InsertAtPoint(rs: seq<int>, v: int, i: int)
    requires StrictlyIncreasing(rs) && InsertPoint(rs, v, i)
    ensures StrictlyIncreasing(rs[..i] + [v] + rs[i..])
    ensures (set x | x in rs[..i] + [v] + rs[i..]) == (set x | x in rs) + {v}
  {
    InsertAtElements(rs, v, i);
    var r := rs[..i] + [v] + rs[i..];
    forall a, b | 0 <= a < b < |r| ensures r[a] < r[b] {
      if a < i && b == i {
        assert rs[a] <= rs[i - 1];
      } else if a == i {
        assert rs[i] <= rs[b - 1];
      }
    }
  }

  /** The modules summarised so far and the distinct floored runtimes among them. */
  class ModuleCollection {
    var modules: seq<Module>
    var runtimes: seq<int>

    constructor(modules: seq<Module>, runtimes: seq<int>)
      ensures this.modules == modules && this.runtimes == runtimes
    {
      this.modules := modules;
      this.runtimes := runtimes;
    }

    predicate Valid()
      reads this
    {
      StrictlyIncreasing(runtimes)
    }

    /** `add`: appends the module and records its floored runtime. */
    method Add(m: Module)
      modifies this
      ensures modules == old(modules) + [m]
      ensures runtimes == Inserted(old(runtimes), m.runtime.Floor)
      ensures old(Valid()) ==> Valid() && (set x | x in runtimes) == (set x | x in old(runtimes)) + {m.runtime.Floor}
    {
      modules := modules + [m];
      SortRuntime(m);
    }

    /** `_sort_runtime`: inserts the floored runtime where the search says, unless it is already present. */
    method SortRuntime(m: Module)
      modifies this
      ensures modules == old(modules)
      ensures runtimes == Inserted(old(runtimes), m.runtime.Floor)
      ensures old(Valid()) ==> Valid() && (set x | x in runtimes) == (set x | x in old(runtimes)) + {m.runtime.Floor}
    {
      var runtime := m.runtime.Floor;
      if runtimes == [] {
        runtimes := runtimes + [runtime];
      } else {
        var index := InsertIndex(runtimes, runtime, 0, |runtimes| - 1);
        if index.Some? {
          runtimes := runtimes[..index.value] + [runtime] + runtimes[index.value..];
        }
      }
      if old(Valid()) {
        InsertedCorrect(old(runtimes), runtime);
      }
    }
  }

  /** The floored runtimes of `ms`, in the order `add` considered them. */
  function RuntimesOf(ms: seq<Module>): seq<int>
    reads ms
  {
    if ms == [] then [] else Inserted(RuntimesOf(ms[..|ms| - 1]), ms[|ms| - 1].runtime.Floor)
  }

  /** The floored runtimes of `ms`, as a set. */
  function Floors(ms: seq<Module>): set<int>
    reads ms
  {
    set k | 0 <= k < |ms| :: ms[k].runtime.Floor
  }

  /** Adding modules one by one leaves a strictly increasing list holding each floored runtime once. */
  lemma {:induction false} RuntimesOfCorrect(ms: seq<Module>)
    ensures StrictlyIncreasing(RuntimesOf(ms))
    ensures (set x | x in RuntimesOf(ms)) == Floors(ms)
  {
    if ms != [] {
      var init := ms[..|ms| - 1];
      RuntimesOfCorrect(init);
      InsertedCorrect(RuntimesOf(init), ms[|ms| - 1].runtime.Floor);
      FloorsSnoc(ms);
    }
  }

  lemma FloorsSnoc(ms: seq<Module>)
    requires ms != []
    ensures Floors(ms) == Floors(ms[..|ms| - 1]) + {ms[|ms| - 1].runtime.Floor}
  {
    var init := ms[..|ms| - 1];
    forall x | x in Floors(ms) ensures x in Floors(init) + {ms[|ms| - 1].runtime.Floor} {
      var k :| 0 <= k < |ms| && ms[k].runtime.Floor == x;
      if k < |init| {
        assert init[k] == ms[k];
      }
    }
    forall x | x in Floors(init) ensures x in Floors(ms) {
      var k :| 0 <= k < |init| && init[k].runtime.Floor == x;
      assert ms[k] == init[k];
    }
  }

  /** The record of one test in the run results: its trials, flakes and total runtime. */
  datatype TestRecord = TestRecord(trials: int, flakes: real, runtimeSum: real)

  /** Every test of `tests` has a record. */
  predicate Recorded(tests: seq<string>, results: map<string, TestRecord>)
  {
    forall j :: 0 <= j < |tests| ==> tests[j] in results
  }

  /** The field-wise sum of the records of `tests`. */
  function Total(tests: seq<string>, results: map<string, TestRecord>): TestRecord
    requires Recorded(tests, results)
  {
    if tests == [] then TestRecord(0, 0.0, 0.0)
    else
      var t := Total(tests[..|tests| - 1], results);
      var last := results[tests[|tests| - 1]];
      TestRecord(t.trials + last.trials, t.flakes + last.flakes, t.runtimeSum + last.runtimeSum)
  }

  /** `m` is the module `name` summarised from the records of `tests`. */
  predicate Summed(m: Module, name: string, tests: seq<string>, results: map<string, TestRecord>)
    reads m
  {
    Recorded(tests, results)
    && var t := Total(tests, results);
    m.name == name && m.trials == t.trials && m.flakes == t.flakes && m.totalRuntime == t.runtimeSum
    && t.trials != 0 && m.flakeRate == t.flakes / t.trials as real && m.runtime == t.runtimeSum / t.trials as real
  }

  /** The exception of summarising modules with `lists`: a missing record, else zero trials, at the first module that has either. */
  function SummaryFailure(lists: seq<seq<string>>, results: map<string, TestRecord>): Option<Error>
  {
    if lists == [] then None
    else if !Recorded(lists[0], results) then Some(KeyError)
    else if Total(lists[0], results).trials == 0 then Some(ZeroDivisionError)
    else SummaryFailure(lists[1..], results)
  }

  /** The body of the outer loop of `summarize_module_test_results`, for one module. */
  method SummarizeModule(name: string, tests: seq<string>, results: map<string, TestRecord>)
    returns (r: Result<Module, Error>)
    ensures r.Err? <==> !Recorded(tests, results) || Total(tests, results).trials == 0
    ensures r.Err? ==> r.error == if !Recorded(tests, results) then KeyError else ZeroDivisionError
    ensures r.Ok? ==> fresh(r.value) && Summed(r.value, name, tests, results)
  {
    var m := new Module(name);
    for j := 0 to |tests|
      invariant Recorded(tests[..j], results)
      invariant m.name == name
      invariant var t := Total(tests[..j], results);
                m.trials == t.trials && m.flakes == t.flakes && m.totalRuntime == t.runtimeSum
    {
      if tests[j] !in results {
        assert !Recorded(tests, results);
        return Err(KeyError);
      }
      assert tests[..j + 1][..j] == tests[..j];
      var resultVals := results[tests[j]];
      m.trials := m.trials + resultVals.trials;
      m.flakes := m.flakes + resultVals.flakes;
      m.totalRuntime := m.totalRuntime + resultVals.runtimeSum;
    }
    assert tests[..|tests|] == tests;
    if m.trials == 0 {
      return Err(ZeroDivisionError);
    }
    m.flakeRate := m.flakes / m.trials as real;
    m.runtime := m.totalRuntime / m.trials as real;
    r := Ok(m);
  }

  /**
   * `summarize_module_test_results`: one summarised module per key of
   * `appModulesMap`, in key order, added to a new collection; the first
   * module with an unrecorded test or zero trials raises.
   */
  method SummarizeModuleTestResults(appModulesMap: Collect.CoverageMap, results: map<string, TestRecord>)
    returns (r: Result<ModuleCollection, Error>)
    ensures r.Err? <==> SummaryFailure(appModulesMap.Lists(), results).Some?
    ensures r.Err? ==> r.error == SummaryFailure(appModulesMap.Lists(), results).value
    ensures r.Ok? ==> fresh(r.value) && |r.value.modules| == |appModulesMap.order|
    ensures r.Ok? ==> forall i :: 0 <= i < |r.value.modules| ==>
              fresh(r.value.modules[i]) && Summed(r.value.modules[i], appModulesMap.order[i], appModulesMap.Lists()[i], results)
    ensures r.Ok? ==> r.value.runtimes == RuntimesOf(r.value.modules)
  {
    var lists := appModulesMap.Lists();
    var moduleCollection := new ModuleCollection([], []);
    for i := 0 to |lists|
      invariant SummarizedUpTo(moduleCollection, appModulesMap.order, lists, results, i)
      invariant forall k :: 0 <= k < i ==> fresh(moduleCollection.modules[k])
      invariant SummaryFailure(lists, results) == SummaryFailure(lists[i..], results)
    {
      assert lists[i..][1..] == lists[i + 1..];
      ghost var before := moduleCollection.modules;
      var err := SummarizeInto(moduleCollection, appModulesMap.order[i], lists[i], results, appModulesMap.order, lists, i);
      if err.Some? {
        return Err(err.value);
      }
      assert moduleCollection.modules == before + [moduleCollection.modules[i]];
    }
    assert lists[|lists|..] == [];
    r := Ok(moduleCollection);
  }

  /** The first `i` modules of `c` are the summaries of the first `i` keys, and its runtimes are theirs. */
  predicate SummarizedUpTo(c: ModuleCollection, order: seq<string>, lists: seq<seq<string>>,
                           results: map<string, TestRecord>, i: int)
    reads c, c.modules
  {
    && 0 <= i <= |order| && |lists| == |order|
    && |c.modules| == i
    && (forall k :: 0 <= k < i ==> Summed(c.modules[k], order[k], lists[k], results))
    && c.runtimes == RuntimesOf(c.modules)
  }

  /** One pass of the outer loop of `summarize_module_test_results`: the module is summarised and added to `c`. */
  method SummarizeInto(c: ModuleCollection, name: string, tests: seq<string>, results: map<string, TestRecord>,
                       ghost order: seq<string>, ghost lists: seq<seq<string>>, ghost i: int)
    returns (err: Option<Error>)
    requires SummarizedUpTo(c, order, lists, results, i) && i < |order|
    requires name == order[i] && tests == lists[i]
    modifies c
    ensures err.Some? <==> !Recorded(tests, results) || Total(tests, results).trials == 0
    ensures err.Some? ==> err.value == if !Recorded(tests, results) then KeyError else ZeroDivisionError
    ensures err.None? ==> SummarizedUpTo(c, order, lists, results, i + 1)
    ensures err.None? ==> c.modules[..i] == old(c.modules) && fresh(c.modules[i])
  {
    ghost var before := c.modules;
    var m := SummarizeModule(name, tests, results);
    if m.Err? {
      return Some(m.error);
    }
    assert c.runtimes == RuntimesOf(before);
    assert forall k :: 0 <= k < i ==> Summed(before[k], order[k], lists[k], results);
    c.Add(m.value);
    assert c.modules[..i] == before;
    err := None;
  }

  /**
   * `keyify`: the digest of the concatenation of the sorted test paths.
   * The digest (MD5 of the UTF-8 encoding) is the parameter `md5`.
   */
  function Keyify<D>(testPaths: seq<string>, md5: string -> D): D
  {
    md5(StringOrder.Join(StringOrder.Sort(testPaths)))
  }

  /** The key depends only on the multiset of paths, not on their order. */
  lemma KeyifyPermutation<D>(a: seq<string>, b: seq<string>, md5: string -> D)
    requires multiset(a) == multiset(b)
    ensures Keyify(a, md5) == Keyify(b, md5)
  {
    StringOrder.SortPermutation(a, b);
  }

  /** The digest is taken of the sorted arrangement of the paths, whichever way it is computed. */
  lemma KeyifyOfSorted<D>(testPaths: seq<string>, sorted: seq<string>, md5: string -> D)
    requires StringOrder.Sorted(sorted) && multiset(sorted) == multiset(testPaths)
    ensures Keyify(testPaths, md5) == md5(StringOrder.Join(sorted))
  {
    StringOrder.SortSorted(testPaths);
    StringOrder.SortedUnique(StringOrder.Sort(testPaths), sorted);
  }
}
