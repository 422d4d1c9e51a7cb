/**
 * Coverage-map construction (collect.py): test files are told apart from
 * application files by their module name, and every application module is
 * mapped to the test files that import it.
 *
 * The directory walk and the parsing of a test file are outside the model:
 * the candidate files are an input sequence and the import statements of a
 * test file are given by a function `parse` from its path.
 */
module Collect {
  import opened Wrappers

  /** `os.sep` on a POSIX system. */
  const Sep: char := '/'

  predicate StartsWith(s: string, prefix: string) {
    prefix <= s
  }

  predicate EndsWith(s: string, suffix: string) {
    |suffix| <= |s| && s[|s| - |suffix|..] == suffix
  }

  // ---------------------------------------------------------------------------
  // Module names
  // ---------------------------------------------------------------------------

  /** The last element of `path.split(os.sep)`: the longest suffix without a separator. */
  function LastSegment(path: string): (r: string)
    ensures |r| <= |path| && r == path[|path| - |r|..]
    ensures Sep !in r
    ensures |r| == |path| || path[|path| - |r| - 1] == Sep
  {
    if path == [] then ""
    else if path[|path| - 1] == Sep then ""
    else
      var init := path[..|path| - 1];
      var seg := LastSegment(init);
      assert path == init + [path[|path| - 1]];
      assert path[|path| - |seg| - 1..] == init[|init| - |seg|..] + [path[|path| - 1]];
      assert |seg| < |init| ==> path[|path| - |seg| - 2] == init[|init| - |seg| - 1];
      seg + [path[|path| - 1]]
  }

  /**
   * `_extract_module_name`: the last path segment with its final three
   * characters (the ".py") cut off. Python's `s[:-3]` is "" when `s` is
   * shorter than three characters.
   */
  function ModuleName(path: string): (r: string)
    ensures r <= LastSegment(path)
    ensures |r| == if |LastSegment(path)| >= 3 then |LastSegment(path)| - 3 else 0
  {
    var seg := LastSegment(path);
    seg[..if |seg| >= 3 then |seg| - 3 else 0]
  }

  lemma {:induction false} LastSegmentAfterSep(dir: string, file: string)
    requires Sep !in file
    ensures LastSegment(dir + [Sep] + file) == file
    decreases |file|
  {
    var p := dir + [Sep] + file;
    if file == [] {
      assert p[|p| - 1] == Sep;
    } else {
      var init := file[..|file| - 1];
      assert p[..|p| - 1] == dir + [Sep] + init;
      assert p[|p| - 1] == file[|file| - 1];
      LastSegmentAfterSep(dir, init);
      assert init + [file[|file| - 1]] == file;
    }
  }

  /** The module name of `dir/name.py` is `name`: extracting the name undoes building the path. */
  lemma {:induction false} ModuleNameOfPyFile(dir: string, name: string)
    requires Sep !in name
    ensures ModuleName(dir + [Sep] + name + ".py") == name
  {
    assert dir + [Sep] + name + ".py" == dir + [Sep] + (name + ".py");
    LastSegmentAfterSep(dir, name + ".py");
    assert (name + ".py")[..|name|] == name;
  }

  lemma ModuleNameOfTestCollect()
    ensures ModuleName("/path/to/code/bubblewrap/tests/test_collect.py") == "test_collect"
  {
    ModuleNameOfPyFile("/path/to/code/bubblewrap/tests", "test_collect");
    assert "/path/to/code/bubblewrap/tests" + [Sep] + "test_collect" + ".py"
        == "/path/to/code/bubblewrap/tests/test_collect.py";
  }

  // ---------------------------------------------------------------------------
  // Test files and application files
  // ---------------------------------------------------------------------------

  /** pytest's naming convention: a `test_` prefix or a `_test` suffix. */
  predicate IsTestModule(name: string) {
    StartsWith(name, "test_") || EndsWith(name, "_test")
  }

  predicate IsTestPath(path: string) {
    IsTestModule(ModuleName(path))
  }

  /** The test files among `files`, in their input order. */
  function TestFiles(files: seq<string>): seq<string>
  {
    Filter(files, IsTestPath)
  }

  /** The elements of `s` that satisfy `f`, in their order in `s`. */
  function Filter<T>(s: seq<T>, f: T -> bool): seq<T>
  {
    if s == [] then [] else Filter(s[..|s| - 1], f) + (if f(s[|s| - 1]) then [s[|s| - 1]] else [])
  }

  lemma {:induction false} FilterMembers<T>(s: seq<T>, f: T -> bool, x: T)
    ensures x in Filter(s, f) <==> x in s && f(x)
  {
    if s != [] {
      var init, last := s[..|s| - 1], s[|s| - 1];
      FilterMembers(init, f, x);
      assert s == init + [last];
    }
  }

  /** `filter_tests`: keeps, in order, exactly the files whose module name follows the convention. */
  method FilterTests(files: seq<string>) returns (tests: seq<string>)
    ensures tests == TestFiles(files)
    ensures forall x :: x in tests <==> x in files && IsTestPath(x)
  {
    tests := [];
    for i := 0 to |files|
      invariant tests == TestFiles(files[..i])
    {
      assert files[..i + 1][..i] == files[..i];
      if IsTestPath(files[i]) {
        tests := tests + [files[i]];
      }
    }
    assert files[..|files|] == files;
    forall x ensures x in tests <==> x in files && IsTestPath(x) {
      FilterMembers(files, IsTestPath, x);
    }
  }

  lemma {:induction false} FilterOfThree<T>(a: T, b: T, c: T, f: T -> bool)
    requires !f(a) && f(b) && !f(c)
    ensures Filter([a, b, c], f) == [b]
  {
    assert [a, b, c][..2] == [a, b] && [a, b][..1] == [a] && [a][..0] == [];
    assert Filter([a], f) == [];
    assert Filter([a, b], f) == [b];
  }

  lemma CollectIsNotATest()
    ensures !IsTestPath("/path/to/code/bubblewrap/collect.py")
  {
    ModuleNameOfPyFile("/path/to/code/bubblewrap", "collect");
    assert "/path/to/code/bubblewrap" + [Sep] + "collect" + ".py" == "/path/to/code/bubblewrap/collect.py";
    assert "collect"[0] != 't' && "collect"[2] != '_';
  }

  lemma CollectTestIsATest()
    ensures IsTestPath("/path/to/code/bubblewrap/tests/collect_test.py")
  {
    ModuleNameOfPyFile("/path/to/code/bubblewrap/tests", "collect_test");
    assert "/path/to/code/bubblewrap/tests" + [Sep] + "collect_test" + ".py"
        == "/path/to/code/bubblewrap/tests/collect_test.py";
    assert "collect_test"[7..] == "_test";
  }

  /** A `_tests` suffix is not the convention: `collect_tests.py` is an application file. */
  lemma CollectTestsIsNotATest()
    ensures !IsTestPath("/path/to/code/bubblewrap/tests/collect_tests.py")
  {
    ModuleNameOfPyFile("/path/to/code/bubblewrap/tests", "collect_tests");
    assert "/path/to/code/bubblewrap/tests" + [Sep] + "collect_tests" + ".py"
        == "/path/to/code/bubblewrap/tests/collect_tests.py";
    assert "collect_tests"[0] != 't' && "collect_tests"[8] != '_';
  }

  /** Of `collect.py`, `collect_test.py` and `collect_tests.py`, only `collect_test.py` is a test file. */
  lemma FilterTestsExample()
    ensures TestFiles(["/path/to/code/bubblewrap/collect.py",
                       "/path/to/code/bubblewrap/tests/collect_test.py",
                       "/path/to/code/bubblewrap/tests/collect_tests.py"])
         == ["/path/to/code/bubblewrap/tests/collect_test.py"]
  {
    CollectIsNotATest();
    CollectTestIsATest();
    CollectTestsIsNotATest();
    FilterOfThree("/path/to/code/bubblewrap/collect.py",
                  "/path/to/code/bubblewrap/tests/collect_test.py",
                  "/path/to/code/bubblewrap/tests/collect_tests.py", IsTestPath);
  }

  /**
   * `collect_tests` takes the application files to be all files minus the
   * test files; that is exactly the files that break the test naming convention.
   */
  lemma AppFilesAreTheNonTests(files: seq<string>)
    ensures (set f | f in files) - (set f | f in TestFiles(files))
         == set f | f in files && !IsTestPath(f)
  {
    forall x ensures x in TestFiles(files) <==> x in files && IsTestPath(x) {
      FilterMembers(files, IsTestPath, x);
    }
  }

  /** `convert_app_paths_to_modules`: drains the set of paths into the set of their module names. */
  method ConvertAppPathsToModules(fullpaths: set<string>) returns (appModules: set<string>)
    ensures appModules == Image(fullpaths, ModuleName)
  {
    appModules := {};
    var rest := fullpaths;
    while rest != {}
      invariant rest <= fullpaths
      invariant appModules == Image(fullpaths - rest, ModuleName)
      decreases rest
    {
      var p :| p in rest;
      ImageDrain(fullpaths, rest, p, ModuleName);
      appModules := appModules + {ModuleName(p)};
      rest := rest - {p};
    }
  }

  /** The image of a set under `f`. */
  function Image<T, U>(s: set<T>, f: T -> U): set<U>
  {
    set x | x in s :: f(x)
  }

  lemma ImageAdd<T, U>(s: set<T>, x: T, f: T -> U)
    ensures Image(s + {x}, f) == Image(s, f) + {f(x)}
  {
  }

  /** Taking `x` out of the paths still to drain adds its image to the drained ones. */
  lemma ImageDrain<T, U>(all: set<T>, rest: set<T>, x: T, f: T -> U)
    requires x in rest && rest <= all
    ensures Image(all - (rest - {x}), f) == Image(all - rest, f) + {f(x)}
  {
    assert all - (rest - {x}) == (all - rest) + {x};
    ImageAdd(all - rest, x, f);
  }

  // ---------------------------------------------------------------------------
  // Imports and the coverage map
  // ---------------------------------------------------------------------------

  /** An `import` or `from ... import` statement of a parsed test file. */
  datatype ImportNode =
    | Import(names: seq<string>)                            // import a, b
    | ImportFrom(fromModule: Option<string>, names: seq<string>)  // from m import a, b (module None: from . import a)

  /** The names one statement contributes: the imported names, and for a from-import also its module. */
  function NodeNames(node: ImportNode): seq<string>
  {
    match node
    case Import(names) => names
    case ImportFrom(fromModule, names) => names + (if fromModule.Some? then [fromModule.value] else [])
  }

  predicate Mentions(node: ImportNode, m: string) {
    m in node.names || (node.ImportFrom? && node.fromModule == Some(m))
  }

  /** The `imports` list of `_add_test_to_map`, without the `None` of a relative from-import. */
  function ImportedNames(nodes: seq<ImportNode>): seq<string>
  {
    if nodes == [] then [] else ImportedNames(nodes[..|nodes| - 1]) + NodeNames(nodes[|nodes| - 1])
  }

  /** `set(imports).intersection(app_modules)`: the application modules a test file covers. */
  function Covered(nodes: seq<ImportNode>, appModules: set<string>): set<string>
  {
    (set n | n in ImportedNames(nodes)) * appModules
  }

  /** A test covers exactly the application modules one of its statements names, matched by exact string. */
  lemma {:induction false} CoveredMembers(nodes: seq<ImportNode>, appModules: set<string>, m: string)
    ensures m in Covered(nodes, appModules)
        <==> m in appModules && exists i :: 0 <= i < |nodes| && Mentions(nodes[i], m)
  {
    if nodes != [] {
      var init, last := nodes[..|nodes| - 1], nodes[|nodes| - 1];
      CoveredMembers(init, appModules, m);
      assert m in NodeNames(last) <==> Mentions(last, m);
      assert m in ImportedNames(nodes) <==> m in ImportedNames(init) || m in NodeNames(last);
      if m in appModules && exists i :: 0 <= i < |nodes| && Mentions(nodes[i], m) {
        var i :| 0 <= i < |nodes| && Mentions(nodes[i], m);
        if i < |init| {
          assert Mentions(init[i], m);
        }
      }
      if exists i :: 0 <= i < |init| && Mentions(init[i], m) {
        var i :| 0 <= i < |init| && Mentions(init[i], m);
        assert Mentions(nodes[i], m);
      }
    }
  }

  /**
   * A dictionary from module names to test paths, with Python's insertion
   * order of its keys kept in `order`.
   */
  datatype CoverageMap = CoverageMap(order: seq<string>, tests: map<string, seq<string>>) {
    predicate Valid() {
      && (forall i, j :: 0 <= i < j < |order| ==> order[i] != order[j])
      && (set k | k in order) == tests.Keys
    }

    function Lookup(k: string): seq<string> {
      if k in tests then tests[k] else []
    }

    /** The values, in key order: what `items()` yields beside the keys. */
    function Lists(): (r: seq<seq<string>>)
      ensures |r| == |order| && forall i :: 0 <= i < |order| ==> r[i] == Lookup(order[i])
    {
      seq(|order|, i requires 0 <= i < |order| => Lookup(order[i]))
    }
  }

  /**
   * `_add_test_to_map`: appends `testPath` to the entry of every covered
   * module, creating `[testPath]` for a module not yet in the map; every
   * other entry is unchanged and new keys go after the old ones.
   */
  method AddTestToMap(testPath: string, appModules: set<string>, imports: seq<ImportNode>,
                      moduleMap: CoverageMap)
    returns (r: CoverageMap)
    requires moduleMap.Valid()
    ensures r.Valid()
    ensures r.tests.Keys == moduleMap.tests.Keys + Covered(imports, appModules)
    ensures forall k :: k in r.tests ==> r.tests[k] == Updated(moduleMap, Covered(imports, appModules), testPath, k)
    ensures moduleMap.order <= r.order
  {
    var hits := Covered(imports, appModules);
    ghost var all, done: set<string> := hits, {};
    r := moduleMap;
    while hits != {}
      invariant hits !! done && hits + done == all
      invariant AddedFor(moduleMap, r, done, testPath)
      decreases hits
    {
      var m :| m in hits;
      AddedForStep(moduleMap, r, done, m, testPath);
      if m in r.tests {
        r := r.(tests := r.tests[m := r.tests[m] + [testPath]]);
      } else {
        r := CoverageMap(r.order + [m], r.tests[m := [testPath]]);
      }
      hits, done := hits - {m}, done + {m};
    }
  }

  /** `r` is `moduleMap` with `testPath` appended to the entries of the modules in `done`. */
  predicate AddedFor(moduleMap: CoverageMap, r: CoverageMap, done: set<string>, testPath: string)
  {
    && r.Valid()
    && r.tests.Keys == moduleMap.tests.Keys + done
    && (forall k :: k in r.tests ==> r.tests[k] == Updated(moduleMap, done, testPath, k))
    && moduleMap.order <= r.order
  }

  /** One module more: append to its entry, or create the entry at the end of the key order. */
  function AddTo(r: CoverageMap, m: string, testPath: string): CoverageMap
  {
    if m in r.tests then r.(tests := r.tests[m := r.tests[m] + [testPath]])
    else CoverageMap(r.order + [m], r.tests[m := [testPath]])
  }

  lemma AddedForStep(moduleMap: CoverageMap, r: CoverageMap, done: set<string>, m: string, testPath: string)
    requires AddedFor(moduleMap, r, done, testPath) && m !in done
    ensures AddedFor(moduleMap, AddTo(r, m, testPath), done + {m}, testPath)
  {
    if m in r.tests {
      AddedForKnown(moduleMap, r, done, m, testPath);
    } else {
      AddedForNew(moduleMap, r, done, m, testPath);
    }
  }

  /** A module already in the map: its list grows by `testPath`. */
  lemma AddedForKnown(moduleMap: CoverageMap, r: CoverageMap, done: set<string>, m: string, testPath: string)
    requires AddedFor(moduleMap, r, done, testPath) && m !in done && m in r.tests
    ensures AddedFor(moduleMap, AddTo(r, m, testPath), done + {m}, testPath)
  {
    var r' := AddTo(r, m, testPath);
    assert r'.order == r.order && r'.tests.Keys == r.tests.Keys;
    forall k | k in r'.tests
      ensures r'.tests[k] == Updated(moduleMap, done + {m}, testPath, k)
    {
      if k != m {
        assert r'.tests[k] == r.tests[k];
      }
    }
  }

  /** A module not yet in the map: it gets the list `[testPath]`, at the end of the key order. */
  lemma AddedForNew(moduleMap: CoverageMap, r: CoverageMap, done: set<string>, m: string, testPath: string)
    requires AddedFor(moduleMap, r, done, testPath) && m !in done && m !in r.tests
    ensures AddedFor(moduleMap, AddTo(r, m, testPath), done + {m}, testPath)
  {
    var r' := AddTo(r, m, testPath);
    AppendNewKey(r, m, [testPath]);
    assert r'.tests.Keys == r.tests.Keys + {m};
    forall k | k in r'.tests
      ensures r'.tests[k] == Updated(moduleMap, done + {m}, testPath, k)
    {
      if k != m {
        assert r'.tests[k] == r.tests[k];
      }
    }
  }

  /** The entry for `k` once `testPath` has been appended for every module in `hits`. */
  function Updated(moduleMap: CoverageMap, hits: set<string>, testPath: string, k: string): seq<string>
    requires k in hits || k in moduleMap.tests
  {
    if k in hits then moduleMap.Lookup(k) + [testPath] else moduleMap.tests[k]
  }

  lemma AppendNewKey(c: CoverageMap, k: string, v: seq<string>)
    requires c.Valid() && k !in c.tests
    ensures CoverageMap(c.order + [k], c.tests[k := v]).Valid()
  {
    assert k !in (set x | x in c.order);
    var o := c.order + [k];
    assert (set x | x in o) == (set x | x in c.order) + {k};
  }

  /** The test files, in their input order, that cover `m`. */
  function Covering(tests: seq<string>, appModules: set<string>, parse: string -> seq<ImportNode>,
                    m: string): seq<string>
  {
    if tests == [] then []
    else
      var last := tests[|tests| - 1];
      Covering(tests[..|tests| - 1], appModules, parse, m)
        + (if m in Covered(parse(last), appModules) then [last] else [])
  }

  /** The application modules covered by at least one of `tests`. */
  function CoveredByAny(tests: seq<string>, appModules: set<string>, parse: string -> seq<ImportNode>): set<string>
  {
    UnionOf(tests, t => Covered(parse(t), appModules))
  }

  /** The union of `f(x)` over the elements `x` of `xs`. */
  function UnionOf<T, U>(xs: seq<T>, f: T -> set<U>): set<U>
  {
    if xs == [] then {} else UnionOf(xs[..|xs| - 1], f) + f(xs[|xs| - 1])
  }

  lemma {:induction false} UnionOfMembers<T, U>(xs: seq<T>, f: T -> set<U>, y: U)
    ensures y in UnionOf(xs, f) <==> exists i :: 0 <= i < |xs| && y in f(xs[i])
  {
    if xs != [] {
      var init := xs[..|xs| - 1];
      UnionOfMembers(init, f, y);
      if y in UnionOf(init, f) {
        var i :| 0 <= i < |init| && y in f(init[i]);
        assert xs[i] == init[i];
      }
      forall i | 0 <= i < |init| ensures xs[i] == init[i] { }
    }
  }

  lemma CoveredByAnyMembers(tests: seq<string>, appModules: set<string>,
                            parse: string -> seq<ImportNode>, m: string)
    ensures m in CoveredByAny(tests, appModules, parse)
        <==> exists i :: 0 <= i < |tests| && m in Covered(parse(tests[i]), appModules)
  {
    var f := t => Covered(parse(t), appModules);
    UnionOfMembers(tests, f, m);
    assert forall i :: 0 <= i < |tests| ==> f(tests[i]) == Covered(parse(tests[i]), appModules);
  }

  /** A module's list holds exactly the test files that cover it. */
  lemma {:induction false} CoveringMembers(tests: seq<string>, appModules: set<string>,
                                           parse: string -> seq<ImportNode>, m: string, t: string)
    ensures t in Covering(tests, appModules, parse, m) <==> t in tests && m in Covered(parse(t), appModules)
  {
    if tests != [] {
      var init := tests[..|tests| - 1];
      CoveringMembers(init, appModules, parse, m, t);
      assert tests == init + [tests[|tests| - 1]];
    }
  }

  /** The list of a module is empty exactly when no test covers it, so no key has an empty list. */
  lemma {:induction false} CoveringEmptyIff(tests: seq<string>, appModules: set<string>,
                                            parse: string -> seq<ImportNode>, m: string)
    ensures Covering(tests, appModules, parse, m) == [] <==> m !in CoveredByAny(tests, appModules, parse)
  {
    if tests != [] {
      CoveringEmptyIff(tests[..|tests| - 1], appModules, parse, m);
    }
  }

  /** The key set of the coverage map does not depend on the order in which the tests are visited. */
  lemma KeysIndependentOfTestOrder(tests1: seq<string>, tests2: seq<string>, appModules: set<string>,
                                   parse: string -> seq<ImportNode>)
    requires multiset(tests1) == multiset(tests2)
    ensures CoveredByAny(tests1, appModules, parse) == CoveredByAny(tests2, appModules, parse)
  {
    forall m ensures m in CoveredByAny(tests1, appModules, parse) ==> m in CoveredByAny(tests2, appModules, parse) {
      CoveredByAnyMembers(tests1, appModules, parse, m);
      CoveredByAnyMembers(tests2, appModules, parse, m);
      if m in CoveredByAny(tests1, appModules, parse) {
        var i :| 0 <= i < |tests1| && m in Covered(parse(tests1[i]), appModules);
        assert tests1[i] in multiset(tests2);
        var j :| 0 <= j < |tests2| && tests2[j] == tests1[i];
      }
    }
    forall m ensures m in CoveredByAny(tests2, appModules, parse) ==> m in CoveredByAny(tests1, appModules, parse) {
      CoveredByAnyMembers(tests1, appModules, parse, m);
      CoveredByAnyMembers(tests2, appModules, parse, m);
      if m in CoveredByAny(tests2, appModules, parse) {
        var i :| 0 <= i < |tests2| && m in Covered(parse(tests2[i]), appModules);
        assert tests2[i] in multiset(tests1);
        var j :| 0 <= j < |tests1| && tests1[j] == tests2[i];
      }
    }
  }

  /** The index of the first of `tests` that covers `m`, or `|tests|` when none does. */
  function FirstCover(tests: seq<string>, appModules: set<string>, parse: string -> seq<ImportNode>,
                      m: string): nat
  {
    if tests == [] then 0
    else
      var f := FirstCover(tests[..|tests| - 1], appModules, parse, m);
      if f < |tests| - 1 then f
      else if m in Covered(parse(tests[|tests| - 1]), appModules) then |tests| - 1
      else |tests|
  }

  /**
   * `FirstCover` is the first covering test: the test at that index covers
   * `m` and no test before it does, and it is `|tests|` exactly when no
   * test covers `m`.
   */
  lemma {:induction false} FirstCoverIsFirst(tests: seq<string>, appModules: set<string>,
                                             parse: string -> seq<ImportNode>, m: string)
    ensures FirstCover(tests, appModules, parse, m) <= |tests|
    ensures FirstCover(tests, appModules, parse, m) < |tests| ==>
              m in Covered(parse(tests[FirstCover(tests, appModules, parse, m)]), appModules)
    ensures forall k :: 0 <= k < FirstCover(tests, appModules, parse, m) ==> m !in Covered(parse(tests[k]), appModules)
    ensures FirstCover(tests, appModules, parse, m) == |tests| <==> m !in CoveredByAny(tests, appModules, parse)
  {
    if tests != [] {
      var init := tests[..|tests| - 1];
      FirstCoverIsFirst(init, appModules, parse, m);
      CoveredByAnyMembers(tests, appModules, parse, m);
      CoveredByAnyMembers(init, appModules, parse, m);
      assert forall k :: 0 <= k < |init| ==> init[k] == tests[k];
    }
  }

  /** The keys of `order` are in the order of their first covering test. */
  predicate FirstCoverOrder(order: seq<string>, tests: seq<string>, appModules: set<string>,
                            parse: string -> seq<ImportNode>)
  {
    forall p, q :: 0 <= p < q < |order| ==>
      FirstCover(tests, appModules, parse, order[p]) <= FirstCover(tests, appModules, parse, order[q])
  }

  /** A module the first `i` tests already cover keeps its first covering test when one more test is added. */
  lemma FirstCoverOld(tests: seq<string>, i: int, appModules: set<string>, parse: string -> seq<ImportNode>, m: string)
    requires 0 <= i < |tests| && m in CoveredByAny(tests[..i], appModules, parse)
    ensures FirstCover(tests[..i + 1], appModules, parse, m) == FirstCover(tests[..i], appModules, parse, m) < i
  {
    assert tests[..i + 1][..i] == tests[..i];
    FirstCoverIsFirst(tests[..i], appModules, parse, m);
  }

  /** A module first covered by test `i` has `i` as its first covering test. */
  lemma FirstCoverNew(tests: seq<string>, i: int, appModules: set<string>, parse: string -> seq<ImportNode>, m: string)
    requires 0 <= i < |tests| && m !in CoveredByAny(tests[..i], appModules, parse)
    requires m in CoveredByAny(tests[..i + 1], appModules, parse)
    ensures FirstCover(tests[..i + 1], appModules, parse, m) == i
  {
    assert tests[..i + 1][..i] == tests[..i];
    FirstCoverIsFirst(tests[..i], appModules, parse, m);
    FirstCoverIsFirst(tests[..i + 1], appModules, parse, m);
  }

  /**
   * The keys one more test adds go after the old ones, so the order of
   * first covering tests is kept.
   */
  lemma FirstCoverOrderStep(tests: seq<string>, i: int, appModules: set<string>,
                            parse: string -> seq<ImportNode>, o: seq<string>, o': seq<string>)
    requires 0 <= i < |tests|
    requires FirstCoverOrder(o, tests[..i], appModules, parse)
    requires (set k | k in o) == CoveredByAny(tests[..i], appModules, parse)
    requires o <= o' && (set k | k in o') == CoveredByAny(tests[..i + 1], appModules, parse)
    requires forall a, b :: 0 <= a < b < |o'| ==> o'[a] != o'[b]
    ensures FirstCoverOrder(o', tests[..i + 1], appModules, parse)
  {
    forall p, q | 0 <= p < q < |o'|
      ensures FirstCover(tests[..i + 1], appModules, parse, o'[p]) <= FirstCover(tests[..i + 1], appModules, parse, o'[q])
    {
      KeyStep(tests, i, appModules, parse, o, o', p);
      KeyStep(tests, i, appModules, parse, o, o', q);
    }
  }

  /**
   * The first covering test of the key at `p` after one more test: the old
   * one, below `i`, for an old key, and `i` for a new key.
   */
  lemma KeyStep(tests: seq<string>, i: int, appModules: set<string>,
                parse: string -> seq<ImportNode>, o: seq<string>, o': seq<string>, p: int)
    requires 0 <= i < |tests| && 0 <= p < |o'|
    requires (set k | k in o) == CoveredByAny(tests[..i], appModules, parse)
    requires o <= o' && (set k | k in o') == CoveredByAny(tests[..i + 1], appModules, parse)
    requires forall a, b :: 0 <= a < b < |o'| ==> o'[a] != o'[b]
    ensures p < |o| ==> FirstCover(tests[..i + 1], appModules, parse, o'[p]) == FirstCover(tests[..i], appModules, parse, o[p]) < i
    ensures p >= |o| ==> FirstCover(tests[..i + 1], appModules, parse, o'[p]) == i
  {
    assert o'[p] in (set k | k in o');
    if p < |o| {
      assert o'[p] == o[p] && o[p] in (set k | k in o);
      FirstCoverOld(tests, i, appModules, parse, o[p]);
    } else {
      FirstCoverNew(tests, i, appModules, parse, o'[p]);
    }
  }

  /**
   * `map_imports`: the keys are the covered application modules and each
   * key lists, in input order, the test files that cover it.
   */
  method MapImports(tests: seq<string>, appModules: set<string>, parse: string -> seq<ImportNode>)
    returns (r: CoverageMap)
    ensures r.Valid()
    ensures r.tests.Keys == CoveredByAny(tests, appModules, parse)
    ensures forall m :: m in r.tests ==> r.tests[m] == Covering(tests, appModules, parse, m)
    ensures FirstCoverOrder(r.order, tests, appModules, parse)
  {
    r := CoverageMap([], map[]);
    for i := 0 to |tests|
      invariant r.Valid()
      invariant r.tests.Keys == CoveredByAny(tests[..i], appModules, parse)
      invariant forall m :: m in r.tests ==> r.tests[m] == Covering(tests[..i], appModules, parse, m)
      invariant FirstCoverOrder(r.order, tests[..i], appModules, parse)
    {
      var prefix := tests[..i + 1];
      assert prefix[..i] == tests[..i];
      forall m | m !in r.tests ensures Covering(tests[..i], appModules, parse, m) == [] {
        CoveringEmptyIff(tests[..i], appModules, parse, m);
      }
      ghost var o := r.order;
      r := AddTestToMap(tests[i], appModules, parse(tests[i]), r);
      FirstCoverOrderStep(tests, i, appModules, parse, o, r.order);
    }
    assert tests[..|tests|] == tests;
  }

  /** The module names of the application files among `files`. */
  function AppModules(files: seq<string>): set<string>
  {
    set f | f in files && !IsTestPath(f) :: ModuleName(f)
  }

  /**
   * `collect_tests` without the directory walk: the coverage map of the
   * application modules among `allFiles` by the test files among them.
   */
  method CollectTests(allFiles: seq<string>, parse: string -> seq<ImportNode>) returns (r: CoverageMap)
    ensures r.Valid()
    ensures r.tests.Keys == CoveredByAny(TestFiles(allFiles), AppModules(allFiles), parse)
    ensures forall m :: m in r.tests ==> r.tests[m] == Covering(TestFiles(allFiles), AppModules(allFiles), parse, m)
    ensures FirstCoverOrder(r.order, TestFiles(allFiles), AppModules(allFiles), parse)
  {
    var tests := FilterTests(allFiles);
    var appPaths := (set f | f in allFiles) - (set f | f in tests);
    AppFilesAreTheNonTests(allFiles);
    var appModules := ConvertAppPathsToModules(appPaths);
    assert appModules == AppModules(allFiles) by {
      forall m ensures m in appModules <==> m in AppModules(allFiles) {
        if m in AppModules(allFiles) {
          var f :| f in allFiles && !IsTestPath(f) && ModuleName(f) == m;
          assert f in appPaths;
        }
      }
    }
    r := MapImports(tests, appModules, parse);
  }
}
