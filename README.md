# bubblewrap, modelled in Dafny

bubblewrap looks for flaky and slow unit tests in a Python project. It works in four steps:

1. **Collect.** It maps each application module to the test files that import it (`collect.py`).
2. **Run.** It runs every distinct test file a fixed number of trials. Each test gets a pass/fail verdict, a flake count and a latency. Each module's tests are then summed (`run.py`).
3. **Summarize.** It summarizes recorded test results per module. It keeps a sorted list, without duplicates, of the modules' floored runtimes (`summarize.py`).
4. **Analyze.** It reports the flakiest modules, all ties included. It also buckets the modules by rounded runtime and lists the first `top_n` of them in bucket order, with ties. It calls these the slowest modules, but the buckets of a `ModuleCollection` run from the smallest runtime up, so they are the fastest ones (`analyze.py`).

The Dafny modules follow these files:

| file | module | what it holds |
|---|---|---|
| `wrappers.dfy` | `Wrappers` | `Option`, `Result`, and the Python exceptions the core can raise |
| `collect.dfy` | `Collect` | module names from paths, the test-file convention, the coverage map (`CoverageMap`: keys in insertion order plus a map) |
| `run.dfy` | `Run` | the classes `Test`, `Cache`, `Module` and `ModuleList`, plus `run_tests` and `find_flakiest_tests` |
| `flakiest.dfy` | `Flakiest` | one specification of the flakiest-module search, a fold `Scan` with running maximum and ties; it serves both copies of the search (`ModuleList._search` and `BubblewrapStats._search_for_flakiest`) |
| `summarize.dfy` | `Summarize` | `Module`, `ModuleCollection` with its insert-index binary search, `summarize_module_test_results`, `keyify` |
| `stringorder.dfy` | `StringOrder` | Python string order and `sorted`, for `keyify` |
| `buckets.dfy` | `Buckets` | the counting arithmetic of `find_slowest`: buckets, the result-count window, and each module's slot |
| `analyze.dfy` | `Analyze` | the class `BubblewrapStats` and the two wrapper functions |

### How the model works

- **Classes where the source mutates.** Objects whose fields the source changes in place are classes with `modifies` clauses. Each method is proved against a function of the old state. For example, `ModuleList.Search` ends in `State() == Scan(old(State()), Rates(ms))`, and the lemmas about `Scan` give the maximum and the ties.
- **Test execution.** Running a test is an oracle `execute(p, k)`: the outcome and latency of the `k`-th trial of test file `p`.
- **Parsing.** Parsing a test file is a function `parse` from its path to its import statements.
- **Rounding.** `round_runtime` is a parameter `round`.
- **Numbers.** Counts are integers. Rates and latencies are exact `real`s.

### Where the code differs from its own description

The model follows the code in each case:

- **Flake rule.** A test's flakes are described as its minority outcome. The code uses a 0.75 pass threshold instead: passing 2 of 3 trials fails the test and counts 2 flakes.
- **Slowest modules.** `find_slowest` is described as returning the slowest modules. It takes the buckets in the order of the runtimes list, and `ModuleCollection` keeps that list increasing. So it returns the modules with the smallest rounded runtimes. `Analyze.SlowestKeepsFastest` proves that every module it leaves out has a larger rounded runtime than every module it returns. In the stable fixture (tests/test_analyze.py:432-446) the module at 0.07 is the one left out (`Analyze.SlowestFixtureExample`).
- **Which `Module` analyze.py reads.** analyze.py imports `Module`, `ModuleCollection` and `round_runtime` from `run`, but run.py defines neither `ModuleCollection` nor `round_runtime`. analyze.py also reads `module.runtime`, which only summarize.py's `Module` has. `Analyze` therefore works on `Summarize.Module` and `Summarize.ModuleCollection`.

## Model

| member | source | states |
|---|---|---|
| Run.PassesAndFailsPartition | run.py:61-69 | every trial is counted as exactly one pass or one fail, so passes + fails = trials |
| Run.PassedIff | run.py:92 | a test passes iff 4·passes ≥ 3·trials (a 0.75 threshold, not a majority) |
| Run.FlakesAreMinorityOutcomes | run.py:94-96 | the flakes are exactly the trials whose outcome is opposite the verdict |
| Run.DisagreeingCounts | run.py:96 | trials that disagree with a pass are the fails; trials that disagree with a fail are the passes |
| Run.FlakeRateBounds | run.py:88-97 | flakes ≤ trials; the flake rate lies in [0, 0.75); a passing test flakes at most a quarter of the time |
| Run.TwoOfThreeExample | run.py:92-96 | 2 passes in 3 trials: the test fails and has 2 flakes |
| Run.OneOfOneExample | tests/test_run.py:25-45 | 1 pass in 1 trial: the test passes and has 0 flakes |
| Run.Test.constructor | run.py:26-39 | the given paths and trial count; every counter and rate zero; not passed |
| Run.Test.Run | run.py:41-76 | the counters grow by the passes, fails and latency total of the trials (never reset); zero trials raises ZeroDivisionError; otherwise the summary fields are calculated |
| Run.Test.Calculate | run.py:88-97 | zero trials is ZeroDivisionError with nothing changed; otherwise the averages, the 0.75 verdict, the flakes and the flake rate follow from the counters, and the counters are untouched |
| Run.Cache.constructor | run.py:106-108 | the cache starts empty |
| Run.Cache.Get | run.py:110-111 | `Some` exactly for a cached path, yielding its entry; `None` for an absent path |
| Run.Cache.Put | run.py:113-114 | afterwards the path yields the new entry and every other path yields what it yielded before |
| Run.ModuleRateIsSumOfRates | run.py:132-138 | when all tests ran n trials, Σ flakes / n is the sum of the tests' flake rates, so a module's rate can exceed 1 |
| Run.Module.constructor | run.py:122-127 | the given name and tests; zero flake rate and latency |
| Run.Module.Summarize | run.py:129-138 | no tests is UnboundLocalError with nothing changed; a last test with zero trials is ZeroDivisionError after the sums are added; otherwise latency and flake rate are (old + Σ) / the last test's trials |
| Run.Rates | run.py:172-176 | one rated entry per module, in order, carrying its flake rate |
| Run.RatesAppend | run.py:183-184 | the rates of a concatenation are the concatenated rates |
| Run.ModuleList.constructor | run.py:147-151 | the given modules, no flakiest modules, no maximum |
| Run.ModuleList.FindFlakiest | run.py:153-159 | the search state becomes `Scan` over the modules; a one-module list is popped empty, and longer lists are kept |
| Run.ModuleList.Search | run.py:161-185 | recursive halving equals the left-to-right fold `Scan`; the field list is unchanged |
| Run.ModuleList.Consider | run.py:170-177 | a new maximum restarts the ties; an equal rate is appended to them; a lower rate changes nothing |
| Run.FindFlakiestTests | run.py:225-235 | `(None, [])` for no modules; otherwise the maximum flake rate and exactly the modules at it, in input order |
| Run.RunFailureIff | run.py:194-217 | `run_tests` fails iff some module has no tests, or there is a module and the trial count is zero |
| Run.TestResult | run.py:199-207 | returns the cached test for a known path; otherwise runs a new test and caches it; the cache only grows, and every cached test ran once with its own path |
| Run.AddTestResults | run.py:196-215 | the module's results are the cached results of its paths, in order; the error is exactly a test with zero trials |
| Run.FillsGrow | run.py:215 | appending the next path's cached result extends the filled prefix, also across a grown cache |
| Run.RunModuleTests | run.py:195-217 | one module is run and summarized: UnboundLocalError for no tests, ZeroDivisionError for zero trials, otherwise a `Summarized` module |
| Run.AllSummarizedGrow | run.py:221 | appending a summarized module keeps all modules summarized across a grown cache |
| Run.SummarizedKept | run.py:199-207 | a summarized module stays summarized when the cache only grows |
| Run.RunTests | run.py:188-222 | fails iff `RunFailure` says so, with that exception; otherwise one module per coverage-map key, in key order, each holding the shared cached `Test` of each of its paths, in order; every shared test was run exactly once |
| Run.RunModules | run.py:193-222 | the same over explicit key and test-list sequences, with one cache shared by all modules |
| Run.RunNext | run.py:195-221 | one iteration of the module loop preserves the all-summarized invariant, or raises the module's exception |
| Flakiest.Visit | analyze.py:73-80 | the maximum after a visit is set, never decreases, and bounds the visited rate |
| Flakiest.ScanAppend | run.py:179-184 | searching a + c is searching a then c, so every split point gives the same result |
| Flakiest.ScanSnoc | run.py:170-177 | searching one more item is one more visit |
| Flakiest.MaxOfIsMax | analyze.py:75-77 | `MaxOf` bounds every rate and is attained by one |
| Flakiest.TiesAboveAll | analyze.py:78-79 | no item ties at a rate above all the rates |
| Flakiest.SearchFindsAllTies | analyze.py:64-88 | from the empty state: no input gives `(None, [])`; otherwise the maximum rate and exactly the items at it, in input order |
| Flakiest.TiesCount | analyze.py:78-79 | the multiplicity of an item among the ties is its multiplicity in the input at that rate |
| Flakiest.MaxOfPermutation | analyze.py:64-88 | the maximum depends only on the multiset of inputs |
| Flakiest.TiesPermutation | analyze.py:64-88 | the multiset of tied items depends only on the multiset of inputs |
| Flakiest.SearchPermutationInvariant | analyze.py:64-88 | permuting the input changes neither the maximum nor the multiset of ties |
| Flakiest.SearchSingle | analyze.py:73-80 | a single module is the flakiest by itself |
| Flakiest.ScanBelow | analyze.py:75-79 | items strictly below the current maximum leave the state unchanged |
| Flakiest.SearchExample | tests/test_run.py:87-140 | rates 0.1, 0.6, 0.2, 0.4, 0.3 give maximum 0.6 and only that module |
| Flakiest.SearchDuplicateMaxExample | tests/test_run.py:197-213 | two modules at 0.6 are both returned, in input order |
| Collect.LastSegment | collect.py:126-128 | the longest suffix without a separator, preceded by a separator or the start of the path |
| Collect.ModuleName | collect.py:125-128 | the last segment minus its final three characters, or empty |
| Collect.LastSegmentAfterSep | collect.py:126-128 | the last segment of `dir/file` is `file` |
| Collect.ModuleNameOfPyFile | collect.py:125-128 | the module name of `dir/name.py` is `name` |
| Collect.ModuleNameOfTestCollect | tests/test_collect.py:7-10 | `/path/to/code/bubblewrap/tests/test_collect.py` gives `test_collect` |
| Collect.FilterTests | collect.py:54-65 | keeps exactly the files whose module name has the `test_` prefix or `_test` suffix, in input order |
| Collect.CollectIsNotATest | tests/test_collect.py:15 | `collect.py` is an application file |
| Collect.CollectTestIsATest | tests/test_collect.py:19 | `collect_test.py` is a test file |
| Collect.CollectTestsIsNotATest | tests/test_collect.py:20 | `collect_tests.py` is not a test file |
| Collect.FilterTestsExample | tests/test_collect.py:13-30 | of `collect.py`, `collect_test.py` and `collect_tests.py`, only `collect_test.py` is kept |
| Collect.AppFilesAreTheNonTests | collect.py:28-30 | all files minus the test files are exactly the files that break the naming convention |
| Collect.ConvertAppPathsToModules | collect.py:68-78 | the result is the set of module names of the paths |
| Collect.CoveredMembers | collect.py:101-116 | a test covers module m iff m is an application module that one of its statements names exactly (an imported name, or a from-import's module) |
| Collect.CoverageMap.Lists | run.py:194 | the lists of the map in key order |
| Collect.AddTestToMap | collect.py:93-122 | the keys grow by the covered modules; a covered key gets the test appended, a new key gets `[test]`, and every other entry is unchanged |
| Collect.AddedForStep | collect.py:117-121 | handling one more covered module keeps the map as the old map, updated for the modules handled so far |
| Collect.AddedForKnown | collect.py:118-119 | a module already in the map has the test appended to its list |
| Collect.AddedForNew | collect.py:120-121 | a new module gets `[test]`, at the end of the key order |
| Collect.AppendNewKey | collect.py:121 | adding a new key at the end keeps the map well formed |
| Collect.CoveredByAnyMembers | collect.py:86-90 | a module is covered by the tests iff one of the tests covers it |
| Collect.CoveringMembers | collect.py:86-90 | a module's list holds exactly the tests that cover it |
| Collect.CoveringEmptyIff | collect.py:116-121 | a module's list is empty iff no test covers it, so no key has an empty list |
| Collect.KeysIndependentOfTestOrder | collect.py:86-90 | the key set does not depend on the order of the tests |
| Collect.MapImports | collect.py:81-90 | the keys are exactly the covered application modules; each lists, in input order, the tests that cover it; the keys are in the order of their first covering test (`FirstCoverOrder`: along `order`, `FirstCover` never decreases) |
| Collect.CollectTests | collect.py:15-35 | the coverage map of the application modules among the files, built from the test files among them, its keys in the order of their first covering test |
| Collect.FirstCoverOrderStep | collect.py:86-90 | the keys one more test adds come after the old ones, so keys stay in the order of their first covering test |
| Collect.FirstCoverIsFirst | collect.py:86-90 | `FirstCover` is the index of the first test covering the module: that test covers it, no earlier one does, and it is the number of tests exactly when none does |
| Collect.FirstCoverOld | collect.py:118-119 | a module already covered keeps its first covering test when another test is processed |
| Collect.FirstCoverNew | collect.py:120-121 | a module that enters the map with test `i` has `i` as its first covering test |
| Collect.KeyStep | collect.py:117-121 | after one more test, an old key keeps its first covering test, which is earlier, and a new key has the new test as its first |
| Summarize.Module.constructor | summarize.py:13-20 | the name, and every total and rate zero |
| Summarize.InsertIndex | summarize.py:54-83 | 0 below the first element; the length above the last; any index returned is a valid insert position |
| Summarize.InsertIndexInRange | summarize.py:65-83 | within a bracketing interval, `None` only for a present value; otherwise a gap that keeps the list strictly increasing |
| Summarize.InsertPointAbsent | summarize.py:66-68 | a value at an insert gap is absent from the list |
| Summarize.InsertPointUnique | summarize.py:70-77 | a value has at most one insert gap |
| Summarize.InsertIndexCorrect | summarize.py:54-83 | on a strictly increasing list: `None` iff the value is present; otherwise the unique insert position |
| Summarize.InsertedCorrect | summarize.py:41-52 | `_sort_runtime` keeps the list strictly increasing and adds exactly the floored runtime to its elements |
| Summarize.InsertAtElements | summarize.py:52 | the elements after `list.insert(i, v)` |
| Summarize.InsertAtPoint | summarize.py:52 | inserting at an insert position keeps the order and adds exactly v |
| Summarize.ModuleCollection.constructor | summarize.py:29-32 | the given modules and runtimes |
| Summarize.ModuleCollection.Add | summarize.py:34-39 | the module is appended; the runtimes are the old ones with the floored runtime inserted; on a strictly increasing list they stay strictly increasing, with exactly that value added to their elements |
| Summarize.ModuleCollection.SortRuntime | summarize.py:41-52 | the modules are unchanged; the runtimes gain the floored runtime if absent, in order |
| Summarize.RuntimesOfCorrect | summarize.py:34-52 | adding modules one by one gives a strictly increasing list holding each floored runtime once |
| Summarize.FloorsSnoc | summarize.py:104 | the floors of one more module are the old floors plus its floor |
| Summarize.SummarizeModule | summarize.py:96-103 | KeyError for a test without a record; ZeroDivisionError for zero total trials; otherwise the field-wise totals, flakes / trials and runtime / trials |
| Summarize.SummarizeModuleTestResults | summarize.py:86-105 | the exception of the first failing module; otherwise one summarized module per key, in key order, with the runtimes those modules give |
| Summarize.SummarizeInto | summarize.py:95-104 | one pass of the outer loop: the module's exception, or the collection extended by its summary |
| Summarize.KeyifyPermutation | summarize.py:108-115 | the key depends only on the multiset of paths |
| Summarize.KeyifyOfSorted | summarize.py:113-115 | the digest is taken of the join of the sorted arrangement of the paths |
| StringOrder.LeTotal | summarize.py:113 | any two strings are ordered |
| StringOrder.LeAntisymmetric | summarize.py:113 | strings ordered both ways are equal |
| StringOrder.LeTransitive | summarize.py:113 | the order is transitive |
| StringOrder.Insert | summarize.py:113 | insertion adds exactly one element |
| StringOrder.InsertSorted | summarize.py:113 | insertion keeps a list sorted |
| StringOrder.Sort | summarize.py:113 | `sorted` is a permutation of its input |
| StringOrder.SortSorted | summarize.py:113 | `sorted` returns a sorted list |
| StringOrder.HeadIsLeast | summarize.py:113 | the head of a sorted list is a least element |
| StringOrder.SortedTail | summarize.py:113 | the tail of a sorted list is sorted |
| StringOrder.MultisetTail | summarize.py:113 | equal heads and equal multisets give equal tail multisets |
| StringOrder.SortedUnique | summarize.py:113 | two sorted lists with the same elements are equal |
| StringOrder.SortPermutation | summarize.py:113 | sorting depends only on the multiset of inputs |
| StringOrder.Join | summarize.py:114 | joining one string gives that string |
| StringOrder.JoinSnoc | summarize.py:114 | joining one more string appends it to the join of the others |
| Buckets.Counts | analyze.py:96-98 | each bucket's count is the number of occurrences of its key |
| Buckets.Window | analyze.py:110-113 | the number of buckets `_count_expected_results` takes is at most their number |
| Buckets.StartMonotone | analyze.py:115-116 | bucket starts never decrease |
| Buckets.ResultCountIsWindowTotal | analyze.py:110-117 | the result count is the total of the shortest prefix of buckets that reaches `top_n`; a bucket is in it iff it starts below `top_n` |
| Buckets.ResultCountBounds | analyze.py:110-117 | the result count is at most the total, at least `top_n` unless it is the total, 0 for `top_n ≤ 0`, and the total once `top_n` reaches it |
| Buckets.StartAtMostTotal | analyze.py:115-116 | a bucket's start plus its count never exceeds the total |
| Buckets.WindowBoundary | analyze.py:112-116 | a bucket in the window ends within the result count; one outside starts at or after it |
| Buckets.IndexOf | analyze.py:55 | the first index of a key |
| Buckets.Slot | analyze.py:55-60 | the slot a module is written to is non-negative |
| Buckets.SlotInBucket | analyze.py:55-60 | a module's slot lies inside its bucket's range |
| Buckets.BucketsDisjoint | analyze.py:115-116 | the ranges of different buckets do not overlap |
| Buckets.SlotInjective | analyze.py:57-60 | two modules never share a slot |
| Buckets.CountsSum | analyze.py:96-98 | the counts add up to the number of modules |
| Buckets.SlotSurjective | analyze.py:52-60 | every slot below the number of modules belongs to some module |
| Buckets.BucketOf | analyze.py:115-116 | every index below the total lies in some bucket's range |
| Buckets.ResultCountNonNegative | analyze.py:52 | the result count is never negative |
| Buckets.SlotInWindow | analyze.py:56 | a module's slot is below the result count iff its bucket starts below `top_n` |
| Buckets.SlotsDescend | analyze.py:57-60 | within a bucket, a module listed later gets a lower slot |
| Analyze.Dict.Set | analyze.py:98 | assigning a key keeps the dict well formed and its keys unchanged; afterwards the key holds the new value and every other key holds its old one |
| Analyze.Dedup | analyze.py:96 | the keys of a dict comprehension over a list are distinct |
| Analyze.DedupMembers | analyze.py:96 | the keys are exactly the list's values |
| Analyze.DedupFirstOccurrence | analyze.py:96 | the keys appear in the order of their first occurrences |
| Analyze.DedupDistinct | analyze.py:96 | a list without repeats gives the same keys in the same order |
| Analyze.Rounded | analyze.py:98 | one rounded runtime per module |
| Analyze.RoundedAt | analyze.py:54 | the rounded runtime at i is `round(modules[i].runtime)` |
| Analyze.EntryOf | analyze.py:57-59 | the entry holds the module's name, precise runtime and rounded runtime |
| Analyze.Entries | analyze.py:57-59 | one entry per module |
| Analyze.EntriesAt | analyze.py:57-59 | the entry at i is module i's entry, with rounded runtime `Rounded[i]` |
| Analyze.FlakeRates | analyze.py:75-79 | one rated entry per module |
| Analyze.FlakeRatesAppend | analyze.py:86-87 | the rates of a concatenation are the concatenated rates |
| Analyze.Names | analyze.py:136 | the names of the flakiest modules, in order |
| Analyze.AsReals | analyze.py:127 | the collection's integer runtimes as dict keys |
| Analyze.CountedStep | analyze.py:98 | `runtimes[k] += 1` counts one more module of key k |
| Analyze.CountNext | analyze.py:97-98 | counting module i extends both the keyed and the counted facts to the first i + 1 modules |
| Analyze.CountedValues | analyze.py:111 | the counts, in key order, are the bucket counts |
| Analyze.Range | analyze.py:115 | a bucket's range spans exactly its count |
| Analyze.Ranges | analyze.py:110-116 | one range per bucket, in key order |
| Analyze.RangesAdjacent | analyze.py:115-116 | each range starts right after the previous one ends |
| Analyze.RangesCover | analyze.py:110-116 | the ranges run from 0 to the number of modules minus one |
| Analyze.Pending | analyze.py:55-60 | a bucket's range once some of its modules are placed keeps its start, and is the initial range before any |
| Analyze.PendingNext | analyze.py:60 | placing a module of a bucket in the window lowers its end by one |
| Analyze.PendingOutside | analyze.py:56 | a bucket outside the window keeps its range |
| Analyze.PlaceStep | analyze.py:55-57 | the end read for module i is below the result count iff its bucket is in the window iff its slot is, and then it is that slot |
| Analyze.RangesAtStart | analyze.py:50-52 | before placement the ranges are those of `_count_expected_results` |
| Analyze.RangesAtNext | analyze.py:53-60 | placing module i updates exactly its bucket's range |
| Analyze.RangesAtEnd | analyze.py:53-61 | after the loop, each bucket in the window is used up (its end just below its start) and every other bucket keeps its range |
| Analyze.PlacedUpToNext | analyze.py:56-59 | writing module i to its slot extends the placed prefix |
| Analyze.PlaceNext | analyze.py:54-60 | one loop iteration keeps the ranges and the placed prefix in step |
| Analyze.SlowestFromPlaced | analyze.py:52-61 | once every module is placed, every slot below the result count is filled by the module whose slot it is |
| Analyze.SlowestLength | analyze.py:52 | the output length is at most the number of modules, at least `top_n` unless that is all of them, 0 for `top_n ≤ 0`, and all modules once `top_n` reaches their number |
| Analyze.BubblewrapStats.constructor | analyze.py:18-25 | the given modules, runtimes list and result lists; no maximum and no result count |
| Analyze.BubblewrapStats.FindFlakiest | analyze.py:27-33 | the search state becomes `Scan` over the modules; a one-module list is popped empty |
| Analyze.BubblewrapStats.SearchForFlakiest | analyze.py:64-88 | recursive halving equals the fold `Scan` |
| Analyze.BubblewrapStats.Consider | analyze.py:73-80 | a new maximum restarts the ties; an equal rate is appended to them |
| Analyze.BubblewrapStats.CountModulesByRuntime | analyze.py:90-99 | the runtimes become a count dict over their distinct values; KeyError iff some rounded runtime is not a key, raised after the earlier modules are counted |
| Analyze.BubblewrapStats.CountExpectedResults | analyze.py:101-118 | the counts become the bucket ranges, and the result count is the window total |
| Analyze.BubblewrapStats.FindSlowest | analyze.py:35-62 | KeyError iff a rounded runtime is not a key; the KeyError leaves `slowest_modules` and `runtimes_result_count` as they were and `runtimes` counted up to the first missing key (`CountedUntilMissing`); otherwise the result satisfies `Slowest`: its length is the result count, each module whose slot is in range sits there, every slot is filled, it is stored in `slowest_modules`, and `runtimes` holds each bucket's drained range (`DrainedRuntimes`) |
| Analyze.RangesDrained | analyze.py:53-61 | after the loop every bucket holds `Drained`: used up in the window, its laid-out range outside it |
| Analyze.CollectionKeys | analyze.py:96 | a collection's strictly increasing runtimes become increasing dict keys, each kept once and in place |
| Analyze.SlowestKeepsFastest | analyze.py:35-62 | over a collection's strictly increasing runtimes, every module `find_slowest` leaves out has a larger rounded runtime than every module it returns |
| Buckets.LeftOutAreLarger | analyze.py:110-117 | with increasing keys, a module whose slot is at or past the result count has a larger key than one whose slot is below it |
| Analyze.SlowestFixtureExample | tests/test_analyze.py:432-446 | buckets of sizes 1, 1, 2, 1: `find_slowest(3)` returns four modules and the one at 0.07, the last, is left out |
| Analyze.BubblewrapStats.SlowestOfCounts | analyze.py:50-62 | from the counts, lays out the ranges, places the modules and returns a `Slowest` list |
| Analyze.BubblewrapStats.PlaceModules | analyze.py:52-60 | a fresh result array of the result count with every module in the window at its slot |
| Analyze.BubblewrapStats.PlaceModule | analyze.py:54-60 | one loop iteration: the module is written to its slot if inside the window, and its bucket's end is lowered |
| Analyze.FindFlakiestModules | analyze.py:121-137 | `(None, [])` for no modules; otherwise the maximum flake rate and the names of exactly the modules at it, in order; a one-module collection list is emptied by the pop |
| Analyze.FindSlowestModules | analyze.py:140-153 | `find_slowest(3)` over the collection: KeyError iff a rounded runtime is not one of the floored runtimes; otherwise a `Slowest` list for `top_n = 3` |
| Analyze.SlowestOfModules | analyze.py:140-153 | a fresh `BubblewrapStats` over the given modules and runtimes, asked for `find_slowest(3)`: KeyError iff a rounded runtime is not a key, else a `Slowest` list |

## Left out

- `Test._test` (run.py:78-86) calls pytest and reads a clock. It is the oracle `execute`.
- The working-directory change and the stdout/stderr redirection in `Test.run` (run.py:47-58, 72-73) are process-wide I/O. They are not modelled.
- `walk_tree` (collect.py:38-51) walks the filesystem. Its result, the list of files, is an input to `CollectTests`.
- Opening and parsing a test file (collect.py:100) is the function `parse`. `ast.walk` yields the import statements as a sequence of `ImportNode`s. The `None` module of a relative from-import is dropped, since it can never match an application module.
- Logging, `utils/log.py` and `cli.py` (an unfinished stub) are not modelled.
- The MD5 digest of `keyify` (summarize.py:115) is a parameter `md5`. UTF-8 encoding is a step of that digest, not of the model.
- `round_runtime` is not defined in any modelled file. It is a parameter `round`.
- `math.floor` on a float (summarize.py:46) is Dafny's `.Floor` on a real. IEEE floats are not modelled: rates and latencies are exact reals.
- `dataclasses.asdict` and `json.dumps` (run.py:218-219, 233-234; analyze.py:134-136) only shape output. `find_flakiest_tests` returns the module objects; `find_flakiest_modules` returns their names.
- No modelled file implements a budget-limited test-subset optimiser. `examples/flake/tests/test_alligator.py` is a random fixture, not logic.
- Run.Test.Run: requires `trials >= 0`, because with a negative count the `while remaining` loop never ends.
- Run.Module.Summarize: `test_results` is never `None` in the model. `None` is replaced by `[]` and then fails the same way, with UnboundLocalError.
- Run.RunModules: does not state that the returned modules are freshly allocated. It does state this for the shared tests.
- Run.RunTests: does not state that the returned modules are freshly allocated, for the same reason.
- Run.FindFlakiestTests: the modules are taken by value. In Python `ModuleList(modules=modules)` shares the caller's list, so the `pop` in `_search` (run.py:171) empties a caller's one-module list. The model pops only the `ModuleList`'s own field and leaves the caller's list intact.
- Run.Rates and Analyze.FlakeRates: the same mapping is written twice because it reads the flake rate of two different classes, run.py's `Module` and summarize.py's `Module`. The search both feed is defined once, in `Flakiest`.
- Collect.AddTestToMap: Python iterates the set of covered modules in an unspecified order. The order of the new keys among themselves is therefore left open, and so `Collect.MapImports` orders keys first covered by the same test in no stated way. The contract states that the old key order is a prefix of the new one, and gives the exact key set.
- Collect.ConvertAppPathsToModules: the input set is taken by value. Emptying the caller's set by `pop` is not modelled; the caller's set is a temporary anyway (collect.py:30).
- Summarize.InsertIndex: requires a non-empty search interval, or one emptied by a step from a larger interval. These are the only calls `_sort_runtime` and the recursion make.
- Summarize.ModuleCollection.Add: correctness is stated only for a runtimes list that is already strictly increasing. With an unsorted list the model still computes what the code computes.
- Analyze.BubblewrapStats.CountModulesByRuntime: on KeyError the dict is left partly counted. The contract states the counted prefix, not the individual counts after it.
- Analyze dicts are modelled as a `Dict` datatype: keys in insertion order plus values. A lookup is the first index of the key.
- A `(start, end)` range is a `Span` datatype.
- The integer runtimes of a `ModuleCollection` become real dict keys (`AsReals`). They are compared with real rounded runtimes, as Python compares an `int` with a `float`.
- `find_slowest` updates `self.runtimes[rounded]` in place. The model updates a local copy of the range dict and assigns it back after the loop, which has the same final state.
- The loop body of `find_slowest` is the method `PlaceModule`, and the code after counting is `SlowestOfCounts`.
