/**
 * `analyze.py`: `BubblewrapStats`, which finds the flakiest modules of a
 * summarized run and the slowest modules by rounded runtime, and the two
 * functions wrapping it.
 *
 * `round_runtime` is not part of this model; it is a parameter `round`.
 * A Python dict is a `Dict`: its keys in insertion order and its entries.
 */
module Analyze {
  import opened Wrappers
  import opened Flakiest
  import Buckets
  import Summarize

  /** One entry of the slowest-modules list: `{name: {"precise_runtime": …, "rounded_runtime": …}}`. */
  datatype Entry = Entry(name: string, preciseRuntime: real, roundedRuntime: real)

  /**
   * A dict keyed by runtimes: its keys in insertion order and the value of
   * each key at the same position.
   */
  datatype Dict<V> = Dict(keys: seq<real>, vals: seq<V>)
  {
    predicate Valid()
    {
      Buckets.Distinct(keys) && |vals| == |keys|
    }

    /** `d[k]` for a key `k` of the dict. */
    function Get(k: real): V
      requires Valid() && k in keys
    {
      vals[Buckets.IndexOf(keys, k)]
    }

    /** `d[k] = v` for a key `k` of the dict. */
    function Set(k: real, v: V): (d: Dict<V>)
      requires Valid() && k in keys
      ensures d.Valid() && d.keys == keys
      ensures d.Get(k) == v
      ensures forall j {:trigger d.Get(j)} :: j in keys && j != k ==> d.Get(j) == Get(j)
    {
      Dict(keys, vals[Buckets.IndexOf(keys, k) := v])
    }
  }

  /**
   * The three shapes `BubblewrapStats.runtimes` takes: the list it is
   * built with, the per-runtime counts, and the per-runtime index ranges.
   */
  /** An index range `(start, end)` of the result list, both ends included. */
  datatype Span = Span(start: int, end: int)

  datatype Runtimes =
    | RuntimeList(items: seq<real>)
    | RuntimeCounts(counts: Dict<int>)
    | RuntimeRanges(ranges: Dict<Span>)

  /** What iterating over `runtimes` yields: the list's items, or the dict's keys. */
  function KeyList(rt: Runtimes): seq<real>
  {
    match rt
    case RuntimeList(items) => items
    case RuntimeCounts(d) => d.keys
    case RuntimeRanges(d) => d.keys
  }

  /** The keys of a dict built from `xs`: each value once, at its first occurrence. */
  function Dedup(xs: seq<real>): (r: seq<real>)
    ensures Buckets.Distinct(r) && |r| <= |xs|
  {
    if xs == [] then []
    else
      var init := Dedup(xs[..|xs| - 1]);
      if xs[|xs| - 1] in init then init else init + [xs[|xs| - 1]]
  }

  /** The keys are exactly the values of the list. */
  lemma {:induction false} DedupMembers(xs: seq<real>, x: real)
    ensures x in Dedup(xs) <==> x in xs
  {
    if xs != [] {
      DedupMembers(xs[..|xs| - 1], x);
      assert xs == xs[..|xs| - 1] + [xs[|xs| - 1]];
    }
  }

  /** The first occurrence of a value of a prefix is its first occurrence in the whole. */
  lemma IndexOfPrefix(xs: seq<real>, n: int, x: real)
    requires 0 <= n <= |xs| && x in xs[..n]
    ensures Buckets.IndexOf(xs, x) == Buckets.IndexOf(xs[..n], x)
  {
    var b := Buckets.IndexOf(xs[..n], x);
    assert xs[b] == x;
  }

  /** A value that only occurs last is found last. */
  lemma IndexOfLast(xs: seq<real>, x: real)
    requires xs != [] && x == xs[|xs| - 1] && x !in xs[..|xs| - 1]
    ensures Buckets.IndexOf(xs, x) == |xs| - 1
  {
  }

  /** `Dedup` keeps the values in the order of their first occurrences. */
  lemma {:induction false} DedupFirstOccurrence(xs: seq<real>, i: int, j: int)
    requires 0 <= i < j < |Dedup(xs)|
    ensures Dedup(xs)[i] in xs && Dedup(xs)[j] in xs
    ensures Buckets.IndexOf(xs, Dedup(xs)[i]) < Buckets.IndexOf(xs, Dedup(xs)[j])
  {
    var init := xs[..|xs| - 1];
    var ri, r := Dedup(init), Dedup(xs);
    assert r[i] == ri[i];
    DedupMembers(init, r[i]);
    IndexOfPrefix(xs, |xs| - 1, r[i]);
    if j < |ri| {
      assert r[j] == ri[j];
      DedupMembers(init, r[j]);
      IndexOfPrefix(xs, |xs| - 1, r[j]);
      DedupFirstOccurrence(init, i, j);
    } else {
      DedupLastNew(xs, j);
    }
  }

  /** A key that `Dedup` adds for the last value is that value, seen nowhere before. */
  lemma DedupLastNew(xs: seq<real>, j: int)
    requires xs != [] && |Dedup(xs[..|xs| - 1])| <= j < |Dedup(xs)|
    ensures Dedup(xs)[j] == xs[|xs| - 1] && Buckets.IndexOf(xs, Dedup(xs)[j]) == |xs| - 1
  {
    var init, last := xs[..|xs| - 1], xs[|xs| - 1];
    DedupMembers(init, last);
    IndexOfLast(xs, last);
  }

  /** A list without repeats becomes a dict with the same keys in the same order. */
  lemma {:induction false} DedupDistinct(xs: seq<real>)
    requires Buckets.Distinct(xs)
    ensures Dedup(xs) == xs
  {
    if xs != [] {
      var init := xs[..|xs| - 1];
      assert Buckets.Distinct(init);
      DedupDistinct(init);
      assert xs == init + [xs[|xs| - 1]];
    }
  }

  /** `round_runtime(module.runtime)` for every module, in order. */
  function Rounded(ms: seq<Summarize.Module>, round: real -> real): (r: seq<real>)
    reads ms
    ensures |r| == |ms|
  {
    if ms == [] then [] else Rounded(ms[..|ms| - 1], round) + [round(ms[|ms| - 1].runtime)]
  }

  lemma {:induction false} RoundedAt(ms: seq<Summarize.Module>, round: real -> real, i: int)
    requires 0 <= i < |ms|
    ensures Rounded(ms, round)[i] == round(ms[i].runtime)
    decreases |ms|
  {
    if i < |ms| - 1 {
      RoundedAt(ms[..|ms| - 1], round, i);
    }
  }

  /** The entry `find_slowest` writes for module `m`. */
  function EntryOf(m: Summarize.Module, round: real -> real): (e: Entry)
    reads m
    ensures e.name == m.name && e.preciseRuntime == m.runtime && e.roundedRuntime == round(m.runtime)
  {
    Entry(m.name, m.runtime, round(m.runtime))
  }

  /** Each module with its `flake_rate`. */
  function FlakeRates(ms: seq<Summarize.Module>): (r: seq<Rated<Summarize.Module>>)
    reads ms
    ensures |r| == |ms|
  {
    if ms == [] then [] else FlakeRates(ms[..|ms| - 1]) + [Rated(ms[|ms| - 1], ms[|ms| - 1].flakeRate)]
  }

  lemma {:induction false} FlakeRatesAppend(a: seq<Summarize.Module>, b: seq<Summarize.Module>)
    ensures FlakeRates(a + b) == FlakeRates(a) + FlakeRates(b)
    decreases |b|
  {
    if b == [] {
      assert a + b == a;
    } else {
      var init := b[..|b| - 1];
      assert (a + b)[..|a + b| - 1] == a + init;
      assert (a + b)[|a + b| - 1] == b[|b| - 1];
      FlakeRatesAppend(a, init);
    }
  }

  /** The names of the modules, in order. */
  function Names(ms: seq<Summarize.Module>): (r: seq<string>)
    reads ms
    ensures |r| == |ms| && forall i :: 0 <= i < |ms| ==> r[i] == ms[i].name
  {
    if ms == [] then [] else Names(ms[..|ms| - 1]) + [ms[|ms| - 1].name]
  }

  /** The integer runtimes of a `ModuleCollection`, as dict keys. */
  function AsReals(xs: seq<int>): (r: seq<real>)
    ensures |r| == |xs| && forall i :: 0 <= i < |xs| ==> r[i] == xs[i] as real
  {
    if xs == [] then [] else AsReals(xs[..|xs| - 1]) + [xs[|xs| - 1] as real]
  }

  /** `d` maps each of its keys to the number of occurrences of that key in `ks`. */
  predicate Counted(d: Dict<int>, ks: seq<real>)
  {
    d.Valid() && forall b :: 0 <= b < |d.keys| ==> d.vals[b] == multiset(ks)[d.keys[b]]
  }

  /** Counting one more module: `self.runtimes[k] += 1`. */
  lemma CountedStep(d: Dict<int>, ks: seq<real>, k: real)
    requires Counted(d, ks) && k in d.keys
    ensures Counted(d.Set(k, d.Get(k) + 1), ks + [k])
  {
    assert multiset(ks + [k]) == multiset(ks) + multiset{k};
    var b0 := Buckets.IndexOf(d.keys, k);
    var e := d.Set(k, d.Get(k) + 1);
    forall b | 0 <= b < |d.keys| ensures e.vals[b] == multiset(ks + [k])[d.keys[b]] {
      if b != b0 {
        assert d.keys[b] != k;
      }
    }
  }

  /** Counting the module at `i`, whose rounded runtime `k` is a key, extends both facts to the first `i + 1` modules. */
  lemma CountNext(d: Dict<int>, ks: seq<real>, i: int, k: real)
    requires 0 <= i < |ks| && k == ks[i] && k in d.keys
    requires Buckets.Keyed(d.keys, ks[..i]) && Counted(d, ks[..i])
    ensures Buckets.Keyed(d.keys, ks[..i + 1]) && Counted(d.Set(k, d.Get(k) + 1), ks[..i + 1])
  {
    assert ks[..i + 1] == ks[..i] + [k];
    CountedStep(d, ks[..i], k);
  }

  /** The counts in key order are the bucket counts. */
  lemma CountedValues(d: Dict<int>, ks: seq<real>)
    requires Counted(d, ks)
    ensures d.vals == Buckets.Counts(d.keys, ks)
  {
  }

  /** The index range `_count_expected_results` gives bucket `b`. */
  function Range(cs: seq<int>, b: int): (r: Span)
    requires 0 <= b < |cs|
    ensures r.end - r.start + 1 == cs[b]
  {
    Span(Buckets.Sum(cs[..b]), Buckets.Sum(cs[..b]) + cs[b] - 1)
  }

  /** The index ranges of all buckets, in key order. */
  function Ranges(cs: seq<int>): (r: seq<Span>)
    ensures |r| == |cs| && forall b :: 0 <= b < |cs| ==> r[b] == Range(cs, b)
  {
    seq(|cs|, b requires 0 <= b < |cs| => Range(cs, b))
  }

  /** Consecutive buckets' ranges are adjacent: each starts right after the previous one ends. */
  lemma RangesAdjacent(cs: seq<int>, b: int)
    requires 0 < b < |cs|
    ensures Ranges(cs)[b].start == Ranges(cs)[b - 1].end + 1
  {
    assert cs[..b] == cs[..b - 1] + [cs[b - 1]];
    assert cs[..b][..b - 1] == cs[..b - 1];
  }

  /** The first range starts at 0 and, with no negative counts, the last one ends at the number of modules minus one. */
  lemma RangesCover<K>(keys: seq<K>, ks: seq<K>)
    requires Buckets.Distinct(keys) && Buckets.Keyed(keys, ks) && keys != []
    ensures var r := Ranges(Buckets.Counts(keys, ks));
            r[0].start == 0 && r[|r| - 1].end == |ks| - 1
  {
    var cs := Buckets.Counts(keys, ks);
    Buckets.CountsSum(keys, ks);
    assert cs == cs[..|cs| - 1] + [cs[|cs| - 1]];
    assert cs[..0] == [];
  }

  /**
   * The range of bucket `b` once `n` of its modules are placed: a bucket in
   * the window has its end lowered by one per placed module, a bucket
   * outside it keeps its range.
   */
  function Pending(cs: seq<int>, topN: int, b: int, n: int): (r: Span)
    requires 0 <= b < |cs|
    ensures r.start == Buckets.Sum(cs[..b])
    ensures n == 0 ==> r == Range(cs, b)
  {
    var start := Buckets.Sum(cs[..b]);
    if start < topN then Span(start, start + cs[b] - 1 - n) else Range(cs, b)
  }

  /** Placing one more module of a bucket in the window lowers its end by one. */
  lemma PendingNext(cs: seq<int>, topN: int, b: int, n: int)
    requires 0 <= b < |cs| && Buckets.Sum(cs[..b]) < topN
    ensures Pending(cs, topN, b, n + 1) == Span(Pending(cs, topN, b, n).start, Pending(cs, topN, b, n).end - 1)
  {
  }

  /** A bucket outside the window keeps its range. */
  lemma PendingOutside(cs: seq<int>, topN: int, b: int, n: int, n': int)
    requires 0 <= b < |cs| && Buckets.Sum(cs[..b]) >= topN
    ensures Pending(cs, topN, b, n) == Pending(cs, topN, b, n') == Range(cs, b)
  {
  }

  /**
   * The end `find_slowest` reads for the module at `i` is below the result
   * count exactly when that module's bucket starts below `topN`, exactly
   * when its slot is below the result count, and is then that slot.
   */
  lemma PlaceStep(keys: seq<real>, ks: seq<real>, topN: int, i: int)
    requires Buckets.Keyed(keys, ks) && 0 <= i < |ks|
    ensures var cs := Buckets.Counts(keys, ks);
            var rc := Buckets.ResultCount(cs, topN);
            var b := Buckets.IndexOf(keys, ks[i]);
            var end := Pending(cs, topN, b, multiset(ks[..i])[ks[i]]).end;
            (end < rc <==> Buckets.Sum(cs[..b]) < topN)
            && (end < rc <==> Buckets.Slot(keys, ks, i) < rc)
            && (end < rc ==> end == Buckets.Slot(keys, ks, i))
  {
    var cs := Buckets.Counts(keys, ks);
    assert Buckets.NonNegative(cs);
    var b := Buckets.IndexOf(keys, ks[i]);
    Buckets.OccurrencesSplit(ks, i, ks[i]);
    Buckets.SlotInWindow(keys, ks, topN, i);
    Buckets.WindowBoundary(cs, topN, b);
  }

  /** The entry of each module, in order. */
  function Entries(ms: seq<Summarize.Module>, round: real -> real): (r: seq<Entry>)
    reads ms
    ensures |r| == |ms|
  {
    if ms == [] then [] else Entries(ms[..|ms| - 1], round) + [EntryOf(ms[|ms| - 1], round)]
  }

  lemma {:induction false} EntriesAt(ms: seq<Summarize.Module>, round: real -> real, i: int)
    requires 0 <= i < |ms|
    ensures Entries(ms, round)[i] == EntryOf(ms[i], round)
    ensures Entries(ms, round)[i].roundedRuntime == Rounded(ms, round)[i]
    decreases |ms|
  {
    RoundedAt(ms, round, i);
    if i < |ms| - 1 {
      EntriesAt(ms[..|ms| - 1], round, i);
    }
  }

  /**
   * `vals` are the ranges while modules `ks[..i]` are placed: bucket `b`
   * has had its occurrences in `ks[..i]` placed.
   */
  predicate RangesAt(vals: seq<Span>, keys: seq<real>, ks: seq<real>, topN: int, i: int)
    requires 0 <= i <= |ks|
  {
    |vals| == |keys|
    && forall b {:trigger vals[b]} :: 0 <= b < |keys| ==>
         vals[b] == Pending(Buckets.Counts(keys, ks), topN, b, multiset(ks[..i])[keys[b]])
  }

  /** Before any module is placed, the ranges are those `_count_expected_results` built. */
  lemma RangesAtStart(keys: seq<real>, ks: seq<real>, topN: int)
    ensures RangesAt(Ranges(Buckets.Counts(keys, ks)), keys, ks, topN, 0)
  {
    assert ks[..0] == [];
  }

  /**
   * Placing module `i`: the end its bucket holds is below the result count
   * exactly when the module's slot is, and is then that slot; the end is
   * lowered by one in that case, and nothing else changes.
   */
  lemma RangesAtNext(d: Dict<Span>, keys: seq<real>, ks: seq<real>, topN: int, i: int)
    requires Buckets.Distinct(keys) && Buckets.Keyed(keys, ks) && 0 <= i < |ks|
    requires d.keys == keys && RangesAt(d.vals, keys, ks, topN, i)
    ensures var r := d.Get(ks[i]);
            var rc := Buckets.ResultCount(Buckets.Counts(keys, ks), topN);
            (r.end < rc <==> Buckets.Slot(keys, ks, i) < rc)
            && (r.end < rc ==> r.end == Buckets.Slot(keys, ks, i))
            && (r.end < rc ==> RangesAt(d.Set(ks[i], Span(r.start, r.end - 1)).vals, keys, ks, topN, i + 1))
            && (r.end >= rc ==> RangesAt(d.vals, keys, ks, topN, i + 1))
  {
    var cs := Buckets.Counts(keys, ks);
    var b0 := Buckets.IndexOf(keys, ks[i]);
    var vals := d.vals;
    var n := multiset(ks[..i])[ks[i]];
    assert ks[..i + 1] == ks[..i] + [ks[i]];
    assert multiset(ks[..i + 1]) == multiset(ks[..i]) + multiset{ks[i]};
    PlaceStep(keys, ks, topN, i);
    var rc := Buckets.ResultCount(cs, topN);
    var e := if vals[b0].end < rc then vals[b0 := Span(vals[b0].start, vals[b0].end - 1)] else vals;
    forall b | 0 <= b < |keys|
      ensures e[b] == Pending(cs, topN, b, multiset(ks[..i + 1])[keys[b]])
    {
      if b != b0 {
        assert keys[b] != ks[i];
      } else if vals[b0].end < rc {
        PendingNext(cs, topN, b0, n);
      } else {
        PendingOutside(cs, topN, b0, n, n + 1);
      }
    }
  }

  /**
   * The range bucket `b` is left with once every module is placed: used up
   * (its end just below its start) when it starts below `topN`, its laid-out
   * range otherwise.
   */
  function Drained(cs: seq<int>, topN: int, b: int): Span
    requires 0 <= b < |cs|
  {
    if Buckets.Sum(cs[..b]) < topN then Span(Buckets.Sum(cs[..b]), Buckets.Sum(cs[..b]) - 1) else Range(cs, b)
  }

  /** Once every module is placed, every bucket holds its `Drained` range. */
  lemma RangesDrained(vals: seq<Span>, keys: seq<real>, ks: seq<real>, topN: int)
    requires RangesAt(vals, keys, ks, topN, |ks|)
    ensures var cs := Buckets.Counts(keys, ks);
            |vals| == |cs| && forall b :: 0 <= b < |cs| ==> vals[b] == Drained(cs, topN, b)
  {
    forall b | 0 <= b < |keys| ensures vals[b] == Drained(Buckets.Counts(keys, ks), topN, b) {
      RangesAtEnd(vals, keys, ks, topN, b);
    }
  }

  /**
   * Once every module is placed, each bucket in the window is used up (its
   * end is just below its start) and every other bucket keeps its range.
   */
  lemma RangesAtEnd(vals: seq<Span>, keys: seq<real>, ks: seq<real>, topN: int, b: int)
    requires RangesAt(vals, keys, ks, topN, |ks|) && 0 <= b < |keys|
    ensures var cs := Buckets.Counts(keys, ks);
            vals[b] == if Buckets.Sum(cs[..b]) < topN then Span(Buckets.Sum(cs[..b]), Buckets.Sum(cs[..b]) - 1) else Range(cs, b)
  {
    assert ks[..|ks|] == ks;
  }

  /** Every module before `i` whose slot is in `out` is written there. */
  predicate PlacedUpTo(out: seq<Option<Entry>>, es: seq<Entry>, keys: seq<real>, ks: seq<real>, i: int)
    requires |es| == |ks| && 0 <= i <= |ks| && Buckets.Keyed(keys, ks)
  {
    forall j {:trigger Buckets.Slot(keys, ks, j)} :: 0 <= j < i && Buckets.Slot(keys, ks, j) < |out| ==>
      out[Buckets.Slot(keys, ks, j)] == Some(es[j])
  }

  /**
   * Module `i` is written to its slot when that slot is in `out`, and the
   * modules before it keep theirs.
   */
  lemma PlacedUpToNext(out: seq<Option<Entry>>, es: seq<Entry>, keys: seq<real>, ks: seq<real>, i: int)
    requires |es| == |ks| && 0 <= i < |ks| && Buckets.Distinct(keys) && Buckets.Keyed(keys, ks)
    requires PlacedUpTo(out, es, keys, ks, i)
    ensures var s := Buckets.Slot(keys, ks, i);
            s < |out| ==> PlacedUpTo(out[s := Some(es[i])], es, keys, ks, i + 1)
    ensures Buckets.Slot(keys, ks, i) >= |out| ==> PlacedUpTo(out, es, keys, ks, i + 1)
  {
    var s := Buckets.Slot(keys, ks, i);
    if s < |out| {
      var out' := out[s := Some(es[i])];
      forall j | 0 <= j < i + 1 && Buckets.Slot(keys, ks, j) < |out'|
        ensures out'[Buckets.Slot(keys, ks, j)] == Some(es[j])
      {
        if j < i {
          Buckets.SlotInjective(keys, ks, j, i);
        }
      }
    }
  }

  /**
   * One step of the placement loop: the module at `i` goes to the end its
   * bucket holds when that end is below the result count, and the bucket's
   * end is lowered; otherwise nothing changes.
   */
  lemma PlaceNext(d: Dict<Span>, out: seq<Option<Entry>>, es: seq<Entry>, keys: seq<real>, ks: seq<real>, topN: int, i: int, k: real)
    requires Buckets.Distinct(keys) && Buckets.Keyed(keys, ks) && 0 <= i < |ks| == |es| && k == ks[i]
    requires |out| == Buckets.ResultCount(Buckets.Counts(keys, ks), topN)
    requires d.keys == keys && RangesAt(d.vals, keys, ks, topN, i) && PlacedUpTo(out, es, keys, ks, i)
    ensures d.Get(k).end < |out| ==>
              0 <= d.Get(k).end
              && RangesAt(d.Set(k, Span(d.Get(k).start, d.Get(k).end - 1)).vals, keys, ks, topN, i + 1)
              && PlacedUpTo(out[d.Get(k).end := Some(es[i])], es, keys, ks, i + 1)
    ensures d.Get(k).end >= |out| ==>
              RangesAt(d.vals, keys, ks, topN, i + 1) && PlacedUpTo(out, es, keys, ks, i + 1)
  {
    RangesAtNext(d, keys, ks, topN, i);
    PlacedUpToNext(out, es, keys, ks, i);
  }

  /**
   * `out` is what `find_slowest(topN)` returns for modules with entries `es`
   * and rounded runtimes `ks`, and bucket keys `keys`: one entry per slot
   * below the result count, each slot holding the module placed there.
   */
  predicate Slowest(out: seq<Option<Entry>>, es: seq<Entry>, keys: seq<real>, ks: seq<real>, topN: int)
  {
    |es| == |ks|
    && Buckets.Keyed(keys, ks)
    && |out| == Buckets.ResultCount(Buckets.Counts(keys, ks), topN)
    && (forall i :: 0 <= i < |ks| && Buckets.Slot(keys, ks, i) < |out| ==>
          out[Buckets.Slot(keys, ks, i)] == Some(es[i]))
    && (forall p :: 0 <= p < |out| ==> out[p].Some?)
  }

  /**
   * Once every module is placed, the slots below the result count are all
   * filled: each of them is some module's slot.
   */
  lemma SlowestFromPlaced(out: seq<Option<Entry>>, es: seq<Entry>, keys: seq<real>, ks: seq<real>, topN: int)
    requires Buckets.Distinct(keys) && Buckets.Keyed(keys, ks) && |es| == |ks|
    requires |out| == Buckets.ResultCount(Buckets.Counts(keys, ks), topN)
    requires PlacedUpTo(out, es, keys, ks, |ks|)
    ensures Slowest(out, es, keys, ks, topN)
  {
    var cs := Buckets.Counts(keys, ks);
    assert Buckets.NonNegative(cs);
    Buckets.ResultCountBounds(cs, topN);
    Buckets.CountsSum(keys, ks);
    forall p | 0 <= p < |out| ensures out[p].Some? {
      Buckets.SlotSurjective(keys, ks, p);
    }
  }

  /**
   * The length of the result: at most the number of modules, at least
   * `topN` unless it is all of them, nothing for `topN <= 0`, and every
   * module once `topN` reaches their number.
   */
  lemma SlowestLength(keys: seq<real>, ks: seq<real>, topN: int)
    requires Buckets.Distinct(keys) && Buckets.Keyed(keys, ks)
    ensures var rc := Buckets.ResultCount(Buckets.Counts(keys, ks), topN);
            rc <= |ks| && (rc >= topN || rc == |ks|)
            && (topN <= 0 ==> rc == 0) && (topN >= |ks| ==> rc == |ks|)
  {
    var cs := Buckets.Counts(keys, ks);
    assert Buckets.NonNegative(cs);
    Buckets.CountsSum(keys, ks);
    Buckets.ResultCountBounds(cs, topN);
  }

  /**
   * The runtimes of a `ModuleCollection`, kept strictly increasing, become
   * increasing dict keys, each kept once and in place.
   */
  lemma CollectionKeys(runtimes: seq<int>)
    requires Summarize.StrictlyIncreasing(runtimes)
    ensures Buckets.Increasing(AsReals(runtimes)) && Dedup(AsReals(runtimes)) == AsReals(runtimes)
  {
    DedupDistinct(AsReals(runtimes));
  }

  /**
   * `find_slowest` over a `ModuleCollection`: every module it leaves out
   * has a larger rounded runtime than every module it returns, so the
   * result holds the fastest modules.  The keys are the collection's
   * runtimes, as `CollectionKeys` shows.
   */
  lemma SlowestKeepsFastest(runtimes: seq<int>, ks: seq<real>, topN: int, i: int, j: int)
    requires Summarize.StrictlyIncreasing(runtimes)
    requires Buckets.Keyed(AsReals(runtimes), ks) && 0 <= i < |ks| && 0 <= j < |ks|
    ensures var rc := Buckets.ResultCount(Buckets.Counts(AsReals(runtimes), ks), topN);
            Buckets.Slot(AsReals(runtimes), ks, i) < rc <= Buckets.Slot(AsReals(runtimes), ks, j) ==> ks[i] < ks[j]
  {
    var rc := Buckets.ResultCount(Buckets.Counts(AsReals(runtimes), ks), topN);
    if Buckets.Slot(AsReals(runtimes), ks, i) < rc <= Buckets.Slot(AsReals(runtimes), ks, j) {
      CollectionKeys(runtimes);
      Buckets.LeftOutAreLarger(AsReals(runtimes), ks, topN, i, j);
    }
  }

  /**
   * The stable fixture's buckets: keys 0.02, 0.04, 0.05 and 0.07 with one,
   * one, two and one modules.  `find_slowest(3)` returns four modules and
   * leaves out the one at 0.07, the slowest.
   */
  lemma SlowestFixtureExample()
    ensures var keys, ks := [0.02, 0.04, 0.05, 0.07], [0.02, 0.04, 0.05, 0.05, 0.07];
            Buckets.ResultCount(Buckets.Counts(keys, ks), 3) == 4 && Buckets.Slot(keys, ks, 4) == 4
  {
    var keys, ks := [0.02, 0.04, 0.05, 0.07], [0.02, 0.04, 0.05, 0.05, 0.07];
    assert multiset(ks) == multiset{0.02, 0.04, 0.05, 0.05, 0.07};
    var cs := Buckets.Counts(keys, ks);
    assert cs == [1, 1, 2, 1];
    assert cs[..3] == [1, 1, 2] && [1, 1, 2][..2] == [1, 1] && [1, 1][..1] == [1] && [1][..0] == [];
    assert Buckets.ResultCount([1], 3) == 1;
    assert Buckets.ResultCount([1, 1], 3) == 2;
    assert Buckets.ResultCount([1, 1, 2], 3) == 4;
    assert Buckets.Sum([1, 1, 2]) == 4;
    assert Buckets.IndexOf(keys, 0.07) == 3;
    assert ks[5..] == [];
  }

  /** `rt` holds, for every key, the range it is left with once every module is placed. */
  predicate DrainedRuntimes(rt: Runtimes, keys: seq<real>, ks: seq<real>, topN: int)
  {
    var cs := Buckets.Counts(keys, ks);
    rt.RuntimeRanges? && rt.ranges.keys == keys && |rt.ranges.vals| == |cs|
    && forall b :: 0 <= b < |cs| ==> rt.ranges.vals[b] == Drained(cs, topN, b)
  }

  /**
   * `rt` holds the counts of the modules before the first one whose key is
   * missing: the state a KeyError leaves.
   */
  predicate CountedUntilMissing(rt: Runtimes, keys: seq<real>, ks: seq<real>)
  {
    rt.RuntimeCounts? && rt.counts.keys == keys
    && exists i :: 0 <= i < |ks| && Buckets.Keyed(keys, ks[..i]) && ks[i] !in keys && Counted(rt.counts, ks[..i])
  }

  class BubblewrapStats {
    var flakiestModules: seq<Summarize.Module>
    var slowestModules: seq<Option<Entry>>
    var runtimes: Runtimes
    var modules: seq<Summarize.Module>
    var maxFlakeRate: Option<real>
    var runtimesResultCount: Option<int>

    constructor(modules: seq<Summarize.Module>, runtimes: seq<real>,
                flakiestModules: seq<Summarize.Module>, slowestModules: seq<Option<Entry>>)
      ensures this.modules == modules && this.runtimes == RuntimeList(runtimes)
      ensures this.flakiestModules == flakiestModules && this.slowestModules == slowestModules
      ensures maxFlakeRate == None && runtimesResultCount == None
      ensures unchanged(modules)
    {
      this.modules, this.runtimes := modules, RuntimeList(runtimes);
      this.flakiestModules, this.slowestModules := flakiestModules, slowestModules;
      maxFlakeRate, runtimesResultCount := None, None;
    }

    /** The search state held in the fields. */
    function State(): Best<Summarize.Module>
      reads this
    {
      Best(maxFlakeRate, flakiestModules)
    }

    /**
     * `find_flakiest`: searches `modules`.  A one-element list is popped by
     * the search and, being the field itself, is left empty.
     */
    method FindFlakiest()
      modifies this`maxFlakeRate, this`flakiestModules, this`modules
      ensures State() == Scan(old(State()), FlakeRates(old(modules)))
      ensures modules == if |old(modules)| == 1 then [] else old(modules)
    {
      var modulesList := modules;
      SearchForFlakiest(modulesList, FlakeRates(modulesList));
      if |modulesList| == 1 {
        modules := [];
      }
    }

    /**
     * `_search_for_flakiest`: splits the list in halves and visits single
     * modules, left to right; `rates` is `ms` with their flake rates.
     */
    method SearchForFlakiest(ms: seq<Summarize.Module>, ghost rates: seq<Rated<Summarize.Module>>)
      requires rates == FlakeRates(ms)
      modifies this`maxFlakeRate, this`flakiestModules
      ensures State() == Scan(old(State()), rates)
      decreases |ms|
    {
      if ms == [] {
        return;
      }
      if |ms| == 1 {
        var m := ms[0];
        Consider(m);
        assert FlakeRates(ms) == [] + [Rated(m, m.flakeRate)];
        ScanSnoc(old(State()), [], Rated(m, m.flakeRate));
        return;
      }
      var midpt := (|ms| - 1) / 2;
      var left, right := ms[..midpt + 1], ms[midpt + 1..];
      ghost var rl, rr := FlakeRates(left), FlakeRates(right);
      assert ms == left + right;
      FlakeRatesAppend(left, right);
      ScanAppend(State(), rl, rr);
      SearchForFlakiest(left, rl);
      SearchForFlakiest(right, rr);
    }

    /** The one-module case: a new maximum restarts the ties, an equal rate joins them. */
    method Consider(m: Summarize.Module)
      modifies this`maxFlakeRate, this`flakiestModules
      ensures State() == Visit(old(State()), Rated(m, m.flakeRate))
    {
      if maxFlakeRate.None? || m.flakeRate > maxFlakeRate.value {
        maxFlakeRate := Some(m.flakeRate);
        flakiestModules := [m];
      } else if m.flakeRate == maxFlakeRate.value {
        flakiestModules := flakiestModules + [m];
      }
    }

    /**
     * `_count_modules_by_runtime`: `runtimes` becomes a dict from each of
     * its values to the number of modules whose rounded runtime it is.  A
     * module whose rounded runtime is not a key is a KeyError, raised with
     * the modules before it counted.
     */
    method CountModulesByRuntime(round: real -> real) returns (err: Option<Error>)
      modifies this`runtimes
      ensures runtimes.RuntimeCounts? && runtimes.counts.keys == Dedup(KeyList(old(runtimes)))
      ensures err.None? <==> Buckets.Keyed(runtimes.counts.keys, old(Rounded(modules, round)))
      ensures err.None? ==> Counted(runtimes.counts, old(Rounded(modules, round)))
      ensures err.Some? ==> err.value == KeyError
      ensures err.Some? ==>
                exists i :: 0 <= i < |modules|
                  && Buckets.Keyed(runtimes.counts.keys, old(Rounded(modules, round))[..i])
                  && old(Rounded(modules, round))[i] !in runtimes.counts.keys
                  && Counted(runtimes.counts, old(Rounded(modules, round))[..i])
    {
      var ms := modules;
      ghost var ks := Rounded(ms, round);
      var keys := Dedup(KeyList(runtimes));
      var counts := Dict(keys, seq(|keys|, _ => 0));
      for i := 0 to |ms|
        invariant counts.keys == keys
        invariant Buckets.Keyed(keys, ks[..i])
        invariant Counted(counts, ks[..i])
      {
        var k := round(ms[i].runtime);
        RoundedAt(ms, round, i);
        if k !in keys {
          runtimes := RuntimeCounts(counts);
          return Some(KeyError);
        }
        CountNext(counts, ks, i, k);
        counts := counts.Set(k, counts.Get(k) + 1);
      }
      assert ks[..|ms|] == ks;
      runtimes := RuntimeCounts(counts);
      err := None;
    }

    /**
     * `_count_expected_results`: each bucket, in key order, gets the index
     * range that follows the previous one, and the result count adds the
     * buckets while it is below `topN`.
     */
    method CountExpectedResults(topN: int)
      requires runtimes.RuntimeCounts? && runtimes.counts.Valid()
      modifies this`runtimes, this`runtimesResultCount
      ensures runtimes == RuntimeRanges(Dict(old(runtimes).counts.keys, Ranges(old(runtimes).counts.vals)))
      ensures runtimesResultCount == Some(Buckets.ResultCount(old(runtimes).counts.vals, topN))
      ensures unchanged(modules)
    {
      var d := runtimes.counts;
      var cs := d.vals;
      var resultCount, indicesCounted := 0, 0;
      var ranges: seq<Span> := [];
      for b := 0 to |cs|
        invariant resultCount == Buckets.ResultCount(cs[..b], topN)
        invariant indicesCounted == Buckets.Sum(cs[..b])
        invariant |ranges| == b && forall c :: 0 <= c < b ==> ranges[c] == Range(cs, c)
      {
        var count := cs[b];
        assert cs[..b + 1][..b] == cs[..b];
        if resultCount < topN {
          resultCount := resultCount + count;
        }
        ranges := ranges + [Span(indicesCounted, indicesCounted + count - 1)];
        indicesCounted := indicesCounted + count;
      }
      assert cs[..|cs|] == cs;
      runtimes := RuntimeRanges(Dict(d.keys, ranges));
      runtimesResultCount := Some(resultCount);
    }

    /**
     * `find_slowest`: counts the modules per rounded runtime, lays the
     * buckets out in key order, and writes each module whose bucket starts
     * below `topN` into its bucket's range from the end downward.  A module
     * whose rounded runtime is not a key is a KeyError.
     */
    method FindSlowest(topN: int, round: real -> real) returns (r: Result<seq<Option<Entry>>, Error>)
      modifies this`runtimes, this`runtimesResultCount, this`slowestModules
      ensures r.Err? <==> !Buckets.Keyed(Dedup(KeyList(old(runtimes))), old(Rounded(modules, round)))
      ensures r.Err? ==> r.error == KeyError
      ensures r.Ok? ==> Slowest(r.value, old(Entries(modules, round)), Dedup(KeyList(old(runtimes))), old(Rounded(modules, round)), topN)
      ensures r.Ok? ==> slowestModules == r.value && runtimesResultCount == Some(|r.value|)
      ensures r.Ok? ==> DrainedRuntimes(runtimes, Dedup(KeyList(old(runtimes))), old(Rounded(modules, round)), topN)
      ensures r.Err? ==> slowestModules == old(slowestModules) && runtimesResultCount == old(runtimesResultCount)
      ensures r.Err? ==> CountedUntilMissing(runtimes, Dedup(KeyList(old(runtimes))), old(Rounded(modules, round)))
      ensures unchanged(modules)
    {
      ghost var keys := Dedup(KeyList(runtimes));
      ghost var ks := Rounded(modules, round);
      ghost var es := Entries(modules, round);
      var err := CountModulesByRuntime(round);
      if err.Some? {
        return Err(err.value);
      }
      assert Rounded(modules, round) == ks && Entries(modules, round) == es;
      var out := SlowestOfCounts(topN, round, keys, ks, es);
      r := Ok(out);
    }

    /** The rest of `find_slowest` once every module is counted: the ranges are laid out and the modules placed. */
    method SlowestOfCounts(topN: int, round: real -> real, ghost keys: seq<real>, ghost ks: seq<real>, ghost es: seq<Entry>)
      returns (out: seq<Option<Entry>>)
      requires ks == Rounded(modules, round) && es == Entries(modules, round)
      requires Buckets.Distinct(keys) && Buckets.Keyed(keys, ks)
      requires runtimes.RuntimeCounts? && runtimes.counts.keys == keys && Counted(runtimes.counts, ks)
      modifies this`runtimes, this`runtimesResultCount, this`slowestModules
      ensures Slowest(out, es, keys, ks, topN)
      ensures slowestModules == out && runtimesResultCount == Some(|out|)
      ensures DrainedRuntimes(runtimes, keys, ks, topN)
    {
      CountedValues(runtimes.counts, ks);
      ghost var cs := Buckets.Counts(keys, ks);
      assert Buckets.NonNegative(cs);
      CountExpectedResults(topN);
      assert Rounded(modules, round) == ks && Entries(modules, round) == es;
      var rc := runtimesResultCount.value;
      Buckets.ResultCountNonNegative(cs, topN);
      var results := PlaceModules(rc, topN, round, keys, ks, es);
      out := results[..];
      SlowestFromPlaced(out, es, keys, ks, topN);
      RangesDrained(runtimes.ranges.vals, keys, ks, topN);
      slowestModules := out;
    }

    /** The placement loop of `find_slowest`: each module in the window is written to its slot. */
    method PlaceModules(rc: int, topN: int, round: real -> real,
                        ghost keys: seq<real>, ghost ks: seq<real>, ghost es: seq<Entry>)
      returns (results: array<Option<Entry>>)
      requires ks == Rounded(modules, round) && es == Entries(modules, round)
      requires Buckets.Distinct(keys) && Buckets.Keyed(keys, ks)
      requires runtimes == RuntimeRanges(Dict(keys, Ranges(Buckets.Counts(keys, ks))))
      requires rc == Buckets.ResultCount(Buckets.Counts(keys, ks), topN) && rc >= 0
      modifies this`runtimes
      ensures fresh(results) && results.Length == rc
      ensures runtimes.RuntimeRanges? && runtimes.ranges.keys == keys
      ensures RangesAt(runtimes.ranges.vals, keys, ks, topN, |ks|)
      ensures PlacedUpTo(results[..], es, keys, ks, |ks|)
    {
      var ms := modules;
      forall i {:trigger ms[i]} | 0 <= i < |ks|
        ensures ks[i] == round(ms[i].runtime) && es[i] == Entry(ms[i].name, ms[i].runtime, ks[i])
      {
        RoundedAt(ms, round, i);
        EntriesAt(ms, round, i);
      }
      RangesAtStart(keys, ks, topN);
      var ranges := runtimes.ranges;
      results := new Option<Entry>[rc](_ => None);
      ghost var placed := results[..];
      for i := 0 to |ms|
        invariant ranges.keys == keys && RangesAt(ranges.vals, keys, ks, topN, i)
        invariant results[..] == placed && PlacedUpTo(placed, es, keys, ks, i)
      {
        ranges, placed := PlaceModule(results, ranges, ms[i], round, topN, rc, keys, ks, es, i, placed);
      }
      runtimes := RuntimeRanges(ranges);
    }

    /**
     * The body of the placement loop for the module `m` at index `i`: when
     * the end its bucket holds is below the result count, `m` is written
     * there and the end is lowered by one.
     */
    method PlaceModule(results: array<Option<Entry>>, ranges: Dict<Span>, m: Summarize.Module, round: real -> real, topN: int, rc: int,
                       ghost keys: seq<real>, ghost ks: seq<real>, ghost es: seq<Entry>, ghost i: int, ghost placed: seq<Option<Entry>>)
      returns (ranges': Dict<Span>, ghost placed': seq<Option<Entry>>)
      requires Buckets.Distinct(keys) && Buckets.Keyed(keys, ks) && 0 <= i < |ks| == |es|
      requires round(m.runtime) == ks[i] && Entry(m.name, m.runtime, ks[i]) == es[i]
      requires rc == results.Length == Buckets.ResultCount(Buckets.Counts(keys, ks), topN)
      requires ranges.keys == keys && RangesAt(ranges.vals, keys, ks, topN, i)
      requires results[..] == placed && PlacedUpTo(placed, es, keys, ks, i)
      modifies results
      ensures ranges'.keys == keys && RangesAt(ranges'.vals, keys, ks, topN, i + 1)
      ensures results[..] == placed' && PlacedUpTo(placed', es, keys, ks, i + 1)
    {
      var rounded := round(m.runtime);
      var Span(start, end) := ranges.Get(rounded);
      PlaceNext(ranges, placed, es, keys, ks, topN, i, rounded);
      ranges', placed' := ranges, placed;
      if end < rc {
        ranges' := ranges.Set(rounded, Span(start, end - 1));
        results[end] := Some(Entry(m.name, m.runtime, rounded));
        placed' := placed[end := Some(es[i])];
      }
    }
  }

  /**
   * `find_flakiest_modules`: the maximum flake rate of the collection's
   * modules and the names of the modules at it, in order.  The search pops
   * a one-module list, which is the collection's own list.
   */
  method FindFlakiestModules(c: Summarize.ModuleCollection) returns (rate: Option<real>, names: seq<string>)
    modifies c`modules
    ensures c.modules == if |old(c.modules)| == 1 then [] else old(c.modules)
    ensures old(c.modules) == [] ==> rate == None && names == []
    ensures old(c.modules) != [] ==>
              rate == Some(MaxOf(FlakeRates(old(c.modules))))
              && names == Names(Ties(FlakeRates(old(c.modules)), MaxOf(FlakeRates(old(c.modules)))))
  {
    var stats := new BubblewrapStats(c.modules, AsReals(c.runtimes), [], []);
    ghost var rates := FlakeRates(c.modules);
    stats.FindFlakiest();
    if |stats.modules| == 0 && |c.modules| == 1 {
      c.modules := [];
    }
    SearchFindsAllTies(rates);
    rate := stats.maxFlakeRate;
    names := Names(stats.flakiestModules);
  }

  /** `find_slowest_modules`: `find_slowest(3)` over the collection's modules and runtimes. */
  method FindSlowestModules(c: Summarize.ModuleCollection, round: real -> real) returns (r: Result<seq<Option<Entry>>, Error>)
    ensures r.Err? <==> !Buckets.Keyed(Dedup(AsReals(c.runtimes)), Rounded(c.modules, round))
    ensures r.Err? ==> r.error == KeyError
    ensures r.Ok? ==> Slowest(r.value, Entries(c.modules, round), Dedup(AsReals(c.runtimes)), Rounded(c.modules, round), 3)
  {
    r := SlowestOfModules(c.modules, AsReals(c.runtimes), round);
  }

  /** A fresh `BubblewrapStats` over `ms` and `rts`, asked for `find_slowest(3)`. */
  method SlowestOfModules(ms: seq<Summarize.Module>, rts: seq<real>, round: real -> real) returns (r: Result<seq<Option<Entry>>, Error>)
    ensures r.Err? <==> !Buckets.Keyed(Dedup(rts), Rounded(ms, round))
    ensures r.Err? ==> r.error == KeyError
    ensures r.Ok? ==> Slowest(r.value, Entries(ms, round), Dedup(rts), Rounded(ms, round), 3)
  {
    ghost var ks, es := Rounded(ms, round), Entries(ms, round);
    var stats := new BubblewrapStats(ms, rts, [], []);
    assert Rounded(stats.modules, round) == ks && Entries(stats.modules, round) == es;
    r := stats.FindSlowest(3, round);
    assert Rounded(ms, round) == ks && Entries(ms, round) == es;
  }
}
