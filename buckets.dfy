/**
 * The counting arithmetic of `BubblewrapStats.find_slowest` (analyze.py):
 * modules grouped into buckets by their rounded runtime, buckets laid out
 * one after another in key order, a result count that stops growing once
 * it reaches `top_n` (so the last bucket it takes is taken whole), and for
 * every module the slot it is written to.
 *
 * `ks` is the sequence of the modules' bucket keys, in module order, and
 * `keys` the bucket keys in dictionary order.
 */
module Buckets {

  /** The sum of `cs`. */
  function Sum(cs: seq<int>): int
  {
    if cs == [] then 0 else Sum(cs[..|cs| - 1]) + cs[|cs| - 1]
  }

  /** No key occurs twice. */
  predicate Distinct<K(==)>(keys: seq<K>)
  {
    forall i, j :: 0 <= i < j < |keys| ==> keys[i] != keys[j]
  }

  /** The number of modules in each bucket, in key order. */
  function Counts<K(==)>(keys: seq<K>, ks: seq<K>): (r: seq<int>)
    ensures |r| == |keys| && forall b :: 0 <= b < |keys| ==> r[b] == multiset(ks)[keys[b]]
  {
    seq(|keys|, b requires 0 <= b < |keys| => multiset(ks)[keys[b]])
  }

  /**
   * The result count of `_count_expected_results`: the buckets are added in
   * order while the running count is below `topN`.
   */
  function ResultCount(cs: seq<int>, topN: int): int
  {
    if cs == [] then 0
    else
      var rc := ResultCount(cs[..|cs| - 1], topN);
      if rc < topN then rc + cs[|cs| - 1] else rc
  }

  /** The number of leading buckets that start below `topN`: the window `ResultCount` takes. */
  function Window(cs: seq<int>, topN: int): (w: nat)
    ensures w <= |cs|
  {
    if cs == [] then 0
    else
      var w := Window(cs[..|cs| - 1], topN);
      if w == |cs| - 1 && Sum(cs[..|cs| - 1]) < topN then |cs| else w
  }

  /** No count is negative. */
  predicate NonNegative(cs: seq<int>)
  {
    forall b :: 0 <= b < |cs| ==> cs[b] >= 0
  }

  lemma {:induction false} SumNonNegative(cs: seq<int>)
    requires NonNegative(cs)
    ensures Sum(cs) >= 0
  {
    if cs != [] {
      SumNonNegative(cs[..|cs| - 1]);
    }
  }

  /** The start of a later bucket is no smaller: starts are non-decreasing. */
  lemma {:induction false} StartMonotone(cs: seq<int>, a: int, b: int)
    requires NonNegative(cs) && 0 <= a <= b <= |cs|
    ensures Sum(cs[..a]) <= Sum(cs[..b])
    decreases b - a
  {
    if a < b {
      StartMonotone(cs, a, b - 1);
      assert cs[..b][..b - 1] == cs[..b - 1];
    }
  }

  /**
   * The result count is the total of the window, the window holds exactly
   * the buckets that start below `topN`, and the count is at least
   * `min(topN, Sum(cs))` and at most `Sum(cs)`.
   */
  lemma {:induction false} ResultCountIsWindowTotal(cs: seq<int>, topN: int)
    requires NonNegative(cs)
    ensures ResultCount(cs, topN) == Sum(cs[..Window(cs, topN)])
    ensures forall b :: 0 <= b < |cs| ==> (b < Window(cs, topN) <==> Sum(cs[..b]) < topN)
  {
    if cs != [] {
      var init := cs[..|cs| - 1];
      assert NonNegative(init);
      ResultCountIsWindowTotal(init, topN);
      var w := Window(init, topN);
      assert cs == init + [cs[|cs| - 1]];
      assert cs[..|cs|] == cs;
      forall b | 0 <= b <= |init| ensures cs[..b] == init[..b] { }
      if w < |init| {
        StartMonotone(init, w, |init|);
      }
    }
  }

  /** The window's count bounds: never below `min(topN, Sum(cs))`, never above `Sum(cs)`. */
  lemma ResultCountBounds(cs: seq<int>, topN: int)
    requires NonNegative(cs)
    ensures ResultCount(cs, topN) <= Sum(cs)
    ensures ResultCount(cs, topN) >= topN || ResultCount(cs, topN) == Sum(cs)
    ensures topN <= 0 ==> ResultCount(cs, topN) == 0
    ensures topN >= Sum(cs) ==> ResultCount(cs, topN) == Sum(cs)
  {
    ResultCountIsWindowTotal(cs, topN);
    var w := Window(cs, topN);
    assert cs[..|cs|] == cs;
    StartMonotone(cs, w, |cs|);
    if w < |cs| {
      assert Sum(cs[..w]) >= topN;
    }
    if topN <= 0 {
      assert cs[..0] == [];
    }
    if topN >= Sum(cs) && w < |cs| {
      StartMonotone(cs, w, |cs|);
      forall b | w <= b < |cs| ensures Sum(cs[..b]) >= topN { }
      StartAtMostTotal(cs, w);
    }
  }

  /** A bucket's start plus the rest of the counts is the total. */
  lemma StartAtMostTotal(cs: seq<int>, b: int)
    requires NonNegative(cs) && 0 <= b < |cs|
    ensures Sum(cs[..b]) + cs[b] <= Sum(cs)
  {
    StartMonotone(cs, b + 1, |cs|);
    assert cs[..b + 1][..b] == cs[..b];
    assert cs[..|cs|] == cs;
  }

  /** A bucket inside the window ends below the result count; one outside starts at or after it. */
  lemma WindowBoundary(cs: seq<int>, topN: int, b: int)
    requires NonNegative(cs) && 0 <= b < |cs|
    ensures Sum(cs[..b]) < topN ==> Sum(cs[..b]) + cs[b] <= ResultCount(cs, topN)
    ensures Sum(cs[..b]) >= topN ==> Sum(cs[..b]) >= ResultCount(cs, topN)
  {
    ResultCountIsWindowTotal(cs, topN);
    var w := Window(cs, topN);
    if b < w {
      StartMonotone(cs, b + 1, w);
      assert cs[..b + 1][..b] == cs[..b];
    } else {
      StartMonotone(cs, w, b);
    }
  }

  /** The first index of `k` in `keys`. */
  function IndexOf<K(==)>(keys: seq<K>, k: K): (b: nat)
    requires k in keys
    ensures b < |keys| && keys[b] == k && forall c :: 0 <= c < b ==> keys[c] != k
  {
    if keys[0] == k then 0 else 1 + IndexOf(keys[1..], k)
  }

  /**
   * The slot the module at index `i` is written to: its bucket's start
   * plus the number of later modules in the same bucket, because each
   * bucket is filled from its end downward in module order.
   */
  function Slot<K(==)>(keys: seq<K>, ks: seq<K>, i: int): (s: int)
    requires 0 <= i < |ks| && ks[i] in keys
    ensures s >= 0
  {
    var start := Counts(keys, ks)[..IndexOf(keys, ks[i])];
    assert NonNegative(start);
    SumNonNegative(start);
    Sum(start) + multiset(ks[i + 1..])[ks[i]]
  }

  /** Every module key is a bucket key. */
  predicate Keyed<K(==)>(keys: seq<K>, ks: seq<K>)
  {
    forall i :: 0 <= i < |ks| ==> ks[i] in keys
  }

  /** The multiplicity of `k` in `ks` splits at any index. */
  lemma OccurrencesSplit<K>(ks: seq<K>, i: int, k: K)
    requires 0 <= i < |ks|
    ensures multiset(ks)[k] == multiset(ks[..i])[k] + (if ks[i] == k then 1 else 0) + multiset(ks[i + 1..])[k]
  {
    assert ks == ks[..i] + [ks[i]] + ks[i + 1..];
  }

  /** A module's slot lies inside its bucket's range. */
  lemma SlotInBucket<K>(keys: seq<K>, ks: seq<K>, i: int)
    requires 0 <= i < |ks| && ks[i] in keys
    ensures var b := IndexOf(keys, ks[i]);
            var start := Sum(Counts(keys, ks)[..b]);
            start <= Slot(keys, ks, i) < start + Counts(keys, ks)[b]
  {
    OccurrencesSplit(ks, i, ks[i]);
  }

  /** Buckets laid out in key order do not overlap. */
  lemma BucketsDisjoint(cs: seq<int>, a: int, b: int)
    requires NonNegative(cs) && 0 <= a < b < |cs|
    ensures Sum(cs[..a]) + cs[a] <= Sum(cs[..b])
  {
    StartMonotone(cs, a + 1, b);
    assert cs[..a + 1][..a] == cs[..a];
  }

  /** Two modules never share a slot. */
  lemma SlotInjective<K>(keys: seq<K>, ks: seq<K>, i: int, j: int)
    requires Distinct(keys)
    requires 0 <= i < j < |ks| && ks[i] in keys && ks[j] in keys
    ensures Slot(keys, ks, i) != Slot(keys, ks, j)
  {
    SlotInBucket(keys, ks, i);
    SlotInBucket(keys, ks, j);
    var cs := Counts(keys, ks);
    var bi, bj := IndexOf(keys, ks[i]), IndexOf(keys, ks[j]);
    if ks[i] == ks[j] {
      var tail := ks[i + 1..];
      OccurrencesSplit(tail, j - i - 1, ks[j]);
      assert tail[j - i - 1 + 1..] == ks[j + 1..];
    } else if bi < bj {
      BucketsDisjoint(cs, bi, bj);
    } else {
      BucketsDisjoint(cs, bj, bi);
    }
  }

  /** For each `q` below the multiplicity of `k`, one occurrence of `k` has exactly `q` later occurrences. */
  lemma {:induction false} OccurrenceWithLater<K>(ks: seq<K>, k: K, q: int)
    requires 0 <= q < multiset(ks)[k]
    ensures exists i :: 0 <= i < |ks| && ks[i] == k && multiset(ks[i + 1..])[k] == q
  {
    assert ks == [ks[0]] + ks[1..];
    var rest := ks[1..];
    if q < multiset(rest)[k] {
      OccurrenceWithLater(rest, k, q);
      var i :| 0 <= i < |rest| && rest[i] == k && multiset(rest[i + 1..])[k] == q;
      assert ks[i + 1] == k && ks[i + 2..] == rest[i + 1..];
    } else {
      assert ks[0] == k && ks[1..] == rest;
    }
  }

  /** The counts add up to the number of modules. */
  lemma {:induction false} CountsSum<K>(keys: seq<K>, ks: seq<K>)
    requires Distinct(keys) && Keyed(keys, ks)
    ensures Sum(Counts(keys, ks)) == |ks|
    decreases |keys|
  {
    if keys != [] {
      var init := keys[..|keys| - 1];
      var last := keys[|keys| - 1];
      var rest := Without(ks, last);
      assert Distinct(init);
      KeyedWithout(keys, ks);
      CountsSum(init, rest);
      CountsWithout(keys, ks);
      WithoutSize(ks, last);
    }
  }

  /** Without the last key's modules, the other modules are keyed by the other keys. */
  lemma KeyedWithout<K>(keys: seq<K>, ks: seq<K>)
    requires keys != [] && Keyed(keys, ks)
    ensures Keyed(keys[..|keys| - 1], Without(ks, keys[|keys| - 1]))
  {
    var init, last := keys[..|keys| - 1], keys[|keys| - 1];
    var rest := Without(ks, last);
    forall i | 0 <= i < |rest| ensures rest[i] in init {
      assert rest[i] in multiset(rest);
      WithoutCounts(ks, last, rest[i]);
      assert rest[i] in multiset(ks);
      var j :| 0 <= j < |ks| && ks[j] == rest[i];
      var b :| 0 <= b < |keys| && keys[b] == ks[j];
      assert init[b] == rest[i];
    }
  }

  /** The other keys' counts are unchanged by dropping the last key's modules. */
  lemma CountsWithout<K>(keys: seq<K>, ks: seq<K>)
    requires keys != [] && Distinct(keys)
    ensures var last := keys[|keys| - 1];
            Counts(keys, ks) == Counts(keys[..|keys| - 1], Without(ks, last)) + [multiset(ks)[last]]
  {
    var init, last := keys[..|keys| - 1], keys[|keys| - 1];
    var rest := Without(ks, last);
    forall b | 0 <= b < |init| ensures Counts(keys, ks)[b] == Counts(init, rest)[b] {
      WithoutCounts(ks, last, init[b]);
    }
  }

  /** `ks` without the occurrences of `k`. */
  function Without<K(==)>(ks: seq<K>, k: K): seq<K>
  {
    if ks == [] then []
    else Without(ks[..|ks| - 1], k) + (if ks[|ks| - 1] == k then [] else [ks[|ks| - 1]])
  }

  /** Removing `k` removes all of its occurrences and no other element. */
  lemma {:induction false} WithoutCounts<K>(ks: seq<K>, k: K, x: K)
    ensures multiset(Without(ks, k))[x] == if x == k then 0 else multiset(ks)[x]
  {
    if ks != [] {
      assert ks == ks[..|ks| - 1] + [ks[|ks| - 1]];
      WithoutCounts(ks[..|ks| - 1], k, x);
    }
  }

  lemma {:induction false} WithoutSize<K>(ks: seq<K>, k: K)
    ensures |Without(ks, k)| == |ks| - multiset(ks)[k]
  {
    if ks != [] {
      assert ks == ks[..|ks| - 1] + [ks[|ks| - 1]];
      WithoutSize(ks[..|ks| - 1], k);
    }
  }

  /** Every slot below the number of modules belongs to some module. */
  lemma SlotSurjective<K>(keys: seq<K>, ks: seq<K>, p: int)
    requires Distinct(keys) && Keyed(keys, ks) && 0 <= p < |ks|
    ensures exists i :: 0 <= i < |ks| && Slot(keys, ks, i) == p
  {
    var cs := Counts(keys, ks);
    CountsSum(keys, ks);
    assert NonNegative(cs);
    var b := BucketOf(cs, p);
    var k := keys[b];
    var q' := p - Sum(cs[..b]);
    assert 0 <= q' < multiset(ks)[k];
    OccurrenceWithLater(ks, k, q');
    var i :| 0 <= i < |ks| && ks[i] == k && multiset(ks[i + 1..])[k] == q';
    assert IndexOf(keys, k) == b;
    assert Slot(keys, ks, i) == p;
  }

  /** The bucket whose range holds `p`. */
  lemma BucketOf(cs: seq<int>, p: int) returns (b: int)
    requires NonNegative(cs) && 0 <= p < Sum(cs)
    ensures 0 <= b < |cs| && Sum(cs[..b]) <= p < Sum(cs[..b]) + cs[b]
  {
    b := |cs| - 1;
    assert cs[..|cs|] == cs;
    while Sum(cs[..b]) > p
      invariant 0 <= b < |cs| && p < Sum(cs[..b + 1])
      decreases b
    {
      assert cs[..b + 1][..b] == cs[..b];
      b := b - 1;
    }
    assert cs[..b + 1][..b] == cs[..b];
  }

  /** The result count is never negative. */
  lemma ResultCountNonNegative(cs: seq<int>, topN: int)
    requires NonNegative(cs)
    ensures ResultCount(cs, topN) >= 0
  {
    ResultCountIsWindowTotal(cs, topN);
    var w := Window(cs, topN);
    assert NonNegative(cs[..w]);
    SumNonNegative(cs[..w]);
  }

  /** A module's slot is below the result count exactly when its bucket starts below `topN`. */
  lemma SlotInWindow<K>(keys: seq<K>, ks: seq<K>, topN: int, i: int)
    requires 0 <= i < |ks| && ks[i] in keys
    ensures var cs := Counts(keys, ks);
            Slot(keys, ks, i) < ResultCount(cs, topN) <==> Sum(cs[..IndexOf(keys, ks[i])]) < topN
  {
    var cs := Counts(keys, ks);
    assert NonNegative(cs);
    SlotInBucket(keys, ks, i);
    WindowBoundary(cs, topN, IndexOf(keys, ks[i]));
  }

  /** Within a bucket, a module listed later gets a lower slot. */
  lemma SlotsDescend<K>(keys: seq<K>, ks: seq<K>, i: int, j: int)
    requires 0 <= i < j < |ks| && ks[i] in keys && ks[j] == ks[i]
    ensures Slot(keys, ks, j) < Slot(keys, ks, i)
  {
    var tail := ks[i + 1..];
    OccurrencesSplit(tail, j - i - 1, ks[j]);
    assert tail[j - i - 1 + 1..] == ks[j + 1..];
  }
  /** Each key is smaller than every later one. */
  predicate Increasing(keys: seq<real>)
  {
    forall a, b :: 0 <= a < b < |keys| ==> keys[a] < keys[b]
  }

  /**
   * With the keys in increasing order, a module left out of the result has
   * a larger key than every module in it: the result holds the modules
   * with the smallest keys, not the largest.
   */
  lemma LeftOutAreLarger(keys: seq<real>, ks: seq<real>, topN: int, i: int, j: int)
    requires Increasing(keys) && Keyed(keys, ks) && 0 <= i < |ks| && 0 <= j < |ks|
    requires Slot(keys, ks, i) < ResultCount(Counts(keys, ks), topN) <= Slot(keys, ks, j)
    ensures ks[i] < ks[j]
  {
    var cs := Counts(keys, ks);
    assert NonNegative(cs);
    var bi, bj := IndexOf(keys, ks[i]), IndexOf(keys, ks[j]);
    SlotInWindow(keys, ks, topN, i);
    SlotInWindow(keys, ks, topN, j);
    if bj <= bi {
      StartMonotone(cs, bj, bi);
    }
  }
}
