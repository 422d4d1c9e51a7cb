/**
 * The flakiest-module search shared by `ModuleList._search` (run.py) and
 * `BubblewrapStats._search_for_flakiest` (analyze.py): a fold over the
 * modules in input order that keeps a running maximum flake rate and the
 * modules tied at it.  Both classes are proved equal to `Scan` below.
 */
module Flakiest {
  import opened Wrappers

  /** An item with the flake rate the search reads from it. */
  datatype Rated<T> = Rated(item: T, rate: real)

  /** The search state: the highest rate seen so far (`None` before any) and the items at it. */
  datatype Best<T> = Best(max: Option<real>, tied: seq<T>)

  /** The single-element case of the search. */
  function Visit<T>(b: Best<T>, p: Rated<T>): (r: Best<T>)
    ensures r.max.Some?
    ensures b.max.Some? ==> b.max.value <= r.max.value
    ensures p.rate <= r.max.value
  {
    if b.max.None? || p.rate > b.max.value then Best(Some(p.rate), [p.item])
    else if p.rate == b.max.value then Best(b.max, b.tied + [p.item])
    else b
  }

  /** Visiting the elements of `ps` one after another, first to last. */
  function Scan<T>(b: Best<T>, ps: seq<Rated<T>>): Best<T>
  {
    if ps == [] then b else Visit(Scan(b, ps[..|ps| - 1]), ps[|ps| - 1])
  }

  /** Searching `a + c` is searching `a` and then `c`: any split of the input gives the same result. */
  lemma {:induction false} ScanAppend<T>(b: Best<T>, a: seq<Rated<T>>, c: seq<Rated<T>>)
    ensures Scan(b, a + c) == Scan(Scan(b, a), c)
    decreases |c|
  {
    if c == [] {
      assert a + c == a;
    } else {
      var init := c[..|c| - 1];
      assert (a + c)[..|a + c| - 1] == a + init;
      assert (a + c)[|a + c| - 1] == c[|c| - 1];
      ScanAppend(b, a, init);
    }
  }

  /** The largest rate in a non-empty input. */
  function MaxOf<T>(ps: seq<Rated<T>>): real
    requires ps != []
  {
    if |ps| == 1 then ps[0].rate
    else
      var m := MaxOf(ps[..|ps| - 1]);
      if ps[|ps| - 1].rate > m then ps[|ps| - 1].rate else m
  }

  /** The items whose rate is `m`, in input order. */
  function Ties<T>(ps: seq<Rated<T>>, m: real): seq<T>
  {
    if ps == [] then []
    else Ties(ps[..|ps| - 1], m) + (if ps[|ps| - 1].rate == m then [ps[|ps| - 1].item] else [])
  }

  /** `MaxOf` is an upper bound of the rates that one of them attains. */
  lemma {:induction false} MaxOfIsMax<T>(ps: seq<Rated<T>>)
    requires ps != []
    ensures forall i :: 0 <= i < |ps| ==> ps[i].rate <= MaxOf(ps)
    ensures exists i :: 0 <= i < |ps| && ps[i].rate == MaxOf(ps)
  {
    if |ps| > 1 {
      var init := ps[..|ps| - 1];
      MaxOfIsMax(init);
      var j :| 0 <= j < |init| && init[j].rate == MaxOf(init);
      assert ps[j] == init[j];
      forall i | 0 <= i < |ps| - 1 ensures ps[i].rate <= MaxOf(ps) {
        assert ps[i] == init[i];
      }
      if ps[|ps| - 1].rate > MaxOf(init) {
        assert ps[|ps| - 1].rate == MaxOf(ps);
      } else {
        assert ps[j].rate == MaxOf(ps);
      }
    } else {
      assert ps[0].rate == MaxOf(ps);
    }
  }

  /** No item ties at a rate above all rates. */
  lemma {:induction false} TiesAboveAll<T>(ps: seq<Rated<T>>, m: real)
    requires forall i :: 0 <= i < |ps| ==> ps[i].rate < m
    ensures Ties(ps, m) == []
  {
    if ps != [] {
      var init := ps[..|ps| - 1];
      assert forall i :: 0 <= i < |init| ==> init[i] == ps[i];
      TiesAboveAll(init, m);
    }
  }

  /**
   * A search from the initial state (`max_flake_rate = None`,
   * `flakiest_modules = []`) yields `(None, [])` on an empty input, and
   * otherwise the maximum rate and exactly the items at it, in input order.
   */
  lemma {:induction false} SearchFindsAllTies<T>(ps: seq<Rated<T>>)
    ensures ps == [] ==> Scan(Best(None, []), ps) == Best(None, [])
    ensures ps != [] ==> Scan(Best(None, []), ps) == Best(Some(MaxOf(ps)), Ties(ps, MaxOf(ps)))
  {
    if ps != [] {
      var init := ps[..|ps| - 1];
      var p := ps[|ps| - 1];
      if init == [] {
        assert Ties(ps, p.rate) == Ties(init, p.rate) + [p.item];
      } else {
        SearchFindsAllTies(init);
        var m := MaxOf(init);
        if p.rate > m {
          MaxOfIsMax(init);
          TiesAboveAll(init, p.rate);
        }
      }
    }
  }

  /** The items tied at `m` are, with multiplicity, the items listed with rate `m`. */
  lemma {:induction false} TiesCount<T>(ps: seq<Rated<T>>, m: real, x: T)
    ensures multiset(Ties(ps, m))[x] == multiset(ps)[Rated(x, m)]
  {
    if ps != [] {
      var init := ps[..|ps| - 1];
      TiesCount(init, m, x);
      assert ps == init + [ps[|ps| - 1]];
    }
  }

  /** The maximum depends only on the multiset of inputs. */
  lemma MaxOfPermutation<T>(ps: seq<Rated<T>>, qs: seq<Rated<T>>)
    requires ps != [] && multiset(ps) == multiset(qs)
    ensures qs != [] && MaxOf(ps) == MaxOf(qs)
  {
    assert ps[0] in multiset(qs);
    MaxOfIsMax(ps);
    MaxOfIsMax(qs);
    var i :| 0 <= i < |ps| && ps[i].rate == MaxOf(ps);
    var j :| 0 <= j < |qs| && qs[j].rate == MaxOf(qs);
    assert ps[i] in multiset(qs);
    assert qs[j] in multiset(ps);
  }

  /** The tied items depend only on the multiset of inputs. */
  lemma TiesPermutation<T>(ps: seq<Rated<T>>, qs: seq<Rated<T>>, m: real)
    requires multiset(ps) == multiset(qs)
    ensures multiset(Ties(ps, m)) == multiset(Ties(qs, m))
  {
    var tp, tq := multiset(Ties(ps, m)), multiset(Ties(qs, m));
    forall x ensures tp[x] == tq[x] {
      TiesCount(ps, m, x);
      TiesCount(qs, m, x);
    }
    MultisetsAgree(tp, tq);
  }

  /** Two multisets with the same multiplicities are equal. */
  lemma MultisetsAgree<T>(a: multiset<T>, b: multiset<T>)
    requires forall x :: a[x] == b[x]
    ensures a == b
  {
  }

  /** Permuting the input changes neither the maximum nor the multiset of tied items. */
  lemma SearchPermutationInvariant<T>(ps: seq<Rated<T>>, qs: seq<Rated<T>>)
    requires multiset(ps) == multiset(qs)
    ensures Scan(Best(None, []), ps).max == Scan(Best(None, []), qs).max
    ensures multiset(Scan(Best(None, []), ps).tied) == multiset(Scan(Best(None, []), qs).tied)
  {
    SearchFindsAllTies(ps);
    SearchFindsAllTies(qs);
    if ps != [] {
      MaxOfPermutation(ps, qs);
      TiesPermutation(ps, qs, MaxOf(ps));
    } else {
      assert |qs| == |multiset(qs)| == 0;
    }
  }

  /** A single input is the flakiest by itself. */
  lemma SearchSingle<T>(p: Rated<T>)
    ensures Scan(Best(None, []), [p]) == Best(Some(p.rate), [p.item])
  {
    assert [p][..0] == [];
  }

  /** Searching one more item is one more visit. */
  lemma ScanSnoc<T>(b: Best<T>, ps: seq<Rated<T>>, p: Rated<T>)
    ensures Scan(b, ps + [p]) == Visit(Scan(b, ps), p)
  {
    assert (ps + [p])[..|ps|] == ps;
  }

  /** The rates 0.1, 0.6, 0.2, 0.4, 0.3: only the 0.6 module is returned. */
  lemma SearchExample()
    ensures Scan(Best(None, []), [Rated("one", 0.1), Rated("three", 0.6), Rated("two", 0.2),
                                  Rated("four", 0.4), Rated("five", 0.3)])
         == Best(Some(0.6), ["three"])
  {
    var p1, p2, p3, p4, p5 := Rated("one", 0.1), Rated("three", 0.6), Rated("two", 0.2), Rated("four", 0.4), Rated("five", 0.3);
    var b0: Best<string> := Best(None, []);
    SearchSingle(p1);
    ScanSnoc(b0, [p1], p2);
    assert [p1] + [p2] == [p1, p2];
    ScanSnoc(b0, [p1, p2], p3);
    assert [p1, p2] + [p3] == [p1, p2, p3];
    ScanSnoc(b0, [p1, p2, p3], p4);
    assert [p1, p2, p3] + [p4] == [p1, p2, p3, p4];
    ScanSnoc(b0, [p1, p2, p3, p4], p5);
    assert [p1, p2, p3, p4] + [p5] == [p1, p2, p3, p4, p5];
  }

  /** Two modules at the maximum 0.6 are both returned, in input order. */
  lemma SearchDuplicateMaxExample()
    ensures Scan(Best(None, []), [Rated("three", 0.6), Rated("one", 0.1), Rated("two", 0.6),
                                  Rated("four", 0.4), Rated("five", 0.3)])
         == Best(Some(0.6), ["three", "two"])
  {
    var p1, p2, p3, p4, p5 := Rated("three", 0.6), Rated("one", 0.1), Rated("two", 0.6), Rated("four", 0.4), Rated("five", 0.3);
    var b0: Best<string> := Best(None, []);
    SearchSingle(p1);
    ScanSnoc(b0, [p1], p2);
    assert [p1] + [p2] == [p1, p2];
    ScanSnoc(b0, [p1, p2], p3);
    assert [p1, p2] + [p3] == [p1, p2, p3];
    assert ["three"] + ["two"] == ["three", "two"];
    ScanSnoc(b0, [p1, p2, p3], p4);
    assert [p1, p2, p3] + [p4] == [p1, p2, p3, p4];
    ScanSnoc(b0, [p1, p2, p3, p4], p5);
    assert [p1, p2, p3, p4] + [p5] == [p1, p2, p3, p4, p5];
  }

  /** Items strictly below the current maximum leave the state unchanged. */
  lemma {:induction false} ScanBelow<T>(b: Best<T>, ps: seq<Rated<T>>)
    requires b.max.Some?
    requires forall i :: 0 <= i < |ps| ==> ps[i].rate < b.max.value
    ensures Scan(b, ps) == b
  {
    if ps != [] {
      var init := ps[..|ps| - 1];
      assert forall i :: 0 <= i < |init| ==> init[i] == ps[i];
      ScanBelow(b, init);
    }
  }
}
