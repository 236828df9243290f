/**
 * reduce_function: merge the per-chunk tables into one by calling
 * Counter.update on a fresh accumulator, chunk after chunk.
 */
module Reducer {
  import opened Counters

  /** The accumulator after updating an empty table with every counter, in order. */
  function SumAll(cs: seq<Counter>): Counter
  {
    if cs == [] then map[] else Add(SumAll(cs[..|cs| - 1]), cs[|cs| - 1])
  }

  /** The number of occurrences of w over all tables, an absent key counting 0. */
  function CountIn(cs: seq<Counter>, w: string): nat
  {
    if cs == [] then 0 else Get(cs[0], w) + CountIn(cs[1..], w)
  }

  /** The sum of the totals of all tables. */
  ghost function TotalIn(cs: seq<Counter>): nat
  {
    if cs == [] then 0 else Total(cs[0]) + TotalIn(cs[1..])
  }

  lemma {:induction false} CountInConcat(xs: seq<Counter>, ys: seq<Counter>, w: string)
    ensures CountIn(xs + ys, w) == CountIn(xs, w) + CountIn(ys, w)
  {
    if xs == [] {
      assert xs + ys == ys;
    } else {
      assert (xs + ys)[1..] == xs[1..] + ys;
      CountInConcat(xs[1..], ys, w);
    }
  }

  lemma {:induction false} TotalInConcat(xs: seq<Counter>, ys: seq<Counter>)
    ensures TotalIn(xs + ys) == TotalIn(xs) + TotalIn(ys)
  {
    if xs == [] {
      assert xs + ys == ys;
    } else {
      assert (xs + ys)[1..] == xs[1..] + ys;
      TotalInConcat(xs[1..], ys);
    }
  }

  /** The merged count of every word is its sum over all tables. */
  lemma {:induction false} SumAllAt(cs: seq<Counter>, w: string)
    ensures Get(SumAll(cs), w) == CountIn(cs, w)
  {
    if cs != [] {
      var init, last := cs[..|cs| - 1], cs[|cs| - 1];
      SumAllAt(init, w);
      assert cs == init + [last];
      CountInConcat(init, [last], w);
    }
  }

  /** A word is in the merged table exactly when it is a key of some table. */
  lemma {:induction false} SumAllKeys(cs: seq<Counter>, w: string)
    ensures w in SumAll(cs) <==> exists i :: 0 <= i < |cs| && w in cs[i]
  {
    if cs != [] {
      var init := cs[..|cs| - 1];
      SumAllKeys(init, w);
      if exists i :: 0 <= i < |init| && w in init[i] {
        var i :| 0 <= i < |init| && w in init[i];
        assert cs[i] == init[i];
      }
      if exists i :: 0 <= i < |cs| && w in cs[i] {
        var i :| 0 <= i < |cs| && w in cs[i];
        if i < |cs| - 1 {
          assert init[i] == cs[i];
        }
      }
    }
  }

  /** The merged table sums to the sum of the input tables' totals. */
  lemma {:induction false} TotalSumAll(cs: seq<Counter>)
    ensures Total(SumAll(cs)) == TotalIn(cs)
  {
    if cs == [] {
      assert SumAll(cs) == map[];
    } else {
      var init, last := cs[..|cs| - 1], cs[|cs| - 1];
      TotalSumAll(init);
      TotalAdd(SumAll(init), last);
      assert cs == init + [last];
      TotalInConcat(init, [last]);
    }
  }

  /** Word counts over tables do not depend on the order of the tables. */
  lemma {:induction false} CountInPermutation(cs: seq<Counter>, ds: seq<Counter>, w: string)
    requires multiset(cs) == multiset(ds)
    ensures CountIn(cs, w) == CountIn(ds, w)
    decreases |cs|
  {
    if cs != [] {
      var c := cs[0];
      assert c in multiset(ds);
      var j :| 0 <= j < |ds| && ds[j] == c;
      var rest := ds[..j] + ds[j + 1..];
      assert ds == ds[..j] + [c] + ds[j + 1..];
      assert cs == [c] + cs[1..];
      assert multiset(ds) == multiset(ds[..j]) + multiset{c} + multiset(ds[j + 1..]);
      assert multiset(cs) == multiset{c} + multiset(cs[1..]);
      assert multiset(rest) == multiset(ds[..j]) + multiset(ds[j + 1..]);
      assert multiset(cs[1..]) == multiset(cs) - multiset{c};
      assert multiset(rest) == multiset(ds) - multiset{c};
      CountInPermutation(cs[1..], rest, w);
      CountInConcat(ds[..j] + [c], ds[j + 1..], w);
      CountInConcat(ds[..j], [c], w);
      CountInConcat(ds[..j], ds[j + 1..], w);
    }
  }

  /** Merging is insensitive to the order of the tables: any permutation gives the same table. */
  lemma SumAllPermutation(cs: seq<Counter>, ds: seq<Counter>)
    requires multiset(cs) == multiset(ds)
    ensures SumAll(cs) == SumAll(ds)
  {
    var l, r := SumAll(cs), SumAll(ds);
    forall w
      ensures w in l <==> w in r
    {
      SumAllKeys(cs, w);
      SumAllKeys(ds, w);
      if exists i :: 0 <= i < |cs| && w in cs[i] {
        var i :| 0 <= i < |cs| && w in cs[i];
        assert cs[i] in multiset(ds);
      }
      if exists i :: 0 <= i < |ds| && w in ds[i] {
        var i :| 0 <= i < |ds| && w in ds[i];
        assert ds[i] in multiset(cs);
      }
    }
    forall w | w in l
      ensures l[w] == r[w]
    {
      SumAllAt(cs, w);
      SumAllAt(ds, w);
      CountInPermutation(cs, ds, w);
    }
  }

  /**
   * reduce_function(counters): start from an empty Counter and update it
   * with each counter in turn. Every word's merged count is its sum over
   * all counters; no counter yields an empty table.
   */
  method ReduceFunction(counters: seq<Counter>) returns (total: Counter)
    ensures total == SumAll(counters)
    ensures forall w :: Get(total, w) == CountIn(counters, w)
    ensures counters == [] ==> total == map[]
  {
    total := map[];
    for i := 0 to |counters|
      invariant total == SumAll(counters[..i])
    {
      assert counters[..i + 1][..i] == counters[..i];
      total := Add(total, counters[i]);
    }
    assert counters[..|counters|] == counters;
    forall w ensures Get(total, w) == CountIn(counters, w) {
      SumAllAt(counters, w);
    }
  }
}
