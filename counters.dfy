/**
 * Word-frequency tables, as Python's collections.Counter is used by the
 * analyzer: a finite map from word to count, where a key that is absent
 * reads as 0.
 */
module Counters {

  type Counter = map<string, nat>

  /** Counter.__getitem__: a missing key counts as 0. */
  function Get(c: Counter, w: string): nat
  {
    if w in c then c[w] else 0
  }

  /**
   * Counter.update(other) with another counter: the count of every key of
   * `other` is added to the count already held, and keys of either side
   * are kept.
   */
  function Add(a: Counter, b: Counter): (r: Counter)
    ensures r.Keys == a.Keys + b.Keys
    ensures forall w :: Get(r, w) == Get(a, w) + Get(b, w)
  {
    map w | w in a.Keys + b.Keys :: Get(a, w) + Get(b, w)
  }

  /** Merging into an empty table copies the other table. */
  lemma AddEmpty(m: Counter)
    ensures Add(map[], m) == m
  {
    assert Add(map[], m).Keys == m.Keys;
  }

  /** Merging a one-word table whose word is new adds that entry. */
  lemma AddNewWord(m: Counter, w: string, n: nat)
    requires w !in m
    ensures Add(m, map[w := n]) == m[w := n]
  {
    var r := Add(m, map[w := n]);
    assert r.Keys == m.Keys + {w};
    forall v | v in r ensures r[v] == m[w := n][v] {
      assert Get(r, v) == Get(m, v) + Get(map[w := n], v);
    }
  }

  /** One more occurrence of `w`. */
  function Increment(c: Counter, w: string): Counter
  {
    c[w := Get(c, w) + 1]
  }

  /**
   * Counter(words): counts every element of the sequence, in order. The keys
   * are exactly the words that occur, each with its number of occurrences.
   */
  function CounterOf(ws: seq<string>): (r: Counter)
    ensures forall w :: w in r <==> w in ws
    ensures forall w :: Get(r, w) == multiset(ws)[w]
    ensures forall w :: w in r ==> r[w] >= 1
  {
    if ws == [] then map[]
    else
      assert ws == ws[..|ws| - 1] + [ws[|ws| - 1]];
      Increment(CounterOf(ws[..|ws| - 1]), ws[|ws| - 1])
  }

  /** Taking a present key out of a table makes it smaller. */
  lemma RemoveSmaller(c: Counter, w: string)
    requires w in c
    ensures |c - {w}| < |c|
  {
    assert (c - {w}).Keys + {w} == c.Keys;
  }

  /** The sum of all counts of a table (what sum(c.values()) gives). */
  ghost function Total(c: Counter): nat
    decreases |c|
  {
    if c == map[] then 0
    else
      var w :| w in c;
      RemoveSmaller(c, w);
      c[w] + Total(c - {w})
  }

  /** Total does not depend on the key it happens to take out first. */
  lemma {:induction false} TotalRemove(c: Counter, w: string)
    ensures Total(c) == Get(c, w) + Total(c - {w})
    decreases |c|
  {
    if w !in c {
      assert c - {w} == c;
    } else {
      var v :| v in c && Total(c) == c[v] + Total(c - {v});
      if v != w {
        RemoveSmaller(c, v);
        RemoveSmaller(c, w);
        TotalRemove(c - {v}, w);
        TotalRemove(c - {w}, v);
        assert c - {v} - {w} == c - {w} - {v};
      }
    }
  }

  /** Setting one count changes the total by exactly the difference. */
  lemma TotalUpdate(c: Counter, w: string, n: nat)
    ensures Total(c[w := n]) + Get(c, w) == Total(c) + n
  {
    TotalRemove(c[w := n], w);
    TotalRemove(c, w);
    assert c[w := n] - {w} == c - {w};
  }

  /** Taking a key out of a merge is merging the tables without it. */
  lemma AddRemove(a: Counter, b: Counter, w: string)
    ensures Add(a, b) - {w} == Add(a - {w}, b - {w})
  {
    var l, r := Add(a, b) - {w}, Add(a - {w}, b - {w});
    assert l.Keys == r.Keys;
    forall v | v in l ensures l[v] == r[v] {
      assert Get(l, v) == Get(Add(a, b), v);
      assert Get(r, v) == Get(a - {w}, v) + Get(b - {w}, v);
    }
  }

  /** Taking one present key out of both tables shrinks their joint key set. */
  lemma RemoveShrinksKeys(a: Counter, b: Counter, w: string)
    requires w in a.Keys + b.Keys
    ensures (a - {w}).Keys + (b - {w}).Keys == (a.Keys + b.Keys) - {w}
    ensures |(a - {w}).Keys + (b - {w}).Keys| < |a.Keys + b.Keys|
  {
    var keys := a.Keys + b.Keys;
    assert (a - {w}).Keys + (b - {w}).Keys == keys - {w};
    assert keys - {w} + {w} == keys;
  }

  /** Merging two tables adds their totals. */
  lemma {:induction false} TotalAdd(a: Counter, b: Counter)
    ensures Total(Add(a, b)) == Total(a) + Total(b)
    decreases |a.Keys + b.Keys|
  {
    if a.Keys + b.Keys == {} {
      assert a == map[] && b == map[] && Add(a, b) == map[];
    } else {
      var w :| w in a.Keys + b.Keys;
      RemoveShrinksKeys(a, b, w);
      TotalAdd(a - {w}, b - {w});
      AddRemove(a, b, w);
      TotalRemove(Add(a, b), w);
      TotalRemove(a, w);
      TotalRemove(b, w);
    }
  }

  /** A table built by Counter(words) sums to the number of words. */
  lemma {:induction false} TotalCounterOf(ws: seq<string>)
    ensures Total(CounterOf(ws)) == |ws|
  {
    if ws != [] {
      var c := CounterOf(ws[..|ws| - 1]);
      TotalCounterOf(ws[..|ws| - 1]);
      TotalUpdate(c, ws[|ws| - 1], Get(c, ws[|ws| - 1]) + 1);
    } else {
      assert CounterOf(ws) == map[];
    }
  }

  /** Counting a concatenation is merging the counts of its parts. */
  lemma CounterOfConcat(xs: seq<string>, ys: seq<string>)
    ensures CounterOf(xs + ys) == Add(CounterOf(xs), CounterOf(ys))
  {
    var l, cx, cy := CounterOf(xs + ys), CounterOf(xs), CounterOf(ys);
    var r := Add(cx, cy);
    assert multiset(xs + ys) == multiset(xs) + multiset(ys);
    forall w
      ensures w in l <==> w in r
    {
      assert w in xs + ys <==> w in xs || w in ys;
    }
    forall w | w in l
      ensures l[w] == r[w]
    {
      assert Get(l, w) == multiset(xs + ys)[w];
      assert Get(r, w) == Get(cx, w) + Get(cy, w);
    }
  }
}
