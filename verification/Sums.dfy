/**
 Finite sums of traffic measures over sets: the meaning of SQL's `SUM` and `COUNT(*)`.
 One lemma, `SumByGroups`, carries every roll-up argument of the project.
 */
module Sums {
  datatype Measures = Measures(rx: int, tx: int, count: int, duration: int)

  const ZERO := Measures(0, 0, 0, 0)

  function Plus(a: Measures, b: Measures): Measures {
    Measures(a.rx + b.rx, a.tx + b.tx, a.count + b.count, a.duration + b.duration)
  }

  ghost function Sum<T(!new)>(s: set<T>, f: T -> Measures): Measures {
    if s == {} then ZERO
    else
      var x :| x in s;
      Plus(f(x), Sum(s - {x}, f))
  }

  /** The sum does not depend on the order in which elements are taken. */
  lemma {:induction false} SumRemove<T(!new)>(s: set<T>, f: T -> Measures, x: T)
    requires x in s
    ensures Sum(s, f) == Plus(f(x), Sum(s - {x}, f))
  {
    var y :| y in s && Sum(s, f) == Plus(f(y), Sum(s - {y}, f));
    if y != x {
      SumRemove(s - {y}, f, x);
      SumRemove(s - {x}, f, y);
      var rest := s - {x} - {y};
      assert s - {y} - {x} == rest;
      assert Sum(s, f) == Plus(f(y), Plus(f(x), Sum(rest, f)));
    }
  }

  lemma {:induction false} SumUnion<T(!new)>(s: set<T>, t: set<T>, f: T -> Measures)
    requires s !! t
    ensures Sum(s + t, f) == Plus(Sum(s, f), Sum(t, f))
  {
    if s == {} {
      assert s + t == t;
    } else {
      var x :| x in s;
      SumRemove(s, f, x);
      SumRemove(s + t, f, x);
      assert s + t - {x} == (s - {x}) + t;
      SumUnion(s - {x}, t, f);
    }
  }

  /** The elements whose key is `k`: one group of a `GROUP BY`. */
  ghost function Having<T(!new), K>(s: set<T>, key: T -> K, k: K): set<T> {
    set x | x in s && key(x) == k
  }

  /** Each coarse element carries the sum of the fine elements with its key, and none is left over. */
  ghost predicate Matched<A(!new), B(!new), K(!new)>(
      a: set<A>, g: A -> Measures, ka: A -> K, b: set<B>, f: B -> Measures, kb: B -> K) {
    && (forall x, y :: x in a && y in a && ka(x) == ka(y) ==> x == y)
    && (forall z :: z in b ==> exists x :: x in a && ka(x) == kb(z))
    && (forall x :: x in a ==> g(x) == Sum(Having(b, kb, ka(x)), f))
  }

  /** Taking one coarse element away together with its fine elements keeps the rest matched. */
  lemma MatchedRest<A(!new), B(!new), K(!new)>(
      a: set<A>, g: A -> Measures, ka: A -> K, b: set<B>, f: B -> Measures, kb: B -> K, x: A)
    requires Matched(a, g, ka, b, f, kb) && x in a
    ensures g(x) == Sum(Having(b, kb, ka(x)), f)
    ensures Matched(a - {x}, g, ka, b - Having(b, kb, ka(x)), f, kb)
  {
    hide Sum;
    var others := b - Having(b, kb, ka(x));
    forall y | y in a - {x} ensures g(y) == Sum(Having(others, kb, ka(y)), f) {
      assert Having(others, kb, ka(y)) == Having(b, kb, ka(y));
    }
    forall z | z in others ensures exists y :: y in a - {x} && ka(y) == kb(z) {
      var y :| y in a && ka(y) == kb(z);
      assert y in a - {x};
    }
  }

  lemma NothingMatched<A(!new), B(!new), K(!new)>(
      a: set<A>, g: A -> Measures, ka: A -> K, b: set<B>, f: B -> Measures, kb: B -> K)
    requires Matched(a, g, ka, b, f, kb) && a == {}
    ensures Sum(a, g) == Sum(b, f) == ZERO
  {
    assert b == {};
  }

  lemma HavingIsPart<B(!new), K>(b: set<B>, kb: B -> K, k: K)
    ensures Having(b, kb, k) <= b
  {
  }

  lemma {:induction false} SumMatched<A(!new), B(!new), K(!new)>(
      a: set<A>, g: A -> Measures, ka: A -> K, b: set<B>, f: B -> Measures, kb: B -> K)
    requires Matched(a, g, ka, b, f, kb)
    ensures Sum(a, g) == Sum(b, f)
    decreases a
  {
    hide Matched, Sum, Having;
    if a == {} {
      NothingMatched(a, g, ka, b, f, kb);
    } else {
      var x :| x in a;
      var mine := Having(b, kb, ka(x));
      SumRemove(a, g, x);
      MatchedRest(a, g, ka, b, f, kb, x);
      HavingIsPart(b, kb, ka(x));
      assert b == mine + (b - mine);
      SumUnion(mine, b - mine, f);
      SumMatched(a - {x}, g, ka, b - mine, f, kb);
    }
  }

  /**
   If the coarse elements `a` carry, key by key, the sums of the fine elements `b`, and every
   fine element has a coarse one, then both sides have the same total.
   */
  lemma SumByGroups<A(!new), B(!new), K(!new)>(
      a: set<A>, g: A -> Measures, ka: A -> K,
      b: set<B>, f: B -> Measures, kb: B -> K)
    requires forall x, y :: x in a && y in a && ka(x) == ka(y) ==> x == y
    requires forall z :: z in b ==> exists x :: x in a && ka(x) == kb(z)
    requires forall x :: x in a ==> g(x) == Sum(Having(b, kb, ka(x)), f)
    ensures Sum(a, g) == Sum(b, f)
  {
    SumMatched(a, g, ka, b, f, kb);
  }

  /** The sum of an integer field. */
  ghost function Total<T(!new)>(s: set<T>, f: T -> int): int {
    if s == {} then 0
    else
      var x :| x in s;
      f(x) + Total(s - {x}, f)
  }

  lemma {:induction false} TotalRemove<T(!new)>(s: set<T>, f: T -> int, x: T)
    requires x in s
    ensures Total(s, f) == f(x) + Total(s - {x}, f)
  {
    var y :| y in s && Total(s, f) == f(y) + Total(s - {y}, f);
    if y != x {
      TotalRemove(s - {y}, f, x);
      TotalRemove(s - {x}, f, y);
      assert s - {y} - {x} == s - {x} - {y};
    }
  }

  /** Summing measures is summing each of their fields. */
  lemma {:induction false} SumIsTotals<T(!new)>(
      s: set<T>, f: T -> Measures, rx: T -> int, tx: T -> int, count: T -> int, duration: T -> int)
    requires forall x :: x in s ==> f(x) == Measures(rx(x), tx(x), count(x), duration(x))
    ensures Sum(s, f) == Measures(Total(s, rx), Total(s, tx), Total(s, count), Total(s, duration))
  {
    if s != {} {
      var x :| x in s;
      SumRemove(s, f, x);
      TotalRemove(s, rx, x);
      TotalRemove(s, tx, x);
      TotalRemove(s, count, x);
      TotalRemove(s, duration, x);
      SumIsTotals(s - {x}, f, rx, tx, count, duration);
    }
  }

  lemma {:induction false} TotalOfOnes<T(!new)>(s: set<T>, f: T -> int)
    requires forall x :: x in s ==> f(x) == 1
    ensures Total(s, f) == |s|
  {
    if s != {} {
      var x :| x in s;
      TotalRemove(s, f, x);
      TotalOfOnes(s - {x}, f);
    }
  }

  /** `COUNT(*)`: when every element counts once, the count is the cardinality. */
  lemma {:induction false} CountIsCardinality<T(!new)>(s: set<T>, f: T -> Measures)
    requires forall x :: x in s ==> f(x).count == 1
    ensures Sum(s, f).count == |s|
  {
    if s != {} {
      var x :| x in s;
      SumRemove(s, f, x);
      CountIsCardinality(s - {x}, f);
    }
  }
}
