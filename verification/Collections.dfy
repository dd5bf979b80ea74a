/** The size of a subset. */
module SetSizes {

  lemma SubsetSize<T>(a: set<T>, b: set<T>)
    requires a <= b
    ensures |a| <= |b|
  {
    assert b == a + (b - a);
  }
}

/** Positions and multiplicities in a sequence. */
module Sequences {

  /** `findIndex`: the position of the first element with the property, or the length. */
  function FirstWhere<T>(s: seq<T>, p: T -> bool): (i: nat)
    ensures i <= |s|
    ensures forall k :: 0 <= k < i ==> !p(s[k])
    ensures i < |s| ==> p(s[i])
  {
    if |s| == 0 then 0
    else if p(s[0]) then 0
    else 1 + FirstWhere(s[1..], p)
  }

  /** The last element adds one to its own multiplicity. */
  lemma LastCounts<T>(s: seq<T>, x: T)
    requires |s| > 0
    ensures multiset(s)[x] == multiset(s[..|s| - 1])[x] + if s[|s| - 1] == x then 1 else 0
  {
    assert s == s[..|s| - 1] + [s[|s| - 1]];
  }
}

/** Sums over the values of a finite map. */
module MapSums {

  ghost function Sum<K>(m: map<K, nat>): nat
    decreases |m|
  {
    if m == map[] then 0
    else
      var k :| k in m;
      m[k] + Sum(m - {k})
  }

  /** The choice of key inside `Sum` is immaterial. */
  lemma {:induction false} SumTakeOut<K>(m: map<K, nat>, k: K)
    requires k in m
    ensures Sum(m) == m[k] + Sum(m - {k})
    decreases |m|
  {
    var j :| j in m && Sum(m) == m[j] + Sum(m - {j});
    if j != k {
      SumTakeOut(m - {j}, k);
      SumTakeOut(m - {k}, j);
      assert m - {j} - {k} == m - {k} - {j};
    }
  }

  function Get<K>(m: map<K, nat>, k: K): nat {
    if k in m then m[k] else 0
  }

  lemma SumUpdate<K>(m: map<K, nat>, k: K, v: nat)
    ensures Sum(m[k := v]) == Sum(m) - Get(m, k) + v
  {
    var n := m[k := v];
    SumTakeOut(n, k);
    assert n - {k} == m - {k};
    if k in m {
      SumTakeOut(m, k);
    } else {
      assert m - {k} == m;
    }
  }

  lemma ValueAtMostSum<K>(m: map<K, nat>, k: K)
    ensures Get(m, k) <= Sum(m)
  {
  }
}
