/**
 Sums of a natural-number weight over the entries of a finite map. Every machine of this
 project counts threads, messages, jobs or bytes with `Total`, so that "the counter equals
 the number of threads at these program points" is one fact with one update lemma.
 */
module Totals {

  /** The sum of `weight` over the values of `m`. */
  ghost function Total<T>(m: map<nat, T>, weight: T -> nat): nat
    decreases |m|
  {
    if m == map[] then 0
    else
      var k :| k in m;
      weight(m[k]) + Total(m - {k}, weight)
  }

  /** The choice of the first entry does not matter: any entry can be split off. */
  lemma {:induction false} TotalSplit<T>(m: map<nat, T>, weight: T -> nat, k: nat)
    requires k in m
    ensures Total(m, weight) == weight(m[k]) + Total(m - {k}, weight)
    decreases |m|
  {
    var j :| j in m && Total(m, weight) == weight(m[j]) + Total(m - {j}, weight);
    if j != k {
      TotalSplit(m - {j}, weight, k);
      TotalSplit(m - {k}, weight, j);
      assert m - {j} - {k} == m - {k} - {j};
    }
  }

  /** Writing one entry changes the sum by exactly that entry's change. */
  lemma TotalUpdate<T>(m: map<nat, T>, weight: T -> nat, k: nat, v: T)
    ensures Total(m[k := v], weight) + (if k in m then weight(m[k]) else 0) == Total(m, weight) + weight(v)
  {
    TotalSplit(m[k := v], weight, k);
    assert m[k := v] - {k} == m - {k};
    if k in m {
      TotalSplit(m, weight, k);
    } else {
      assert m - {k} == m;
    }
  }

  /** Removing one entry takes exactly its weight off the sum. */
  lemma TotalRemove<T>(m: map<nat, T>, weight: T -> nat, k: nat)
    ensures Total(m - {k}, weight) + (if k in m then weight(m[k]) else 0) == Total(m, weight)
  {
    if k in m {
      TotalSplit(m, weight, k);
    } else {
      assert m - {k} == m;
    }
  }

  /** A sum is at least each of its terms. */
  lemma TotalAtLeast<T>(m: map<nat, T>, weight: T -> nat, k: nat)
    requires k in m
    ensures weight(m[k]) <= Total(m, weight)
  {
    TotalSplit(m, weight, k);
  }

  /** A positive sum has a positive term. */
  lemma {:induction false} TotalPositive<T>(m: map<nat, T>, weight: T -> nat)
    requires Total(m, weight) > 0
    ensures exists k :: k in m && weight(m[k]) > 0
    decreases |m|
  {
    var j :| j in m && Total(m, weight) == weight(m[j]) + Total(m - {j}, weight);
    if weight(m[j]) == 0 {
      TotalPositive(m - {j}, weight);
    }
  }

  /** A sum without a positive term is zero. */
  lemma TotalZero<T>(m: map<nat, T>, weight: T -> nat)
    requires forall k :: k in m ==> weight(m[k]) == 0
    ensures Total(m, weight) == 0
  {
    if Total(m, weight) > 0 {
      TotalPositive(m, weight);
    }
  }

  /** Two entries together are within the sum. */
  lemma TotalAtLeastPair<T>(m: map<nat, T>, weight: T -> nat, j: nat, k: nat)
    requires j in m && k in m && j != k
    ensures weight(m[j]) + weight(m[k]) <= Total(m, weight)
  {
    TotalSplit(m, weight, j);
    TotalSplit(m - {j}, weight, k);
  }
}
