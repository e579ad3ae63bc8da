/** Sums over the values of a map. */
module Sums {

  ghost function Sum<K, V>(m: map<K, V>, weight: V -> nat): nat
    decreases |m|
  {
    if m == map[] then 0
    else
      var k :| k in m;
      weight(m[k]) + Sum(m - {k}, weight)
  }

  lemma {:induction false} SumSplit<K, V>(m: map<K, V>, weight: V -> nat, k: K)
    requires k in m
    ensures Sum(m, weight) == weight(m[k]) + Sum(m - {k}, weight)
    decreases |m|
  {
    var j :| j in m && Sum(m, weight) == weight(m[j]) + Sum(m - {j}, weight);
    if j != k {
      SumSplit(m - {j}, weight, k);
      SumSplit(m - {k}, weight, j);
      assert m - {j} - {k} == m - {k} - {j};
    }
  }

  /** Changing or adding one value changes the sum by the difference. */
  lemma SumUpdate<K, V>(m: map<K, V>, weight: V -> nat, k: K, v: V)
    ensures Sum(m[k := v], weight) + (if k in m then weight(m[k]) else 0) == Sum(m, weight) + weight(v)
  {
    SumSplit(m[k := v], weight, k);
    assert m[k := v] - {k} == m - {k};
    if k in m {
      SumSplit(m, weight, k);
    } else {
      assert m - {k} == m;
    }
  }
}
