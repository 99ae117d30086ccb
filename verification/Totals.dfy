/** Sums over the entries of a map. */
module Totals {
  ghost function Total<K, V>(m: map<K, V>, weight: (K, V) -> nat): (n: nat)
    decreases |m|
  {
    if m == map[] then 0
    else
      var k :| k in m;
      weight(k, m[k]) + Total(m - {k}, weight)
  }

  lemma {:induction false} TotalSplit<K, V>(m: map<K, V>, weight: (K, V) -> nat, k: K)
    requires k in m
    ensures Total(m, weight) == weight(k, m[k]) + Total(m - {k}, weight)
    decreases |m|
  {
    var j :| j in m && Total(m, weight) == weight(j, m[j]) + Total(m - {j}, weight);
    if j != k {
      TotalSplit(m - {j}, weight, k);
      TotalSplit(m - {k}, weight, j);
      assert m - {j} - {k} == m - {k} - {j};
    }
  }

  /** Entering `v` under a fresh or existing key changes the total by the difference. */
  lemma TotalUpdate<K, V>(m: map<K, V>, weight: (K, V) -> nat, k: K, v: V)
    ensures Total(m[k := v], weight) + (if k in m then weight(k, m[k]) else 0) == Total(m, weight) + weight(k, v)
  {
    TotalSplit(m[k := v], weight, k);
    if k in m {
      TotalSplit(m, weight, k);
      assert m[k := v] - {k} == m - {k};
    } else {
      assert m[k := v] - {k} == m;
    }
  }
}
