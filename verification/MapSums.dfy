/** Sums over the values of a finite map, whatever order they are taken in. */
module MapSums {

  ghost function Sum<K, V>(m: map<K, V>, weight: V -> nat): nat
    decreases |m|
  {
    if m == map[] then 0
    else
      var k :| k in m;
      assert |m - {k}| < |m|;
      weight(m[k]) + Sum(m - {k}, weight)
  }

  lemma {:induction false} SumRemove<K, V>(m: map<K, V>, k: K, weight: V -> nat)
    requires k in m
    ensures Sum(m, weight) == weight(m[k]) + Sum(m - {k}, weight)
    decreases |m|
  {
    var p :| p in m && Sum(m, weight) == weight(m[p]) + Sum(m - {p}, weight);
    if p != k {
      assert |m - {p}| < |m| && |m - {k}| < |m|;
      SumRemove(m - {p}, k, weight);
      SumRemove(m - {k}, p, weight);
      assert m - {p} - {k} == m - {k} - {p};
    }
  }

  lemma SumPut<K, V>(m: map<K, V>, k: K, v: V, weight: V -> nat)
    ensures Sum(m[k := v], weight) == weight(v) + Sum(m - {k}, weight)
    ensures k !in m ==> Sum(m[k := v], weight) == weight(v) + Sum(m, weight)
  {
    SumRemove(m[k := v], k, weight);
    assert m[k := v] - {k} == m - {k};
    assert k !in m ==> m - {k} == m;
  }

  /** Keeping only some keys never raises the sum. */
  lemma {:induction false} SumSubset<K, V>(part: map<K, V>, m: map<K, V>, weight: V -> nat)
    requires part.Keys <= m.Keys && forall k :: k in part ==> part[k] == m[k]
    ensures Sum(part, weight) <= Sum(m, weight)
    decreases |part|
  {
    if part != map[] {
      var k :| k in part;
      assert |part - {k}| < |part|;
      SumRemove(part, k, weight);
      SumRemove(m, k, weight);
      SumSubset(part - {k}, m - {k}, weight);
    }
  }
}
