/** The sum of the values of a finite map, and how it changes under one update. */
module MapSums {

  ghost function Sum<K>(m: map<K, int>): int
    decreases |m|
  {
    if |m| == 0 then 0
    else
      var k := Pick(m);
      RemoveSize(m, k);
      m[k] + Sum(m - {k})
  }

  /** The key `Sum` takes out first. */
  ghost function Pick<K>(m: map<K, int>): (k: K)
    requires |m| > 0
    ensures k in m
  {
    var k :| k in m; k
  }

  /** Taking a key out leaves one entry fewer. */
  lemma RemoveSize<K>(m: map<K, int>, k: K)
    requires k in m
    ensures (m - {k}).Keys == m.Keys - {k}
    ensures |m - {k}| == |m| - 1
  {
    assert (m - {k}).Keys == m.Keys - {k};
  }

  /** Any key can be taken out first. */
  lemma {:induction false} SumRemove<K>(m: map<K, int>, k: K)
    requires k in m
    ensures Sum(m) == m[k] + Sum(m - {k})
    decreases |m|
  {
    var j := Pick(m);
    assert Sum(m) == m[j] + Sum(m - {j});
    if j != k {
      var mj, mk := m - {j}, m - {k};
      RemoveSize(m, j);
      RemoveSize(m, k);
      assert k in mj && mj[k] == m[k];
      assert j in mk && mk[j] == m[j];
      var rest := mj - {k};
      assert rest == mk - {j};
      SumRemove(mj, k);
      SumRemove(mk, j);
      assert Sum(mj) == m[k] + Sum(rest);
      assert Sum(mk) == m[j] + Sum(rest);
    }
  }

  /** Replacing (or adding) one value changes the sum by the difference. */
  lemma SumUpdate<K>(m: map<K, int>, k: K, v: int)
    ensures Sum(m[k := v]) == Sum(m) - (if k in m then m[k] else 0) + v
  {
    SumRemove(m[k := v], k);
    UpdateRemove(m, k, v);
    if k in m {
      SumRemove(m, k);
    }
  }

  /** Updating a key and then taking it out is taking it out. */
  lemma UpdateRemove<K>(m: map<K, int>, k: K, v: int)
    ensures m[k := v] - {k} == m - {k}
    ensures k !in m ==> m - {k} == m
  {
  }
}
