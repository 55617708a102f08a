/** The sum of the values of a finite map, independent of the order of summation. */
module MapSum {

  lemma InhabitedMap<K, V>(m: map<K, V>)
    ensures m == map[] || exists k :: k in m
  {
    if forall k :: k !in m { assert m == map[]; }
  }

  ghost function Sum<K(!new)>(m: map<K, int>): int
    decreases |m|
  {
    if m == map[] then 0
    else
      InhabitedMap(m);
      var k :| k in m;
      SmallerMap(m, k);
      m[k] + Sum(m - {k})
  }

  lemma SmallerMap<K, V>(m: map<K, V>, k: K)
    requires k in m
    ensures |m - {k}| == |m| - 1
  {
    assert (m - {k}).Keys == m.Keys - {k};
    assert |m - {k}| == |(m - {k}).Keys| && |m| == |m.Keys|;
  }

  lemma {:induction false} SumRemove<K(!new)>(m: map<K, int>, k: K)
    requires k in m
    ensures Sum(m) == m[k] + Sum(m - {k})
    decreases |m|
  {
    InhabitedMap(m);
    var c :| c in m && Sum(m) == m[c] + Sum(m - {c});
    if c != k {
      SmallerMap(m, c);
      SmallerMap(m, k);
      SumRemove(m - {c}, k);
      SumRemove(m - {k}, c);
      assert m - {c} - {k} == m - {k} - {c};
    }
  }

  lemma SumUpdate<K(!new)>(m: map<K, int>, k: K, v: int)
    ensures Sum(m[k := v]) == Sum(m) + v - if k in m then m[k] else 0
  {
    var u := m[k := v];
    SumRemove(u, k);
    if k in m {
      SumRemove(m, k);
      assert u - {k} == m - {k};
    } else {
      assert u - {k} == m;
    }
  }

  lemma {:induction false} SumNonNegative<K(!new)>(m: map<K, int>)
    requires forall k :: k in m ==> m[k] >= 0
    ensures Sum(m) >= 0
    decreases |m|
  {
    if m != map[] {
      InhabitedMap(m);
      var c :| c in m && Sum(m) == m[c] + Sum(m - {c});
      SmallerMap(m, c);
      SumNonNegative(m - {c});
    }
  }

  /** No single value exceeds the sum of values that are not negative. */
  lemma MemberAtMostSum<K(!new)>(m: map<K, int>, k: K)
    requires k in m && forall j :: j in m ==> m[j] >= 0
    ensures m[k] <= Sum(m)
  {
    SumRemove(m, k);
    SumNonNegative(m - {k});
  }
}
