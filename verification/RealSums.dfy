/** Sums over the values of finite maps, in exact decimals. */
module RealSums {
  ghost function Sum<K>(m: map<K, real>): real
    decreases |m|
  {
    if m == map[] then 0.0 else
    var k :| k in m;
    m[k] + Sum(m - {k})
  }

  function Get<K>(m: map<K, real>, k: K): real {
    if k in m then m[k] else 0.0
  }

  lemma SumNone<K>()
    ensures Sum<K>(map[]) == 0.0
  {
  }

  lemma {:induction false} SumRemove<K>(m: map<K, real>, k: K)
    ensures Sum(m) == Get(m, k) + Sum(m - {k})
    decreases |m|
  {
    if k !in m {
      assert m - {k} == m;
    } else {
      var x :| x in m && Sum(m) == m[x] + Sum(m - {x});
      if x != k {
        SumRemove(m - {x}, k);
        SumRemove(m - {k}, x);
        assert m - {x} - {k} == m - {k} - {x};
      }
    }
  }

  lemma SumUpdate<K>(m: map<K, real>, k: K, v: real)
    ensures Sum(m[k := v]) == Sum(m) - Get(m, k) + v
  {
    SumRemove(m, k);
    SumRemove(m[k := v], k);
    assert m[k := v] - {k} == m - {k};
  }

  ghost predicate Nonnegative<K(!new)>(m: map<K, real>) {
    forall k :: k in m ==> m[k] >= 0.0
  }

  lemma {:induction false} SumNonnegative<K(!new)>(m: map<K, real>)
    requires Nonnegative(m)
    ensures Sum(m) >= 0.0
    decreases |m|
  {
    if m != map[] {
      var k :| k in m;
      SumNonnegative(m - {k});
      SumRemove(m, k);
    }
  }
}
