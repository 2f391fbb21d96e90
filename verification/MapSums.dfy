/** Sums over the integer values of finite maps, as a case of sums of exact decimals. */
module MapSums {
  import RealSums

  ghost function Reals<K>(m: map<K, int>): map<K, real> {
    map k | k in m :: m[k] as real
  }

  ghost function Sum<K>(m: map<K, int>): int {
    RealSums.Sum(Reals(m)).Floor
  }

  function Get<K>(m: map<K, int>, k: K): int {
    if k in m then m[k] else 0
  }

  /** Sums of integers are integers, so that nothing is rounded. */
  lemma {:induction false} SumExact<K>(m: map<K, int>)
    ensures RealSums.Sum(Reals(m)) == Sum(m) as real
    decreases |m|
  {
    if m == map[] {
      assert Reals(m) == map[];
    } else {
      var k :| k in m;
      assert Reals(m) - {k} == Reals(m - {k});
      RealSums.SumRemove(Reals(m), k);
      SumExact(m - {k});
      assert RealSums.Sum(Reals(m)) == (m[k] + Sum(m - {k})) as real;
    }
  }

  lemma SumNone<K>()
    ensures Sum<K>(map[]) == 0
  {
    assert Reals<K>(map[]) == map[];
  }

  lemma SumRemove<K>(m: map<K, int>, k: K)
    ensures Sum(m) == Get(m, k) + Sum(m - {k})
  {
    SumExact(m);
    SumExact(m - {k});
    assert Reals(m) - {k} == Reals(m - {k});
    RealSums.SumRemove(Reals(m), k);
  }

  lemma SumUpdate<K>(m: map<K, int>, k: K, v: int)
    ensures Sum(m[k := v]) == Sum(m) - Get(m, k) + v
  {
    SumRemove(m, k);
    SumRemove(m[k := v], k);
    assert m[k := v] - {k} == m - {k};
  }

  ghost predicate Nonnegative<K(!new)>(m: map<K, int>) {
    forall k :: k in m ==> m[k] >= 0
  }

  lemma SumNonnegative<K(!new)>(m: map<K, int>)
    requires Nonnegative(m)
    ensures Sum(m) >= 0
  {
    RealSums.SumNonnegative(Reals(m));
    SumExact(m);
  }

  /** No value of a nonnegative map exceeds the sum. */
  lemma SumBounds<K(!new)>(m: map<K, int>, k: K)
    requires Nonnegative(m)
    ensures Get(m, k) <= Sum(m)
  {
    SumRemove(m, k);
    SumNonnegative(m - {k});
  }
}
