/** Sums over the entries of a finite map, the common currency of every counter in the models. */
module MapSums {

  ghost function Sum<K(!new), V(!new)>(m: map<K, V>, f: V -> int): int
    decreases |m|
  {
    if m == map[] then 0 else
      var k :| k in m;
      f(m[k]) + Sum(m - {k}, f)
  }

  /** The sum does not depend on the order in which the entries are taken. */
  lemma {:induction false} SumRemove<K(!new), V(!new)>(m: map<K, V>, f: V -> int, k: K)
    requires k in m
    ensures Sum(m, f) == f(m[k]) + Sum(m - {k}, f)
    decreases |m|
  {
    var k0 :| k0 in m && Sum(m, f) == f(m[k0]) + Sum(m - {k0}, f);
    if k0 != k {
      SumRemove(m - {k0}, f, k);
      SumRemove(m - {k}, f, k0);
      assert m - {k0} - {k} == m - {k} - {k0};
    }
  }

  lemma SumUpdate<K(!new), V(!new)>(m: map<K, V>, f: V -> int, k: K, v: V)
    ensures Sum(m[k := v], f) == Sum(m, f) - (if k in m then f(m[k]) else 0) + f(v)
  {
    SumRemove(m[k := v], f, k);
    if k in m {
      SumRemove(m, f, k);
      assert m[k := v] - {k} == m - {k};
    } else {
      assert m[k := v] - {k} == m;
    }
  }

  lemma {:induction false} SumNonNegative<K(!new), V(!new)>(m: map<K, V>, f: V -> int)
    requires forall k :: k in m ==> f(m[k]) >= 0
    ensures Sum(m, f) >= 0
    decreases |m|
  {
    if m != map[] {
      var k :| k in m;
      SumRemove(m, f, k);
      SumNonNegative(m - {k}, f);
    }
  }

  lemma {:induction false} SumZero<K(!new), V(!new)>(m: map<K, V>, f: V -> int)
    requires forall k :: k in m ==> f(m[k]) == 0
    ensures Sum(m, f) == 0
    decreases |m|
  {
    if m != map[] {
      var k :| k in m;
      SumRemove(m, f, k);
      SumZero(m - {k}, f);
    }
  }

  lemma SumAtLeast<K(!new), V(!new)>(m: map<K, V>, f: V -> int, k: K)
    requires k in m
    requires forall k' :: k' in m ==> f(m[k']) >= 0
    ensures f(m[k]) <= Sum(m, f)
  {
    SumRemove(m, f, k);
    SumNonNegative(m - {k}, f);
  }

  lemma {:induction false} SumBetween<K(!new), V(!new)>(m: map<K, V>, f: V -> int, lo: int, hi: int)
    requires forall k :: k in m ==> lo <= f(m[k]) <= hi
    ensures lo * |m| <= Sum(m, f) <= hi * |m|
    decreases |m|
  {
    if m != map[] {
      var k :| k in m;
      SumRemove(m, f, k);
      SumBetween(m - {k}, f, lo, hi);
      hide Sum;
      OneLess(m, k);
      OneMoreTime(lo, |m - {k}|);
      OneMoreTime(hi, |m - {k}|);
    }
  }

  lemma OneLess<K(!new), V>(m: map<K, V>, k: K)
    requires k in m
    ensures |m| == |m - {k}| + 1
  {
    assert m.Keys == (m - {k}).Keys + {k};
    assert |m| == |m.Keys| && |m - {k}| == |(m - {k}).Keys|;
  }

  lemma OneMoreTime(x: int, n: nat)
    ensures x * (n + 1) == x * n + x
  {
  }

  /** Summing an indicator counts. */
  lemma {:induction false} SumIndicator<K(!new), V(!new)>(m: map<K, V>, f: V -> int, s: set<K>)
    requires s <= m.Keys
    requires forall k :: k in m ==> f(m[k]) == if k in s then 1 else 0
    ensures Sum(m, f) == |s|
    decreases |m|
  {
    if m != map[] {
      var k :| k in m;
      SumRemove(m, f, k);
      SumIndicator(m - {k}, f, s - {k});
    }
  }

  /** Four indicators of which exactly one is 1 on every entry count the whole map. */
  lemma {:induction false} SumPartition<K(!new), V(!new)>(m: map<K, V>, f: V -> int, g: V -> int, h: V -> int, i: V -> int)
    requires forall k :: k in m ==> f(m[k]) + g(m[k]) + h(m[k]) + i(m[k]) == 1
    ensures Sum(m, f) + Sum(m, g) + Sum(m, h) + Sum(m, i) == |m|
    decreases |m|
  {
    if m != map[] {
      var k :| k in m;
      SumRemove(m, f, k);
      SumRemove(m, g, k);
      SumRemove(m, h, k);
      SumRemove(m, i, k);
      SumPartition(m - {k}, f, g, h, i);
      OneLess(m, k);
    }
  }
}
