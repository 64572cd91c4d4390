/** Sums over the values of a finite map: every balance, power and supply total is one of these. */
module Sums {

  ghost function MapSum<K>(m: map<K, int>): int
  {
    if m == map[] then 0 else
      var k :| k in m;
      m[k] + MapSum(m - {k})
  }

  function Lookup<K>(m: map<K, int>, k: K): int
  {
    if k in m then m[k] else 0
  }

  /** Any key can be taken out first, so the sum does not depend on the order of summation. */
  lemma {:induction false} SumRemove<K>(m: map<K, int>, k: K)
    requires k in m
    ensures MapSum(m) == m[k] + MapSum(m - {k})
    decreases |m|
  {
    var j :| j in m && MapSum(m) == m[j] + MapSum(m - {j});
    if j != k {
      SumRemove(m - {j}, k);
      SumRemove(m - {k}, j);
      assert m - {j} - {k} == m - {k} - {j};
    }
  }

  lemma SumUpdate<K>(m: map<K, int>, k: K, v: int)
    ensures MapSum(m[k := v]) == MapSum(m) - Lookup(m, k) + v
  {
    SumRemove(m[k := v], k);
    assert m[k := v] - {k} == m - {k};
    if k in m {
      SumRemove(m, k);
    } else {
      assert m - {k} == m;
    }
  }

  /** The sum of a map split over two disjoint sets of keys. */
  lemma {:induction false} SumSplit<K>(m: map<K, int>, a: map<K, int>, b: map<K, int>)
    requires forall k :: k in m <==> k in a || k in b
    requires forall k :: k in a ==> k !in b && m[k] == a[k]
    requires forall k :: k in b ==> m[k] == b[k]
    ensures MapSum(m) == MapSum(a) + MapSum(b)
    decreases |a|
  {
    if a == map[] {
      assert m == b;
    } else {
      var k :| k in a;
      SumRemove(a, k);
      SumRemove(m, k);
      var m', a' := m - {k}, a - {k};
      SumSplit(m', a', b);
    }
  }

  /** Entrywise smaller maps, with only non-negative extra entries on the right, have smaller sums. */
  lemma {:induction false} SumLeq<K>(a: map<K, int>, b: map<K, int>)
    requires forall k :: k in a ==> a[k] <= Lookup(b, k)
    requires forall k :: k in b && k !in a ==> 0 <= b[k]
    ensures MapSum(a) <= MapSum(b)
    decreases |a| + |b|
  {
    if b != map[] {
      var k :| k in b;
      SumRemove(b, k);
      if k in a {
        SumRemove(a, k);
        SumLeq(a - {k}, b - {k});
      } else {
        SumLeq(a, b - {k});
      }
    } else if a != map[] {
      var k :| k in a;
      SumRemove(a, k);
      SumLeq(a - {k}, b);
    }
  }

  lemma SumNonNegative<K>(m: map<K, int>)
    requires forall k :: k in m ==> 0 <= m[k]
    ensures 0 <= MapSum(m)
  {
    var none: map<K, int> := map[];
    SumLeq(none, m);
  }

  lemma ZeroSum<K>(m: map<K, int>)
    requires forall k :: k in m ==> m[k] == 0
    ensures MapSum(m) == 0
  {
    var none: map<K, int> := map[];
    SumLeq(m, none);
    SumNonNegative(m);
  }

  lemma EntryLeqSum<K>(m: map<K, int>, k: K)
    requires forall j :: j in m ==> 0 <= m[j]
    ensures 0 <= Lookup(m, k) <= MapSum(m)
  {
    SumNonNegative(m);
    if k in m {
      SumRemove(m, k);
      SumNonNegative(m - {k});
    }
  }

  /** If the entries of `a` are covered by distinct entries of the non-negative map `b`, so is the sum. */
  lemma {:induction false} SumInjection<K, J>(a: map<K, int>, b: map<J, int>, f: map<K, J>)
    requires forall k :: k in a ==> k in f && f[k] in b && a[k] <= b[f[k]]
    requires forall k, l :: k in a && l in a && f[k] == f[l] ==> k == l
    requires forall j :: j in b ==> 0 <= b[j]
    ensures MapSum(a) <= MapSum(b)
    decreases |a|
  {
    if a == map[] {
      SumNonNegative(b);
    } else {
      var k :| k in a;
      SumRemove(a, k);
      SumRemove(b, f[k]);
      SumInjection(a - {k}, b - {f[k]}, f);
    }
  }
}
