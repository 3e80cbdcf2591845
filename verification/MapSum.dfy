// The sum of a finite map's values.
module MapSum {

  ghost function Sum<K>(m: map<K, int>): int
    decreases |m|
  {
    if m == map[] then 0
    else
      var k :| k in m;
      m[k] + Sum(m - {k})
  }

  // The sum may be taken in any order.
  lemma {:induction false} SumSplit<K>(m: map<K, int>, k: K)
    requires k in m
    ensures Sum(m) == m[k] + Sum(m - {k})
    decreases |m|
  {
    var first :| first in m && Sum(m) == m[first] + Sum(m - {first});
    if first != k {
      SumSplit(m - {first}, k);
      SumSplit(m - {k}, first);
      assert m - {first} - {k} == m - {k} - {first};
    }
  }

  lemma SumInsert<K>(m: map<K, int>, k: K, v: int)
    requires k !in m
    ensures Sum(m[k := v]) == Sum(m) + v
  {
    SumSplit(m[k := v], k);
    assert m[k := v] - {k} == m;
  }

  lemma {:induction false} SumSubset<K>(a: map<K, int>, b: map<K, int>)
    requires a.Keys <= b.Keys && forall k | k in a :: a[k] == b[k]
    requires forall k | k in b :: b[k] >= 0
    ensures Sum(a) <= Sum(b)
    decreases |b|
  {
    if a.Keys == b.Keys {
      assert a == b;
    } else {
      var k :| k in b && k !in a;
      SumSplit(b, k);
      SumSubset(a, b - {k});
    }
  }

  lemma {:induction false} SumAtMost<K>(m: map<K, int>, bound: int)
    requires forall k | k in m :: m[k] <= bound
    ensures Sum(m) <= |m| * bound
    decreases |m|
  {
    if m != map[] {
      var k :| k in m;
      SumSplit(m, k);
      var rest := m - {k};
      assert rest.Keys == m.Keys - {k};
      assert |rest| == |m| - 1;
      SumAtMost(rest, bound);
      OneMore(|rest|, bound);
    }
  }

  lemma OneMore(n: nat, bound: int)
    ensures (n + 1) * bound == n * bound + bound
  {
  }
}
