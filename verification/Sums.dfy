/** The sum of the numbers in a map. */
module Sums {

  ghost function Sum<K>(m: map<K, nat>): nat {
    if m == map[] then 0
    else
      var k :| k in m;
      m[k] + Sum(m - {k})
  }

  /** Any entry can be taken out of the sum first. */
  lemma {:induction false} SumTakesOutAny<K>(m: map<K, nat>, k: K)
    requires k in m
    ensures Sum(m) == m[k] + Sum(m - {k})
  {
    var first :| first in m && Sum(m) == m[first] + Sum(m - {first});
    if first != k {
      SumTakesOutAny(m - {first}, k);
      SumTakesOutAny(m - {k}, first);
      assert m - {first} - {k} == m - {k} - {first};
    }
  }

  lemma SumAfterUpdate<K>(m: map<K, nat>, k: K, n: nat)
    ensures Sum(m[k := n]) == Sum(m) - (if k in m then m[k] else 0) + n
  {
    SumTakesOutAny(m[k := n], k);
    assert m[k := n] - {k} == m - {k};
    if k in m {
      SumTakesOutAny(m, k);
    } else {
      assert m - {k} == m;
    }
  }
}
