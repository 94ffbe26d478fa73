// Sums over the values of a finite map.

module MapSum {

  ghost function Total<K>(b: map<K, nat>): nat {
    if b.Keys == {} then 0
    else
      var k :| k in b.Keys;
      b[k] + Total(b - {k})
  }

  lemma {:induction false} TotalAt<K>(b: map<K, nat>, k: K)
    requires k in b
    ensures Total(b) == b[k] + Total(b - {k})
    decreases |b|
  {
    var j :| j in b.Keys && Total(b) == b[j] + Total(b - {j});
    if j != k {
      TotalAt(b - {j}, k);
      TotalAt(b - {k}, j);
      assert b - {j} - {k} == b - {k} - {j};
    }
  }

  lemma TotalSet<K>(b: map<K, nat>, k: K, u: nat)
    ensures Total(b[k := u]) == Total(b) + u - (if k in b then b[k] else 0)
  {
    TotalAt(b[k := u], k);
    if k in b {
      TotalAt(b, k);
      assert b[k := u] - {k} == b - {k};
    } else {
      assert b[k := u] - {k} == b;
    }
  }
}
