/** Sums over tables of counts. */
module Tally {
  /** The sum of a finite table of counts. */
  ghost function Sum(m: map<nat, nat>): nat
    decreases |m|
  {
    if m == map[] then 0 else
      var k :| k in m;
      m[k] + Sum(m - {k})
  }

  lemma {:induction false} SumRemoves(m: map<nat, nat>, k: nat)
    requires k in m
    ensures Sum(m) == m[k] + Sum(m - {k})
    decreases |m|
  {
    var j :| j in m && Sum(m) == m[j] + Sum(m - {j});
    if j != k {
      SumRemoves(m - {j}, k);
      SumRemoves(m - {k}, j);
      assert m - {j} - {k} == m - {k} - {j};
    }
  }

  lemma SumUpdates(m: map<nat, nat>, k: nat, v: nat)
    ensures Sum(m[k := v]) == Sum(m - {k}) + v
    ensures k !in m ==> m - {k} == m
  {
    SumRemoves(m[k := v], k);
    assert m[k := v] - {k} == m - {k};
  }

  lemma {:induction false} SumIsZero(m: map<nat, nat>)
    ensures Sum(m) == 0 <==> (forall k :: k in m ==> m[k] == 0)
    decreases |m|
  {
    if m != map[] {
      var j :| j in m && Sum(m) == m[j] + Sum(m - {j});
      SumIsZero(m - {j});
      assert forall k :: k in m <==> k == j || k in m - {j};
    }
  }
}
