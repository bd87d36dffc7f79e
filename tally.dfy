/**
 * Frequency maps as the statistics store keeps them: each key maps to the
 * number of times it was seen. `Bump` is the store's
 * `*map.entry(k).or_insert(0) += 1`; `Total` is the sum of every count.
 * Counts are unbounded here (the source's `u32` overflow is not modelled).
 */
module Tally {

  /** The count recorded for `k`, 0 when `k` has never been seen. */
  function Count<K>(m: map<K, nat>, k: K): nat {
    if k in m then m[k] else 0
  }

  /** Record one more occurrence of `k`, inserting it with count 1 if absent. */
  function Bump<K>(m: map<K, nat>, k: K): (r: map<K, nat>)
    ensures r.Keys == m.Keys + {k}
    ensures r[k] == Count(m, k) + 1
    ensures forall j :: j in m && j != k ==> r[j] == m[j]
  {
    m[k := Count(m, k) + 1]
  }

  /** The sum of the counts of the keys in `ks`. */
  ghost function SumOver<K>(m: map<K, nat>, ks: set<K>): nat
    requires ks <= m.Keys
    decreases ks
  {
    if ks == {} then 0 else var k :| k in ks; m[k] + SumOver(m, ks - {k})
  }

  /** The sum of all counts in `m`. */
  ghost function Total<K>(m: map<K, nat>): nat {
    SumOver(m, m.Keys)
  }

  /** Any key can be taken out of the sum first, whichever one the definition picks. */
  lemma {:induction false} SumOverRemove<K>(m: map<K, nat>, ks: set<K>, k: K)
    requires ks <= m.Keys && k in ks
    ensures SumOver(m, ks) == m[k] + SumOver(m, ks - {k})
    decreases ks
  {
    var j :| j in ks && SumOver(m, ks) == m[j] + SumOver(m, ks - {j});
    if j != k {
      SumOverRemove(m, ks - {j}, k);
      SumOverRemove(m, ks - {k}, j);
      assert ks - {j} - {k} == ks - {k} - {j};
    }
  }

  /** The sum over `ks` only depends on the counts of the keys in `ks`. */
  lemma {:induction false} SumOverAgree<K>(m1: map<K, nat>, m2: map<K, nat>, ks: set<K>)
    requires ks <= m1.Keys && ks <= m2.Keys
    requires forall k :: k in ks ==> m1[k] == m2[k]
    ensures SumOver(m1, ks) == SumOver(m2, ks)
    decreases ks
  {
    if ks != {} {
      var k :| k in ks && SumOver(m1, ks) == m1[k] + SumOver(m1, ks - {k});
      SumOverRemove(m2, ks, k);
      SumOverAgree(m1, m2, ks - {k});
    }
  }

  /** No count exceeds the total. */
  lemma CountBelowTotal<K>(m: map<K, nat>, k: K)
    ensures Count(m, k) <= Total(m)
  {
    if k in m {
      SumOverRemove(m, m.Keys, k);
    }
  }

  /** One `Bump` adds exactly one to the total. */
  lemma TotalBump<K>(m: map<K, nat>, k: K)
    ensures Total(Bump(m, k)) == Total(m) + 1
  {
    var r := Bump(m, k);
    SumOverRemove(r, r.Keys, k);
    if k in m {
      SumOverRemove(m, m.Keys, k);
      assert r.Keys - {k} == m.Keys - {k};
    } else {
      assert r.Keys - {k} == m.Keys;
    }
    SumOverAgree(r, m, r.Keys - {k});
  }
}
