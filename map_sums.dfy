/** Sums over the values of a finite map, independent of any key order. */
module MapSums {

  /** Some key of a non-empty key set. */
  ghost function Pick<K>(keys: set<K>): (k: K)
    requires keys != {}
    ensures k in keys
  {
    var k :| k in keys; k
  }

  lemma RemoveOneKey<K>(m: map<K, nat>, k: K)
    requires k in m
    ensures |m - {k}| == |m| - 1
  {
    assert (m - {k}).Keys == m.Keys - {k};
  }

  /** The sum of the values of `m`. */
  ghost function SumValues<K>(m: map<K, nat>): nat
    decreases |m|
  {
    if |m| == 0 then 0
    else
      var k := Pick(m.Keys);
      RemoveOneKey(m, k);
      m[k] + SumValues(m - {k})
  }

  /** The sum may be split off at any key, whichever key the definition picked. */
  lemma {:induction false} SumValuesRemove<K>(m: map<K, nat>, k: K)
    requires k in m
    ensures SumValues(m) == m[k] + SumValues(m - {k})
    decreases |m|
  {
    var k' := Pick(m.Keys);
    if k' != k {
      RemoveOneKey(m, k');
      RemoveOneKey(m, k);
      SumValuesRemove(m - {k'}, k);
      SumValuesRemove(m - {k}, k');
      assert m - {k'} - {k} == m - {k} - {k'};
    }
  }

  /** Adding `d` to one entry (or a new entry `d`) adds `d` to the sum. */
  lemma SumValuesBump<K>(m: map<K, nat>, k: K, d: nat)
    ensures SumValues(m[k := (if k in m then m[k] else 0) + d]) == SumValues(m) + d
  {
    var m' := m[k := (if k in m then m[k] else 0) + d];
    SumValuesRemove(m', k);
    assert m' - {k} == m - {k};
    if k in m {
      SumValuesRemove(m, k);
    } else {
      assert m - {k} == m;
    }
  }
}
