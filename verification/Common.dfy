/** Small vocabulary shared by the component models. */
module Common {

  type byte = x: int | 0 <= x < 256

  datatype Option<+T> = None | Some(value: T)

  datatype Result<+T, +E> = Ok(value: T) | Err(error: E)

  /** Removing a present key from a finite map leaves one entry fewer. */
  lemma RemoveKeyShrinks<K, V>(m: map<K, V>, k: K)
    requires k in m
    ensures |m - {k}| == |m| - 1
    ensures (m - {k}).Keys == m.Keys - {k}
  {
    assert (m - {k}).Keys == m.Keys - {k};
  }

  lemma AddKeyGrows<K, V>(m: map<K, V>, k: K, v: V)
    requires k !in m
    ensures |m[k := v]| == |m| + 1
  {
    assert m[k := v].Keys == m.Keys + {k};
  }

  /** A set that maps injectively into the values of `m` is no larger than `m`. */
  lemma {:induction false} ValuesBound<K, V>(m: map<K, V>, vs: set<V>)
    requires forall v :: v in vs ==> exists k :: k in m && m[k] == v
    ensures |vs| <= |m|
    decreases |vs|
  {
    if vs != {} {
      var v :| v in vs;
      var k :| k in m && m[k] == v;
      RemoveKeyShrinks(m, k);
      forall w | w in vs - {v}
        ensures exists j :: j in m - {k} && (m - {k})[j] == w
      {
        var j :| j in m && m[j] == w;
        assert j in m - {k};
      }
      ValuesBound(m - {k}, vs - {v});
    }
  }
}
