/**
 Small facts about updating and restricting maps, and about sets of keys.
 */
module Maps {

  lemma MapSet<K, V>(m: map<K, V>, a: map<K, V>, k: K, v: V)
    requires a.Keys == m.Keys + {k} && a[k] == v
    requires forall j :: j in m && j != k ==> a[j] == m[j]
    ensures a == m[k := v]
  {
  }

  lemma MapSetTwice<K, V>(m: map<K, V>, k: K, v: V, w: V)
    ensures m[k := v][k := w] == m[k := w]
  {
  }

  lemma MapSetSame<K, V>(m: map<K, V>, k: K)
    requires k in m
    ensures m[k := m[k]] == m
  {
  }

  lemma MapDrop<K, V>(m: map<K, V>, a: map<K, V>, ks: set<K>)
    requires a.Keys == m.Keys - ks
    requires forall j :: j in a ==> a[j] == m[j]
    ensures a == m - ks
  {
  }

  lemma MapSame<K, V>(a: map<K, V>, b: map<K, V>)
    requires a.Keys == b.Keys && forall k :: k in a ==> a[k] == b[k]
    ensures a == b
  {
  }

  lemma KeysWithout<K, V>(m: map<K, V>, k: K)
    ensures (m - {k}).Keys == m.Keys - {k}
  {
  }

  lemma RemoveAllKeys<K, V>(m: map<K, V>, ks: set<K>)
    requires ks == m.Keys
    ensures m - ks == map[]
  {
  }

  lemma RemoveNoKeys<K, V, W>(m: map<K, V>, none: map<K, W>)
    requires |none| == 0
    ensures m - none.Keys == m
  {
  }

  // Some key; which one is left open, as when ranging over a map.
  method AnyKey<K(==), V>(m: map<K, V>) returns (k: K)
    requires |m| > 0
    ensures k in m
  {
    k :| k in m.Keys;
  }

  lemma SubsetSize<T>(a: set<T>, b: set<T>)
    requires a <= b
    ensures |a| <= |b| && (|a| == |b| ==> a == b)
  {
    assert b == a + (b - a);
  }
}
