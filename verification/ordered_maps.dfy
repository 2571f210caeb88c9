/**
  Insertion-ordered finite maps, the common shape of a JavaScript plain object
  with non-numeric keys (`Object.keys` order) and of a JavaScript `Map`
  (iteration order). An entry that is re-set keeps its place; a new key is
  appended at the end; a deleted key disappears without disturbing the others.
 */
module OrderedMaps {
  import opened Options

  type OMap<K, V> = seq<(K, V)>

  /** The keys, in iteration order. */
  function Keys<K, V>(m: OMap<K, V>): (ks: seq<K>)
    ensures |ks| == |m|
    ensures forall i :: 0 <= i < |m| ==> ks[i] == m[i].0
  {
    if m == [] then [] else [m[0].0] + Keys(m[1..])
  }

  /** The values, in iteration order. */
  function Values<K, V>(m: OMap<K, V>): (vs: seq<V>)
    ensures |vs| == |m|
    ensures forall i :: 0 <= i < |m| ==> vs[i] == m[i].1
  {
    if m == [] then [] else [m[0].1] + Values(m[1..])
  }

  predicate HasKey<K(==), V>(m: OMap<K, V>, k: K) {
    m != [] && (m[0].0 == k || HasKey(m[1..], k))
  }

  /** No key occurs twice: true of every object and every `Map`. */
  predicate DistinctKeys<K(==), V>(m: OMap<K, V>) {
    m == [] || (!HasKey(m[1..], m[0].0) && DistinctKeys(m[1..]))
  }

  /** Property read `m[k]`: `None` plays the part of `undefined`. */
  function Get<K(==), V>(m: OMap<K, V>, k: K): (r: Option<V>)
  {
    if m == [] then None
    else if m[0].0 == k then Some(m[0].1)
    else Get(m[1..], k)
  }

  /** Property write `m[k] = v` (or `Map.prototype.set`). */
  function Set<K(==), V>(m: OMap<K, V>, k: K, v: V): (r: OMap<K, V>)
  {
    if m == [] then [(k, v)]
    else if m[0].0 == k then [(k, v)] + m[1..]
    else [m[0]] + Set(m[1..], k, v)
  }

  /** `Map.prototype.delete`: removes every entry under the key. */
  function Delete<K(==), V>(m: OMap<K, V>, k: K): (r: OMap<K, V>)
  {
    if m == [] then []
    else if m[0].0 == k then Delete(m[1..], k)
    else [m[0]] + Delete(m[1..], k)
  }

  /** A key is present exactly when it is among the listed keys, and reading it then gives a value. */
  lemma {:induction false} GetHasKey<K, V>(m: OMap<K, V>, k: K)
    ensures Get(m, k).Some? <==> HasKey(m, k)
    ensures HasKey(m, k) <==> k in Keys(m)
  {
    if m != [] {
      GetHasKey(m[1..], k);
      assert Keys(m) == [m[0].0] + Keys(m[1..]);
    }
  }

  /** In a map without duplicate keys, the value of a key is the one stored beside it. */
  lemma {:induction false} GetAt<K, V>(m: OMap<K, V>, i: nat)
    requires DistinctKeys(m) && i < |m|
    ensures Get(m, m[i].0) == Some(m[i].1)
  {
    if i > 0 {
      GetAt(m[1..], i - 1);
      if m[0].0 == m[i].0 {
        HasKeyAt(m[1..], i - 1);
      }
    }
  }

  /** The key of every entry is present. */
  lemma {:induction false} HasKeyAt<K, V>(m: OMap<K, V>, i: nat)
    requires i < |m|
    ensures HasKey(m, m[i].0)
  {
    if i > 0 {
      HasKeyAt(m[1..], i - 1);
    }
  }

  /** Writing a key makes it read back as the written value and changes no other key. */
  lemma {:induction false} SetGet<K, V>(m: OMap<K, V>, k: K, v: V, k': K)
    ensures Get(Set(m, k, v), k') == if k' == k then Some(v) else Get(m, k')
  {
    if m != [] && m[0].0 != k {
      SetGet(m[1..], k, v, k');
    }
  }

  /** Writing a present key keeps the key order; writing a new key appends it. */
  lemma {:induction false} SetKeys<K, V>(m: OMap<K, V>, k: K, v: V)
    ensures HasKey(m, k) ==> Keys(Set(m, k, v)) == Keys(m)
    ensures !HasKey(m, k) ==> Keys(Set(m, k, v)) == Keys(m) + [k]
  {
    if m != [] && m[0].0 != k {
      SetKeys(m[1..], k, v);
      assert Set(m, k, v) == [m[0]] + Set(m[1..], k, v);
    }
  }

  /** The keys after a write are the old keys plus the written one. */
  lemma {:induction false} SetHasKey<K, V>(m: OMap<K, V>, k: K, v: V, k': K)
    ensures HasKey(Set(m, k, v), k') <==> k' == k || HasKey(m, k')
  {
    if m != [] && m[0].0 != k {
      SetHasKey(m[1..], k, v, k');
    }
  }

  /** Writing never introduces a duplicate key. */
  lemma {:induction false} SetDistinct<K, V>(m: OMap<K, V>, k: K, v: V)
    requires DistinctKeys(m)
    ensures DistinctKeys(Set(m, k, v))
  {
    if m != [] && m[0].0 != k {
      SetDistinct(m[1..], k, v);
      SetHasKey(m[1..], k, v, m[0].0);
    }
  }

  /** Deleting removes the key, and only that key. */
  lemma {:induction false} DeleteHasKey<K, V>(m: OMap<K, V>, k: K, k': K)
    ensures HasKey(Delete(m, k), k') <==> k' != k && HasKey(m, k')
  {
    if m != [] {
      DeleteHasKey(m[1..], k, k');
    }
  }

  /** Every other key reads the same after a delete. */
  lemma {:induction false} DeleteGet<K, V>(m: OMap<K, V>, k: K, k': K)
    requires k' != k
    ensures Get(Delete(m, k), k') == Get(m, k')
  {
    if m != [] {
      DeleteGet(m[1..], k, k');
    }
  }

  /** Deleting never introduces a duplicate key. */
  lemma {:induction false} DeleteDistinct<K, V>(m: OMap<K, V>, k: K)
    requires DistinctKeys(m)
    ensures DistinctKeys(Delete(m, k))
  {
    if m != [] {
      DeleteDistinct(m[1..], k);
      DeleteHasKey(m[1..], k, m[0].0);
    }
  }

  /** Writing a new key and then deleting it gives back the map. */
  lemma {:induction false} DeleteSetNew<K, V>(m: OMap<K, V>, k: K, v: V)
    requires !HasKey(m, k)
    ensures Delete(Set(m, k, v), k) == m
  {
    if m == [] {
    } else {
      DeleteSetNew(m[1..], k, v);
    }
  }
}
