/**
 * A map that remembers the order in which its keys were first inserted, the
 * way a JavaScript `Map` does: overwriting a key keeps its position.
 */
module OrderedMaps {

  datatype OrderedMap<K, V> = OrderedMap(keys: seq<K>, values: map<K, V>)

  /** `keys` lists the domain of `values`, each key once. */
  ghost predicate Valid<K, V>(m: OrderedMap<K, V>) {
    && (forall i, j :: 0 <= i < j < |m.keys| ==> m.keys[i] != m.keys[j])
    && (forall i :: 0 <= i < |m.keys| ==> m.keys[i] in m.values)
    && (forall k {:trigger m.values[k]} :: k in m.values ==> k in m.keys)
  }

  function Empty<K, V>(): (m: OrderedMap<K, V>)
    ensures Valid(m) && |m.keys| == 0
  {
    OrderedMap([], map[])
  }

  /** `Map.prototype.set`: last write wins; a new key goes to the end, an old one keeps its place. */
  function Set<K, V>(m: OrderedMap<K, V>, k: K, v: V): (r: OrderedMap<K, V>)
    requires Valid(m)
    ensures Valid(r)
    ensures r.values == m.values[k := v]
    ensures m.keys <= r.keys
    ensures |r.keys| == if k in m.values then |m.keys| else |m.keys| + 1
  {
    var keys := if k in m.values then m.keys else m.keys + [k];
    OrderedMap(keys, m.values[k := v])
  }
}
