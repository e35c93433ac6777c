/** A `Map` keyed by texts, with its insertion order. */
module OrderedMaps {
  import opened Ordering
  import opened Texts
  import opened Wrappers

  datatype OrderedMap<V> = OrderedMap(keys: seq<Text>, values: map<Text, V>)

  ghost predicate ValidMap<V>(m: OrderedMap<V>) { Distinct(m.keys) && forall k :: k in m.keys <==> k in m.values }

  function EmptyMap<V>(): (m: OrderedMap<V>)
    ensures ValidMap(m)
  {
    OrderedMap([], map[])
  }

  /** `set`: a key that is present keeps its place. */
  function Put<V>(m: OrderedMap<V>, key: Text, value: V): (r: OrderedMap<V>)
    ensures ValidMap(m) ==> ValidMap(r)
  {
    OrderedMap(if key in m.values then m.keys else m.keys + [key], m.values[key := value])
  }

  function Get<V>(m: OrderedMap<V>, key: Text): Option<V> { if key in m.values then Some(m.values[key]) else None }

  /** `[...map.values()]` */
  function Values<V>(m: OrderedMap<V>): (r: seq<V>)
    requires ValidMap(m)
    ensures |r| == |m.keys| && forall i :: 0 <= i < |r| ==> m.keys[i] in m.values && r[i] == m.values[m.keys[i]]
  {
    assert forall i :: 0 <= i < |m.keys| ==> m.keys[i] in m.keys;
    seq(|m.keys|, i requires 0 <= i < |m.keys| => m.values[m.keys[i]])
  }
}
