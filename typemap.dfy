/**
 Compile-time maps (meta.hpp, lines 532-574): `map<pair<Keys, Values>...>`
 exposes the list of its keys, the list of its values and the list of its
 pairs.
 */
module MetaMap {
  import opened MetaFunctional

  /** `pair<Key, Value>` with its `key_t` and `value_t` accessors. */
  datatype Pair<K, V> = Pair(key: K, value: V)

  /** `map<pair<Keys, Values>...>`. */
  datatype TypeMap<K, V> = TypeMap(pairs: seq<Pair<K, V>>)

  /** `keys_t<Map>`: `list<Keys...>`. */
  function Keys<K, V>(m: TypeMap<K, V>): (ks: seq<K>)
    ensures |ks| == |m.pairs|
    ensures forall k :: 0 <= k < |ks| ==> ks[k] == m.pairs[k].key
  {
    Fmap((p: Pair<K, V>) => p.key, m.pairs)
  }

  /** `values_t<Map>`: `list<Values...>`. */
  function Values<K, V>(m: TypeMap<K, V>): (vs: seq<V>)
    ensures |vs| == |m.pairs|
    ensures forall k :: 0 <= k < |vs| ==> vs[k] == m.pairs[k].value
  {
    Fmap((p: Pair<K, V>) => p.value, m.pairs)
  }

  /** `pairs_t<Map>`: `list<pair<Keys, Values>...>`. */
  function Pairs<K, V>(m: TypeMap<K, V>): seq<Pair<K, V>>
  {
    m.pairs
  }

  /** Pairs up two lists of equal length position by position. */
  function PairUp<K, V>(ks: seq<K>, vs: seq<V>): (ps: seq<Pair<K, V>>)
    requires |ks| == |vs|
    ensures |ps| == |ks|
    ensures forall k :: 0 <= k < |ps| ==> ps[k] == Pair(ks[k], vs[k])
  {
    seq(|ks|, k requires 0 <= k < |ks| => Pair(ks[k], vs[k]))
  }

  /** The keys and values are parallel lists: pairing them up position by
      position gives back the pairs of the map. */
  lemma KeysValuesPairUp<K, V>(m: TypeMap<K, V>)
    ensures |Keys(m)| == |Values(m)| == |Pairs(m)|
    ensures PairUp(Keys(m), Values(m)) == Pairs(m)
  {
    var ps := PairUp(Keys(m), Values(m));
    assert |ps| == |m.pairs|;
    forall k | 0 <= k < |ps| ensures ps[k] == m.pairs[k] { }
  }

  /** Conversely, a map declared from parallel key and value lists has those
      lists as its keys and values. */
  lemma PairUpKeysValues<K, V>(ks: seq<K>, vs: seq<V>)
    requires |ks| == |vs|
    ensures Keys(TypeMap(PairUp(ks, vs))) == ks
    ensures Values(TypeMap(PairUp(ks, vs))) == vs
  {
    var m := TypeMap(PairUp(ks, vs));
    assert |Keys(m)| == |ks| && forall k :: 0 <= k < |ks| ==> Keys(m)[k] == ks[k];
    assert |Values(m)| == |vs| && forall k :: 0 <= k < |vs| ==> Values(m)[k] == vs[k];
  }
}
