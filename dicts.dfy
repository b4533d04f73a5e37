/** Python dicts with string keys, which remember the order in which their
    keys were first inserted. */
module Dicts {

  predicate Distinct(keys: seq<string>) {
    forall i, j :: 0 <= i < j < |keys| ==> keys[i] != keys[j]
  }

  /** `keys` is the iteration order, `entries` the mapping. */
  datatype Dict<V> = Dict(keys: seq<string>, entries: map<string, V>)
  {
    ghost predicate Valid() {
      Distinct(keys) && forall k :: k in entries <==> k in keys
    }
  }

  /** `{}` */
  function Empty<V>(): (d: Dict<V>)
    ensures d.Valid() && d.keys == [] && d.entries == map[]
  {
    Dict([], map[])
  }

  /** `d[k] = v`: a new key goes last, an existing key keeps its place. */
  function Put<V>(d: Dict<V>, k: string, v: V): (r: Dict<V>)
    requires d.Valid()
    ensures r.Valid()
    ensures r.entries == d.entries[k := v]
    ensures r.keys == if k in d.entries then d.keys else d.keys + [k]
  {
    Dict(if k in d.entries then d.keys else d.keys + [k], d.entries[k := v])
  }

  /** Storing twice under one key keeps only the second value, and the key
      keeps the place the first store gave it. */
  lemma PutTwice<V>(d: Dict<V>, k: string, v: V, w: V)
    requires d.Valid()
    ensures Put(Put(d, k, v), k, w) == Put(d, k, w)
  {
    assert d.entries[k := v][k := w] == d.entries[k := w];
  }
}
