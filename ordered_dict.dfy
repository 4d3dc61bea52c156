/** A Python dict: a mapping from keys to values that remembers the order in
    which its keys were first inserted. Assigning to a key that is already
    present replaces its value and keeps its position. */
module OrderedDict {
  import opened Text

  datatype Dict<K(!new), V> = Dict(keys: seq<K>, values: map<K, V>)
  {
    /** Every key is listed exactly once, and the listed keys are the mapped ones. */
    ghost predicate Valid()
    {
      && (forall k :: k in values <==> k in keys)
      && (forall i, j :: 0 <= i < j < |keys| ==> keys[i] != keys[j])
    }
  }

  /** {} */
  function Empty<K(!new), V>(): (d: Dict<K, V>)
    ensures d.Valid() && d.keys == []
  {
    Dict([], map[])
  }

  /** d[k], or None when k is not a key. */
  function Get<K(!new), V>(d: Dict<K, V>, k: K): (r: Option<V>)
    ensures d.Valid() ==> (r.Some? <==> k in d.keys)
  {
    if k in d.values then Some(d.values[k]) else None
  }

  /** d.get(k, default) */
  function GetOr<K(!new), V>(d: Dict<K, V>, k: K, default: V): V
  {
    if k in d.values then d.values[k] else default
  }

  /** d[k] = v: a new key goes to the end of the order, an old one keeps its place. */
  function Put<K(!new), V>(d: Dict<K, V>, k: K, v: V): (r: Dict<K, V>)
    requires d.Valid()
    ensures r.Valid()
    ensures r.keys == if k in d.keys then d.keys else d.keys + [k]
    ensures Get(r, k) == Some(v)
    ensures forall k' :: k' != k ==> Get(r, k') == Get(d, k')
  {
    Dict(if k in d.values then d.keys else d.keys + [k], d.values[k := v])
  }

  /** Assigning twice to a key is assigning the second value. */
  lemma PutTwice<K(!new), V>(d: Dict<K, V>, k: K, v: V, w: V)
    requires d.Valid()
    ensures Put(Put(d, k, v), k, w) == Put(d, k, w)
  {
    assert d.values[k := v][k := w] == d.values[k := w];
  }
}
