/** Python's built-in `dict`, as far as the job uses it: a mapping that also
    remembers the order in which its keys were first inserted. Assigning to a
    new key appends it; assigning to an existing key replaces the value and
    keeps the key where it was. Iterating (`for k in d`, `d.items()`) follows
    that insertion order. */
module PyDict {

  datatype Dict<K(==), V> = Dict(keys: seq<K>, values: map<K, V>) {

    /** Every key occurs once in the order, and the order lists exactly the
        keys of the mapping. */
    predicate Valid() {
      && (forall i, j :: 0 <= i < j < |keys| ==> keys[i] != keys[j])
      && values.Keys == set k | k in keys
    }
  }

  /** `{}` */
  function Empty<K(==), V>(): (d: Dict<K, V>)
    ensures d.Valid() && d.keys == [] && d.values == map[]
  {
    Dict([], map[])
  }

  /** `d[k] = v` */
  function Insert<K(==), V>(d: Dict<K, V>, k: K, v: V): (r: Dict<K, V>)
    requires d.Valid()
    ensures r.Valid()
    ensures r.values == d.values[k := v]
    ensures k in d.values ==> r.keys == d.keys
    ensures k !in d.values ==> r.keys == d.keys + [k]
  {
    if k in d.values then Dict(d.keys, d.values[k := v])
    else Dict(d.keys + [k], d.values[k := v])
  }

  /** `list(d.items())`: the (key, value) pairs in insertion order. */
  function Items<K(==), V>(d: Dict<K, V>): (items: seq<(K, V)>)
    requires d.Valid()
    ensures |items| == |d.keys|
    ensures forall i :: 0 <= i < |items| ==> items[i].0 == d.keys[i] && items[i].1 == d.values[d.keys[i]]
  {
    seq(|d.keys|, i requires 0 <= i < |d.keys| => (d.keys[i], d.values[d.keys[i]]))
  }
}
