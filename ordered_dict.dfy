/**
 * A Python `dict` with string keys: a map together with the order in which its
 * keys were first inserted, which is the order `dict.items()` iterates in.
 */
module OrderedDict {
  import opened Seqs

  datatype Option<T> = None | Some(value: T)

  datatype Dict<V> = Dict(keys: seq<string>, values: map<string, V>)

  /** Every key is listed once, and exactly the keys of the map are listed. */
  predicate Valid<V>(d: Dict<V>)
  {
    && Distinct(d.keys)
    && (forall k :: k in d.keys ==> k in d.values)
    && (forall k :: k in d.values ==> k in d.keys)
  }

  /** The literal `{}`. */
  function Empty<V>(): (d: Dict<V>)
    ensures Valid(d) && |d.keys| == 0
    ensures forall k :: k !in d.values
  {
    Dict([], map[])
  }

  /** `d.get(k)`, as an option. */
  function Get<V>(d: Dict<V>, k: string): Option<V>
  {
    if k in d.values then Some(d.values[k]) else None
  }

  /**
   * `d[k] = v`: afterwards `k` maps to `v` and every other key to what it mapped
   * to before; a new key goes to the end of the iteration order, an existing key
   * keeps its place and the size does not change.
   */
  function Put<V>(d: Dict<V>, k: string, v: V): (r: Dict<V>)
    requires Valid(d)
    ensures Valid(r)
    ensures Get(r, k) == Some(v)
    ensures forall k' :: k' != k ==> Get(r, k') == Get(d, k')
    ensures |r.keys| == if k in d.values then |d.keys| else |d.keys| + 1
    ensures r.keys[..|d.keys|] == d.keys
    ensures k !in d.values ==> r.keys[|d.keys|] == k
  {
    if k in d.values then Dict(d.keys, d.values[k := v])
    else Dict(d.keys + [k], d.values[k := v])
  }
}
