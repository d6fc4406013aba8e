/** The optional value returned by a `Map.get` that may miss. */
module Wrappers {
  datatype Option<+T> = None | Some(value: T)

  /** Looking up `k` in `m`, as `Map.prototype.get` does: absent keys give None. */
  function Get<K, V>(m: map<K, V>, k: K): (r: Option<V>)
    ensures r.Some? <==> k in m
    ensures r.Some? ==> r.value == m[k]
  {
    if k in m then Some(m[k]) else None
  }
}
