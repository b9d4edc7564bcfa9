/** The Option type stands for the Java `null` returned by lookups and by the
    category pairing when there is no counterpart. */
module Wrappers {

  datatype Option<+T> = None | Some(value: T)

  /** Map lookup that answers `None` for a missing key, like `Map.get`. */
  function Get<K, V>(m: map<K, V>, k: K): (r: Option<V>)
    ensures r.Some? <==> k in m
    ensures r.Some? ==> r.value == m[k]
  {
    if k in m then Some(m[k]) else None
  }
}
