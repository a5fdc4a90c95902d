/** Failure-carrying wrappers shared by the whole model. */
module Wrappers {

  datatype Option<+T> = None | Some(value: T)

  /** An operation that either yields a value or reports why it could not. */
  datatype Result<+T, +E> = Ok(value: T) | Err(error: E)

  /** Lookup in a map as an optional value (Rust's `HashMap::get`). */
  function Get<K, V>(m: map<K, V>, k: K): (r: Option<V>)
    ensures r.Some? <==> k in m
    ensures r.Some? ==> r.value == m[k]
  {
    if k in m then Some(m[k]) else None
  }
}
