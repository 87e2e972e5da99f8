/** Small result types shared by the registry and the bitset. */
module Wrappers {

  /** A value that may be absent: Go's `(t T, valid bool)` pairs. */
  datatype Option<+T> = None | Some(value: T)

  /** The outcome of a call that either returns or panics with a message. */
  datatype Result<+T> = Ok(value: T) | Panic(message: string)

  /** `m[k]` as an optional value. */
  function Get<K, V>(m: map<K, V>, k: K): Option<V>
  {
    if k in m then Some(m[k]) else None
  }
}
