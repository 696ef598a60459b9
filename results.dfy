/** Error kinds and result wrappers shared by the two caches and the alcohol-type registry.
    Each Java exception the core throws becomes one Error value. */
module Results {

  /** The exceptions the core throws, by meaning:
      - IllegalArgument: IllegalArgumentException (bad maxSize, conflicting value, deleting an absent key)
      - IllegalState: IllegalStateException (strict insert of a key that is already present)
      - NotFound: the NullPointerException("Key not found") thrown by lookups of absent keys */
  datatype Error = IllegalArgument | IllegalState | NotFound

  datatype Result<+T> = Ok(value: T) | Err(error: Error)

  datatype Option<+T> = None | Some(value: T)

  /** The binding of `k` in `m`, if any: two maps agree on `k` exactly when their lookups agree. */
  function Lookup<K, V>(m: map<K, V>, k: K): (r: Option<V>)
    ensures r.Some? <==> k in m
    ensures r.Some? ==> r.value == m[k]
  {
    if k in m then Some(m[k]) else None
  }
}
