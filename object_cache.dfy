/** The unbounded flyweight cache `org.wahlzeit.model.cache.ObjectCache`: one hash table from key to
    value that only grows through `insert`/`getOrInsert` and shrinks through `delete`.

    Each operation is specified by a pure step function from the table before the call to what the
    call returns (or throws) and the table after it; the methods of class ObjectCache update the
    table in place and are proved to follow those functions. Lemmas about the step functions state
    what holds across several calls (idempotence, round trips, "contains after insert"). */
module FlyweightCache {
  import opened Results

  /** What one call returns (or throws), together with the table after the call. */
  datatype Step<K, V, T> = Step(result: Result<T>, after: map<K, V>)

  /** `get`: the stored value of a present key; NotFound for an absent one. */
  function Retrieve<K, V>(m: map<K, V>, key: K): (r: Result<V>)
    ensures r.Ok? <==> key in m
    ensures r.Ok? ==> r.value == m[key]
    ensures r.Err? ==> r.error == NotFound
  {
    if !(key in m) then Err(NotFound) else Ok(m[key])
  }

  /** `insert` is strict: it binds an absent key and returns the given value; a key that is already
      present is refused with IllegalState whatever the value, and the table stays as it was. */
  function InsertStep<K, V>(m: map<K, V>, key: K, value: V): (s: Step<K, V, V>)
    ensures s.result.Ok? <==> key !in m
    ensures s.result.Ok? ==> s.result.value == value && s.after.Keys == m.Keys + {key} && s.after[key] == value
    ensures s.result.Err? ==> s.result.error == IllegalState && s.after == m
    ensures s.after - {key} == m - {key}
  {
    if !(key in m) then Step(Ok(value), m[key := value])
    else Step(Err(IllegalState), m)
  }

  /** `getOrInsert` canonicalises: an absent key is bound to the given value; a present key keeps
      its stored value, which is returned when it equals the given one and otherwise the call fails
      with IllegalArgument. Only an absent key changes the table. */
  function GetOrInsertStep<K, V(==)>(m: map<K, V>, key: K, value: V): (s: Step<K, V, V>)
    ensures s.result.Ok? <==> key !in m || m[key] == value
    ensures key in m ==> s.after == m
    ensures key !in m ==> s.after.Keys == m.Keys + {key}
    ensures s.result.Ok? ==> key in s.after && s.after[key] == s.result.value == value
    ensures s.result.Err? ==> s.result.error == IllegalArgument
    ensures s.after - {key} == m - {key}
  {
    if key in m then
      var stored := m[key];
      if value != stored then Step(Err(IllegalArgument), m)
      else Step(Ok(stored), m)
    else
      Step(Ok(value), m[key := value])
  }

  /** `delete` removes exactly the given key; an absent key is refused with IllegalArgument. */
  function DeleteStep<K, V>(m: map<K, V>, key: K): (s: Step<K, V, ()>)
    ensures s.result.Ok? <==> key in m
    ensures s.result.Err? ==> s.result.error == IllegalArgument && s.after == m
    ensures s.after.Keys == m.Keys - {key}
    ensures s.after - {key} == m - {key}
  {
    if !(key in m) then Step(Err(IllegalArgument), m)
    else Step(Ok(()), m - {key})
  }

  /** After a successful `insert` the key is present and `get` returns the inserted value. */
  lemma InsertThenGet<K, V>(m: map<K, V>, key: K, value: V)
    requires key !in m
    ensures InsertStep(m, key, value).result == Ok(value)
    ensures key in InsertStep(m, key, value).after
    ensures Retrieve(InsertStep(m, key, value).after, key) == Ok(value)
  {
  }

  /** Inserting the same key twice fails the second time, with an equal value or a different one. */
  lemma InsertTwiceFails<K, V>(m: map<K, V>, key: K, v1: V, v2: V)
    ensures InsertStep(InsertStep(m, key, v1).after, key, v2) == Step(Err(IllegalState), InsertStep(m, key, v1).after)
  {
  }

  /** `getOrInsert` is idempotent: repeating it with the same key and value returns the same result
      and leaves the same table, whether the first call succeeded or failed. */
  lemma GetOrInsertIdempotent<K, V>(m: map<K, V>, key: K, value: V)
    ensures GetOrInsertStep(GetOrInsertStep(m, key, value).after, key, value) == GetOrInsertStep(m, key, value)
  {
  }

  /** After a successful `getOrInsert` the key is present and `get` returns the canonical value. */
  lemma GetOrInsertThenGet<K, V>(m: map<K, V>, key: K, value: V)
    requires GetOrInsertStep(m, key, value).result.Ok?
    ensures Retrieve(GetOrInsertStep(m, key, value).after, key) == GetOrInsertStep(m, key, value).result
  {
  }

  /** On an absent key the strict and the canonicalising insert do the same; on a present key the
      strict one always fails while the canonicalising one succeeds exactly for the stored value. */
  lemma InsertAgreesWithGetOrInsert<K, V>(m: map<K, V>, key: K, value: V)
    ensures key !in m ==> InsertStep(m, key, value) == GetOrInsertStep(m, key, value)
    ensures key in m ==> InsertStep(m, key, value).result.Err? &&
                         (GetOrInsertStep(m, key, value).result.Ok? <==> m[key] == value)
  {
  }

  /** `delete` undoes a successful `insert`. */
  lemma DeleteUndoesInsert<K, V>(m: map<K, V>, key: K, value: V)
    requires key !in m
    ensures DeleteStep(InsertStep(m, key, value).after, key) == Step(Ok(()), m)
  {
  }

  /** Re-inserting the value a successful `delete` removed restores the table. */
  lemma InsertUndoesDelete<K, V>(m: map<K, V>, key: K)
    requires key in m
    ensures InsertStep(DeleteStep(m, key).after, key, m[key]) == Step(Ok(m[key]), m)
  {
  }

  /** The table of `ObjectCache.java`, updated in place by the mutating operations. */
  class ObjectCache<K(==), V(==)> {
    var values: map<K, V>

    /** A new cache holds no binding. */
    constructor ()
      ensures values == map[]
    {
      values := map[];
    }

    method Contains(key: K) returns (b: bool)
      ensures b <==> key in values
    {
      b := key in values;
    }

    method Get(key: K) returns (r: Result<V>)
      ensures r == Retrieve(values, key)
    {
      if !(key in values) {
        return Err(NotFound);
      }
      r := Ok(values[key]);
    }

    method Insert(key: K, value: V) returns (r: Result<V>)
      modifies this
      ensures Step(r, values) == InsertStep(old(values), key, value)
    {
      if !(key in values) {
        values := values[key := value];
        r := Ok(value);
      } else {
        r := Err(IllegalState);
      }
    }

    method GetOrInsert(key: K, value: V) returns (r: Result<V>)
      modifies this
      ensures Step(r, values) == GetOrInsertStep(old(values), key, value)
    {
      if key in values {
        var stored := values[key];
        if value != stored {
          return Err(IllegalArgument);
        }
        r := Ok(stored);
      } else {
        values := values[key := value];
        r := Ok(value);
      }
    }

    method Delete(key: K) returns (r: Result<()>)
      modifies this
      ensures Step(r, values) == DeleteStep(old(values), key)
    {
      if !(key in values) {
        return Err(IllegalArgument);
      }
      values := values - {key};
      r := Ok(());
    }
  }
}
