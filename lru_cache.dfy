/** The bounded cache `org.wahlzeit.model.Cache`: an access-ordered `LinkedHashMap` that evicts its
    eldest entry as soon as it holds more than `maxSize` entries.

    The LinkedHashMap is modelled by its two parts: the table `values` (key to value) and the list
    `order` of its keys, least recently used first. An access (`get`) moves a key to the end of
    `order`; a `put` of an absent key appends it and, when the table then holds more than `maxSize`
    entries, drops the head of `order`, that is the least recently used entry. */
module LruCache {
  import opened Results

  /** The default capacity of a cache built without one. */
  const DEFAULT_MAX_SIZE: int := 50

  /** No key occurs twice in `s`. */
  ghost predicate Distinct<K>(s: seq<K>)
  {
    forall i, j :: 0 <= i < j < |s| ==> s[i] != s[j]
  }

  /** The keys occurring in `s`. */
  function Elements<K(==)>(s: seq<K>): set<K>
  {
    set x | x in s
  }

  /** `s` with `k` taken out, the other keys keeping their relative order. */
  function Without<K(==)>(s: seq<K>, k: K): (r: seq<K>)
    ensures Elements(r) == Elements(s) - {k}
    ensures Distinct(s) ==> Distinct(r)
    ensures Distinct(s) && k in s ==> |r| == |s| - 1
    ensures k !in s ==> r == s
  {
    if s == [] then []
    else if s[0] == k then
      assert Elements(s) == {s[0]} + Elements(s[1..]);
      Without(s[1..], k)
    else
      var rest := Without(s[1..], k);
      assert Elements(s) == {s[0]} + Elements(s[1..]);
      assert Elements([s[0]] + rest) == {s[0]} + Elements(rest);
      assert Distinct(s) ==> s[0] !in Elements(rest);
      [s[0]] + rest
  }

  /** The access order after `k` is used: `k` moves to (or is put at) the most recently used end. */
  function Touch<K(==)>(s: seq<K>, k: K): (r: seq<K>)
    ensures Elements(r) == Elements(s) + {k}
    ensures |r| > 0 && r[|r| - 1] == k
    ensures Distinct(s) ==> Distinct(r)
    ensures Distinct(s) && k in s ==> |r| == |s|
  {
    var rest := Without(s, k);
    assert Elements(rest + [k]) == Elements(rest) + {k};
    rest + [k]
  }

  /** In a list without repetitions, taking out the key at position `i` leaves the keys before it
      and the keys after it, in their order. */
  lemma {:induction false} WithoutAt<K>(s: seq<K>, i: int)
    requires Distinct(s) && 0 <= i < |s|
    ensures Without(s, s[i]) == s[..i] + s[i + 1..]
  {
    if i == 0 {
      assert s[0] !in s[1..];
    } else {
      assert s[1..][i - 1] == s[i];
      WithoutAt(s[1..], i - 1);
      assert s[1..][..i - 1] + s[1..][i..] == s[1..i] + s[i + 1..];
      assert [s[0]] + s[1..i] == s[..i];
    }
  }

  /** Taking a key out distributes over concatenation. */
  lemma {:induction false} WithoutConcat<K>(a: seq<K>, b: seq<K>, k: K)
    ensures Without(a + b, k) == Without(a, k) + Without(b, k)
  {
    if a == [] {
      assert a + b == b;
    } else {
      assert (a + b)[0] == a[0] && (a + b)[1..] == a[1..] + b;
      WithoutConcat(a[1..], b, k);
    }
  }

  /** Refreshing a key leaves every other key where it was relative to the rest: only `k` moves. */
  lemma TouchKeepsOthers<K>(s: seq<K>, k: K)
    ensures Without(Touch(s, k), k) == Without(s, k)
  {
    WithoutConcat(Without(s, k), [k], k);
    assert Without([k], k) == [];
  }

  /** Using a key twice in a row orders the cache as using it once. */
  lemma TouchIdempotent<K>(s: seq<K>, k: K)
    ensures Touch(Touch(s, k), k) == Touch(s, k)
  {
    TouchKeepsOthers(s, k);
  }

  /** On a list without repetitions, the access that touches the key at position `i` takes it out
      of its place and appends it; nothing else moves. */
  lemma TouchAt<K>(s: seq<K>, i: int)
    requires Distinct(s) && 0 <= i < |s|
    ensures Touch(s, s[i]) == s[..i] + s[i + 1..] + [s[i]]
  {
    WithoutAt(s, i);
  }

  /** A list without repetitions has as many distinct keys as entries. */
  lemma {:induction false} DistinctSize<K>(s: seq<K>)
    requires Distinct(s)
    ensures |Elements(s)| == |s|
  {
    if s != [] {
      DistinctSize(s[1..]);
      assert Elements(s) == Elements(s[1..]) + {s[0]};
      assert s[0] !in Elements(s[1..]);
    }
  }

  /** `assertMaxSizeIsValid`: a capacity is accepted exactly when it is positive. */
  function AssertMaxSizeIsValid(maxSize: int): (r: Result<()>)
    ensures r.Ok? <==> maxSize > 0
    ensures r.Err? ==> r.error == IllegalArgument
  {
    if maxSize <= 0 then Err(IllegalArgument) else Ok(())
  }

  class Cache<K(==), V(==)> {
    const maxSize: int
    var values: map<K, V>
    /** The keys of `values`, least recently used first (the LinkedHashMap's access-ordered list). */
    var order: seq<K>

    /** The cache invariant: a positive capacity that is never exceeded, and an access order that
        lists every key of the table exactly once. */
    ghost predicate Valid()
      reads this
    {
      && maxSize > 0
      && |order| <= maxSize
      && Distinct(order)
      && values.Keys == Elements(order)
    }

    /** A cache with the given capacity, which the caller has checked (see `Create`). */
    constructor (maxSize: int)
      requires maxSize > 0
      ensures Valid()
      ensures this.maxSize == maxSize && values == map[] && order == []
    {
      this.maxSize := maxSize;
      values := map[];
      order := [];
    }

    /** A cache with the default capacity. */
    constructor Default()
      ensures Valid()
      ensures maxSize == DEFAULT_MAX_SIZE && values == map[] && order == []
    {
      maxSize := DEFAULT_MAX_SIZE;
      values := map[];
      order := [];
    }

    /** The checking constructor: a non-positive capacity is refused with IllegalArgument. */
    static method Create(maxSize: int) returns (r: Result<Cache<K, V>>)
      ensures r.Ok? <==> maxSize > 0
      ensures r.Err? ==> r.error == IllegalArgument
      ensures r.Ok? ==> fresh(r.value) && r.value.Valid() && r.value.maxSize == maxSize
      ensures r.Ok? ==> r.value.values == map[] && r.value.order == []
    {
      var check := AssertMaxSizeIsValid(maxSize);
      if check.Err? {
        return Err(check.error);
      }
      var c := new Cache(maxSize);
      r := Ok(c);
    }

    /** The cache never holds more than `maxSize` entries. */
    lemma SizeBound()
      requires Valid()
      ensures |values| <= maxSize
    {
      DistinctSize(order);
      assert |values| == |values.Keys|;
    }

    /** `contains` reads the table and does not count as an access. */
    method Contains(key: K) returns (b: bool)
      ensures b <==> key in values
    {
      b := key in values;
    }

    /** The LinkedHashMap's `get` of a present key: returns its value and makes it the most
        recently used. */
    method Access(key: K) returns (v: V)
      requires Valid() && key in values
      modifies this
      ensures Valid()
      ensures values == old(values) && order == Touch(old(order), key)
      ensures v == values[key]
    {
      v := values[key];
      order := Touch(order, key);
    }

    /** The LinkedHashMap's `put` of an absent key, followed by `removeEldestEntry`: the key is
        appended as the most recently used and, if the table has then outgrown `maxSize`, the
        least recently used entry is dropped. */
    method Put(key: K, value: V)
      requires Valid() && key !in values
      modifies this
      ensures Valid()
      ensures key in values && values[key] == value
      ensures |old(order)| + 1 <= maxSize ==>
                values == old(values)[key := value] && order == old(order) + [key]
      ensures |old(order)| + 1 > maxSize ==>
                |old(order)| > 0 &&
                values == old(values)[key := value] - {old(order)[0]} &&
                order == old(order)[1..] + [key]
    {
      values := values[key := value];
      order := order + [key];
      assert Elements(order) == Elements(old(order)) + {key};
      if |order| > maxSize {
        var eldest := order[0];
        assert Elements(order) == {eldest} + Elements(order[1..]);
        assert eldest !in Elements(order[1..]);
        values := values - {eldest};
        order := order[1..];
      }
    }

    /** `get`: NotFound for an absent key (nothing changes); otherwise the stored value, and the key
        becomes the most recently used. */
    method Get(key: K) returns (r: Result<V>)
      requires Valid()
      modifies this
      ensures Valid()
      ensures values == old(values)
      ensures key !in values ==> r == Err(NotFound) && order == old(order)
      ensures key in values ==> r == Ok(values[key]) && order == Touch(old(order), key)
    {
      if !(key in values) {
        return Err(NotFound);
      }
      var v := Access(key);
      r := Ok(v);
    }

    /** `refresh`: NotFound for an absent key (nothing changes); otherwise the entry is removed and
        put back, so it keeps its value and becomes the most recently used. */
    method Refresh(key: K) returns (r: Result<V>)
      requires Valid()
      modifies this
      ensures Valid()
      ensures values == old(values)
      ensures key !in values ==> r == Err(NotFound) && order == old(order)
      ensures key in values ==> r == Ok(values[key]) && order == Touch(old(order), key)
    {
      if !(key in values) {
        return Err(NotFound);
      }
      ghost var before := order;
      var v := Access(key);
      values := values - {key};
      order := Without(order, key);
      TouchKeepsOthers(before, key);
      Put(key, v);
      r := Ok(v);
    }

    /** `insert`: an absent key is put (possibly evicting the least recently used entry) and its
        value returned. For a present key the stored value is read first, which counts as an
        access; an equal value then refreshes the entry and returns the stored value, a different
        one is refused with IllegalArgument. Either way the bindings stay as they were. */
    method Insert(key: K, value: V) returns (r: Result<V>)
      requires Valid()
      modifies this
      ensures Valid()
      ensures key in values && values[key] == value ==> r.Ok? && r.value == value
      ensures key in old(values) ==> values == old(values) && order == Touch(old(order), key)
      ensures key in old(values) && value == old(values)[key] ==> r == Ok(old(values)[key])
      ensures key in old(values) && value != old(values)[key] ==> r == Err(IllegalArgument)
      ensures key !in old(values) ==> r == Ok(value) && key in values && values[key] == value
      ensures key !in old(values) && |old(order)| + 1 <= maxSize ==>
                values == old(values)[key := value] && order == old(order) + [key]
      ensures key !in old(values) && |old(order)| + 1 > maxSize ==>
                |old(order)| > 0 &&
                values == old(values)[key := value] - {old(order)[0]} &&
                order == old(order)[1..] + [key]
    {
      if key in values {
        ghost var before := order;
        var stored := Access(key);
        if value != stored {
          return Err(IllegalArgument);
        }
        r := Refresh(key);
        TouchIdempotent(before, key);
      } else {
        Put(key, value);
        r := Ok(value);
      }
    }
  }
}
