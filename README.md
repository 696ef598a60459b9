# Wahlzeit caches and alcohol-type registry in Dafny

This project models three keyed tables of the Wahlzeit photo service and proves what their
operations do to them:

- `org.wahlzeit.model.cache.ObjectCache` (module `FlyweightCache`): an unbounded key-to-value
  cache. `insert` is strict (a present key is an error), `getOrInsert` canonicalises (it returns
  the stored value, or fails when the supplied value differs), `delete` removes one key. Each
  operation is specified by a pure step function from the table before the call to the result
  and the table after it; class `ObjectCache` updates its `values` map in place and is proved to
  follow the step functions; lemmas relate several calls (idempotence, round trips).
- `org.wahlzeit.model.Cache` (module `LruCache`): a bounded cache built on an access-ordered
  `LinkedHashMap` that evicts its eldest entry once it holds more than `maxSize` entries. The
  LinkedHashMap is modelled by its table `values` and the list `order` of its keys, least
  recently used first. The class invariant `Valid()` says the capacity is positive and never
  exceeded and that `order` lists every key of the table exactly once.
- `org.wahlzeit.model.AlcoholManager` (module `Alcohols`): a get-or-create registry from type
  name to alcohol type, and the two `createAlcohol` factories that go through it.

Module `Results` holds the error kinds (one per exception the code throws: IllegalArgument,
IllegalState, and NotFound for the `NullPointerException("Key not found")` of lookups) and the
`Result`/`Option` wrappers.

Where the documentation and the code of `Cache.java` disagree, the model follows the code:

- The constructor's comment (Cache.java:23-24) says the element inserted last is removed when
  the cache is full. The code builds the LinkedHashMap in access order (third argument `true`,
  Cache.java:33) and `removeEldestEntry` drops the eldest entry, that is the least recently used
  one. `Put` and `Insert` evict `order[0]`.
- `insert` of a present key with a different value reads the stored value first (Cache.java:90).
  On an access-ordered LinkedHashMap that read is an access, so the key becomes the most recently
  used even though the call then fails. The bindings do not change; the order does.
  `Insert` states this.
- `refresh` reads, removes and re-puts the entry (Cache.java:118-121). The net effect on the order
  equals one access (lemma `TouchKeepsOthers`), and the re-put can never evict anything.

## Model

| member | source | states |
|---|---|---|
| `FlyweightCache.ObjectCache.constructor` | src/main/java/org/wahlzeit/model/cache/ObjectCache.java:12-14 | a new cache holds no binding |
| `FlyweightCache.ObjectCache.Contains` | src/main/java/org/wahlzeit/model/cache/ObjectCache.java:17-21 | true exactly when the key is bound |
| `FlyweightCache.Retrieve` | src/main/java/org/wahlzeit/model/cache/ObjectCache.java:24-32 | succeeds exactly for a present key and returns its stored value; an absent key gives NotFound |
| `FlyweightCache.ObjectCache.Get` | src/main/java/org/wahlzeit/model/cache/ObjectCache.java:24-32 | returns what `Retrieve` gives for the current table and changes nothing |
| `FlyweightCache.InsertStep` | src/main/java/org/wahlzeit/model/cache/ObjectCache.java:35-43 | succeeds exactly for an absent key, then adds that one binding and returns the given value; a present key fails with IllegalState and leaves the table unchanged; every other binding is kept in both cases |
| `FlyweightCache.ObjectCache.Insert` | src/main/java/org/wahlzeit/model/cache/ObjectCache.java:35-43 | result and new table are those of `InsertStep` on the old table |
| `FlyweightCache.GetOrInsertStep` | src/main/java/org/wahlzeit/model/cache/ObjectCache.java:46-62 | succeeds exactly when the key is absent or bound to an equal value; a present key never changes the table and an unequal value fails with IllegalArgument; an absent key gets the given value; on success the key is bound to the returned value |
| `FlyweightCache.ObjectCache.GetOrInsert` | src/main/java/org/wahlzeit/model/cache/ObjectCache.java:46-62 | result and new table are those of `GetOrInsertStep` on the old table |
| `FlyweightCache.DeleteStep` | src/main/java/org/wahlzeit/model/cache/ObjectCache.java:65-73 | succeeds exactly for a present key and removes exactly that key; an absent key fails with IllegalArgument and changes nothing |
| `FlyweightCache.ObjectCache.Delete` | src/main/java/org/wahlzeit/model/cache/ObjectCache.java:65-73 | result and new table are those of `DeleteStep` on the old table |
| `FlyweightCache.InsertThenGet` | src/main/java/org/wahlzeit/model/cache/ObjectCache.java:35-38 | after inserting an absent key, the key is present and `get` returns the inserted value |
| `FlyweightCache.InsertTwiceFails` | src/test/java/org/wahlzeit/model/CacheTest.java:64-76 | a second insert of the same key fails with IllegalState, whether its value equals the first or not, and leaves the table as the first insert made it |
| `FlyweightCache.GetOrInsertIdempotent` | src/main/java/org/wahlzeit/model/cache/ObjectCache.java:46-62 | calling `getOrInsert` twice with the same key and value gives the same result and table as calling it once |
| `FlyweightCache.GetOrInsertThenGet` | src/main/java/org/wahlzeit/model/cache/ObjectCache.java:58-61 | after a successful `getOrInsert`, `get` returns the value it returned |
| `FlyweightCache.InsertAgreesWithGetOrInsert` | src/main/java/org/wahlzeit/model/cache/ObjectCache.java:35-62 | on an absent key `insert` and `getOrInsert` behave identically; on a present key `insert` always fails while `getOrInsert` succeeds exactly for the stored value |
| `FlyweightCache.DeleteUndoesInsert` | src/main/java/org/wahlzeit/model/cache/ObjectCache.java:65-73 | deleting a key just inserted succeeds and restores the table |
| `FlyweightCache.InsertUndoesDelete` | src/main/java/org/wahlzeit/model/cache/ObjectCache.java:35-38 | re-inserting the binding just deleted succeeds and restores the table |
| `LruCache.Without` | src/main/java/org/wahlzeit/model/Cache.java:120 | removing a key from the access order leaves exactly the other keys, keeps a repetition-free order repetition-free, and shortens it by one when the key was there |
| `LruCache.Touch` | src/main/java/org/wahlzeit/model/Cache.java:33 | an access puts the key at the most recently used end, keeps the same keys plus that one, and keeps the order free of repetitions and of the same length when the key was present |
| `LruCache.WithoutAt` | src/main/java/org/wahlzeit/model/Cache.java:120 | removing the key at position i from a repetition-free order leaves the keys before and after it in their order |
| `LruCache.TouchAt` | src/main/java/org/wahlzeit/model/Cache.java:33 | accessing the key at position i moves it from there to the end; no other key moves |
| `LruCache.TouchKeepsOthers` | src/main/java/org/wahlzeit/model/Cache.java:118-121 | after an access, the keys other than the accessed one are in the same relative order as before |
| `LruCache.TouchIdempotent` | src/main/java/org/wahlzeit/model/Cache.java:89-96 | accessing a key twice orders the cache as accessing it once |
| `LruCache.AssertMaxSizeIsValid` | src/main/java/org/wahlzeit/model/Cache.java:129-133 | a capacity is accepted exactly when it is positive; otherwise IllegalArgument |
| `LruCache.Cache.Create` | src/main/java/org/wahlzeit/model/Cache.java:28-31 | fails with IllegalArgument exactly when maxSize <= 0; otherwise a fresh, valid, empty cache with that capacity |
| `LruCache.Cache.constructor` | src/main/java/org/wahlzeit/model/Cache.java:33-38 | for a checked positive capacity: a valid empty cache with that capacity |
| `LruCache.Cache.Default` | src/main/java/org/wahlzeit/model/Cache.java:10-20 | a valid empty cache of capacity 50 |
| `LruCache.Cache.SizeBound` | src/main/java/org/wahlzeit/model/Cache.java:35-37 | a valid cache never holds more than maxSize entries |
| `LruCache.Cache.Contains` | src/main/java/org/wahlzeit/model/Cache.java:56-59 | true exactly when the key is bound; changes neither bindings nor order |
| `LruCache.Cache.Access` | src/main/java/org/wahlzeit/model/Cache.java:74 | reading a present key returns its value, keeps the bindings and makes it the most recently used |
| `LruCache.Cache.Put` | src/main/java/org/wahlzeit/model/Cache.java:33-37 | putting an absent key appends it as most recently used; if that makes the table exceed maxSize, exactly the least recently used entry is evicted; the new key is always present afterwards and the invariant is kept |
| `LruCache.Cache.Get` | src/main/java/org/wahlzeit/model/Cache.java:67-75 | an absent key gives NotFound and changes nothing; a present key returns its value and becomes most recently used; bindings never change |
| `LruCache.Cache.Refresh` | src/main/java/org/wahlzeit/model/Cache.java:111-124 | an absent key gives NotFound and changes nothing; a present key keeps all bindings, returns its value and only it moves to the most recently used end |
| `LruCache.Cache.Insert` | src/main/java/org/wahlzeit/model/Cache.java:86-102 | a new key is put as most recently used, evicting exactly the least recently used entry when the cache was full, and its value is returned; a present key keeps all bindings and becomes most recently used, returning the stored value for an equal value and failing with IllegalArgument for a different one |
| `Alcohols.AlcoholManager.constructor` | src/main/java/org/wahlzeit/model/AlcoholManager.java:8 | the registry starts empty |
| `Alcohols.AlcoholManager.GetAlcoholType` | src/main/java/org/wahlzeit/model/AlcoholManager.java:20-30 | a registered name returns its stored type and leaves the registry unchanged, whatever the ingredients; an unregistered name gets a fresh type with that name and those ingredients, registered and returned; no other name's entry changes; afterwards the name is registered to the returned instance, so later calls return it |
| `Alcohols.AlcoholManager.CreateAlcohol` | src/main/java/org/wahlzeit/model/AlcoholManager.java:10-14 | a fresh alcohol with the given name whose type is the canonical type registered for the type name |
| `Alcohols.AlcoholManager.CreateAlcoholOfType` | src/main/java/org/wahlzeit/model/AlcoholManager.java:16-18 | re-resolves the given type through the registry by its name and ingredients: a registered name yields the registered instance; an unregistered one yields a new instance with the same name and ingredients, not the given one |
| `Alcohols.AlcoholType.CreateInstance` | src/main/java/org/wahlzeit/model/AlcoholManager.java:12 | a fresh alcohol with the given name and this type |
| `Alcohols.Alcohol.constructor` | src/main/java/org/wahlzeit/model/Alcohol.java:12-17 | an alcohol records its type and name |

## Left out

- Null arguments: keys, values and names are non-null Dafny values, so the `assertArgumentIsNotNull` guards (IllegalArgument for a null key) never fire. `ObjectCache.insert` has no such guard in the Java code and would store a null key; that case is not modelled either.
- Value equality: `value.equals(stored)` is modelled as Dafny `==` on the value type; a `NullPointerException` from a null value is not modelled.
- `synchronized`: all operations are modelled as sequential; mutual exclusion between threads is not.
- `getMaxSize`: the capacity is the constant field `maxSize`, read directly.
- Integer width: `maxSize` and the table size are Java `int`s; the model uses unbounded integers, which agree with Java for every cache that fits in memory.
- The initial capacity and load factor passed to the LinkedHashMap (Cache.java:33) only affect performance and are not modelled.
- The static registry of `AlcoholManager` is one explicitly constructed `AlcoholManager` object.
- The class `AlcoholType(typeName, ingredients)` with `createInstance` is not part of this model (the repository's `AlcoholType.java` is an enum). It is taken as an object that keeps the name and ingredients it was built with; `CreateInstance` is taken to build `new Alcohol(this, name)`.
- `ingredients` is a `String[]` in Java; the model uses an immutable `seq<string>`, so a caller's later writes into that array are not modelled.
- Alcohol ids come from a static `AtomicInteger`; they are not modelled.
- The subtype hierarchy of alcohol types (`addSubType`, `isSubtypeOf`): its implementation is not part of this model.
