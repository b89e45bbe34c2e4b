/** `cache.BasicCache`: an unbounded memoising map filled lazily by a producer function through
    `computeIfAbsent`, with no eviction. Modelled as a value: each `get` yields the new cache. */
module BasicCache {

  /** The producer supplied at construction and the key-to-value map it fills. */
  datatype BasicCache<!K, V> = BasicCache(producer: K -> V, entries: map<K, V>)

  /** Every stored value is the producer's value for its key. */
  ghost predicate Valid<K, V>(c: BasicCache<K, V>)
  {
    forall k :: k in c.entries ==> c.entries[k] == c.producer(k)
  }

  /** The constructor: a cache around `producer` that holds no entries yet. */
  function New<K, V>(producer: K -> V): (c: BasicCache<K, V>)
    ensures c.producer == producer
    ensures |c.entries| == 0
    ensures Valid(c)
  {
    BasicCache(producer, map[])
  }

  /** The outcome of one `get`: the returned value, the cache afterwards, and whether the
      producer was called. */
  datatype Lookup<!K, V> = Lookup(value: V, cache: BasicCache<K, V>, produced: bool)

  /** `get(key)`: `computeIfAbsent(key, producer)` followed by `cache.get(key)`. */
  function Get<K, V>(c: BasicCache<K, V>, key: K): (r: Lookup<K, V>)
    ensures r.cache.producer == c.producer
    // the producer is called exactly when the key is absent, and then on that key
    ensures r.produced <==> key !in c.entries
    ensures r.produced ==> r.value == c.producer(key)
    // a present key answers its stored value and leaves the cache as it was
    ensures !r.produced ==> r.value == c.entries[key] && r.cache == c
    // afterwards the key is stored with the returned value
    ensures key in r.cache.entries && r.cache.entries[key] == r.value
    // the map only grows: no entry is removed or changed
    ensures r.cache.entries.Keys == c.entries.Keys + {key}
    ensures forall k :: k in c.entries ==> r.cache.entries[k] == c.entries[k]
    ensures Valid(c) ==> Valid(r.cache) && r.value == c.producer(key)
  {
    if key in c.entries then
      Lookup(c.entries[key], c, false)
    else
      var v := c.producer(key);
      Lookup(v, c.(entries := c.entries[key := v]), true)
  }

  /** The outcome of a sequence of `get` calls: the returned values in order, the final cache,
      and how many times the producer was called on each key. */
  datatype Trace<!K, V> = Trace(values: seq<V>, cache: BasicCache<K, V>, calls: multiset<K>)

  /** `get` called on each key of `keys` in turn, threading the cache through. */
  function GetAll<K, V>(c: BasicCache<K, V>, keys: seq<K>): (t: Trace<K, V>)
    ensures |t.values| == |keys|
    ensures t.cache.producer == c.producer
    ensures t.cache.entries.Keys == c.entries.Keys + set k | k in keys
    ensures forall k :: k in c.entries ==> t.cache.entries[k] == c.entries[k]
    decreases |keys|
  {
    if keys == [] then
      Trace([], c, multiset{})
    else
      var r := Get(c, keys[0]);
      var rest := GetAll(r.cache, keys[1..]);
      Trace([r.value] + rest.values, rest.cache, (if r.produced then multiset{keys[0]} else multiset{}) + rest.calls)
  }

  /** Across any sequence of `get` calls the producer runs at most once per key: exactly once
      for each requested key that was not already cached, never for any other key. */
  lemma {:induction false} GetAllProducesAtMostOnce<K, V>(c: BasicCache<K, V>, keys: seq<K>)
    ensures forall k :: GetAll(c, keys).calls[k] == (if k in keys && k !in c.entries then 1 else 0)
    ensures forall k :: GetAll(c, keys).calls[k] <= 1
    decreases |keys|
  {
    if keys != [] {
      var r := Get(c, keys[0]);
      GetAllProducesAtMostOnce(r.cache, keys[1..]);
      forall k
        ensures GetAll(c, keys).calls[k] == (if k in keys && k !in c.entries then 1 else 0)
      {
        assert k in keys <==> k == keys[0] || k in keys[1..];
      }
    }
  }

  /** Interleaved gets of any keys each return their own producer value, and the cache stays valid. */
  lemma {:induction false} GetAllReturnsProducerValues<K, V>(c: BasicCache<K, V>, keys: seq<K>)
    requires Valid(c)
    ensures Valid(GetAll(c, keys).cache)
    ensures forall i :: 0 <= i < |keys| ==> GetAll(c, keys).values[i] == c.producer(keys[i])
    decreases |keys|
  {
    if keys != [] {
      var r := Get(c, keys[0]);
      GetAllReturnsProducerValues(r.cache, keys[1..]);
      var t := GetAll(c, keys);
      forall i | 0 <= i < |keys|
        ensures t.values[i] == c.producer(keys[i])
      {
        if i > 0 {
          assert t.values[i] == GetAll(r.cache, keys[1..]).values[i - 1];
        }
      }
    }
  }

  /** Repeated `get` calls on one key all return the value the first returned, and the producer
      runs for them at most once: once if the key was absent, never if it was cached. */
  lemma {:induction false} RepeatedGetsAgree<K, V>(c: BasicCache<K, V>, keys: seq<K>)
    requires |keys| > 0
    requires forall i :: 0 <= i < |keys| ==> keys[i] == keys[0]
    ensures forall i :: 0 <= i < |keys| ==> GetAll(c, keys).values[i] == Get(c, keys[0]).value
    ensures GetAll(c, keys).calls == if keys[0] in c.entries then multiset{} else multiset{keys[0]}
    decreases |keys|
  {
    var r := Get(c, keys[0]);
    var t := GetAll(c, keys);
    if |keys| > 1 {
      RepeatedGetsAgree(r.cache, keys[1..]);
      var rest := GetAll(r.cache, keys[1..]);
      assert Get(r.cache, keys[1]).value == r.value;
      forall i | 0 <= i < |keys|
        ensures t.values[i] == r.value
      {
        if i > 0 {
          assert t.values[i] == rest.values[i - 1];
        }
      }
    }
  }
}
