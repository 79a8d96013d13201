/**
 `make_int_cached` (src/try_emplace.hh): a worked use of the lazy emplace over
 a function-local static `unordered_map<int, int>`. The hidden static cache is
 passed in and handed back explicitly; it starts out empty.
 */
module IntCache {
  import opened LazyEmplace

  /** The C++ `int`. */
  newtype int32 = x: int | -0x8000_0000 <= x < 0x8000_0000

  type Cache = map<int32, int32>

  /** The value a call hands back and the cache as it is left. */
  datatype Cached = Cached(value: int32, cache: Cache)

  /** The cache before the first call. */
  const EmptyCache: Cache := map[]

  /** Every entry the function ever stores is computed by `1 + 1`. */
  ghost predicate AllTwo(cache: Cache)
  {
    forall k :: k in cache ==> cache[k] == 2
  }

  /** `make_int_cached(key)`. */
  function MakeIntCached(cache: Cache, key: int32): (r: Cached)
    ensures key in r.cache && r.cache[key] == r.value
    ensures key !in cache ==> r.value == 2
    ensures key in cache ==> r.cache == cache && r.value == cache[key]
    // already-cached keys keep their value; only key may be added
    ensures r.cache.Keys == cache.Keys + {key}
    ensures forall k :: k in cache ==> r.cache[k] == cache[k]
    // the cache only ever holds 2, so every call returns 2
    ensures AllTwo(cache) ==> AllTwo(r.cache) && r.value == 2
  {
    var e := TryEmplaceLazy(cache, key, () => 1 + 1);
    Cached(e.value, e.table)
  }

  /** The cache left behind by calling `make_int_cached` on each key in turn. */
  function CacheAfter(cache: Cache, keys: seq<int32>): Cache
    decreases |keys|
  {
    if |keys| == 0 then cache else CacheAfter(MakeIntCached(cache, keys[0]).cache, keys[1..])
  }

  /** The values returned by calling `make_int_cached` on each key in turn. */
  function Results(cache: Cache, keys: seq<int32>): (vs: seq<int32>)
    ensures |vs| == |keys|
    decreases |keys|
  {
    if |keys| == 0 then
      []
    else
      var first := MakeIntCached(cache, keys[0]);
      [first.value] + Results(first.cache, keys[1..])
  }

  /** From the empty static cache, every call in any sequence of calls returns
      2, and afterwards exactly the keys asked for are cached, each mapped to 2. */
  lemma {:induction false} MakeIntCachedAlwaysTwo(keys: seq<int32>)
    ensures forall i :: 0 <= i < |keys| ==> Results(EmptyCache, keys)[i] == 2
    ensures var c := CacheAfter(EmptyCache, keys);
            c.Keys == (set i | 0 <= i < |keys| :: keys[i]) && AllTwo(c)
  {
    CallsFromTwos(EmptyCache, keys);
  }

  lemma {:induction false} CallsFromTwos(cache: Cache, keys: seq<int32>)
    requires AllTwo(cache)
    ensures forall i :: 0 <= i < |keys| ==> Results(cache, keys)[i] == 2
    ensures var c := CacheAfter(cache, keys);
            c.Keys == cache.Keys + (set i | 0 <= i < |keys| :: keys[i]) && AllTwo(c)
    decreases |keys|
  {
    if |keys| > 0 {
      var first := MakeIntCached(cache, keys[0]);
      CallsFromTwos(first.cache, keys[1..]);
      var tail := set i | 0 <= i < |keys[1..]| :: keys[1..][i];
      var all := set i | 0 <= i < |keys| :: keys[i];
      assert all == {keys[0]} + tail by {
        forall x | x in all ensures x in {keys[0]} + tail {
          var i :| 0 <= i < |keys| && keys[i] == x;
          if i > 0 {
            assert keys[1..][i - 1] == x;
          }
        }
        forall x | x in tail ensures x in all {
          var i :| 0 <= i < |keys[1..]| && keys[1..][i] == x;
          assert keys[i + 1] == x;
        }
      }
    }
  }
}
