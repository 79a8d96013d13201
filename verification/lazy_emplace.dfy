/**
 Insert-if-absent with a lazily evaluated value (src/try_emplace.hh).

 A `lazy_invoke` wraps a zero-argument factory and only calls it when it is
 converted to the factory's result type. Handing such a wrapper to a map's
 `try_emplace` gives "get-or-insert-with": the map only converts (and so only
 calls the factory) when the key is absent.

 Factories are pure here, so a call cannot be observed by its side effect;
 instead every result carries `calls`, the number of times the factory ran.
 */
module LazyEmplace {

  /** A deferred computation: the callable and, implicitly, its result type. */
  datatype LazyInvoke<R> = LazyInvoke(callable: () -> R)

  /** A value together with the number of factory calls spent producing it. */
  datatype Invoked<R> = Invoked(value: R, calls: nat)

  /** What `try_emplace` hands back: the map afterwards, the mapped value the
      returned iterator points at, whether an insertion happened, and how many
      times the factory ran. */
  datatype Emplaced<K, V> = Emplaced(table: map<K, V>, value: V, inserted: bool, calls: nat)

  /** `operator Result()`: converting the wrapper runs the callable once and
      yields exactly what it returns. */
  function Convert<R>(lazy: LazyInvoke<R>): (r: Invoked<R>)
    ensures r.calls == 1
    ensures r.value == lazy.callable()
  {
    Invoked(lazy.callable(), 1)
  }

  /** The map's own `try_emplace(key, arg)` where `arg` is a lazy wrapper: the
      mapped value is only constructed (the wrapper converted) when `key` is
      absent; otherwise the map is untouched and the existing entry returned. */
  function MapTryEmplace<K, V>(m: map<K, V>, key: K, arg: LazyInvoke<V>): (r: Emplaced<K, V>)
    ensures key in r.table && r.value == r.table[key]
    // present key: the wrapper is never converted and nothing changes
    ensures key in m ==> r == Emplaced(m, m[key], false, 0)
    // absent key: the wrapper is converted once and its value inserted
    ensures key !in m ==> r.inserted && r.calls == 1 && r.value == arg.callable()
    // other entries are kept, and only key can be added
    ensures r.table.Keys == m.Keys + {key}
    ensures forall k :: k in m ==> r.table[k] == m[k]
  {
    if key in m then
      Emplaced(m, m[key], false, 0)
    else
      var v := Convert(arg);
      Emplaced(m[key := v.value], v.value, true, v.calls)
  }

  /** The wrapper is what makes the map's `try_emplace` lazy: the map
      converts it (and so calls the factory) only on the insert path, and what
      gets inserted is exactly what the conversion yields. */
  lemma ConvertOnlyOnInsert<K, V>(m: map<K, V>, key: K, w: LazyInvoke<V>)
    ensures MapTryEmplace(m, key, w).calls == (if key in m then 0 else Convert(w).calls)
    ensures key !in m ==> MapTryEmplace(m, key, w).value == Convert(w).value
    ensures key !in m ==> MapTryEmplace(m, key, w).table == m[key := Convert(w).value]
  {
  }

  /** `try_emplace_lazy(map, key, value_factory)`. */
  function TryEmplaceLazy<K, V>(m: map<K, V>, key: K, factory: () -> V): (r: Emplaced<K, V>)
    // the returned iterator points at the entry for key
    ensures key in r.table && r.value == r.table[key]
    // present key: nothing changes, the existing value comes back, no call
    ensures key in m ==> r.table == m && r.value == m[key] && !r.inserted && r.calls == 0
    // absent key: exactly one call, and its result is what gets inserted
    ensures key !in m ==> r.inserted && r.calls == 1 && r.value == factory()
    ensures r.inserted <==> key !in m
    // nothing else changes
    ensures r.table.Keys == m.Keys + {key}
    ensures forall k :: k in m ==> r.table[k] == m[k]
    ensures r.calls <= 1
  {
    MapTryEmplace(m, key, LazyInvoke(factory))
  }

  /** Get-or-insert-with, stated as a relation on the state before and after,
      without reference to any wrapper or conversion. */
  ghost predicate GetOrInsertWith<K, V>(m: map<K, V>, key: K, factory: () -> V, r: Emplaced<K, V>)
  {
    if key in m then
      r == Emplaced(m, m[key], false, 0)
    else
      && r.inserted
      && r.calls == 1
      && r.value == factory()
      && r.table.Keys == m.Keys + {key}
      && r.table[key] == r.value
      && (forall k :: k in m ==> r.table[k] == m[k])
  }

  /** `try_emplace_lazy` is get-or-insert-with, and get-or-insert-with
      determines the result completely. */
  lemma TryEmplaceLazyIsGetOrInsertWith<K, V>(m: map<K, V>, key: K, factory: () -> V, r: Emplaced<K, V>)
    ensures GetOrInsertWith(m, key, factory, r) <==> r == TryEmplaceLazy(m, key, factory)
  {
  }

  /** A second call with the same key, whatever factory it is given, returns the
      value the first call produced, changes nothing and calls nothing. */
  lemma EmplaceIdempotent<K, V>(m: map<K, V>, key: K, f: () -> V, g: () -> V)
    ensures var first := TryEmplaceLazy(m, key, f);
            var second := TryEmplaceLazy(first.table, key, g);
            && second.table == first.table
            && second.value == first.value
            && !second.inserted
            && second.calls == 0
  {
  }

  /** Emplacing under two different keys gives the same map in either order. */
  lemma EmplaceCommutes<K, V>(m: map<K, V>, k1: K, f1: () -> V, k2: K, f2: () -> V)
    requires k1 != k2
    ensures TryEmplaceLazy(TryEmplaceLazy(m, k1, f1).table, k2, f2).table
         == TryEmplaceLazy(TryEmplaceLazy(m, k2, f2).table, k1, f1).table
  {
  }

  /** The outcome of a run of `try_emplace_lazy` calls on one key. */
  datatype EmplaceRun<K, V> = EmplaceRun(table: map<K, V>, values: seq<V>, calls: nat)

  /** Calls `try_emplace_lazy(map, key, f)` once for each factory `f` of
      `factories` in order, collecting what each call returned and adding up
      the factory calls. */
  function EmplaceEach<K, V>(m: map<K, V>, key: K, factories: seq<() -> V>): (r: EmplaceRun<K, V>)
    ensures |r.values| == |factories|
    decreases |factories|
  {
    if |factories| == 0 then
      EmplaceRun(m, [], 0)
    else
      var e := TryEmplaceLazy(m, key, factories[0]);
      var rest := EmplaceEach(e.table, key, factories[1..]);
      EmplaceRun(rest.table, [e.value] + rest.values, e.calls + rest.calls)
  }

  /** However many times `try_emplace_lazy` is called on one key, the factories
      run at most once in total, every call returns the same value, and that
      value is the one already present or else the first factory's. */
  lemma {:induction false} EmplaceEachAgrees<K, V>(m: map<K, V>, key: K, factories: seq<() -> V>)
    requires |factories| > 0
    ensures var r := EmplaceEach(m, key, factories);
            var v := if key in m then m[key] else factories[0]();
            && r.calls == (if key in m then 0 else 1)
            && (forall i :: 0 <= i < |r.values| ==> r.values[i] == v)
            && r.table == TryEmplaceLazy(m, key, factories[0]).table
    decreases |factories|
  {
    var e := TryEmplaceLazy(m, key, factories[0]);
    var rest := EmplaceEach(e.table, key, factories[1..]);
    if |factories| > 1 {
      EmplaceEachAgrees(e.table, key, factories[1..]);
      assert rest.calls == 0;
    }
  }
}
