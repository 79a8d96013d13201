# cpp-snippets in Dafny: lazy emplace and scoped timer

This project models the two header-only utilities of the `cpp-snippets`
repository and proves their contracts.

- **Lazy map emplace** (`src/try_emplace.hh`). `lazy_invoke` wraps a
  zero-argument factory and runs it only when it is converted to the factory's
  result type. `try_emplace_lazy(map, key, factory)` hands such a wrapper to the
  map's `try_emplace`, which converts it only when `key` is absent. The result
  is get-or-insert-with. `make_int_cached` applies it to a function-local static
  `unordered_map<int, int>` with the factory `1 + 1`.
- **Scoped timer** (`src/scoped_perf.hh`). A `stopwatch` holds a start time
  point `t0`. A `scoped_perf` pairs a label with a stopwatch, a `running` flag
  and the last measured duration `dt` in milliseconds. When the scope ends,
  its destructor stops the timer and reports, but only if it is running.

Modules:

- `LazyEmplace` (`lazy_emplace.dfy`): the wrapper, the map's `try_emplace`,
  `try_emplace_lazy`, and a reference relation `GetOrInsertWith` that pins
  the helper's behaviour down.
- `IntCache` (`int_cache.dfy`): `make_int_cached`. The static cache is an
  explicit argument and result. It starts as `EmptyCache`.
- `Chrono` (`chrono.dfy`): clock ticks in nanoseconds, the epoch as tick 0,
  and `duration_cast` as division rounding toward zero.
- `Stopwatch` (`stopwatch.dfy`): `stopwatch` construction (`NewStopwatch`),
  `reset()` (`Reset`, whose behaviour `ResetRestartsCount` pins down) and
  `elapsed()` (`Elapsed`).
- `ScopedPerf` (`scoped_perf.dfy`): `scoped_perf` as a value with transition
  functions `Create`, `Start`, `Stop`, `Report` (`report()`), `ElapsedMs`
  (`elapsed()`) and `Destroy`; `NoStopKeepsDuration` and `ScopeWithoutStop`
  state what `report()` and `elapsed()` show. It also defines traces of public calls, with the properties that
  hold over a whole scope.

Modelling choices:

- Factories are pure Dafny functions `() -> V`. Every emplace result carries
  `calls`, the number of times the factory ran. The C++ code counts no calls;
  this field records them so that "at most once" and "never when present" can
  be stated.
- Each operation that reads `hr_clock::now()` takes the reading as a `Tick`
  argument instead.
- A non-delayed `scoped_perf` reads the clock twice: first in the
  stopwatch's constructor, then in `start()`. `Create` takes both readings, and
  its contract shows that the first one is overwritten.
- The delayed constructor is modelled exactly as written. It initialises
  `running` from `delayed`, so `running` is `true`, while `t0` stays at the
  epoch. A delayed timer that is never started therefore reports the time
  since the clock's epoch when its scope ends (`DelayedReportsSinceEpoch`).
- `report()` writes a fixed literal `"{} took {} ms"` followed by `dt`. It
  never writes the timer's label. The model follows the code: a report is
  the observation `Printed(dt)`.

## Model

| member | source | states |
|---|---|---|
| LazyEmplace.ConvertOnlyOnInsert | src/try_emplace.hh:13-14 | the map converts the wrapper only when the key is absent; then it spends exactly the conversion's one call and inserts exactly the value the conversion yields |
| LazyEmplace.MapTryEmplace | src/try_emplace.hh:26 | the map's `try_emplace` with a lazy argument leaves an entry for the key and returns its value; present key: map unchanged, not inserted, wrapper never converted; absent key: one call, the callable's value inserted; other entries kept and only the key added |
| LazyEmplace.TryEmplaceLazy | src/try_emplace.hh:24-27 | present key: map unchanged, existing value returned, not inserted, factory never called; absent key: the factory runs once and its result is inserted and returned; key set grows by at most the key; other entries keep their values; at most one call |
| LazyEmplace.TryEmplaceLazyIsGetOrInsertWith | src/try_emplace.hh:24-27 | a result satisfies the get-or-insert-with relation if and only if it is what `try_emplace_lazy` returns |
| LazyEmplace.EmplaceIdempotent | src/try_emplace.hh:24-27 | a second call on the same key, with any factory, returns the first call's value, leaves the map as the first call left it, and calls nothing |
| LazyEmplace.EmplaceCommutes | src/try_emplace.hh:26 | emplacing under two different keys yields the same map in either order |
| LazyEmplace.EmplaceEachAgrees | src/try_emplace.hh:24-27 | any run of calls on one key runs the factories at most once in total; every call returns the value already present, or else the first factory's; the map ends as after the first call |
| IntCache.MakeIntCached | src/try_emplace.hh:18-22 | the returned value is the key's cached value; an uncached key gets 2; cached keys keep their values and only the key is added; a cache holding only 2s still does and the call returns 2 |
| IntCache.CallsFromTwos | src/try_emplace.hh:19-21 | from a cache holding only 2s, every call in a sequence returns 2, and the cache ends holding only 2s under exactly the old keys plus the keys asked for |
| IntCache.MakeIntCachedAlwaysTwo | src/try_emplace.hh:18-22 | from the initially empty static cache, every call in any sequence returns 2, and exactly the keys asked for are cached, each mapped to 2 |
| Chrono.DurationCast | src/scoped_perf.hh:31 | `duration_cast` is the whole number of target units in the tick count, truncated toward zero: bounds for both signs, and zero for less than one unit |
| Stopwatch.NewStopwatch | src/scoped_perf.hh:17-22 | a non-delayed stopwatch starts at the construction-time reading; a delayed one stays at the epoch |
| Stopwatch.Elapsed | src/scoped_perf.hh:30-31 | `elapsed()` is the number of whole units between `t0` and now, rounded toward zero, for either order of the two readings |
| Stopwatch.ResetRestartsCount | src/scoped_perf.hh:28-31 | read at the instant of a reset, elapsed is zero; read later, it is the cast of the time since the reset |
| Stopwatch.ElapsedMonotone | src/scoped_perf.hh:30-31 | with a clock that does not go backwards, successive `elapsed()` readings of one stopwatch never decrease |
| Stopwatch.DelayedMeasuresFromEpoch | src/scoped_perf.hh:17-22 | a delayed stopwatch measures from the epoch, so its reading is the cast clock reading itself |
| ScopedPerf.Create | src/scoped_perf.hh:44-49 | after construction: the label is kept, `dt` is 0 and `running` is true in both modes; non-delayed: `t0` is the reading taken by `start()`; delayed: `t0` is the epoch |
| ScopedPerf.Start | src/scoped_perf.hh:54 | `start()` sets `running`, moves `t0` to the current reading so that nothing has elapsed yet, and keeps `dt` and the label |
| ScopedPerf.Stop | src/scoped_perf.hh:55 | `stop()` clears `running`, keeps the stopwatch, and stores in `dt` the whole milliseconds since `t0`, truncated toward zero for either order of the readings, so non-negative when the clock has not gone backwards |
| ScopedPerf.Destroy | src/scoped_perf.hh:60-67 | the destructor reports exactly when `running` is set: then it stops and reports the fresh `dt`; otherwise it changes nothing and reports nothing |
| ScopedPerf.MonotoneClockNonNegative | src/scoped_perf.hh:54-58 | with non-decreasing clock readings, every duration that `report()` writes or `elapsed()` returns is non-negative, and `t0` never passes the latest reading |
| ScopedPerf.LifetimeNonNegative | src/scoped_perf.hh:44-67 | over a whole scope with non-decreasing readings from the construction-time one on, delayed or not, no observed duration is negative |
| ScopedPerf.NoStopKeepsDuration | src/scoped_perf.hh:54-58 | without `stop()`, `dt` keeps its value, a running timer stays running, and every report or `elapsed()` shows that same value |
| ScopedPerf.ScopeWithoutStop | src/scoped_perf.hh:41-67 | before any `stop()`, `elapsed()` is 0 and the timer is running; a scope that calls neither `stop()` nor `report()` writes exactly one report, from its destructor |
| ScopedPerf.RestartMeasuresAfresh | src/scoped_perf.hh:54-55 | start/stop twice gives two independent readings, each the cast of its own interval and each non-negative |
| ScopedPerf.DelayedReportsSinceEpoch | src/scoped_perf.hh:45 | a delayed timer that is never started still counts as running, so leaving the scope reports the milliseconds since the clock's epoch |

## Left out

- Clock access (`hr_clock::now`, `stopwatch::now`): each reading is an argument. Whether the clock is monotone is a precondition of the lemmas that need it. The code does not guarantee it.
- Tick width: the rep of `time_point` and `milliseconds` is a 64-bit integer. The model uses unbounded integers, so an overflowing `now - t0` is not modelled. That difference never arises for readings of a real clock.
- The tick period: `high_resolution_clock` is taken to count nanoseconds, as common standard libraries do. The standard leaves the period to the implementation.
- `report()` output formatting to `std::cout`: this is I/O. A report is the observation `Printed(dt)`.
- The hashing, buckets and iterators of `std::unordered_map`: a Dafny `map` carries the observable behaviour. The returned iterator is modelled as the entry's value.
- A factory that throws: factories are total functions here, so the "no entry after a failed insertion" path is not modelled.
- Thread safety, deleted copy operations, `constexpr`, perfect forwarding and `std::invoke_result_t`: these have no behavioural content for a single-threaded value model.
- The width of `int` in `make_int_cached`: keys and values are 32-bit (`int32`). The only computed value, `1 + 1`, cannot overflow.
- Target units of `stopwatch::elapsed<Duration>`: only nanoseconds, microseconds and milliseconds are modelled. Other integer units such as seconds are not. Floating-point durations, which do not truncate, are not modelled either. `scoped_perf` itself uses only milliseconds.
