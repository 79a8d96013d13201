/**
 `stopwatch` (src/scoped_perf.hh:11-32): one start time point `t0`, set at
 construction unless construction is delayed, and reset on demand.
 */
module Stopwatch {
  import opened Chrono

  datatype Stopwatch = Stopwatch(t0: Tick)

  /** `stopwatch(delayed)` constructed at clock reading `now`: `t0` starts at
      the epoch and is only moved to `now` when construction is not delayed. */
  function NewStopwatch(delayed: bool, now: Tick): (s: Stopwatch)
    ensures delayed ==> s.t0 == Epoch
    ensures !delayed ==> s.t0 == now
  {
    var s := Stopwatch(Epoch);
    if !delayed then Reset(s, now) else s
  }

  /** `reset()` at clock reading `now`: the new start point is `now`,
      whatever it was before. */
  function Reset(s: Stopwatch, now: Tick): (r: Stopwatch)
    ensures r.t0 == now
  {
    s.(t0 := now)
  }

  /** `elapsed<u>()` at clock reading `now`: the whole number of units between
      `t0` and `now`, rounded toward zero. */
  function Elapsed(s: Stopwatch, now: Tick, u: Unit): (d: int)
    ensures s.t0 <= now ==> 0 <= d && d * TicksPer(u) <= now - s.t0 < (d + 1) * TicksPer(u)
    ensures now < s.t0 ==> d <= 0 && (d - 1) * TicksPer(u) < now - s.t0 <= d * TicksPer(u)
  {
    DurationCast(now - s.t0, u)
  }

  /** Read right after a reset, the stopwatch shows nothing elapsed; read again
      later it shows exactly the time since the reset. */
  lemma ResetRestartsCount(s: Stopwatch, now: Tick, later: Tick, u: Unit)
    ensures Elapsed(Reset(s, now), now, u) == 0
    ensures Elapsed(Reset(s, now), later, u) == DurationCast(later - now, u)
  {
  }

  /** With a clock that does not go backwards, successive readings of one
      stopwatch never decrease. */
  lemma {:induction false} ElapsedMonotone(s: Stopwatch, now1: Tick, now2: Tick, u: Unit)
    requires now1 <= now2
    ensures Elapsed(s, now1, u) <= Elapsed(s, now2, u)
  {
    TruncDivMonotone(now1 - s.t0, now2 - s.t0, TicksPer(u));
  }

  /** A delayed stopwatch measures from the epoch: reading it reports the clock
      reading itself, not time spent since construction. */
  lemma DelayedMeasuresFromEpoch(now: Tick, u: Unit)
    ensures Elapsed(NewStopwatch(true, now), now, u) == DurationCast(now, u)
  {
  }
}
