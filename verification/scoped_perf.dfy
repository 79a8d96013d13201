/**
 `scoped_perf` (src/scoped_perf.hh:35-68): a labelled stopwatch with a
 `running` flag and the last measured duration `dt` in milliseconds. Leaving
 the scope stops the timer and reports `dt`, but only while it is running.

 The object is a value here and every member that mutates it returns the new
 value. Clock readings are arguments; what `report()` writes is recorded as an
 observation instead of being printed.
 */
module ScopedPerf {
  import opened Chrono
  import opened Stopwatch

  datatype ScopedPerf = ScopedPerf(name: string, sw: Stopwatch, running: bool, dt: int)

  /** What a caller can see of the timer: a line written by `report()`, or a
      value handed back by `elapsed()`. */
  datatype Observation = Printed(ms: int) | Returned(ms: int)

  /** `scoped_perf(name, delayed)`. A non-delayed timer reads the clock twice:
      once in the stopwatch's constructor (`swNow`) and once in `start()`
      (`startNow`), which overwrites the first reading. A delayed one reads it
      not at all, and its `running` flag is initialised from `delayed`. */
  function Create(name: string, delayed: bool, swNow: Tick, startNow: Tick): (p: ScopedPerf)
    ensures p.name == name && p.dt == 0
    // running either way: set by start(), or copied from delayed == true
    ensures p.running
    ensures !delayed ==> p.sw.t0 == startNow
    ensures delayed ==> p.sw.t0 == Epoch
  {
    var p := ScopedPerf(name, NewStopwatch(delayed, swNow), delayed, 0);
    if !delayed then Start(p, startNow) else p
  }

  /** `start()` at clock reading `now`. */
  function Start(p: ScopedPerf, now: Tick): (r: ScopedPerf)
    ensures r.running && r.sw.t0 == now
    ensures r.dt == p.dt && r.name == p.name
    ensures Elapsed(r.sw, now, Milliseconds) == 0
  {
    p.(running := true, sw := Reset(p.sw, now))
  }

  /** `stop()` at clock reading `now`. */
  function Stop(p: ScopedPerf, now: Tick): (r: ScopedPerf)
    ensures !r.running && r.sw == p.sw && r.name == p.name
    ensures p.sw.t0 <= now ==> 0 <= r.dt && r.dt * 1_000_000 <= now - p.sw.t0 < (r.dt + 1) * 1_000_000
    ensures now < p.sw.t0 ==> r.dt <= 0 && (r.dt - 1) * 1_000_000 < now - p.sw.t0 <= r.dt * 1_000_000
  {
    p.(dt := Elapsed(p.sw, now, Milliseconds), running := false)
  }

  /** `report()`: writes the last measured duration. */
  function Report(p: ScopedPerf): Observation
  {
    Printed(p.dt)
  }

  /** `elapsed()`: the last measured duration; the timer is left as it is. */
  function ElapsedMs(p: ScopedPerf): int
  {
    p.dt
  }

  /** The timer after its destructor ran, and what the destructor wrote. */
  datatype Teardown = Teardown(state: ScopedPerf, printed: seq<Observation>)

  /** `~scoped_perf()` at clock reading `now`. */
  function Destroy(p: ScopedPerf, now: Tick): (t: Teardown)
    ensures |t.printed| == (if p.running then 1 else 0)
    ensures p.running ==> t.state == Stop(p, now) && t.printed == [Printed(t.state.dt)]
    ensures !p.running ==> t.state == p
  {
    if p.running then
      var stopped := Stop(p, now);
      Teardown(stopped, [Report(stopped)])
    else
      Teardown(p, [])
  }

  /** The public calls a scope can make on its timer between construction and
      destruction; the timed ones carry the clock reading they take. */
  datatype Op = StartAt(now: Tick) | StopAt(now: Tick) | CallReport | CallElapsed

  /** A timer after some calls, with everything observed along the way. */
  datatype Trace = Trace(state: ScopedPerf, seen: seq<Observation>)

  function Step(p: ScopedPerf, op: Op): Trace
  {
    match op
    case StartAt(now) => Trace(Start(p, now), [])
    case StopAt(now) => Trace(Stop(p, now), [])
    case CallReport => Trace(p, [Report(p)])
    case CallElapsed => Trace(p, [Returned(ElapsedMs(p))])
  }

  /** Performs `ops` in order. */
  function Run(p: ScopedPerf, ops: seq<Op>): Trace
    decreases |ops|
  {
    if |ops| == 0 then
      Trace(p, [])
    else
      var first := Step(p, ops[0]);
      var rest := Run(first.state, ops[1..]);
      Trace(rest.state, first.seen + rest.seen)
  }

  /** A whole scope: construction, the calls in it, and the destructor. */
  function Lifetime(name: string, delayed: bool, swNow: Tick, startNow: Tick, ops: seq<Op>, endNow: Tick): Trace
  {
    var body := Run(Create(name, delayed, swNow, startNow), ops);
    var end := Destroy(body.state, endNow);
    Trace(end.state, body.seen + end.printed)
  }

  /** The clock reading an operation takes, if any; otherwise the latest one. */
  function ClockAfter(clock: Tick, op: Op): Tick
  {
    if op.StartAt? || op.StopAt? then op.now else clock
  }

  /** The clock readings taken by `ops`, from `clock` on, never go backwards. */
  ghost predicate Monotone(clock: Tick, ops: seq<Op>)
    decreases |ops|
  {
    |ops| == 0 || (clock <= ClockAfter(clock, ops[0]) && Monotone(ClockAfter(clock, ops[0]), ops[1..]))
  }

  /** The last clock reading taken by `ops`, or `clock` if they take none. */
  function LastReading(clock: Tick, ops: seq<Op>): Tick
    decreases |ops|
  {
    if |ops| == 0 then clock else LastReading(ClockAfter(clock, ops[0]), ops[1..])
  }

  /** The timer was started no later than the latest clock reading, and holds
      no negative duration. */
  ghost predicate Sane(p: ScopedPerf, clock: Tick)
  {
    p.sw.t0 <= clock && 0 <= p.dt
  }

  /** With a clock that never goes backwards, every duration the timer reports
      or returns is non-negative, and so is the one it holds at the end. */
  lemma {:induction false} MonotoneClockNonNegative(p: ScopedPerf, clock: Tick, ops: seq<Op>)
    requires Sane(p, clock) && Monotone(clock, ops)
    ensures var t := Run(p, ops);
            && Sane(t.state, LastReading(clock, ops))
            && forall i :: 0 <= i < |t.seen| ==> 0 <= t.seen[i].ms
    decreases |ops|
  {
    if |ops| > 0 {
      var first := Step(p, ops[0]);
      var next := ClockAfter(clock, ops[0]);
      assert Sane(first.state, next);
      MonotoneClockNonNegative(first.state, next, ops[1..]);
    }
  }

  /** A scope whose clock never goes backwards, from the construction-time
      reading (at or after the epoch) to its destruction, observes no negative
      duration; this holds for delayed timers too, which measure from the
      epoch. */
  lemma {:induction false} LifetimeNonNegative(name: string, delayed: bool, swNow: Tick, startNow: Tick, ops: seq<Op>, endNow: Tick)
    requires Epoch <= startNow
    requires Monotone(startNow, ops) && LastReading(startNow, ops) <= endNow
    ensures var t := Lifetime(name, delayed, swNow, startNow, ops, endNow);
            forall i :: 0 <= i < |t.seen| ==> 0 <= t.seen[i].ms
  {
    var p := Create(name, delayed, swNow, startNow);
    MonotoneClockNonNegative(p, startNow, ops);
  }

  /** Without a call to `stop()`, `dt` keeps its value, whatever `elapsed()` or
      `report()` show is that value, and a running timer stays running. */
  lemma {:induction false} NoStopKeepsDuration(p: ScopedPerf, ops: seq<Op>)
    requires forall i :: 0 <= i < |ops| ==> !ops[i].StopAt?
    ensures var t := Run(p, ops);
            && t.state.dt == p.dt
            && (p.running ==> t.state.running)
            && forall i :: 0 <= i < |t.seen| ==> t.seen[i].ms == p.dt
    decreases |ops|
  {
    if |ops| > 0 {
      NoStopKeepsDuration(Step(p, ops[0]).state, ops[1..]);
    }
  }

  /** Before any `stop()`, `elapsed()` is zero; and a scope that never calls
      `stop()` or `report()` writes exactly one report, from its destructor. */
  lemma {:induction false} ScopeWithoutStop(name: string, delayed: bool, swNow: Tick, startNow: Tick, ops: seq<Op>, endNow: Tick)
    requires forall i :: 0 <= i < |ops| ==> !ops[i].StopAt?
    ensures var body := Run(Create(name, delayed, swNow, startNow), ops);
            ElapsedMs(body.state) == 0 && body.state.running
    ensures var t := Lifetime(name, delayed, swNow, startNow, ops, endNow);
            (forall i :: 0 <= i < |ops| ==> ops[i] != CallReport) ==>
              |set i | 0 <= i < |t.seen| && t.seen[i].Printed?| == 1
  {
    var p := Create(name, delayed, swNow, startNow);
    var body := Run(p, ops);
    NoStopKeepsDuration(p, ops);
    var t := Lifetime(name, delayed, swNow, startNow, ops, endNow);
    if forall i :: 0 <= i < |ops| ==> ops[i] != CallReport {
      assert forall i :: 0 <= i < |body.seen| ==> body.seen[i].Returned? by {
        ReturnedOnly(p, ops);
      }
      assert (set i | 0 <= i < |t.seen| && t.seen[i].Printed?) == {|body.seen|};
    }
  }

  /** Without `report()` and `stop()` calls, every observation is a value
      returned by `elapsed()`. */
  lemma {:induction false} ReturnedOnly(p: ScopedPerf, ops: seq<Op>)
    requires forall i :: 0 <= i < |ops| ==> !ops[i].StopAt? && ops[i] != CallReport
    ensures forall i :: 0 <= i < |Run(p, ops).seen| ==> Run(p, ops).seen[i].Returned?
    decreases |ops|
  {
    if |ops| > 0 {
      ReturnedOnly(Step(p, ops[0]).state, ops[1..]);
    }
  }

  /** A timer stopped, started again and stopped again measures the second
      interval on its own: the first measurement does not leak into it. */
  lemma RestartMeasuresAfresh(p: ScopedPerf, a: Tick, b: Tick, c: Tick, d: Tick)
    requires a <= b <= c <= d
    ensures var first := Stop(Start(p, a), b);
            var second := Stop(Start(first, c), d);
            && first.dt == DurationCast(b - a, Milliseconds)
            && second.dt == DurationCast(d - c, Milliseconds)
            && 0 <= first.dt && 0 <= second.dt
  {
  }

  /** A delayed timer that is never started still counts as running: leaving
      the scope reports the time since the clock's epoch, not since
      construction. */
  lemma DelayedReportsSinceEpoch(name: string, swNow: Tick, startNow: Tick, endNow: Tick)
    ensures var t := Destroy(Create(name, true, swNow, startNow), endNow);
            t.printed == [Printed(DurationCast(endNow - Epoch, Milliseconds))]
  {
  }
}
