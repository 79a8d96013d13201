/**
 The slice of `std::chrono` the timer relies on (src/scoped_perf.hh:3-9).

 A `time_point` of `high_resolution_clock` is a count of nanosecond ticks since
 the clock's epoch; a default-constructed `time_point` is the epoch itself. A
 clock reading is never taken here: every operation that calls `now()` in the
 source receives its reading as a `Tick` argument.
 */
module Chrono {

  /** A clock reading, or a difference of two, in nanoseconds. */
  type Tick = int

  /** `time_point()`: the clock's epoch. */
  const Epoch: Tick := 0

  /** The target units `duration_cast` is used with. */
  datatype Unit = Nanoseconds | Microseconds | Milliseconds

  /** How many clock ticks make one unit. */
  function TicksPer(u: Unit): (n: nat)
    ensures n > 0
  {
    match u
    case Nanoseconds => 1
    case Microseconds => 1_000
    case Milliseconds => 1_000_000
  }

  /** C++ integer division of `a` by a positive `d`: rounds toward zero (unlike
      Dafny's `/`, which rounds toward minus infinity for positive divisors). */
  function TruncDiv(a: int, d: int): (q: int)
    requires d > 0
    ensures 0 <= a ==> 0 <= q && q * d <= a < q * d + d
    ensures a < 0 ==> q <= 0 && q * d - d < a <= q * d
  {
    if a >= 0 then a / d else -((-a) / d)
  }

  /** `duration_cast<u>(ticks)`: the whole number of units in `ticks`, with the
      fraction dropped toward zero. */
  function DurationCast(ticks: Tick, u: Unit): (n: int)
    ensures 0 <= ticks ==> 0 <= n && n * TicksPer(u) <= ticks < (n + 1) * TicksPer(u)
    ensures ticks < 0 ==> n <= 0 && (n - 1) * TicksPer(u) < ticks <= n * TicksPer(u)
    ensures -(TicksPer(u) as int) < ticks < TicksPer(u) ==> n == 0
  {
    TruncDiv(ticks, TicksPer(u))
  }

  /** Truncating division is monotone: a longer interval never casts to fewer
      units. */
  lemma {:induction false} TruncDivMonotone(a: int, b: int, d: int)
    requires d > 0
    requires a <= b
    ensures TruncDiv(a, d) <= TruncDiv(b, d)
  {
    if 0 <= a {
      DivMonotone(a, b, d);
    } else if b < 0 {
      DivMonotone(-b, -a, d);
    }
  }

  /** Dafny's `/` is monotone in the dividend for non-negative operands. */
  lemma DivMonotone(x: int, y: int, d: int)
    requires d > 0 && 0 <= x <= y
    ensures x / d <= y / d
  {
    var p, q := x / d, y / d;
    assert p * d <= x;
    assert y < q * d + d;
    assert p * d < (q + 1) * d;
    MulCancel(p, q + 1, d);
  }

  lemma MulCancel(p: int, q: int, d: int)
    requires d > 0 && p * d < q * d
    ensures p < q
  {
  }
}
