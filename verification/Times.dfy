/** Instants and durations as the Go standard library computes them. An instant is the number of
    nanoseconds since the Unix epoch; a duration is a signed 64-bit number of nanoseconds. */
module Times {
  import opened Basics

  type Time = int

  const MICROSECOND: int := 1_000
  const MILLISECOND: int := 1_000_000
  const SECOND: int := 1_000_000_000
  const HOUR: int := 3_600 * SECOND

  const MIN_INT64: int := -0x8000_0000_0000_0000
  const MAX_INT64: int := 0x7fff_ffff_ffff_ffff

  /** The zero instant: January 1 of year 1, below every instant a 64-bit nanosecond count can name. */
  const ZERO_TIME: Time := -62_135_596_800 * SECOND

  /** A reading of the wall clock, which does not go back and need not move between two readings. */
  method Later(clock: Time) returns (t: Time)
    ensures t >= clock
  {
    var elapsed: int := *;
    t := if elapsed > 0 then clock + elapsed else clock;
  }

  predicate FitsInt64(n: int) {
    MIN_INT64 <= n <= MAX_INT64
  }

  /** Integer division as Go does it: towards zero. */
  function Quotient(a: int, b: int): int
    requires b > 0
  {
    if a >= 0 then a / b else -((-a) / b)
  }

  /** The difference of two instants, saturated to the range of a duration. */
  function Sub(t: Time, u: Time): (d: int)
    ensures FitsInt64(d)
    ensures FitsInt64(t - u) ==> d == t - u
    ensures t - u > MAX_INT64 ==> d == MAX_INT64
    ensures t - u < MIN_INT64 ==> d == MIN_INT64
  {
    if t - u < MIN_INT64 then MIN_INT64 else if t - u > MAX_INT64 then MAX_INT64 else t - u
  }

  function Microseconds(d: int): int {
    Quotient(d, MICROSECOND)
  }

  /** Whole seconds plus the fraction, over the reals. */
  function Seconds(d: int): real {
    var sec := Quotient(d, SECOND);
    sec as real + (d - sec * SECOND) as real / 1_000_000_000.0
  }

  function UnixMilli(t: Time): int {
    t / MILLISECOND
  }

  function Unix(t: Time): int {
    t / SECOND
  }

  /** The millisecond an instant is in. */
  lemma MillisecondOf(t: Time)
    ensures UnixMilli(t) * MILLISECOND <= t < (UnixMilli(t) + 1) * MILLISECOND
  {
  }

  /** The second an instant is in. */
  lemma SecondOf(t: Time)
    ensures Unix(t) * SECOND <= t < (Unix(t) + 1) * SECOND
  {
  }

  /** A duration in microseconds is cut towards zero, and keeps its sign. */
  lemma MicrosecondsOf(d: int)
    ensures Abs(Microseconds(d)) * MICROSECOND <= Abs(d) < (Abs(Microseconds(d)) + 1) * MICROSECOND
    ensures (d >= 0 ==> Microseconds(d) >= 0) && (d <= 0 ==> Microseconds(d) <= 0)
  {
  }

  /** A duration in seconds is not rounded. */
  lemma SecondsOf(d: int)
    ensures Seconds(d) * 1_000_000_000.0 == d as real
  {
  }

  /** Rounding to microseconds and saturating do not move the one-millisecond threshold. */
  lemma MillisecondThreshold(t: Time, u: Time)
    ensures Abs(Microseconds(Sub(t, u))) < 1_000 <==> Abs(t - u) < MILLISECOND
  {
    var d := Sub(t, u);
    if d >= 0 {
      assert d / MICROSECOND < 1_000 <==> d < MILLISECOND;
    } else {
      assert (-d) / MICROSECOND < 1_000 <==> -d < MILLISECOND;
    }
  }

  /** The same for the twenty-second window measured in seconds. */
  lemma SecondThreshold(t: Time, u: Time, n: nat)
    requires n <= 1_000_000
    ensures Seconds(Sub(t, u)) > n as real || Seconds(Sub(t, u)) < -(n as real) <==> Abs(t - u) > n * SECOND
  {
    var d := Sub(t, u);
    var sec := Quotient(d, SECOND);
    var frac := d - sec * SECOND;
    assert -SECOND < frac < SECOND;
    assert Seconds(d) * 1_000_000_000.0 == d as real;
  }

  /** Clients that keep milliseconds only send an instant truncated to them. */
  function TruncateToMilli(t: Time): (r: Time)
    ensures r <= t < r + MILLISECOND && r % MILLISECOND == 0
  {
    t - t % MILLISECOND
  }
}
