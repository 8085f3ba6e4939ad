/**
 * The few pieces of Go's `time` package the locker relies on.  Instants are
 * integers counting nanoseconds since the Unix epoch and durations are integer
 * nanoseconds, as Go's `time.Duration` is.
 */
module GoTime {

  /** Unix seconds of January 1, year 1, 00:00:00 UTC, the zero `time.Time{}`. */
  const ZeroTimeUnixSeconds: int := -62135596800

  /** The zero `time.Time{}` as an instant on the nanosecond time line. */
  const ZeroTime: int := ZeroTimeUnixSeconds * 1_000_000_000

  /** `Time.Compare`: -1, 0 or +1 as the instant `t` is before, equal to or after `u`. */
  function Compare(t: int, u: int): (c: int)
    ensures c == -1 || c == 0 || c == 1
    ensures c < 0 <==> t < u
    ensures c > 0 <==> u < t
  {
    if t < u then -1 else if u < t then 1 else 0
  }

  /** Euclidean division of a non-negative dividend brackets it between two multiples. */
  lemma DivBounds(a: int, b: int)
    requires a >= 0 && b > 0
    ensures 0 <= a / b && (a / b) * b <= a < (a / b) * b + b
  {
    assert a == (a / b) * b + a % b;
  }

  /**
   * Go's integer division: the quotient is truncated toward zero, so a
   * negative dividend gives a non-positive quotient (Dafny's `/` is Euclidean).
   */
  function Quo(a: int, b: int): (q: int)
    requires b > 0
    ensures a >= 0 ==> 0 <= q && q * b <= a < q * b + b
    ensures a < 0 ==> q <= 0 && q * b - b < a <= q * b
  {
    if a >= 0 then DivBounds(a, b); a / b else DivBounds(-a, b); -((-a) / b)
  }

  /**
   * `Duration.Microseconds()`: the duration truncated to whole microseconds,
   * toward zero, so it is never off by a whole microsecond.
   */
  function Microseconds(d: int): (us: int)
    ensures d >= 0 ==> 0 <= us * 1000 <= d < us * 1000 + 1000
    ensures d < 0 ==> us * 1000 - 1000 < d <= us * 1000 <= 0
  {
    Quo(d, 1000)
  }

  /** Truncation toward zero treats a negative duration as the mirror image of a positive one. */
  lemma MicrosecondsIsOdd(d: int)
    ensures Microseconds(-d) == -Microseconds(d)
  {
  }
}
