/**
 Go's time arithmetic. A `Duration` is a signed 64-bit count of nanoseconds, so
 `time.Duration(n) * time.Second` wraps for large `n`, while `Time.Sub` saturates.
 Instants are nanoseconds of the monotonic clock.
 */
module GoTime {
  import opened Base

  const SECOND: int := 1_000_000_000

  /** The largest whole number of seconds that fits in a Duration. */
  const MAX_SECONDS: int := 9_223_372_036

  /** Reduction to a signed 64-bit word. */
  function Wrap(n: int): (r: int64)
    ensures -TWO_63 <= n < TWO_63 ==> r == n
  {
    var m := n % TWO_64;
    if m >= TWO_63 then m - TWO_64 else m
  }

  /** time.Duration(n) * time.Second */
  function Seconds(n: int): int64 {
    Wrap(n * SECOND)
  }

  /** The absolute value is taken in int64 before the multiplication, as durationAbs does. */
  function DurationAbs(seconds: int64): int64 {
    var n: int := seconds;
    Seconds(if n < 0 then Wrap(-n) else n)
  }

  /** later.Sub(earlier), saturating. */
  function Sub(later: int, earlier: int): int64 {
    var d := later - earlier;
    if d >= TWO_63 then TWO_63 - 1 else if d < -TWO_63 then -TWO_63 else d
  }

  /** A word is what a number is reduced to iff the two are congruent. */
  lemma WrapIsCongruent(n: int, w: int64)
    ensures w == Wrap(n) <==> (n - w) % TWO_64 == 0
  {
    var k, m := n / TWO_64, n % TWO_64;
    assert n == TWO_64 * k + m && -TWO_63 <= m - w < TWO_64 + TWO_63;
    MultiplesOf(k, m - w);
  }

  lemma MultiplesOf(k: int, d: int)
    requires -TWO_64 < d < 2 * TWO_64
    ensures (TWO_64 * k + d) % TWO_64 == 0 <==> d == 0 || d == TWO_64
  {
    assert (TWO_64 * k + d) % TWO_64 == d % TWO_64;
  }

  /** Sub saturates: against any Duration, its result compares as the true difference. */
  lemma SubCompares(later: int, earlier: int, bound: int64)
    requires bound > -TWO_63
    ensures Sub(later, earlier) >= bound <==> later - earlier >= bound
  {
  }

  /** Exactly the second counts up to MAX_SECONDS survive the conversion to a Duration. */
  lemma SecondsExactIff(n: int)
    ensures Seconds(n) == n * SECOND <==> -MAX_SECONDS <= n <= MAX_SECONDS
  {
  }

  lemma DurationAbsExact(seconds: int64)
    requires -MAX_SECONDS <= seconds <= MAX_SECONDS
    ensures DurationAbs(seconds) == (if seconds < 0 then -seconds else seconds) * SECOND
  {
  }
}
