/** Time arithmetic of the aggregator. Instants are nanoseconds since the Unix
    epoch (unbounded `int`); durations are Go `time.Duration` values, i.e.
    nanosecond counts confined to the signed 64-bit range. */
module Clock {

  const Second: int := 1_000_000_000

  /** Sampling interval of the aggregator (fairprice.go:16). */
  const TickPeriod: int := 60 * Second

  /** Age at which a source's price stops counting (fairprice.go:19). */
  const ExpirePeriod: int := 2 * TickPeriod

  /** Range of a Go `time.Duration` (a signed 64-bit nanosecond count). */
  const MinDuration: int := -0x8000_0000_0000_0000
  const MaxDuration: int := 0x7FFF_FFFF_FFFF_FFFF

  /** The zero `time.Time` (January 1, year 1, 00:00:00 UTC) measured from the
      Unix epoch: this is the timestamp of a snapshot nothing was written to. */
  const ZeroTime: int := -62_135_596_800 * Second

  /** Go's `t.Sub(u)`: the elapsed duration `t - u`, saturated to the
      `time.Duration` range when it does not fit. */
  function Sub(t: int, u: int): (d: int)
    ensures MinDuration <= d <= MaxDuration
    ensures MinDuration <= t - u <= MaxDuration ==> d == t - u
    ensures t - u > MaxDuration ==> d == MaxDuration
    ensures t - u < MinDuration ==> d == MinDuration
  {
    if t - u > MaxDuration then MaxDuration
    else if t - u < MinDuration then MinDuration
    else t - u
  }

  /** Go's `/` on integers: division truncated toward zero. */
  function GoQuo(a: int, b: int): int
    requires b > 0
  {
    if a >= 0 then a / b else -((-a) / b)
  }

  /** Go's `%` on integers: the remainder left by `GoQuo`, so it takes the sign
      of the dividend (unlike Dafny's Euclidean `%`). */
  function GoRem(a: int, b: int): (r: int)
    requires b > 0
    ensures a == GoQuo(a, b) * b + r
    ensures a >= 0 ==> 0 <= r < b
    ensures a < 0 ==> -b < r <= 0
  {
    a - GoQuo(a, b) * b
  }

  /** The first sleep of the tick goroutine, `TickPeriod - now % TickPeriod`
      (fairprice.go:61), where `now` is `time.Now().UnixNano()`. */
  function FirstDelay(now: int): (d: int)
    ensures (now + d) % TickPeriod == 0
    ensures 0 < d < 2 * TickPeriod
    ensures now >= 0 ==> d <= TickPeriod
    ensures now < 0 && now % TickPeriod != 0 ==> d > TickPeriod
  {
    TickPeriod - GoRem(now, TickPeriod)
  }

  /** For a non-negative clock the first sleep ends on the NEXT multiple of the
      tick period: no earlier positive delay is aligned. */
  lemma FirstDelayIsNextBoundary(now: int, e: int)
    requires now >= 0
    requires 0 < e < FirstDelay(now)
    ensures (now + e) % TickPeriod != 0
  {
    var m := now % TickPeriod;
    assert FirstDelay(now) == TickPeriod - m;
    assert now + e == (now / TickPeriod) * TickPeriod + (m + e);
    assert 0 < m + e < TickPeriod;
  }

  /** Instant of the k-th tick (k = 0 first) after subscribing at `start`: the
      goroutine sleeps `FirstDelay(start)`, then starts a ticker whose first
      fire comes one full period later (fairprice.go:61-65). The schedule is
      ideal: sleeps are exact and no tick is dropped. */
  function TickTime(start: int, k: nat): (t: int)
    ensures t % TickPeriod == 0
    ensures t > start + FirstDelay(start)
    ensures t - start - FirstDelay(start) == (k + 1) * TickPeriod
  {
    start + FirstDelay(start) + (k + 1) * TickPeriod
  }
}
