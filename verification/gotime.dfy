/** The two uses the token makes of Go's `time` package: the values
    `time.Time{}` and `time.Unix(0, nanos)`, and `Time.Sub`. */
module GoTime {
  import opened GoTypes

  /** A `time.Time` as the token sees one: the zero value `time.Time{}`
      (January 1 of year 1), or `time.Unix(0, nanos)`. Every `int64`
      nanosecond count lies within 293 years of 1970, so no `Unix` value is
      the zero time. */
  datatype Time = Zero | Unix(nanos: int64)

  /** `now.Sub(t)`, with `now` a clock reading in nanoseconds since the
      epoch: the difference as a `time.Duration`, which saturates at the ends
      of the `int64` range instead of wrapping. */
  function Sub(now: int, t: int64): int64 {
    var d := now - t;
    if d > MaxInt64 then MaxInt64
    else if d < MinInt64 then MinInt64
    else d
  }

  /** Comparing the saturated difference with a duration answers the same as
      comparing the exact difference, unless the difference is beyond the
      largest duration and the duration compared with is that largest one. */
  lemma SubExceeds(now: int, t: int64, d: int64)
    requires now - t <= MaxInt64 || d < MaxInt64
    ensures Sub(now, t) > d <==> now - t > d
  {
  }

  /** No difference exceeds the largest duration. */
  lemma SubAtMostMax(now: int, t: int64)
    ensures !(Sub(now, t) > MaxInt64)
  {
  }
}
