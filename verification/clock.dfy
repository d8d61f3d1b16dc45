/** Time as the aggregation engine sees it: instants on one fixed local clock,
    counted in whole seconds from the zero time, and durations in seconds. */
module Clock {

  /** An instant, in seconds after the zero time (the value of an unset time variable). */
  type Instant = int

  /** A span of time, in seconds. */
  type Duration = int

  const HOUR: Duration := 3600
  const DAY: Duration := 24 * HOUR

  /** The zero time: what `first` and `last` hold before any event is seen. */
  const ZERO: Instant := 0

  predicate IsZero(t: Instant) { t == ZERO }

  /** `t` is strictly earlier than `u`. */
  predicate Before(t: Instant, u: Instant) { t < u }

  /** `t` is strictly later than `u`. */
  predicate After(t: Instant, u: Instant) { t > u }

  /** The hour of the day on the local clock. Division rounds towards minus
      infinity here, so instants before the zero time get their calendar hour too. */
  function HourOfDay(t: Instant): (h: nat)
    ensures h < 24
  {
    (t / HOUR) % 24
  }
}
