/** The hour classifier: whether an hour that starts at a given instant lies
    inside the daily business-hours window. */
module Classifier {
  import opened Clock

  /** The two buckets an hour of an event is booked to. */
  datatype Bucket = Inside | Outside

  /** Business hours run from OPENING:00 inclusive to CLOSING:00 exclusive, every day. */
  const OPENING: nat := 9
  const CLOSING: nat := 17

  function Classify(t: Instant): Bucket
  {
    var h := HourOfDay(t);
    if h >= OPENING && h < CLOSING then Inside else Outside
  }

  /** Stepping `k` whole hours forward moves the hour of the day by `k`, modulo 24. */
  lemma HourOfDayAdvances(t: Instant, k: int)
    ensures HourOfDay(t + k * HOUR) == (HourOfDay(t) + k) % 24
  {
  }

  /** The classification repeats every day. */
  lemma ClassifyIsDaily(t: Instant, days: int)
    ensures Classify(t + days * DAY) == Classify(t)
  {
    assert days * DAY == (24 * days) * HOUR;
    HourOfDayAdvances(t, 24 * days);
    assert (HourOfDay(t) + 24 * days) % 24 == HourOfDay(t);
  }

  /** The classification looks only at the hour: every instant of one clock hour
      is classified as the start of that hour is. */
  lemma ClassifyWithinHour(t: Instant, s: int)
    requires 0 <= s < HOUR
    ensures Classify(HOUR * (t / HOUR) + s) == Classify(t)
  {
  }
}
