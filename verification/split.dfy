/** `split`: an event's time, walked from its start in one-hour steps, booked
    hour by hour to the inside or the outside bucket. */
module HourSplit {
  import opened Clock
  import opened Classifier

  /** How many one-hour steps the walk from `start` takes before it reaches
      `end`: the duration rounded up to whole hours, or none at all when
      `start` is not before `end`. */
  function Steps(start: Instant, end: Instant): (n: nat)
    ensures n == 0 <==> !Before(start, end)
    ensures Before(start, end) ==> (n - 1) * HOUR < end - start <= n * HOUR
  {
    if Before(start, end) then (end - start + HOUR - 1) / HOUR else 0
  }

  /** The buckets of the first `n` hours walked from `start`: slot `k` is the
      hour that starts at `start + k` hours. */
  function Slots(start: Instant, n: nat): seq<Bucket>
  {
    seq(n, k requires 0 <= k < n => Classify(start + k * HOUR))
  }

  /** How many entries of `s` are `b`. */
  function Count(s: seq<Bucket>, b: Bucket): (n: nat)
    ensures n <= |s|
  {
    if s == [] then 0
    else Count(s[..|s| - 1], b) + (if s[|s| - 1] == b then 1 else 0)
  }

  /** What `split` books to bucket `b` for an event from `start` to `end`:
      one whole hour per walked slot classified as `b`. */
  function Share(start: Instant, end: Instant, b: Bucket): (d: Duration)
    ensures 0 <= d <= Steps(start, end) * HOUR
    ensures d % HOUR == 0
  {
    HOUR * Count(Slots(start, Steps(start, end)), b)
  }

  lemma {:induction false} CountPartition(s: seq<Bucket>)
    ensures Count(s, Inside) + Count(s, Outside) == |s|
  {
    if s != [] {
      CountPartition(s[..|s| - 1]);
    }
  }

  lemma {:induction false} CountPrepend(x: Bucket, s: seq<Bucket>, b: Bucket)
    ensures Count([x] + s, b) == (if x == b then 1 else 0) + Count(s, b)
  {
    if s != [] {
      assert ([x] + s)[..|s|] == [x] + s[..|s| - 1];
      CountPrepend(x, s[..|s| - 1], b);
    }
  }

  /** The cursor `start + k` hours is still before `end` exactly while fewer
      than `Steps(start, end)` steps have been taken. */
  lemma StepsBound(start: Instant, end: Instant, k: nat)
    ensures Before(start + k * HOUR, end) <==> k < Steps(start, end)
  {
  }

  /** The total booked for an event: every walked hour counts in full, so the
      total is the duration rounded up to whole hours; it is nothing when
      `start` is not before `end`, and exactly the duration when that is a
      whole number of hours. */
  lemma {:induction false} SplitTotal(start: Instant, end: Instant)
    ensures Share(start, end, Inside) + Share(start, end, Outside) == Steps(start, end) * HOUR
    ensures !Before(start, end) ==> Share(start, end, Inside) == 0 && Share(start, end, Outside) == 0
    ensures Before(start, end) ==>
              end - start <= Share(start, end, Inside) + Share(start, end, Outside) < end - start + HOUR
    ensures start <= end && (end - start) % HOUR == 0 ==>
              Share(start, end, Inside) + Share(start, end, Outside) == end - start
  {
    CountPartition(Slots(start, Steps(start, end)));
  }

  /** The walk one step at a time: the first hour goes to the bucket its start
      is classified in, and the rest is the walk from one hour later. */
  lemma {:induction false} ShareStep(start: Instant, end: Instant, b: Bucket)
    requires Before(start, end)
    ensures Share(start, end, b) ==
              (if Classify(start) == b then HOUR else 0) + Share(start + HOUR, end, b)
  {
    var n, m := Steps(start, end), Steps(start + HOUR, end);
    assert m == n - 1;
    assert Slots(start, n) == [Classify(start)] + Slots(start + HOUR, m);
    CountPrepend(Classify(start), Slots(start + HOUR, m), b);
  }

  /** A one-hour event is booked in full to the bucket of its start hour. */
  lemma OneHour(t: Instant)
    ensures Share(t, t + HOUR, Inside) == (if OPENING <= HourOfDay(t) < CLOSING then HOUR else 0)
    ensures Share(t, t + HOUR, Outside) == (if OPENING <= HourOfDay(t) < CLOSING then 0 else HOUR)
  {
  }

  lemma {:induction false} CountAppend(s: seq<Bucket>, u: seq<Bucket>, b: Bucket)
    ensures Count(s + u, b) == Count(s, b) + Count(u, b)
  {
    if u == [] {
      assert s + u == s;
    } else {
      assert (s + u)[..|s + u| - 1] == s + u[..|u| - 1];
      CountAppend(s, u[..|u| - 1], b);
    }
  }

  lemma {:induction false} CountUniform(s: seq<Bucket>, x: Bucket, b: Bucket)
    requires forall i :: 0 <= i < |s| ==> s[i] == x
    ensures Count(s, b) == if x == b then |s| else 0
  {
    if s != [] {
      CountUniform(s[..|s| - 1], x, b);
    }
  }

  /** Walking `n + m` hours is walking `n` hours and then `m` more. */
  lemma ShareAppend(t: Instant, n: nat, m: nat, b: Bucket)
    ensures Share(t, t + (n + m) * HOUR, b) ==
              Share(t, t + n * HOUR, b) + Share(t + n * HOUR, t + (n + m) * HOUR, b)
  {
    assert Steps(t, t + (n + m) * HOUR) == n + m;
    assert Steps(t, t + n * HOUR) == n;
    assert Steps(t + n * HOUR, t + (n + m) * HOUR) == m;
    SlotsAppend(t, n, m);
    CountAppend(Slots(t, n), Slots(t + n * HOUR, m), b);
  }

  /** The 24 hours walked from one hour later are those walked from `t`, rotated by one. */
  lemma DayRotate(t: Instant, b: Bucket)
    ensures Count(Slots(t + HOUR, 24), b) == Count(Slots(t, 24), b)
  {
    var s := Slots(t, 24);
    ClassifyIsDaily(t, 1);
    assert Slots(t + HOUR, 24) == s[1..] + [s[0]];
    CountAppend(s[1..], [s[0]], b);
    assert s == [s[0]] + s[1..];
    CountPrepend(s[0], s[1..], b);
  }

  lemma {:induction false} DayShift(t: Instant, h: nat, b: Bucket)
    ensures Count(Slots(t + h * HOUR, 24), b) == Count(Slots(t, 24), b)
  {
    if h > 0 {
      DayShift(t, h - 1, b);
      DayRotate(t + (h - 1) * HOUR, b);
    }
  }

  lemma SlotsAppend(t: Instant, n: nat, m: nat)
    ensures Slots(t, n + m) == Slots(t, n) + Slots(t + n * HOUR, m)
  {
    assert forall k :: n <= k < n + m ==> t + k * HOUR == (t + n * HOUR) + (k - n) * HOUR;
  }

  /** `n` slots from `t + k0` hours, when every one of the hours `k0 .. k0 + n`
      after `t` is in the bucket `x`. */
  lemma SlotsUniform(t: Instant, k0: nat, n: nat, x: Bucket)
    requires forall k :: k0 <= k < k0 + n ==> Classify(t + k * HOUR) == x
    ensures Count(Slots(t + k0 * HOUR, n), Inside) == if x == Inside then n else 0
  {
    var s := Slots(t + k0 * HOUR, n);
    forall i | 0 <= i < n ensures s[i] == x {
      assert t + k0 * HOUR + i * HOUR == t + (k0 + i) * HOUR;
    }
    CountUniform(s, x, Inside);
  }

  /** From midnight, the day's hours are 9 outside, 8 inside and 7 outside. */
  lemma DayFromMidnight(m: Instant)
    requires HourOfDay(m) == 0
    ensures Count(Slots(m, 24), Inside) == 8
  {
    forall k | 0 <= k < 24 ensures HourOfDay(m + k * HOUR) == k {
      HourOfDayAdvances(m, k);
    }
    SlotsUniform(m, 0, 9, Outside);
    SlotsUniform(m, 9, 8, Inside);
    SlotsUniform(m, 17, 7, Outside);
    SlotsAppend(m, 9, 8);
    SlotsAppend(m, 17, 7);
    assert m + 0 * HOUR == m;
    CountAppend(Slots(m, 9), Slots(m + 9 * HOUR, 8), Inside);
    CountAppend(Slots(m, 17), Slots(m + 17 * HOUR, 7), Inside);
  }

  /** Any 24 consecutive hours, whatever hour they start in, hold exactly the
      8 hours of the business window. */
  lemma OneDay(t: Instant)
    ensures Share(t, t + DAY, Inside) == 8 * HOUR
    ensures Share(t, t + DAY, Outside) == 16 * HOUR
  {
    var h := HourOfDay(t);
    var m := t - h * HOUR;
    HourOfDayAdvances(t, -h);
    assert t - h * HOUR == t + (-h) * HOUR;
    DayFromMidnight(m);
    DayShift(m, h, Inside);
    assert m + h * HOUR == t;
    assert Steps(t, t + DAY) == 24;
    CountPartition(Slots(t, 24));
  }

  lemma DaysAppend(t: Instant, d: nat, b: Bucket)
    requires d > 0
    ensures Share(t, t + d * DAY, b) == Share(t, t + (d - 1) * DAY, b) + Share(t + (d - 1) * DAY, t + d * DAY, b)
  {
    var n := (d - 1) * 24;
    assert t + (d - 1) * DAY == t + n * HOUR;
    assert t + d * DAY == t + (n + 24) * HOUR;
    ShareAppend(t, n, 24, b);
  }

  /** An event lasting `d` whole days books 8 hours a day inside and 16 outside. */
  lemma {:induction false} WholeDays(t: Instant, d: nat)
    ensures Share(t, t + d * DAY, Inside) == d * 8 * HOUR
    ensures Share(t, t + d * DAY, Outside) == d * 16 * HOUR
  {
    if d > 0 {
      var u := t + (d - 1) * DAY;
      WholeDays(t, d - 1);
      OneDay(u);
      assert u + DAY == t + d * DAY;
      DaysAppend(t, d, Inside);
      DaysAppend(t, d, Outside);
    }
  }

  /** The loop of `split`: the cursor starts at `start` and advances one hour
      per iteration while it is before `end`, adding a whole hour to `inside`
      or `outside` according to the hour the cursor is in. */
  method Split(start: Instant, end: Instant) returns (inside: Duration, outside: Duration)
    ensures inside == Share(start, end, Inside)
    ensures outside == Share(start, end, Outside)
  {
    inside, outside := 0, 0;
    var cursor := start;
    ghost var k: nat := 0;
    while Before(cursor, end)
      invariant cursor == start + k * HOUR
      invariant k <= Steps(start, end)
      invariant inside == HOUR * Count(Slots(start, k), Inside)
      invariant outside == HOUR * Count(Slots(start, k), Outside)
      decreases end - cursor
    {
      StepsBound(start, end, k);
      assert Slots(start, k + 1)[..k] == Slots(start, k);
      if Classify(cursor) == Inside {
        inside := inside + HOUR;
      } else {
        outside := outside + HOUR;
      }
      cursor := cursor + HOUR;
      k := k + 1;
    }
    StepsBound(start, end, k);
  }
}
