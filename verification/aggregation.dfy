/** `aggregate`: the events fully inside a date range, their hours summed per
    category and per bucket, and the first and last instants seen. */
module Aggregation {
  import opened Clock
  import opened Classifier
  import opened HourSplit

  /** One calendar event: its start, its end and its category (the summary). */
  datatype Event = Event(start: Instant, end: Instant, summary: string)

  /** Per-category totals. */
  type Totals = map<string, Duration>

  /** An event is kept when it starts no earlier than `from` and ends no later
      than `until`; any other event is dropped whole, never clipped. */
  predicate Included(e: Event, from: Instant, until: Instant)
  {
    !(Before(e.start, from) || After(e.end, until))
  }

  /** The kept events, in input order. */
  function Kept(events: seq<Event>, from: Instant, until: Instant): (kept: seq<Event>)
    ensures |kept| <= |events|
    ensures forall i :: 0 <= i < |kept| ==> Included(kept[i], from, until)
  {
    if events == [] then []
    else
      var e := events[|events| - 1];
      Kept(events[..|events| - 1], from, until) + (if Included(e, from, until) then [e] else [])
  }

  /** Filtering keeps every included event as often as it occurs and no other. */
  lemma {:induction false} KeptMultiset(events: seq<Event>, from: Instant, until: Instant)
    ensures forall e :: multiset(Kept(events, from, until))[e] ==
                          if Included(e, from, until) then multiset(events)[e] else 0
  {
    if events != [] {
      var e := events[|events| - 1];
      assert events == events[..|events| - 1] + [e];
      KeptMultiset(events[..|events| - 1], from, until);
    }
  }

  /** The categories of a sequence of events. */
  function Categories(events: seq<Event>): set<string>
  {
    set e | e in events :: e.summary
  }

  /** What the events of category `c` contribute to bucket `b`. */
  function Total(events: seq<Event>, c: string, b: Bucket): (d: Duration)
    ensures d >= 0 && d % HOUR == 0
    ensures c !in Categories(events) ==> d == 0
  {
    if events == [] then 0
    else
      var e := events[|events| - 1];
      Total(events[..|events| - 1], c, b) + (if e.summary == c then Share(e.start, e.end, b) else 0)
  }

  /** The start of the first event, in order, whose start is not the zero time;
      the zero time if there is none. */
  function FirstSeen(events: seq<Event>): (t: Instant)
    ensures IsZero(t) <==> forall e :: e in events ==> IsZero(e.start)
    ensures !IsZero(t) ==>
              exists i :: 0 <= i < |events| && events[i].start == t &&
                          forall j :: 0 <= j < i ==> IsZero(events[j].start)
  {
    if events == [] then ZERO
    else if !IsZero(events[0].start) then events[0].start
    else
      var t := FirstSeen(events[1..]);
      assert forall e :: e in events ==> e == events[0] || e in events[1..];
      t
  }

  /** The end of the last event, in order; the zero time if there is none. */
  function LastSeen(events: seq<Event>): Instant
  {
    if events == [] then ZERO else events[|events| - 1].end
  }

  lemma TotalSnoc(events: seq<Event>, e: Event, c: string, b: Bucket)
    ensures Total(events + [e], c, b) ==
              Total(events, c, b) + (if e.summary == c then Share(e.start, e.end, b) else 0)
  {
  }

  lemma CategoriesSnoc(events: seq<Event>, e: Event)
    ensures Categories(events + [e]) == Categories(events) + {e.summary}
  {
  }

  lemma {:induction false} FirstSeenSnoc(events: seq<Event>, e: Event)
    ensures FirstSeen(events + [e]) == if IsZero(FirstSeen(events)) then e.start else FirstSeen(events)
  {
    if events != [] {
      assert (events + [e])[1..] == events[1..] + [e];
      FirstSeenSnoc(events[1..], e);
    }
  }

  /** `t` holds, for bucket `b`, the total of every category of `events`. */
  ghost predicate Tallies(t: Totals, events: seq<Event>, b: Bucket)
  {
    t.Keys == Categories(events) && forall c :: c in t ==> t[c] == Total(events, c, b)
  }

  /** Adding one more event's share under its category keeps the tally. */
  lemma TalliesSnoc(t: Totals, events: seq<Event>, e: Event, b: Bucket, d: Duration)
    requires Tallies(t, events, b)
    requires d == Share(e.start, e.end, b)
    ensures Tallies(t[e.summary := (if e.summary in t then t[e.summary] else 0) + d], events + [e], b)
  {
  }

  lemma KeptSnoc(events: seq<Event>, e: Event, from: Instant, until: Instant)
    ensures Kept(events + [e], from, until) ==
              Kept(events, from, until) + (if Included(e, from, until) then [e] else [])
  {
  }

  /** The loop of `aggregate`: in input order, skip an event outside the range;
      otherwise latch `first` while it is still the zero time, overwrite `last`,
      and add the event's split into both maps under its category. */
  method Aggregate(events: seq<Event>, from: Instant, until: Instant)
    returns (inside: Totals, outside: Totals, first: Instant, last: Instant)
    ensures inside.Keys == Categories(Kept(events, from, until))
    ensures outside.Keys == Categories(Kept(events, from, until))
    ensures forall c :: c in inside ==> inside[c] == Total(Kept(events, from, until), c, Inside)
    ensures forall c :: c in outside ==> outside[c] == Total(Kept(events, from, until), c, Outside)
    ensures first == FirstSeen(Kept(events, from, until))
    ensures last == LastSeen(Kept(events, from, until))
  {
    inside, outside := map[], map[];
    first, last := ZERO, ZERO;
    var n := 0;
    while n < |events|
      invariant n <= |events|
      invariant Tallies(inside, Kept(events[..n], from, until), Inside)
      invariant Tallies(outside, Kept(events[..n], from, until), Outside)
      invariant first == FirstSeen(Kept(events[..n], from, until))
      invariant last == LastSeen(Kept(events[..n], from, until))
    {
      var e := events[n];
      ghost var seen := Kept(events[..n], from, until);
      assert events[..n + 1] == events[..n] + [e];
      KeptSnoc(events[..n], e, from, until);
      n := n + 1;
      if Before(e.start, from) || After(e.end, until) {
        assert Kept(events[..n], from, until) == seen;
        continue;
      }
      assert Kept(events[..n], from, until) == seen + [e];
      FirstSeenSnoc(seen, e);

      if IsZero(first) {
        first := e.start;
      }
      last := e.end;
      assert LastSeen(seen + [e]) == last;

      var i, o := Split(e.start, e.end);
      TalliesSnoc(inside, seen, e, Inside, i);
      TalliesSnoc(outside, seen, e, Outside, o);
      inside := inside[e.summary := (if e.summary in inside then inside[e.summary] else 0) + i];
      outside := outside[e.summary := (if e.summary in outside then outside[e.summary] else 0) + o];
    }
    assert events[..n] == events;
  }

  /** Filtering distributes over concatenation, so kept events keep their input order. */
  lemma {:induction false} KeptAppend(xs: seq<Event>, ys: seq<Event>, from: Instant, until: Instant)
    ensures Kept(xs + ys, from, until) == Kept(xs, from, until) + Kept(ys, from, until)
  {
    if ys == [] {
      assert xs + ys == xs;
    } else {
      var y := ys[|ys| - 1];
      var ys' := ys[..|ys| - 1];
      assert ys == ys' + [y];
      assert xs + ys == (xs + ys') + [y];
      KeptSnoc(xs + ys', y, from, until);
      KeptSnoc(ys', y, from, until);
      KeptAppend(xs, ys', from, until);
    }
  }

  /** An event that starts before the range or ends after it is dropped whole:
      inserting it anywhere leaves the kept events, and so both maps, `first`
      and `last`, exactly as they were. */
  lemma DroppedEventChangesNothing(before: seq<Event>, e: Event, after: seq<Event>, from: Instant, until: Instant)
    requires Before(e.start, from) || After(e.end, until)
    ensures Kept(before + [e] + after, from, until) == Kept(before + after, from, until)
  {
    KeptAppend(before + [e], after, from, until);
    KeptSnoc(before, e, from, until);
    KeptAppend(before, after, from, until);
  }

  lemma {:induction false} TotalAppend(xs: seq<Event>, ys: seq<Event>, c: string, b: Bucket)
    ensures Total(xs + ys, c, b) == Total(xs, c, b) + Total(ys, c, b)
  {
    if ys == [] {
      assert xs + ys == xs;
    } else {
      var y := ys[|ys| - 1];
      var ys' := ys[..|ys| - 1];
      assert ys == ys' + [y];
      assert xs + ys == (xs + ys') + [y];
      TotalSnoc(xs + ys', y, c, b);
      TotalSnoc(ys', y, c, b);
      TotalAppend(xs, ys', c, b);
    }
  }

  /** Summing is commutative: any reordering of the events gives the same total. */
  lemma {:induction false} TotalPermutation(xs: seq<Event>, ys: seq<Event>, c: string, b: Bucket)
    requires multiset(xs) == multiset(ys)
    ensures Total(xs, c, b) == Total(ys, c, b)
    decreases |xs|
  {
    if xs == [] {
      assert |ys| == |multiset(ys)| == 0;
    } else {
      var x := xs[|xs| - 1];
      var xs' := xs[..|xs| - 1];
      assert xs == xs' + [x];
      assert x in multiset(ys);
      var i :| 0 <= i < |ys| && ys[i] == x;
      var ys' := ys[..i] + ys[i + 1..];
      assert ys == ys[..i] + [x] + ys[i + 1..];
      assert multiset(ys) == multiset(ys[..i]) + multiset{x} + multiset(ys[i + 1..]);
      assert multiset(ys') == multiset(ys[..i]) + multiset(ys[i + 1..]);
      assert multiset(xs) == multiset(xs') + multiset{x};
      assert multiset(ys') + multiset{x} == multiset(xs') + multiset{x};
      assert multiset(ys') == multiset(xs') by {
        forall z ensures multiset(ys')[z] == multiset(xs')[z] {
          assert (multiset(ys') + multiset{x})[z] == (multiset(xs') + multiset{x})[z];
        }
      }
      TotalPermutation(xs', ys', c, b);
      TotalSnoc(xs', x, c, b);
      TotalAppend(ys[..i] + [x], ys[i + 1..], c, b);
      TotalSnoc(ys[..i], x, c, b);
      TotalAppend(ys[..i], ys[i + 1..], c, b);
    }
  }

  /** The per-category totals of `aggregate` do not depend on the order of the
      input: a reordering of the events has the same categories and the same
      total for every category and bucket. */
  lemma TotalsIgnoreOrder(events: seq<Event>, reordered: seq<Event>, from: Instant, until: Instant)
    requires multiset(events) == multiset(reordered)
    ensures Categories(Kept(events, from, until)) == Categories(Kept(reordered, from, until))
    ensures forall c, b :: Total(Kept(events, from, until), c, b) == Total(Kept(reordered, from, until), c, b)
  {
    var kept, kept' := Kept(events, from, until), Kept(reordered, from, until);
    KeptMultiset(events, from, until);
    KeptMultiset(reordered, from, until);
    assert multiset(kept) == multiset(kept');
    assert forall e :: e in kept <==> e in kept' by {
      forall e ensures e in kept <==> e in kept' {
        assert e in kept <==> e in multiset(kept);
        assert e in kept' <==> e in multiset(kept');
      }
    }
    forall c, b ensures Total(kept, c, b) == Total(kept', c, b) {
      TotalPermutation(kept, kept', c, b);
    }
  }

  /** The wall-clock time of the events of category `c`. */
  function WallClock(events: seq<Event>, c: string): Duration
  {
    if events == [] then 0
    else
      var e := events[|events| - 1];
      WallClock(events[..|events| - 1], c) + (if e.summary == c then e.end - e.start else 0)
  }

  /** Per category, the booked hours never fall short of the wall-clock time of
      its events, and equal it when every event is well ordered and lasts a
      whole number of hours. */
  lemma {:induction false} HoursCoverWallClock(events: seq<Event>, c: string)
    ensures Total(events, c, Inside) + Total(events, c, Outside) >= WallClock(events, c)
    ensures (forall i :: 0 <= i < |events| ==>
               events[i].start <= events[i].end && (events[i].end - events[i].start) % HOUR == 0) ==>
            Total(events, c, Inside) + Total(events, c, Outside) == WallClock(events, c)
  {
    if events != [] {
      var e := events[|events| - 1];
      HoursCoverWallClock(events[..|events| - 1], c);
      SplitTotal(e.start, e.end);
    }
  }

  /** Midnight at the start of 1 January 2020: that many days after the zero time. */
  const NEW_YEAR_2020: Instant := 737424 * DAY

  /** An event from 08:00 to 10:00 books one hour outside and one inside. */
  lemma ExampleMorningMeeting()
    ensures var kept := Kept([Event(NEW_YEAR_2020 + 8 * HOUR, NEW_YEAR_2020 + 10 * HOUR, "meeting")],
                             ZERO, NEW_YEAR_2020 + 365 * DAY);
            Total(kept, "meeting", Inside) == HOUR && Total(kept, "meeting", Outside) == HOUR
  {
    var t := NEW_YEAR_2020 + 8 * HOUR;
    ShareStep(t, t + 2 * HOUR, Inside);
    ShareStep(t, t + 2 * HOUR, Outside);
    OneHour(t);
    OneHour(t + HOUR);
  }

  /** An event from 09:00 to 09:30 books a whole hour inside. */
  lemma ExampleHalfHour()
    ensures var kept := Kept([Event(NEW_YEAR_2020 + 9 * HOUR, NEW_YEAR_2020 + 9 * HOUR + HOUR / 2, "call")],
                             ZERO, NEW_YEAR_2020 + 365 * DAY);
            Total(kept, "call", Inside) == HOUR && Total(kept, "call", Outside) == 0
  {
    var t := NEW_YEAR_2020 + 9 * HOUR;
    ShareStep(t, t + HOUR / 2, Inside);
    ShareStep(t, t + HOUR / 2, Outside);
  }

  /** With the range 1 to 28 February, an event in January is dropped: no
      category, and `first` and `last` stay the zero time. */
  lemma ExampleOutOfRange()
    ensures var kept := Kept([Event(NEW_YEAR_2020 + 10 * DAY, NEW_YEAR_2020 + 10 * DAY + HOUR, "meeting")],
                             NEW_YEAR_2020 + 31 * DAY, NEW_YEAR_2020 + 58 * DAY);
            Categories(kept) == {} && FirstSeen(kept) == ZERO && LastSeen(kept) == ZERO
  {
  }

  /** Two events of one category, 06:00 to 07:00 and 10:00 to 12:00, add up to
      two hours inside and one outside. */
  lemma ExampleTwoEvents()
    ensures var kept := Kept([Event(NEW_YEAR_2020 + 6 * HOUR, NEW_YEAR_2020 + 7 * HOUR, "standup"),
                              Event(NEW_YEAR_2020 + 10 * HOUR, NEW_YEAR_2020 + 12 * HOUR, "standup")],
                             ZERO, NEW_YEAR_2020 + 365 * DAY);
            Total(kept, "standup", Inside) == 2 * HOUR && Total(kept, "standup", Outside) == HOUR
  {
    var early, late := NEW_YEAR_2020 + 6 * HOUR, NEW_YEAR_2020 + 10 * HOUR;
    var e0, e1 := Event(early, early + HOUR, "standup"), Event(late, late + 2 * HOUR, "standup");
    KeptSnoc([e0], e1, ZERO, NEW_YEAR_2020 + 365 * DAY);
    KeptSnoc([], e0, ZERO, NEW_YEAR_2020 + 365 * DAY);
    assert [e0, e1] == [e0] + [e1] && [e0] == [] + [e0];
    assert Kept([e0, e1], ZERO, NEW_YEAR_2020 + 365 * DAY) == [e0, e1];
    TotalSnoc([e0], e1, "standup", Inside);
    TotalSnoc([e0], e1, "standup", Outside);
    TotalSnoc([], e0, "standup", Inside);
    TotalSnoc([], e0, "standup", Outside);
    OneHour(early);
    ShareStep(late, late + 2 * HOUR, Inside);
    ShareStep(late, late + 2 * HOUR, Outside);
    OneHour(late);
    OneHour(late + HOUR);
  }

  /** `first` and `last` follow input order, not the calendar: when a later
      event comes first in the input, `last` ends up before `first`. */
  lemma ExampleInputOrder()
    ensures var kept := Kept([Event(NEW_YEAR_2020 + 10 * HOUR, NEW_YEAR_2020 + 11 * HOUR, "review"),
                              Event(NEW_YEAR_2020 + 8 * HOUR, NEW_YEAR_2020 + 9 * HOUR, "review")],
                             ZERO, NEW_YEAR_2020 + 365 * DAY);
            FirstSeen(kept) == NEW_YEAR_2020 + 10 * HOUR && LastSeen(kept) == NEW_YEAR_2020 + 9 * HOUR
  {
  }
}
