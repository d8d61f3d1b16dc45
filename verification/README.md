# slastats aggregation engine, modelled in Dafny

slastats reads calendar events and a date range. For every event category it
reports how many hours fell inside business hours (09:00 to 17:00 on the local
clock, every day) and how many fell outside. It also reports the start of the
first event and the end of the last event it counted. This project models the
engine behind that report in `main.go` and proves what it computes:

- `split` walks an event in one-hour steps. It books each step as a whole hour
  to the inside or the outside bucket, according to the hour of the day the
  step starts in.
- `aggregate` drops every event that is not fully inside the range. It adds
  the `split` of every kept event into two maps keyed by category, and it
  tracks `first` and `last` in input order.
- `sortKeys` returns a map's keys in ascending order.
- The ordering check of `parseTimeRange` refuses a start after the end.

Time is modelled as whole seconds on one fixed clock, counted from Go's zero
time (`Clock.ZERO`). The hour of the day is `(t / 3600) % 24`, so the zero time
falls at midnight: the clock is UTC, where Go's zero time is defined. A zone
with another fixed offset moves the zero instant off local midnight. That shifts
every hour of the day by the offset, which this model does not capture.
Durations are in seconds.

Files:

- `clock.dfy`: instants, durations, comparisons and the hour of the day.
- `classifier.dfy`: the business-hours test on one instant.
- `split.dfy`: `split`, as a loop, together with the function that specifies it.
- `aggregation.dfy`: `aggregate`, as a loop, with its specification functions
  and lemmas.
- `report.dfy`: string order, an in-place sort and `sortKeys`.
- `time_range.dfy`: the range check.

Two details of `aggregate` shape the model:

- `first` is latched through `first.IsZero()`: a kept event whose start is the
  zero time leaves `first` unset, and the next kept event sets it.
- Every kept event creates its category in both maps, even one whose split is
  (0, 0) because its end is not after its start.

## Model

| member | source | states |
|---|---|---|
| Clock.IsZero | main.go:91 | An instant is zero exactly when it is the zero time, the value of an unset time variable. |
| Clock.HourOfDay | main.go:108 | The hour of the day of an instant is always in 0..23. |
| Classifier.Classify | main.go:108 | An instant is inside exactly when its hour of the day is at least 9 and below 17; otherwise it is outside. |
| Classifier.HourOfDayAdvances | main.go:108-113 | Advancing the cursor by k hours advances its hour of the day by k, modulo 24. |
| Classifier.ClassifyIsDaily | main.go:108 | The inside/outside test gives the same answer for the same clock time on every day. |
| Classifier.ClassifyWithinHour | main.go:108 | The test looks only at the hour: every instant within one clock hour is classified like the start of that hour. |
| HourSplit.Steps | main.go:107-113 | The loop runs zero times when start is not before end. Otherwise it runs ceil((end - start) / 1h) times. |
| HourSplit.StepsBound | main.go:107 | After k steps the cursor is still before end exactly when k is below the step count. |
| HourSplit.Share | main.go:104-117 | What split books to a bucket is a non-negative whole number of hours, at most the hours walked. |
| HourSplit.SplitTotal | main.go:107-113 | inside + outside is the duration rounded up to whole hours. It is (0, 0) when start is not before end. It overshoots by less than an hour. It equals the duration exactly when that is a whole number of hours. |
| HourSplit.ShareStep | main.go:107-113 | The first hour goes to the bucket of the start's hour of day, and the rest equals the split from one hour later. This is the one-step recurrence that the `Share` function satisfies, one iteration of the loop. |
| HourSplit.OneHour | main.go:108-112 | A one-hour event is booked wholly inside exactly when its start hour is in [9, 17), and wholly outside otherwise. |
| HourSplit.ShareAppend | main.go:107-113 | Walking n + m whole hours books what walking n hours and then m more books. |
| HourSplit.OneDay | main.go:107-113 | Any 24 consecutive hours, starting at any time of day, book exactly 8 hours inside and 16 outside. |
| HourSplit.WholeDays | main.go:107-113 | An event lasting d whole days books 8d hours inside and 16d hours outside. |
| HourSplit.Split | main.go:104-117 | The loop returns exactly what the `Share` function gives for the inside and the outside bucket: one whole hour for each walked slot in each bucket. |
| Aggregation.Included | main.go:87 | An event is kept unless it starts before the range start or ends after the range end. |
| Aggregation.Kept | main.go:86-89 | The kept events are no more than the input, and every one starts no earlier than the range start and ends no later than the range end. |
| Aggregation.KeptMultiset | main.go:86-89 | An event in the range is kept as often as it occurs. An event outside the range is never kept; it is not clipped. |
| Aggregation.KeptAppend | main.go:86-89 | Filtering distributes over concatenation, so kept events stay in input order. |
| Aggregation.DroppedEventChangesNothing | main.go:86-89 | Inserting an event that starts before the range or ends after it leaves the kept events unchanged. So it changes neither map, nor first, nor last. |
| Aggregation.Total | main.go:96-98 | A category's total in a bucket is a non-negative whole number of hours. A category with no kept event totals zero. |
| Aggregation.FirstSeen | main.go:91-93 | first is zero exactly when every kept start is zero. Otherwise it is the start of the earliest kept event, in input order, whose start is not zero. |
| Aggregation.FirstSeenSnoc | main.go:91-93 | One more kept event sets first only while first is still the zero time. |
| Aggregation.LastSeen | main.go:94 | last is the end of the last kept event in input order, or the zero time when no event is kept. |
| Aggregation.Aggregate | main.go:82-102 | Both maps have exactly the kept events' categories as keys. Each entry is that category's total over the kept events. first and last are the first non-zero start and the last end among kept events, in input order. With no kept event both are the zero time. |
| Aggregation.TotalPermutation | main.go:96-98 | Summing is independent of order: permuted events give the same total. |
| Aggregation.TotalsIgnoreOrder | main.go:86-98 | Reordering the input leaves the key set and every per-category total of aggregate unchanged. |
| Aggregation.HoursCoverWallClock | main.go:96-98 | A category's inside + outside is never below the wall-clock time of its events. It equals that time when every event is well ordered and hour-aligned. |
| Aggregation.ExampleMorningMeeting | main.go:96-98 | 08:00 to 10:00 books one hour outside and one hour inside. |
| Aggregation.ExampleHalfHour | main.go:107-113 | 09:00 to 09:30 books one whole hour inside and nothing outside. |
| Aggregation.ExampleOutOfRange | main.go:86-89 | With the range 1 to 28 February, a January event is dropped: there are no categories, and first and last stay zero. |
| Aggregation.ExampleTwoEvents | main.go:96-98 | 06:00 to 07:00 and 10:00 to 12:00 in one category total two hours inside and one outside. |
| Aggregation.ExampleInputOrder | main.go:91-94 | When a later event comes first in the input, last ends up before first. |
| Report.BelowAsymmetric | main.go:124 | The string order is asymmetric. |
| Report.BelowTransitive | main.go:124 | The string order is transitive. |
| Report.BelowTotal | main.go:124 | Any two distinct strings are ordered one way or the other. |
| Report.DistinctNonDescendingIsAscending | main.go:124 | Distinct strings in non-descending order are strictly ascending. |
| Report.SortStrings | main.go:124 | The in-place sort leaves the array non-descending and a permutation of its old contents. |
| Report.SortKeys | main.go:119-126 | The result has length len(t), holds exactly the keys of t, and is strictly ascending (sorted, no duplicates). |
| TimeRange.CheckRange | main.go:48-51 | The check fails with "start time after end time" exactly when start is after end. Every accepted range has start <= end and is the given pair. |

## Left out

- `main` (main.go:16-36): argument count, printing and process exit are I/O.
- `getCal` (main.go:54-67): the HTTP fetch and the iCalendar parser are foreign library calls. The model takes the parsed events as a sequence of (start, end, summary).
- `process` (main.go:69-80): printing, and the conversion of durations to float hours with `%.0f`. The totals are kept in seconds, and they are whole multiples of an hour.
- The date-string parsing in `parseTimeRange` (main.go:39-47): only the ordering check after parsing is modelled.
- Time zones and daylight saving: one fixed UTC clock is assumed, so every day has 24 hours and the hour of the day is the UTC hour.
- Sub-second precision and the 64-bit nanosecond range of Go's `time.Duration`: instants and durations are unbounded whole seconds, so overflow is not modelled.
- A nil `Start` or `End` pointer on an event, which makes the source panic: every modelled event has both.
- `sort.Strings` (main.go:124): its algorithm is not modelled. An insertion sort with the same postcondition stands in for it. Strings compare by Unicode code point, which orders them the same way as Go's byte-wise comparison of their UTF-8 encodings.
- Map iteration in `sortKeys` (main.go:121): the order of a Go map is arbitrary. The model picks the keys in an arbitrary order too, so the result is proved for every order.
