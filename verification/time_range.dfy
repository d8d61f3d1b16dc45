/** The ordering check of `parseTimeRange`, applied once both dates are parsed. */
module TimeRange {
  import opened Clock

  /** The inclusion window for events. */
  datatype DateRange = DateRange(from: Instant, until: Instant)

  /** A checked range, or the error the command reports. */
  datatype Checked = Accepted(range: DateRange) | Rejected(message: string)

  const START_AFTER_END: string := "start time after end time"

  /** Rejects a start after the end; a start equal to the end is accepted. */
  function CheckRange(start: Instant, end: Instant): (r: Checked)
    ensures r.Rejected? <==> After(start, end)
    ensures r.Rejected? ==> r.message == START_AFTER_END
    ensures r.Accepted? ==> r.range.from <= r.range.until
    ensures r.Accepted? ==> r.range.from == start && r.range.until == end
  {
    if After(start, end) then Rejected(START_AFTER_END) else Accepted(DateRange(start, end))
  }
}
