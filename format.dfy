/**
 * What processTable writes into the new cell (content.js:100-130,
 * 319-324, 251).  The `Intl.DateTimeFormat` formatters of the chosen time
 * zone are kept abstract: each is a function from an instant's components
 * to its text.
 */
module Format {
  import opened Wrappers
  import opened Timestamp

  /** `makeFormatter(tz).format` (`instant`), and the date-only (`day`)
      and time-only (`time`) formatters of `formatRange`, for one time
      zone. */
  datatype Formatter = Formatter(instant: DateTime -> string, day: DateTime -> string, time: DateTime -> string)

  /** U+2013, between the two ends of a range. */
  const EnDash: string := "\U{2013}"

  /** U+2014, the text of a cell that could not be parsed. */
  const EmDash: string := "\U{2014}"

  /** `formatRange(s, e, tz)`: on one day, the day and both times; across
      days, both days. */
  function FormatRange(f: Formatter, s: DateTime, e: DateTime): (r: string)
    ensures |f.day(s)| <= |r| && r[..|f.day(s)|] == f.day(s)
    ensures f.day(s) == f.day(e) ==> |f.time(e)| <= |r| && r[|r| - |f.time(e)|..] == f.time(e)
    ensures f.day(s) != f.day(e) ==> |f.day(e)| <= |r| && r[|r| - |f.day(e)|..] == f.day(e)
  {
    if f.day(s) == f.day(e) then f.day(s) + ", " + f.time(s) + " " + EnDash + " " + f.time(e)
    else f.day(s) + " " + EnDash + " " + f.day(e)
  }

  /** The same-day form is produced exactly when both ends fall on the same
      day, the two-day form exactly when they do not. */
  lemma FormatRangeBranch(f: Formatter, s: DateTime, e: DateTime)
    ensures FormatRange(f, s, e) == f.day(s) + ", " + f.time(s) + " " + EnDash + " " + f.time(e)
      <==> f.day(s) == f.day(e)
    ensures FormatRange(f, s, e) == f.day(s) + " " + EnDash + " " + f.day(e)
      <==> f.day(s) != f.day(e)
  {
    var d := f.day(s);
    var same := d + ", " + f.time(s) + " " + EnDash + " " + f.time(e);
    var apart := d + " " + EnDash + " " + f.day(e);
    assert same[|d|] == ',' && apart[|d|] == ' ';
  }

  /** `display` in processTable: the em dash when the cell did not parse,
      the instant's text, or the range's. */
  function Display(parsed: Option<Parsed>, f: Formatter): (r: string)
    ensures parsed.None? ==> r == EmDash
    ensures parsed.Some? && parsed.value.Instant? ==> r == f.instant(parsed.value.start)
    ensures parsed.Some? && parsed.value.Range? ==> r == FormatRange(f, parsed.value.start, parsed.value.end)
  {
    match parsed
    case None => EmDash
    case Some(Instant(s)) => f.instant(s)
    case Some(Range(s, e)) => FormatRange(f, s, e)
  }

  /** `td.textContent = text || "—"`: an empty text becomes the em dash. */
  function CellText(text: string): (r: string)
    ensures r != []
    ensures text != [] ==> r == text
  {
    if text == [] then EmDash else text
  }
}
