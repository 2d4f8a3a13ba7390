/**
 * The timestamp parsers of content.js: `parseTimestampCell` (three
 * ISO-like patterns tried in a fixed order), `parseMatchTimeCell` (the
 * "Nov 01 (Sat) 08:00 UTC" form, with the year inferred from the text
 * around the cell) and `parseAnyTimestamp`, which chains the two.
 *
 * A JavaScript `Date` built by `toUTCDate` is modelled as its UTC
 * components; calendar validity (month 13, day 40) is not interpreted.
 * Every regular expression is a recogniser over the normalized text, run
 * the way a backtracking matcher runs it (see the Scan module).
 */
module Timestamp {
  import opened Wrappers
  import opened Text
  import opened Scan
  import opened YearInference

  /** The UTC components of a `Date`. */
  datatype DateTime = DateTime(year: nat, month: nat, day: nat, hour: nat, minute: nat, second: nat)

  /** `{ type: "instant", start }` or `{ type: "range", start, end }`. */
  datatype Parsed = Instant(start: DateTime) | Range(start: DateTime, end: DateTime)

  /** A `YYYY-MM-DD` capture, as numbers. */
  datatype Ymd = Ymd(year: nat, month: nat, day: nat)

  /** A `(HH:MM UTC)` match: the two captures and the position after `)`. */
  datatype Clock = Clock(hour: nat, minute: nat, end: nat)

  /** A date followed (lazily) by a clock: one instant of the text. */
  datatype Stamp = Stamp(date: Ymd, hour: nat, minute: nat)

  /** `toUTCDate(ymd, hh, mm)`: midnight-based UTC components, seconds 0. */
  function ToUtcDate(d: Ymd, hour: nat, minute: nat): DateTime {
    DateTime(d.year, d.month, d.day, hour, minute, 0)
  }

  function StampTime(s: Stamp): DateTime {
    ToUtcDate(s.date, s.hour, s.minute)
  }

  // ------------------------------------------------------------ pieces

  /** `\d{4}-\d{2}-\d{2}` at position `i`. */
  predicate IsoDateAt(t: string, i: nat) {
    i + 10 <= |t| && IsDigit(t[i]) && IsDigit(t[i + 1]) && IsDigit(t[i + 2]) &&
    IsDigit(t[i + 3]) && t[i + 4] == '-' && IsDigit(t[i + 5]) && IsDigit(t[i + 6]) &&
    t[i + 7] == '-' && IsDigit(t[i + 8]) && IsDigit(t[i + 9])
  }

  function DateOf(t: string, i: nat): Ymd
    requires IsoDateAt(t, i)
  {
    Ymd(100 * Num2(t, i) + Num2(t, i + 2), Num2(t, i + 5), Num2(t, i + 8))
  }

  /** `\((\d{2}):(\d{2})\s*UTC\)` at position `j`, `UTC` in any case. */
  function ClockAt(t: string, j: nat): (r: Option<Clock>)
    ensures r.Some? ==> j < |t| && t[j] == '(' && j + 10 <= r.value.end <= |t|
  {
    if j + 6 <= |t| && t[j] == '(' && IsDigit(t[j + 1]) && IsDigit(t[j + 2]) && t[j + 3] == ':' &&
       IsDigit(t[j + 4]) && IsDigit(t[j + 5])
    then
      var k := SkipSpace(t, j + 6);
      if UtcAt(t, k) && k + 3 < |t| && t[k + 3] == ')'
      then Some(Clock(Num2(t, j + 1), Num2(t, j + 4), k + 4))
      else None
    else None
  }

  /** The candidate clocks of `t`, by start position. */
  function Clocks(t: string): nat -> Option<Clock> {
    (j: nat) => ClockAt(t, j)
  }

  /** `.*?\((\d{2}):(\d{2})\s*UTC\)` from position `k`: the nearest clock
      that no line terminator separates from `k`. */
  function LazyClock(t: string, k: nat): Option<Clock> {
    FirstSome(Clocks(t), k, NextLineTerminator(t, k))
  }

  /** `(\d{4}-\d{2}-\d{2}).*?\((\d{2}):(\d{2})\s*UTC\)` starting at `i`. */
  function InstantAt(t: string, i: nat): (r: Option<Stamp>)
    ensures r.Some? ==> IsoDateAt(t, i)
  {
    if IsoDateAt(t, i) then
      match LazyClock(t, i + 10)
      case Some(c) => Some(Stamp(DateOf(t, i), c.hour, c.minute))
      case None => None
    else None
  }

  /** What follows the first lazy `.*?` of the range pattern, from `j`:
      a clock, `\s*\/\s*`, and a second date with its own clock. */
  function RangeTailAt(t: string, j: nat): (r: Option<(Clock, Stamp)>)
    ensures r.Some? ==> ClockAt(t, j).Some?
    ensures r.Some? ==> var p := SkipSpace(t, ClockAt(t, j).value.end); p < |t| && t[p] == '/'
  {
    match ClockAt(t, j)
    case None => None
    case Some(c) =>
      var p := SkipSpace(t, c.end);
      if p < |t| && t[p] == '/' then
        match InstantAt(t, SkipSpace(t, p + 1))
        case Some(s) => Some((c, s))
        case None => None
      else None
  }

  /** The candidate range tails of `t`, by start position. */
  function RangeTails(t: string): nat -> Option<(Clock, Stamp)> {
    (j: nat) => RangeTailAt(t, j)
  }

  /** The range pattern with clocks, starting at `i`. */
  function RangeAt(t: string, i: nat): (r: Option<(Stamp, Stamp)>)
    ensures r.Some? ==> IsoDateAt(t, i)
  {
    if IsoDateAt(t, i) then
      match FirstSome(RangeTails(t), i + 10, NextLineTerminator(t, i + 10))
      case Some(cs) => Some((Stamp(DateOf(t, i), cs.0.hour, cs.0.minute), cs.1))
      case None => None
    else None
  }

  /** `(\d{4}-\d{2}-\d{2})\s*\/\s*(\d{4}-\d{2}-\d{2})` starting at `i`. */
  function DateRangeAt(t: string, i: nat): (r: Option<(Ymd, Ymd)>)
    ensures r.Some? ==> IsoDateAt(t, i)
  {
    if IsoDateAt(t, i) then
      var p := SkipSpace(t, i + 10);
      if p < |t| && t[p] == '/' then
        var q := SkipSpace(t, p + 1);
        if IsoDateAt(t, q) then Some((DateOf(t, i), DateOf(t, q))) else None
      else None
    else None
  }

  // ------------------------------------------------ parseTimestampCell

  /** The candidate matches of each pattern of `parseTimestampCell`, by
      start position. */
  function Ranges(t: string): nat -> Option<(Stamp, Stamp)> {
    (i: nat) => RangeAt(t, i)
  }

  function Instants(t: string): nat -> Option<Stamp> {
    (i: nat) => InstantAt(t, i)
  }

  function DateRanges(t: string): nat -> Option<(Ymd, Ymd)> {
    (i: nat) => DateRangeAt(t, i)
  }

  /** The three patterns of `parseTimestampCell` on normalized text `t`:
      the range with clocks, else the instant, else the bare date range,
      each at its leftmost match. */
  function IsoForms(t: string): Option<Parsed> {
    match FirstSome(Ranges(t), 0, |t|)
    case Some(ss) => Some(Range(StampTime(ss.0), StampTime(ss.1)))
    case None =>
      match FirstSome(Instants(t), 0, |t|)
      case Some(s) => Some(Instant(StampTime(s)))
      case None =>
        match FirstSome(DateRanges(t), 0, |t|)
        case Some(ds) => Some(Range(ToUtcDate(ds.0, 0, 0), ToUtcDate(ds.1, 0, 0)))
        case None => None
  }

  /** `parseTimestampCell(text)`. */
  function ParseTimestampCell(text: string): Option<Parsed> {
    IsoForms(Normalize(text))
  }

  // ------------------------------------------------ parseMatchTimeCell

  /** The captures of the match-time pattern. */
  datatype MatchFields = MatchFields(month: string, day: nat, hour: nat, minute: nat)

  /** What follows `\(.*?` of the match-time pattern, from `j`:
      `\)\s+(\d{2}):(\d{2})\s*UTC$`. */
  function MatchTailAt(t: string, j: nat): (r: Option<(nat, nat)>)
    ensures r.Some? ==> j < |t| && t[j] == ')' && 3 <= |t| && UtcAt(t, |t| - 3)
  {
    if j < |t| && t[j] == ')' then
      var r := SkipSpace(t, j + 1);
      if r > j + 1 && r + 5 <= |t| && IsDigit(t[r]) && IsDigit(t[r + 1]) && t[r + 2] == ':' &&
         IsDigit(t[r + 3]) && IsDigit(t[r + 4])
      then
        var s := SkipSpace(t, r + 5);
        if UtcAt(t, s) && s + 3 == |t| then Some((Num2(t, r), Num2(t, r + 3))) else None
      else None
    else None
  }

  /** The candidate tails of the match-time pattern, by position. */
  function MatchTails(t: string): nat -> Option<(nat, nat)> {
    (j: nat) => MatchTailAt(t, j)
  }

  /** `^([A-Za-z]{3})\s+(\d{2})\s*\(.*?\)\s+(\d{2}):(\d{2})\s*UTC$` under
      the `i` flag, matched against the whole of `t`. */
  function MatchTimeFields(t: string): (r: Option<MatchFields>)
    ensures r.Some? ==>
      3 <= |t| && IsAsciiLetter(t[0]) && IsAsciiLetter(t[1]) && IsAsciiLetter(t[2]) &&
      r.value.month == t[..3] && UtcAt(t, |t| - 3)
  {
    if 3 <= |t| && IsAsciiLetter(t[0]) && IsAsciiLetter(t[1]) && IsAsciiLetter(t[2]) then
      var p := SkipSpace(t, 3);
      if p > 3 && p + 2 <= |t| && IsDigit(t[p]) && IsDigit(t[p + 1]) then
        var q := SkipSpace(t, p + 2);
        if q < |t| && t[q] == '(' then
          var hi := NextLineTerminator(t, q + 1);
          FirstSomeFound(MatchTails(t), q + 1, hi);
          match FirstSome(MatchTails(t), q + 1, hi)
          case Some(hm) => Some(MatchFields(t[..3], Num2(t, p), hm.0, hm.1))
          case None => None
        else None
      else None
    else None
  }

  /** The `months` table of `parseMatchTimeCell`. */
  function MonthNumber(key: string): Option<nat> {
    if key == "jan" then Some(1) else if key == "feb" then Some(2)
    else if key == "mar" then Some(3) else if key == "apr" then Some(4)
    else if key == "may" then Some(5) else if key == "jun" then Some(6)
    else if key == "jul" then Some(7) else if key == "aug" then Some(8)
    else if key == "sep" then Some(9) else if key == "oct" then Some(10)
    else if key == "nov" then Some(11) else if key == "dec" then Some(12)
    else None
  }

  /** The key of month `m` in that table. */
  function MonthKey(m: nat): string
    requires 1 <= m <= 12
  {
    ["jan", "feb", "mar", "apr", "may", "jun", "jul", "aug", "sep", "oct", "nov", "dec"][m - 1]
  }

  /** `MonthKey` inverts the table lookup. */
  lemma MonthTable(key: string, m: nat)
    ensures MonthNumber(key) == Some(m) <==> 1 <= m <= 12 && MonthKey(m) == key
  {
  }

  /** The match-time pattern and the month table on normalized text `t`. */
  function MatchTime(t: string, levels: seq<seq<string>>, currentYear: nat): Option<Parsed> {
    match MatchTimeFields(t)
    case None => None
    case Some(f) =>
      match MonthNumber(Lower(f.month))
      case None => None
      case Some(mo) => Some(Instant(DateTime(InferredYear(levels, currentYear), mo, f.day, f.hour, f.minute, 0)))
  }

  /** `parseMatchTimeCell(text, refNode)`, the position of `refNode` given
      as its levels (see YearInference). */
  function ParseMatchTimeCell(text: string, levels: seq<seq<string>>, currentYear: nat): Option<Parsed> {
    MatchTime(Normalize(text), levels, currentYear)
  }

  /** `parseAnyTimestamp`: the ISO-like forms first, then the match time. */
  function ParseAnyTimestamp(text: string, levels: seq<seq<string>>, currentYear: nat): Option<Parsed> {
    match ParseTimestampCell(text)
    case Some(p) => Some(p)
    case None => ParseMatchTimeCell(text, levels, currentYear)
  }

  // ----------------------------------------------------------- lemmas

  /** Every pattern of `parseTimestampCell` begins with an ISO date, so a
      result means the text holds one. */
  lemma ParsedHasIsoDate(t: string)
    ensures IsoForms(t).Some? ==> exists i :: IsoDateAt(t, i)
  {
    var r1 := FirstSome(Ranges(t), 0, |t|);
    var r2 := FirstSome(Instants(t), 0, |t|);
    var r3 := FirstSome(DateRanges(t), 0, |t|);
    FirstSomeFound(Ranges(t), 0, |t|);
    FirstSomeFound(Instants(t), 0, |t|);
    FirstSomeFound(DateRanges(t), 0, |t|);
    if r1.Some? {
      var i :| 0 <= i <= |t| && RangeAt(t, i) == r1;
      assert IsoDateAt(t, i);
    } else if r2.Some? {
      var i :| 0 <= i <= |t| && InstantAt(t, i) == r2;
      assert IsoDateAt(t, i);
    } else if r3.Some? {
      var i :| 0 <= i <= |t| && DateRangeAt(t, i) == r3;
      assert IsoDateAt(t, i);
    }
  }

  /** Without a `/` neither range pattern matches anywhere. */
  lemma NoSlashNoRange(t: string)
    requires forall k :: 0 <= k < |t| ==> t[k] != '/'
    ensures forall i: nat :: RangeAt(t, i).None? && DateRangeAt(t, i).None?
  {
    forall i: nat ensures RangeAt(t, i).None? && DateRangeAt(t, i).None? {
      forall j: nat ensures RangeTailAt(t, j).None? {
      }
      FirstSomeNone(RangeTails(t), i + 10, NextLineTerminator(t, i + 10));
    }
  }

  /** Without a `(` neither pattern with clocks matches anywhere. */
  lemma NoParenNoClock(t: string)
    requires forall k :: 0 <= k < |t| ==> t[k] != '('
    ensures forall i: nat :: RangeAt(t, i).None? && InstantAt(t, i).None?
  {
    forall i: nat ensures RangeAt(t, i).None? && InstantAt(t, i).None? {
      forall j: nat ensures ClockAt(t, j).None? && RangeTailAt(t, j).None? {
      }
      FirstSomeNone(RangeTails(t), i + 10, NextLineTerminator(t, i + 10));
      FirstSomeNone(Clocks(t), i + 10, NextLineTerminator(t, i + 10));
    }
  }

  /** Both range patterns need a `/`: without one the result is an instant
      or nothing. */
  lemma RangeNeedsSlash(t: string)
    requires forall k :: 0 <= k < |t| ==> t[k] != '/'
    ensures IsoForms(t).None? || IsoForms(t).value.Instant?
  {
    NoSlashNoRange(t);
    FirstSomeNone(Ranges(t), 0, |t|);
    FirstSomeNone(DateRanges(t), 0, |t|);
  }

  /** Both patterns with clocks need a `(`: without one the result is a
      range between two midnights, or nothing. */
  lemma ClockNeedsParen(t: string)
    requires forall k :: 0 <= k < |t| ==> t[k] != '('
    ensures var r := IsoForms(t);
      r.None? ||
      (r.value.Range? && r.value.start.hour == 0 && r.value.start.minute == 0 &&
       r.value.end.hour == 0 && r.value.end.minute == 0)
  {
    NoParenNoClock(t);
    FirstSomeNone(Ranges(t), 0, |t|);
    FirstSomeNone(Instants(t), 0, |t|);
  }

  /** A match time is anchored at both ends of the text: it starts with
      three ASCII letters and ends with `UTC` in any case; its month is the
      one the three letters name, in any case; its year is the inferred
      one; its seconds are 0. */
  lemma MatchTimeShape(t: string, levels: seq<seq<string>>, currentYear: nat)
    ensures var r := MatchTime(t, levels, currentYear);
      r.Some? ==>
        && r.value.Instant?
        && 3 <= |t| && IsAsciiLetter(t[0]) && IsAsciiLetter(t[1]) && IsAsciiLetter(t[2])
        && UtcAt(t, |t| - 3)
        && 1 <= r.value.start.month <= 12 && MonthKey(r.value.start.month) == Lower(t[..3])
        && r.value.start.year == InferredYear(levels, currentYear)
        && r.value.start.second == 0
  {
    var f := MatchTimeFields(t);
    if f.Some? && MonthNumber(Lower(f.value.month)).Some? {
      MonthTable(Lower(f.value.month), MonthNumber(Lower(f.value.month)).value);
    }
  }

  /** Three letters that name no month give no match time, whatever
      follows them. */
  lemma UnknownMonth(t: string, levels: seq<seq<string>>, currentYear: nat)
    requires 3 <= |t|
    requires forall m :: 1 <= m <= 12 ==> MonthKey(m) != Lower(t[..3])
    ensures MatchTime(t, levels, currentYear).None?
  {
    MatchTimeShape(t, levels, currentYear);
  }
}
