/**
 * The texts the schedule tables hold, written out from their components,
 * and what the parsers of content.js return for them: each form parses
 * back to exactly its components, and the range with clocks wins over the
 * single instant that also matches it.
 */
module TimestampText {
  import opened Wrappers
  import opened Text
  import opened Scan
  import opened YearInference
  import opened Timestamp

  function Digit(n: nat): (c: char)
    requires n < 10
    ensures IsDigit(c) && DigitValue(c) == n
  {
    ('0' as int + n) as char
  }

  /** Two-digit, zero-padded decimal. */
  function Digits2(n: nat): (s: string)
    requires n < 100
    ensures |s| == 2 && IsDigit(s[0]) && IsDigit(s[1])
    ensures 10 * DigitValue(s[0]) + DigitValue(s[1]) == n
  {
    [Digit(n / 10), Digit(n % 10)]
  }

  /** Components that fit the fixed-width fields of the texts, at whole
      minutes. */
  predicate Representable(d: DateTime) {
    d.year < 10000 && d.month < 100 && d.day < 100 && d.hour < 100 && d.minute < 100 && d.second == 0
  }

  predicate Midnight(d: DateTime) {
    d.hour == 0 && d.minute == 0
  }

  /** `YYYY-MM-DD`. */
  function DateText(d: DateTime): string
    requires Representable(d)
  {
    Digits2(d.year / 100) + Digits2(d.year % 100) + "-" + Digits2(d.month) + "-" + Digits2(d.day)
  }

  /** `(HH:MM UTC)`. */
  function ClockText(d: DateTime): string
    requires Representable(d)
  {
    "(" + Digits2(d.hour) + ":" + Digits2(d.minute) + " UTC)"
  }

  /** `YYYY-MM-DD (HH:MM UTC)`. */
  function InstantText(d: DateTime): string
    requires Representable(d)
  {
    DateText(d) + " " + ClockText(d)
  }

  /** `YYYY-MM-DD (HH:MM UTC) / YYYY-MM-DD (HH:MM UTC)`. */
  function RangeText(a: DateTime, b: DateTime): string
    requires Representable(a) && Representable(b)
  {
    InstantText(a) + " / " + InstantText(b)
  }

  /** `YYYY-MM-DD / YYYY-MM-DD`. */
  function DateRangeText(a: DateTime, b: DateTime): string
    requires Representable(a) && Representable(b)
  {
    DateText(a) + " / " + DateText(b)
  }

  function YmdOf(d: DateTime): Ymd {
    Ymd(d.year, d.month, d.day)
  }

  /** `w` occurs in `t` at position `i`. */
  predicate Occurs(t: string, i: nat, w: string) {
    i + |w| <= |t| && forall k :: 0 <= k < |w| ==> t[i + k] == w[k]
  }

  /** A text occurring at `i` is made of its two halves, one after the
      other. */
  lemma OccursSplit(t: string, i: nat, a: string, b: string)
    requires Occurs(t, i, a + b)
    ensures Occurs(t, i, a) && Occurs(t, i + |a|, b)
  {
    var w := a + b;
    forall k | 0 <= k < |a|
      ensures t[i + k] == a[k]
    {
      assert w[k] == a[k];
    }
    forall k | 0 <= k < |b|
      ensures t[i + |a| + k] == b[k]
    {
      assert w[|a| + k] == b[k];
    }
  }

  // -------------------------------------------------- reading the pieces

  lemma ReadDigits2(t: string, i: nat, n: nat)
    requires n < 100 && i + 2 <= |t| && t[i] == Digits2(n)[0] && t[i + 1] == Digits2(n)[1]
    ensures IsDigit(t[i]) && IsDigit(t[i + 1]) && Num2(t, i) == n
  {
  }

  lemma ReadDate(t: string, i: nat, d: DateTime)
    requires Representable(d) && Occurs(t, i, DateText(d))
    ensures IsoDateAt(t, i) && DateOf(t, i) == YmdOf(d)
  {
    var w := DateText(d);
    assert t[i] == w[0] && t[i + 1] == w[1] && t[i + 2] == w[2] && t[i + 3] == w[3] && t[i + 4] == w[4];
    assert t[i + 5] == w[5] && t[i + 6] == w[6] && t[i + 7] == w[7] && t[i + 8] == w[8] && t[i + 9] == w[9];
    ReadDigits2(t, i, d.year / 100);
    ReadDigits2(t, i + 2, d.year % 100);
    ReadDigits2(t, i + 5, d.month);
    ReadDigits2(t, i + 8, d.day);
  }

  lemma ReadClock(t: string, j: nat, d: DateTime)
    requires Representable(d) && Occurs(t, j, ClockText(d))
    ensures ClockAt(t, j) == Some(Clock(d.hour, d.minute, j + 11))
  {
    var w := ClockText(d);
    assert t[j] == w[0] && t[j + 1] == w[1] && t[j + 2] == w[2] && t[j + 3] == w[3] && t[j + 4] == w[4];
    assert t[j + 5] == w[5] && t[j + 6] == w[6] && t[j + 7] == w[7] && t[j + 8] == w[8] && t[j + 9] == w[9];
    assert t[j + 10] == w[10];
    ReadDigits2(t, j + 1, d.hour);
    ReadDigits2(t, j + 4, d.minute);
    assert SkipSpace(t, j + 6) == j + 7 by {
      assert IsSpace(t[j + 6]) && !IsSpace(t[j + 7]);
    }
  }

  /** The parts of an instant text: a date, a space, a clock. */
  lemma ReadInstantParts(t: string, i: nat, d: DateTime)
    requires Representable(d) && Occurs(t, i, InstantText(d))
    ensures IsoDateAt(t, i) && DateOf(t, i) == YmdOf(d) && t[i + 10] == ' '
    ensures ClockAt(t, i + 11) == Some(Clock(d.hour, d.minute, i + 22))
  {
    OccursSplit(t, i, DateText(d) + " ", ClockText(d));
    OccursSplit(t, i, DateText(d), " ");
    ReadDate(t, i, d);
    ReadClock(t, i + 11, d);
    var w := DateText(d) + " ";
    assert t[i + 10] == w[10];
  }

  /** The instant pattern on a date, a space and a clock. */
  lemma InstantOfParts(t: string, i: nat, c: Clock)
    requires IsoDateAt(t, i) && i + 11 <= |t| && t[i + 10] == ' ' && ClockAt(t, i + 11) == Some(c)
    ensures InstantAt(t, i) == Some(Stamp(DateOf(t, i), c.hour, c.minute))
  {
    FirstSomeIs(Clocks(t), i + 10, NextLineTerminator(t, i + 10), i + 11);
  }

  /** The instant pattern at the start of an instant text. */
  lemma ReadInstant(t: string, i: nat, d: DateTime)
    requires Representable(d) && Occurs(t, i, InstantText(d))
    ensures InstantAt(t, i) == Some(Stamp(YmdOf(d), d.hour, d.minute))
  {
    ReadInstantParts(t, i, d);
    InstantOfParts(t, i, Clock(d.hour, d.minute, i + 22));
  }

  /** What follows the first lazy `.*?` of the range pattern, on a clock,
      ` / ` and an instant. */
  lemma RangeTailOfParts(t: string, j: nat, c: Clock, s: Stamp)
    requires ClockAt(t, j) == Some(c) && c.end == j + 11
    requires j + 14 <= |t| && t[j + 11] == ' ' && t[j + 12] == '/' && t[j + 13] == ' '
    requires InstantAt(t, j + 14) == Some(s)
    ensures RangeTailAt(t, j) == Some((c, s))
  {
    assert SkipSpace(t, j + 11) == j + 12;
    assert SkipSpace(t, j + 13) == j + 14;
  }

  /** The range pattern with clocks on a date, a space and a range tail. */
  lemma RangeOfParts(t: string, i: nat, c: Clock, s: Stamp)
    requires IsoDateAt(t, i) && i + 11 <= |t| && t[i + 10] == ' ' && RangeTailAt(t, i + 11) == Some((c, s))
    ensures RangeAt(t, i) == Some((Stamp(DateOf(t, i), c.hour, c.minute), s))
  {
    FirstSomeIs(RangeTails(t), i + 10, NextLineTerminator(t, i + 10), i + 11);
  }

  // ------------------------------------------------------ normal form

  lemma DateTextNormalized(d: DateTime)
    requires Representable(d)
    ensures Normalized(DateText(d)) && |DateText(d)| == 10
    ensures forall k :: 0 <= k < 10 ==> DateText(d)[k] != '/' && DateText(d)[k] != '('
  {
    assert SpaceFree(DateText(d));
    SpaceFreeNormalized(DateText(d));
  }

  lemma InstantTextNormalized(d: DateTime)
    requires Representable(d)
    ensures Normalized(InstantText(d)) && |InstantText(d)| == 22
    ensures forall k :: 0 <= k < 22 ==> InstantText(d)[k] != '/'
  {
    var a := "(" + Digits2(d.hour) + ":" + Digits2(d.minute);
    assert SpaceFree(a);
    SpaceFreeNormalized(a);
    assert SpaceFree("UTC)");
    SpaceFreeNormalized("UTC)");
    JoinNormalized(a, "UTC)");
    assert ClockText(d) == a + " " + "UTC)";
    DateTextNormalized(d);
    JoinNormalized(DateText(d), ClockText(d));
  }

  /** Two normalized texts joined by ` / ` are normalized. */
  lemma SlashJoinNormalized(a: string, b: string)
    requires Normalized(a) && Normalized(b) && a != [] && b != []
    ensures Normalized(a + " / " + b)
  {
    SpaceFreeNormalized("/");
    JoinNormalized(a, "/");
    JoinNormalized(a + " " + "/", b);
    assert a + " / " + b == a + " " + "/" + " " + b;
  }

  lemma RangeTextNormalized(a: DateTime, b: DateTime)
    requires Representable(a) && Representable(b)
    ensures Normalized(RangeText(a, b)) && |RangeText(a, b)| == 47
  {
    InstantTextNormalized(a);
    InstantTextNormalized(b);
    SlashJoinNormalized(InstantText(a), InstantText(b));
  }

  lemma DateRangeTextNormalized(a: DateTime, b: DateTime)
    requires Representable(a) && Representable(b)
    ensures Normalized(DateRangeText(a, b)) && |DateRangeText(a, b)| == 23
  {
    DateTextNormalized(a);
    DateTextNormalized(b);
    SlashJoinNormalized(DateText(a), DateText(b));
  }

  // ---------------------------------------------------------- round trips

  lemma OccursSelf(t: string)
    ensures Occurs(t, 0, t)
  {
  }

  /** The three patterns on a text that starts with an instant and holds no
      `/`. */
  lemma IsoFormsOfInstant(t: string, s: Stamp)
    requires InstantAt(t, 0) == Some(s)
    requires forall k :: 0 <= k < |t| ==> t[k] != '/'
    ensures IsoForms(t) == Some(Instant(StampTime(s)))
  {
    NoSlashNoRange(t);
    FirstSomeNone(Ranges(t), 0, |t|);
    FirstSomeIs(Instants(t), 0, |t|, 0);
  }

  /** The instant pattern on an instant text. */
  lemma IsoFormsInstant(d: DateTime)
    requires Representable(d)
    ensures IsoForms(InstantText(d)) == Some(Instant(d))
  {
    InstantTextNormalized(d);
    OccursSelf(InstantText(d));
    ReadInstant(InstantText(d), 0, d);
    IsoFormsOfInstant(InstantText(d), Stamp(YmdOf(d), d.hour, d.minute));
  }

  /** `"D (hh:mm UTC)"` parses to an instant with exactly those components. */
  lemma InstantRoundTrip(d: DateTime)
    requires Representable(d)
    ensures ParseTimestampCell(InstantText(d)) == Some(Instant(d))
  {
    InstantTextNormalized(d);
    NormalizeOfNormalized(InstantText(d));
    IsoFormsInstant(d);
  }

  /** Where the pieces of a range text lie. */
  lemma RangeTextOccurs(a: DateTime, b: DateTime)
    requires Representable(a) && Representable(b)
    ensures var t := RangeText(a, b);
      |t| == 47 && Occurs(t, 0, InstantText(a)) && Occurs(t, 22, " / ") && Occurs(t, 25, InstantText(b))
  {
    var t := RangeText(a, b);
    InstantTextNormalized(a);
    InstantTextNormalized(b);
    OccursSelf(t);
    OccursSplit(t, 0, InstantText(a) + " / ", InstantText(b));
    OccursSplit(t, 0, InstantText(a), " / ");
  }

  /** What an instant, ` / ` and an instant give the recognisers. */
  lemma RangeParts(t: string, a: DateTime, b: DateTime)
    requires Representable(a) && Representable(b)
    requires Occurs(t, 0, InstantText(a)) && Occurs(t, 22, " / ") && Occurs(t, 25, InstantText(b))
    ensures && IsoDateAt(t, 0) && DateOf(t, 0) == YmdOf(a) && t[10] == ' '
      && ClockAt(t, 11) == Some(Clock(a.hour, a.minute, 22))
      && t[22] == ' ' && t[23] == '/' && t[24] == ' '
      && InstantAt(t, 0) == Some(Stamp(YmdOf(a), a.hour, a.minute))
      && InstantAt(t, 25) == Some(Stamp(YmdOf(b), b.hour, b.minute))
  {
    ReadInstantParts(t, 0, a);
    ReadInstant(t, 0, a);
    ReadInstant(t, 25, b);
    var sep := " / ";
    assert t[22] == sep[0] && t[23] == sep[1] && t[24] == sep[2];
  }

  /** What the pieces of a range text give the recognisers. */
  lemma RangeTextParts(a: DateTime, b: DateTime)
    requires Representable(a) && Representable(b)
    ensures var t := RangeText(a, b);
      && |t| == 47
      && IsoDateAt(t, 0) && DateOf(t, 0) == YmdOf(a) && t[10] == ' '
      && ClockAt(t, 11) == Some(Clock(a.hour, a.minute, 22))
      && t[22] == ' ' && t[23] == '/' && t[24] == ' '
      && InstantAt(t, 0) == Some(Stamp(YmdOf(a), a.hour, a.minute))
      && InstantAt(t, 25) == Some(Stamp(YmdOf(b), b.hour, b.minute))
  {
    RangeTextOccurs(a, b);
    RangeParts(RangeText(a, b), a, b);
  }

  /** The three patterns on a text that starts with a range. */
  lemma IsoFormsOfRange(t: string, s: Stamp, e: Stamp)
    requires RangeAt(t, 0) == Some((s, e))
    ensures IsoForms(t) == Some(Range(StampTime(s), StampTime(e)))
  {
    FirstSomeIs(Ranges(t), 0, |t|, 0);
  }

  /** The three patterns on an instant, ` / ` and an instant. */
  lemma IsoFormsOfRangeParts(t: string, a: DateTime, b: DateTime)
    requires Representable(a) && Representable(b)
    requires && |t| == 47
      && IsoDateAt(t, 0) && DateOf(t, 0) == YmdOf(a) && t[10] == ' '
      && ClockAt(t, 11) == Some(Clock(a.hour, a.minute, 22))
      && t[22] == ' ' && t[23] == '/' && t[24] == ' '
      && InstantAt(t, 25) == Some(Stamp(YmdOf(b), b.hour, b.minute))
    ensures IsoForms(t) == Some(Range(a, b))
  {
    var s := Stamp(YmdOf(a), a.hour, a.minute);
    var e := Stamp(YmdOf(b), b.hour, b.minute);
    RangeTailOfParts(t, 11, Clock(a.hour, a.minute, 22), e);
    RangeOfParts(t, 0, Clock(a.hour, a.minute, 22), e);
    IsoFormsOfRange(t, s, e);
  }

  /** The range pattern with clocks on a range text. */
  lemma IsoFormsRange(a: DateTime, b: DateTime)
    requires Representable(a) && Representable(b)
    ensures IsoForms(RangeText(a, b)) == Some(Range(a, b))
  {
    RangeTextParts(a, b);
    IsoFormsOfRangeParts(RangeText(a, b), a, b);
  }

  /** `"D1 (h1:m1 UTC) / D2 (h2:m2 UTC)"` parses to a range with exactly
      those components. */
  lemma RangeRoundTrip(a: DateTime, b: DateTime)
    requires Representable(a) && Representable(b)
    ensures ParseTimestampCell(RangeText(a, b)) == Some(Range(a, b))
  {
    RangeTextNormalized(a, b);
    NormalizeOfNormalized(RangeText(a, b));
    IsoFormsRange(a, b);
  }

  /** The single-instant pattern also matches a range text, at its first
      instant; the range wins only because it is tried first. */
  lemma InstantMatchesRangeText(a: DateTime, b: DateTime)
    requires Representable(a) && Representable(b)
    ensures FirstSome(Instants(RangeText(a, b)), 0, |RangeText(a, b)|) ==
      Some(Stamp(YmdOf(a), a.hour, a.minute))
    ensures ParseTimestampCell(RangeText(a, b)) == Some(Range(a, b))
  {
    var t := RangeText(a, b);
    RangeTextParts(a, b);
    FirstSomeIs(Instants(t), 0, |t|, 0);
    RangeRoundTrip(a, b);
  }

  /** What the pieces of a date-range text give the recognisers; it holds
      no `(`. */
  lemma DateRangeTextParts(a: DateTime, b: DateTime)
    requires Representable(a) && Representable(b)
    ensures var t := DateRangeText(a, b);
      && IsoDateAt(t, 0) && DateOf(t, 0) == YmdOf(a)
      && t[10] == ' ' && t[11] == '/' && t[12] == ' '
      && IsoDateAt(t, 13) && DateOf(t, 13) == YmdOf(b)
      && forall k :: 0 <= k < |t| ==> t[k] != '('
  {
    var t := DateRangeText(a, b);
    DateTextNormalized(a);
    DateTextNormalized(b);
    OccursSelf(t);
    OccursSplit(t, 0, DateText(a) + " / ", DateText(b));
    OccursSplit(t, 0, DateText(a), " / ");
    ReadDate(t, 0, a);
    ReadDate(t, 13, b);
    var sep := " / ";
    assert t[10] == sep[0] && t[11] == sep[1] && t[12] == sep[2];
    forall k | 0 <= k < |t|
      ensures t[k] != '('
    {
      if k < 10 {
        assert t[0 + k] == DateText(a)[k];
      } else if k >= 13 {
        assert t[13 + (k - 13)] == DateText(b)[k - 13];
      }
    }
  }

  /** The three patterns on a date, ` / ` and a date, with no `(`
      anywhere. */
  lemma IsoFormsOfDateRange(t: string)
    requires IsoDateAt(t, 0) && 13 <= |t| && t[10] == ' ' && t[11] == '/' && t[12] == ' ' && IsoDateAt(t, 13)
    requires forall k :: 0 <= k < |t| ==> t[k] != '('
    ensures IsoForms(t) == Some(Range(ToUtcDate(DateOf(t, 0), 0, 0), ToUtcDate(DateOf(t, 13), 0, 0)))
  {
    NoParenNoClock(t);
    FirstSomeNone(Ranges(t), 0, |t|);
    FirstSomeNone(Instants(t), 0, |t|);
    assert SkipSpace(t, 10) == 11;
    assert SkipSpace(t, 12) == 13;
    FirstSomeIs(DateRanges(t), 0, |t|, 0);
  }

  /** `"D1 / D2"` parses to a range with both ends at 00:00 UTC. */
  lemma DateRangeRoundTrip(a: DateTime, b: DateTime)
    requires Representable(a) && Representable(b) && Midnight(a) && Midnight(b)
    ensures ParseTimestampCell(DateRangeText(a, b)) == Some(Range(a, b))
  {
    DateRangeTextParts(a, b);
    IsoFormsOfDateRange(DateRangeText(a, b));
    DateRangeTextNormalized(a, b);
    NormalizeOfNormalized(DateRangeText(a, b));
  }
}
