/**
 * The "Nov 01 (Sat) 08:00 UTC" cells of the match schedules, written out
 * from their components, and what `parseMatchTimeCell` and
 * `parseAnyTimestamp` return for them: an instant with the inferred year
 * and exactly the written month, day, hour and minute.
 */
module MatchTimeText {
  import opened Wrappers
  import opened Text
  import opened Scan
  import opened YearInference
  import opened Timestamp
  import opened TimestampText

  /** ASCII letters only (a month abbreviation, a weekday). */
  predicate Letters(w: string) {
    forall k :: 0 <= k < |w| ==> IsAsciiLetter(w[k])
  }

  /** `(w)`. */
  function Paren(w: string): string {
    "(" + w + ")"
  }

  /** `HH:MM`. */
  function HourMinute(h: nat, m: nat): string
    requires h < 100 && m < 100
  {
    Digits2(h) + ":" + Digits2(m)
  }

  /** `Mon DD (w) HH:MM UTC`. */
  function MatchText(mon: string, day: nat, w: string, h: nat, m: nat): string
    requires day < 100 && h < 100 && m < 100
  {
    mon + " " + Digits2(day) + " " + Paren(w) + " " + HourMinute(h, m) + " " + "UTC"
  }

  // -------------------------------------------------- where the pieces lie

  /** `Mon DD (w)`, the part of a match cell before the time. */
  function MatchFront(mon: string, day: nat, w: string): string
    requires day < 100
  {
    mon + " " + Digits2(day) + " " + Paren(w)
  }

  /** Where the pieces of a match cell lie. */
  lemma MatchTextOccurs(mon: string, day: nat, w: string, h: nat, m: nat)
    requires |mon| == 3 && day < 100 && h < 100 && m < 100
    ensures var t := MatchText(mon, day, w, h, m);
      && |t| == 19 + |w|
      && Occurs(t, 0, mon) && Occurs(t, 3, " ") && Occurs(t, 4, Digits2(day)) && Occurs(t, 6, " ")
      && Occurs(t, 7, Paren(w)) && Occurs(t, 9 + |w|, " ") && Occurs(t, 10 + |w|, HourMinute(h, m))
      && Occurs(t, 15 + |w|, " ") && Occurs(t, 16 + |w|, "UTC")
  {
    var t := MatchText(mon, day, w, h, m);
    var front := MatchFront(mon, day, w);
    MatchTailOccurs(front, HourMinute(h, m));
    MatchFrontOccurs(mon, day, w);
    OccursWithin(front, 0, mon, t);
    OccursWithin(front, 3, " ", t);
    OccursWithin(front, 4, Digits2(day), t);
    OccursWithin(front, 6, " ", t);
    OccursWithin(front, 7, Paren(w), t);
  }

  lemma MatchFrontOccurs(mon: string, day: nat, w: string)
    requires |mon| == 3 && day < 100
    ensures var f := MatchFront(mon, day, w);
      && |f| == 9 + |w|
      && Occurs(f, 0, mon) && Occurs(f, 3, " ") && Occurs(f, 4, Digits2(day)) && Occurs(f, 6, " ")
      && Occurs(f, 7, Paren(w))
  {
    var f := MatchFront(mon, day, w);
    var x1 := mon + " ";
    var x2 := x1 + Digits2(day);
    var x3 := x2 + " ";
    OccursSelf(f);
    OccursSplit(f, 0, x3, Paren(w));
    OccursSplit(f, 0, x2, " ");
    OccursSplit(f, 0, x1, Digits2(day));
    OccursSplit(f, 0, mon, " ");
  }

  lemma MatchTailOccurs(front: string, hm: string)
    requires |hm| == 5
    ensures var t := front + " " + hm + " " + "UTC";
      var n := |front|;
      && |t| == n + 10
      && Occurs(t, 0, front) && Occurs(t, n, " ") && Occurs(t, n + 1, hm)
      && Occurs(t, n + 6, " ") && Occurs(t, n + 7, "UTC")
  {
    var t := front + " " + hm + " " + "UTC";
    var x5 := front + " ";
    var x6 := x5 + hm;
    var x7 := x6 + " ";
    OccursSelf(t);
    OccursSplit(t, 0, x7, "UTC");
    OccursSplit(t, 0, x6, " ");
    OccursSplit(t, 0, x5, hm);
    OccursSplit(t, 0, front, " ");
  }

  /** What occurs in a prefix of `t` occurs in `t`. */
  lemma OccursWithin(s: string, i: nat, w: string, t: string)
    requires Occurs(s, i, w) && Occurs(t, 0, s)
    ensures Occurs(t, i, w)
  {
    forall k | 0 <= k < |w|
      ensures t[i + k] == w[k]
    {
      assert t[0 + (i + k)] == s[i + k];
    }
  }

  // ------------------------------------------------- reading the pieces

  /** `\)\s+(\d{2}):(\d{2})\s*UTC$` on `) HH:MM UTC` at the end of `t`. */
  lemma MatchTailOfParts(t: string, j: nat, h: nat, m: nat)
    requires h < 100 && m < 100 && j + 11 == |t|
    requires t[j] == ')' && t[j + 1] == ' ' && t[j + 4] == ':' && t[j + 7] == ' '
    requires t[j + 2] == Digits2(h)[0] && t[j + 3] == Digits2(h)[1]
    requires t[j + 5] == Digits2(m)[0] && t[j + 6] == Digits2(m)[1]
    requires t[j + 8] == 'U' && t[j + 9] == 'T' && t[j + 10] == 'C'
    ensures MatchTailAt(t, j) == Some((h, m))
  {
    ReadDigits2(t, j + 2, h);
    ReadDigits2(t, j + 5, m);
    assert SkipSpace(t, j + 1) == j + 2;
    assert SkipSpace(t, j + 7) == j + 8;
  }

  /** The tail of the match-time pattern on what follows `(w)`. */
  lemma MatchTailOfText(t: string, w: string, h: nat, m: nat)
    requires h < 100 && m < 100 && |t| == 19 + |w|
    requires Occurs(t, 7, Paren(w)) && Occurs(t, 9 + |w|, " ") && Occurs(t, 10 + |w|, HourMinute(h, m))
    requires Occurs(t, 15 + |w|, " ") && Occurs(t, 16 + |w|, "UTC")
    ensures t[8 + |w|] == ')'
    ensures MatchTailAt(t, 8 + |w|) == Some((h, m))
  {
    var j := 8 + |w|;
    var p := Paren(w);
    assert t[7 + (|w| + 1)] == p[|w| + 1];
    var hm := HourMinute(h, m);
    assert t[j + 2] == hm[0] && t[j + 3] == hm[1] && t[j + 4] == hm[2];
    assert t[j + 5] == hm[3] && t[j + 6] == hm[4];
    var u := "UTC";
    assert t[j + 8] == u[0] && t[j + 9] == u[1] && t[j + 10] == u[2];
    var sp := " ";
    assert t[j + 1] == sp[0];
    assert t[j + 7] == sp[0];
    MatchTailOfParts(t, j, h, m);
  }

  /** The match-time pattern on a match-time text. */
  lemma MatchFieldsOfParts(t: string, mon: string, day: nat, w: string, h: nat, m: nat)
    requires |mon| == 3 && Letters(mon) && Letters(w) && day < 100 && h < 100 && m < 100
    requires |t| == 19 + |w|
    requires Occurs(t, 0, mon) && Occurs(t, 3, " ") && Occurs(t, 4, Digits2(day)) && Occurs(t, 6, " ")
    requires Occurs(t, 7, Paren(w))
    requires t[8 + |w|] == ')' && MatchTailAt(t, 8 + |w|) == Some((h, m))
    ensures MatchTimeFields(t) == Some(MatchFields(mon, day, h, m))
  {
    var j := 8 + |w|;
    assert t[0] == mon[0] && t[1] == mon[1] && t[2] == mon[2];
    assert t[..3] == mon;
    var d := Digits2(day);
    assert t[4] == d[0] && t[5] == d[1];
    ReadDigits2(t, 4, day);
    var sp := " ";
    assert t[3] == sp[0] && t[6] == sp[0];
    assert SkipSpace(t, 3) == 4;
    var p := Paren(w);
    assert t[7] == p[0];
    assert SkipSpace(t, 6) == 7;
    forall k | 8 <= k < j
      ensures t[k] == w[k - 8]
    {
      assert t[7 + (k - 7)] == p[k - 7];
    }
    NextLineTerminatorBeyond(t, 8, j);
    forall k | 8 <= k < j
      ensures MatchTails(t)(k).None?
    {
      assert IsAsciiLetter(t[k]);
    }
    FirstSomeIs(MatchTails(t), 8, NextLineTerminator(t, 8), j);
  }

  /** The match-time pattern and the month table on a match-time text. */
  lemma MatchTimeOfText(mon: string, day: nat, w: string, h: nat, m: nat, mo: nat,
                        levels: seq<seq<string>>, currentYear: nat)
    requires |mon| == 3 && Letters(mon) && Letters(w) && day < 100 && h < 100 && m < 100
    requires MonthNumber(Lower(mon)) == Some(mo)
    ensures MatchTime(MatchText(mon, day, w, h, m), levels, currentYear) ==
      Some(Instant(DateTime(InferredYear(levels, currentYear), mo, day, h, m, 0)))
  {
    var t := MatchText(mon, day, w, h, m);
    MatchTextOccurs(mon, day, w, h, m);
    MatchTailOfText(t, w, h, m);
    MatchFieldsOfParts(t, mon, day, w, h, m);
  }

  // ------------------------------------------------------ normal form

  lemma MatchTextNormalized(mon: string, day: nat, w: string, h: nat, m: nat)
    requires |mon| == 3 && Letters(mon) && Letters(w) && day < 100 && h < 100 && m < 100
    ensures Normalized(MatchText(mon, day, w, h, m))
  {
    var d := Digits2(day);
    var p := Paren(w);
    var hm := HourMinute(h, m);
    assert SpaceFree(mon) && SpaceFree(d) && SpaceFree(hm) && SpaceFree("UTC");
    assert SpaceFree(p) by {
      forall k | 0 <= k < |p|
        ensures !IsSpace(p[k])
      {
        if 0 < k <= |w| {
          assert p[k] == w[k - 1];
        }
      }
    }
    SpaceFreeNormalized(mon);
    SpaceFreeNormalized(d);
    SpaceFreeNormalized(p);
    SpaceFreeNormalized(hm);
    SpaceFreeNormalized("UTC");
    JoinNormalized(mon, d);
    JoinNormalized(mon + " " + d, p);
    JoinNormalized(mon + " " + d + " " + p, hm);
    JoinNormalized(mon + " " + d + " " + p + " " + hm, "UTC");
  }

  /** No `-` anywhere. */
  predicate NoDash(s: string) {
    forall k :: 0 <= k < |s| ==> s[k] != '-'
  }

  lemma NoDashJoin(a: string, b: string)
    requires NoDash(a) && NoDash(b)
    ensures NoDash(a + " " + b)
  {
    var s := a + " " + b;
    forall k | 0 <= k < |s|
      ensures s[k] != '-'
    {
      if k > |a| {
        assert s[k] == b[k - |a| - 1];
      }
    }
  }

  lemma MatchTextNoDash(mon: string, day: nat, w: string, h: nat, m: nat)
    requires |mon| == 3 && Letters(mon) && Letters(w) && day < 100 && h < 100 && m < 100
    ensures NoDash(MatchText(mon, day, w, h, m))
  {
    var d := Digits2(day);
    var p := Paren(w);
    var hm := HourMinute(h, m);
    assert NoDash(p) by {
      forall k | 0 <= k < |p|
        ensures p[k] != '-'
      {
        if 0 < k <= |w| {
          assert p[k] == w[k - 1];
        }
      }
    }
    NoDashJoin(mon, d);
    NoDashJoin(mon + " " + d, p);
    NoDashJoin(mon + " " + d + " " + p, hm);
    NoDashJoin(mon + " " + d + " " + p + " " + hm, "UTC");
  }

  /** Every pattern of `parseTimestampCell` needs a `-`. */
  lemma NoDashNoIsoForms(t: string)
    requires NoDash(t)
    ensures IsoForms(t).None?
  {
    ParsedHasIsoDate(t);
    assert forall i: nat :: !IsoDateAt(t, i);
  }

  // ---------------------------------------------------------- round trips

  /** A match-time cell parses to an instant with the inferred year and
      exactly the written month, day, hour and minute. */
  lemma MatchTimeRoundTrip(mon: string, day: nat, w: string, h: nat, m: nat, mo: nat,
                           levels: seq<seq<string>>, currentYear: nat)
    requires |mon| == 3 && Letters(mon) && Letters(w) && day < 100 && h < 100 && m < 100
    requires MonthNumber(Lower(mon)) == Some(mo)
    ensures ParseMatchTimeCell(MatchText(mon, day, w, h, m), levels, currentYear) ==
      Some(Instant(DateTime(InferredYear(levels, currentYear), mo, day, h, m, 0)))
  {
    MatchTextNormalized(mon, day, w, h, m);
    NormalizeOfNormalized(MatchText(mon, day, w, h, m));
    MatchTimeOfText(mon, day, w, h, m, mo, levels, currentYear);
  }

  /** None of the ISO-like patterns matches a match-time cell, so
      `parseAnyTimestamp` falls through to the match-time parser. */
  lemma AnyMatchTimeRoundTrip(mon: string, day: nat, w: string, h: nat, m: nat, mo: nat,
                              levels: seq<seq<string>>, currentYear: nat)
    requires |mon| == 3 && Letters(mon) && Letters(w) && day < 100 && h < 100 && m < 100
    requires MonthNumber(Lower(mon)) == Some(mo)
    ensures ParseTimestampCell(MatchText(mon, day, w, h, m)).None?
    ensures ParseAnyTimestamp(MatchText(mon, day, w, h, m), levels, currentYear) ==
      Some(Instant(DateTime(InferredYear(levels, currentYear), mo, day, h, m, 0)))
  {
    var t := MatchText(mon, day, w, h, m);
    MatchTextNormalized(mon, day, w, h, m);
    NormalizeOfNormalized(t);
    MatchTextNoDash(mon, day, w, h, m);
    NoDashNoIsoForms(t);
    MatchTimeRoundTrip(mon, day, w, h, m, mo, levels, currentYear);
  }

  // ------------------------------------------------------------- examples

  lemma NovemberText()
    ensures MatchText("Nov", 1, "Sat", 8, 0) == "Nov 01 (Sat) 08:00 UTC"
  {
    assert Digits2(1) == "01" && Digits2(8) == "08" && Digits2(0) == "00";
  }

  lemma YearOfHeading()
    ensures InferredYear([["OWC 2025"]], 2024) == 2025
  {
    var s := "OWC 2025";
    forall k | 0 <= k < 4
      ensures Years(s)(k).None?
    {
    }
    assert YearAt(s, 4) == Some(2025);
    FirstSomeIs(Years(s), 0, |s|, 4);
    assert FirstYearIndex([s]) == 0;
  }

  /** "Nov 01 (Sat) 08:00 UTC" under a "OWC 2025" heading is 2025-11-01
      08:00 UTC; with no year anywhere around it, the current year is
      taken. */
  lemma NovemberExample(currentYear: nat)
    ensures ParseMatchTimeCell("Nov 01 (Sat) 08:00 UTC", [["OWC 2025"]], 2024) ==
      Some(Instant(DateTime(2025, 11, 1, 8, 0, 0)))
    ensures ParseMatchTimeCell("Nov 01 (Sat) 08:00 UTC", [], currentYear) ==
      Some(Instant(DateTime(currentYear, 11, 1, 8, 0, 0)))
  {
    NovemberText();
    assert Lower("Nov") == "nov";
    YearOfHeading();
    MatchTimeRoundTrip("Nov", 1, "Sat", 8, 0, 11, [["OWC 2025"]], 2024);
    MatchTimeRoundTrip("Nov", 1, "Sat", 8, 0, 11, [], currentYear);
  }

  /** Three letters that name no month give no match time, whatever the
      rest of the cell says. */
  lemma UnknownMonthOfText(mon: string, day: nat, w: string, h: nat, m: nat,
                           levels: seq<seq<string>>, currentYear: nat)
    requires |mon| == 3 && Letters(mon) && Letters(w) && day < 100 && h < 100 && m < 100
    requires MonthNumber(Lower(mon)).None?
    ensures ParseMatchTimeCell(MatchText(mon, day, w, h, m), levels, currentYear).None?
  {
    var t := MatchText(mon, day, w, h, m);
    MatchTextNormalized(mon, day, w, h, m);
    NormalizeOfNormalized(t);
    MatchTextOccurs(mon, day, w, h, m);
    MatchTailOfText(t, w, h, m);
    MatchFieldsOfParts(t, mon, day, w, h, m);
  }

  lemma FooText()
    ensures MatchText("Foo", 1, "Sat", 8, 0) == "Foo 01 (Sat) 08:00 UTC"
  {
    assert Digits2(1) == "01" && Digits2(8) == "08" && Digits2(0) == "00";
  }

  /** "Foo" names no month: no match time. */
  lemma UnknownMonthExample(levels: seq<seq<string>>, currentYear: nat)
    ensures ParseMatchTimeCell("Foo 01 (Sat) 08:00 UTC", levels, currentYear).None?
  {
    FooText();
    assert Lower("Foo") == "foo";
    UnknownMonthOfText("Foo", 1, "Sat", 8, 0, levels, currentYear);
  }
}
