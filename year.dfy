/**
 * `inferYearFromSection` (content.js:62-75): the year a "Nov 01 (Sat)"
 * cell belongs to, taken from the text around the cell.
 *
 * A position in the document is given as its levels, from the cell up to
 * (not including) the document body: level 0 holds the texts of the cell's
 * preceding siblings, nearest first; level 1 those of its parent; and so
 * on. The clock the source reads (`new Date().getUTCFullYear()`) is the
 * parameter `currentYear`.
 */
module YearInference {
  import opened Wrappers
  import opened Text
  import opened Scan

  /** `20\d{2}` at position `i`, as a number. */
  function YearAt(s: string, i: nat): (r: Option<nat>)
    ensures r.Some? ==> 2000 <= r.value <= 2099
  {
    if i + 4 <= |s| && s[i] == '2' && s[i + 1] == '0' && IsDigit(s[i + 2]) && IsDigit(s[i + 3])
    then Some(2000 + Num2(s, i + 2))
    else None
  }

  /** The candidate years of `s`, by start position. */
  function Years(s: string): nat -> Option<nat> {
    (i: nat) => YearAt(s, i)
  }

  /** The leftmost `20dd` of `text`. */
  function YearIn(text: string): (r: Option<nat>)
    ensures r.Some? ==> 2000 <= r.value <= 2099
  {
    FirstSomeFound(Years(text), 0, |text|);
    FirstSome(Years(text), 0, |text|)
  }

  /** `+(text.trim().match(/(20\d{2})/)[1])`, or `None` for no match: the
      leftmost `20dd` of the trimmed text. */
  function MatchedYear(text: string): Option<nat> {
    var s := Trim(text);
    FirstSome(Years(s), 0, |s|)
  }

  /** Inside a slice `s` of `t` the candidates are those of `t`, moved by
      the slice's offset, when only white space follows the slice. */
  lemma YearAtSlice(t: string, s: string, a: nat, i: nat)
    requires a + |s| <= |t| && i <= |s|
    requires forall k :: 0 <= k < |s| ==> s[k] == t[a + k]
    requires forall k :: a + |s| <= k < |t| ==> IsSpace(t[k])
    ensures YearAt(s, i) == YearAt(t, a + i)
  {
    if i + 4 <= |s| {
      assert s[i] == t[a + i] && s[i + 1] == t[a + i + 1];
      assert s[i + 2] == t[a + i + 2] && s[i + 3] == t[a + i + 3];
    } else if a + i + 4 <= |t| {
      assert IsSpace(t[a + i + 3]);
    }
  }

  /** The leftmost `20dd` of a slice that only white space surrounds is
      the leftmost `20dd` of the whole. */
  lemma YearOfSlice(t: string, s: string, a: nat)
    requires a + |s| <= |t|
    requires forall k :: 0 <= k < |s| ==> s[k] == t[a + k]
    requires forall k :: 0 <= k < a ==> IsSpace(t[k])
    requires forall k :: a + |s| <= k < |t| ==> IsSpace(t[k])
    ensures FirstSome(Years(s), 0, |s|) == FirstSome(Years(t), 0, |t|)
  {
    forall i | 0 <= i <= |s|
      ensures Years(s)(i) == Years(t)(i + a)
    {
      YearAtSlice(t, s, a, i);
    }
    FirstSomeShift(Years(t), Years(s), a, 0, |s|);
    forall j | 0 <= j < a
      ensures Years(t)(j).None?
    {
      assert IsSpace(t[j]);
    }
    FirstSomeSkip(Years(t), 0, a, |t|);
    forall j | a + |s| < j <= |t|
      ensures Years(t)(j).None?
    {
      if j < |t| {
        assert IsSpace(t[j]);
      }
    }
    FirstSomeExtend(Years(t), a, a + |s|, |t|);
  }

  /** A `20dd` holds no white space, so trimming never changes which one is
      found first: the year of a text is its leftmost `20dd`. */
  lemma TrimKeepsYear(text: string)
    ensures MatchedYear(text) == YearIn(text)
  {
    var s := Trim(text);
    var a := Lead(text);
    assert forall k :: 0 <= k < |s| ==> s[k] == text[a + k];
    YearOfSlice(text, s, a);
  }

  /** `p.textContent.trim().match(/(20\d{2})/)` for one sibling text. */
  method YearOf(text: string) returns (m: Option<nat>)
    ensures m == YearIn(text)
  {
    m := MatchedYear(text);
    TrimKeepsYear(text);
  }

  /** The position of the first sibling text holding a year, nearest
      first; `|siblings|` when none does. */
  function FirstYearIndex(siblings: seq<string>): (k: nat)
    ensures k <= |siblings|
    ensures forall j :: 0 <= j < k ==> YearIn(siblings[j]).None?
    ensures k < |siblings| ==> YearIn(siblings[k]).Some?
  {
    if siblings == [] || YearIn(siblings[0]).Some? then 0
    else
      var k := FirstYearIndex(siblings[1..]);
      assert forall j :: 1 <= j < |siblings| ==> siblings[j] == siblings[1..][j - 1];
      1 + k
  }

  /** The year the inner loop finds among the preceding siblings of one
      level. */
  function FirstYearAmong(siblings: seq<string>): Option<nat> {
    var k := FirstYearIndex(siblings);
    if k < |siblings| then YearIn(siblings[k]) else None
  }

  /** The year `inferYearFromSection` returns: the first year found level by
      level, upward; the current year when there is none. */
  function InferredYear(levels: seq<seq<string>>, currentYear: nat): nat {
    if levels == [] then currentYear
    else match FirstYearAmong(levels[0])
      case Some(y) => y
      case None => InferredYear(levels[1..], currentYear)
  }

  /** The first level at which some sibling text holds a year; `|levels|`
      when none does. */
  function YearLevel(levels: seq<seq<string>>): (l: nat)
    ensures l <= |levels|
    ensures forall j :: 0 <= j < l ==> FirstYearAmong(levels[j]).None?
    ensures l < |levels| ==> FirstYearAmong(levels[l]).Some?
  {
    if levels == [] || FirstYearAmong(levels[0]).Some? then 0
    else
      var l := YearLevel(levels[1..]);
      assert forall j :: 1 <= j < |levels| ==> levels[j] == levels[1..][j - 1];
      1 + l
  }

  /** No sibling text on any level holds a year. */
  ghost predicate NoYearAnywhere(levels: seq<seq<string>>) {
    forall l, k :: 0 <= l < |levels| && 0 <= k < |levels[l]| ==> YearIn(levels[l][k]).None?
  }

  /** No sibling text scanned before `levels[l][k]` holds a year. */
  ghost predicate NoYearBefore(levels: seq<seq<string>>, l: nat, k: nat)
    requires l < |levels|
  {
    (forall l', k' :: 0 <= l' < l && 0 <= k' < |levels[l']| ==> YearIn(levels[l'][k']).None?) &&
    (forall k' :: 0 <= k' < k && k' < |levels[l]| ==> YearIn(levels[l][k']).None?)
  }

  lemma {:induction false} InferredYearByLevel(levels: seq<seq<string>>, currentYear: nat)
    ensures YearLevel(levels) < |levels| ==>
      Some(InferredYear(levels, currentYear)) == FirstYearAmong(levels[YearLevel(levels)])
    ensures YearLevel(levels) == |levels| ==> InferredYear(levels, currentYear) == currentYear
    decreases |levels|
  {
    if levels != [] && FirstYearAmong(levels[0]).None? {
      InferredYearByLevel(levels[1..], currentYear);
    }
  }

  /** The inferred year is the first `20dd` found in the scan order (lower
      level first, nearer sibling first), or the current year when no
      sibling text on any level holds one. */
  lemma InferredYearSpec(levels: seq<seq<string>>, currentYear: nat)
    ensures NoYearAnywhere(levels) ==> InferredYear(levels, currentYear) == currentYear
    ensures !NoYearAnywhere(levels) ==>
      var l := YearLevel(levels);
      l < |levels| &&
      var k := FirstYearIndex(levels[l]);
      k < |levels[l]| &&
      YearIn(levels[l][k]) == Some(InferredYear(levels, currentYear)) &&
      NoYearBefore(levels, l, k) &&
      2000 <= InferredYear(levels, currentYear) <= 2099
  {
    InferredYearByLevel(levels, currentYear);
    var l := YearLevel(levels);
    if l == |levels| {
      forall l', k' | 0 <= l' < |levels| && 0 <= k' < |levels[l']|
        ensures YearIn(levels[l'][k']).None?
      {
        assert FirstYearAmong(levels[l']).None?;
      }
    } else {
      forall l', k' | 0 <= l' < l && 0 <= k' < |levels[l']|
        ensures YearIn(levels[l'][k']).None?
      {
        assert FirstYearAmong(levels[l']).None?;
      }
    }
  }

  /** One step of the outer loop: the year found among the siblings of
      level `l`, or else whatever the levels above yield. */
  lemma InferredYearStep(levels: seq<seq<string>>, l: nat, currentYear: nat)
    requires l < |levels|
    ensures FirstYearAmong(levels[l]).Some? ==>
      InferredYear(levels[l..], currentYear) == FirstYearAmong(levels[l]).value
    ensures FirstYearAmong(levels[l]).None? ==>
      InferredYear(levels[l..], currentYear) == InferredYear(levels[l + 1..], currentYear)
  {
    assert levels[l..][0] == levels[l];
    assert levels[l..][1..] == levels[l + 1..];
  }

  /** The nested loops of `inferYearFromSection`: the outer one climbs the
      levels (`cur = cur.parentElement`), the inner one walks the preceding
      siblings (`p = p.previousElementSibling`). */
  method InferYearFromSection(levels: seq<seq<string>>, currentYear: nat) returns (year: nat)
    ensures year == InferredYear(levels, currentYear)
    ensures year == currentYear || 2000 <= year <= 2099
  {
    var l := 0;
    while l < |levels|
      invariant 0 <= l <= |levels|
      invariant InferredYear(levels[l..], currentYear) == InferredYear(levels, currentYear)
    {
      var siblings := levels[l];
      var k := 0;
      while k < |siblings|
        invariant 0 <= k <= FirstYearIndex(siblings)
      {
        var m := YearOf(siblings[k]);
        if m.Some? {
          year := m.value;
          InferredYearStep(levels, l, currentYear);
          return;
        }
        k := k + 1;
      }
      InferredYearStep(levels, l, currentYear);
      l := l + 1;
    }
    year := currentYear;
  }
}
