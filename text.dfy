/**
 * Character classes and the string utilities of content.js: `normalize`
 * (collapse white-space runs to one space, then trim), ASCII lower-casing
 * and `includes`.
 *
 * White space is the set JavaScript's `\s` and `String.prototype.trim`
 * share: the ECMAScript WhiteSpace and LineTerminator characters.
 */
module Text {

  /** JavaScript white space (`\s`, and what `trim` removes). */
  predicate IsSpace(c: char) {
    var n := c as int;
    n == 0x09 || n == 0x0A || n == 0x0B || n == 0x0C || n == 0x0D || n == 0x20 ||
    n == 0xA0 || n == 0x1680 || (0x2000 <= n <= 0x200A) || n == 0x2028 ||
    n == 0x2029 || n == 0x202F || n == 0x205F || n == 0x3000 || n == 0xFEFF
  }

  /** The characters a regular-expression `.` does not match. */
  predicate IsLineTerminator(c: char) {
    var n := c as int;
    n == 0x0A || n == 0x0D || n == 0x2028 || n == 0x2029
  }

  /** `\d`: an ASCII digit. */
  predicate IsDigit(c: char) {
    '0' <= c <= '9'
  }

  function DigitValue(c: char): (d: nat)
    requires IsDigit(c)
    ensures d < 10
  {
    c as int - '0' as int
  }

  /** `[A-Za-z]`. */
  predicate IsAsciiLetter(c: char) {
    'a' <= c <= 'z' || 'A' <= c <= 'Z'
  }

  /** `toLowerCase` on the ASCII range; every other character is kept. */
  function LowerChar(c: char): char {
    if 'A' <= c <= 'Z' then (c as int + 32) as char else c
  }

  function Lower(s: string): (r: string)
    ensures |r| == |s|
    ensures forall i :: 0 <= i < |s| ==> r[i] == LowerChar(s[i])
  {
    seq(|s|, i requires 0 <= i < |s| => LowerChar(s[i]))
  }

  // ---------------------------------------------------------------- trim

  /** The number of white-space characters at the front of `s`. */
  function Lead(s: string): (n: nat)
    ensures n <= |s|
    ensures forall i :: 0 <= i < n ==> IsSpace(s[i])
    ensures n < |s| ==> !IsSpace(s[n])
  {
    if s != [] && IsSpace(s[0]) then 1 + Lead(s[1..]) else 0
  }

  /** The number of white-space characters at the end of `s`. */
  function Trail(s: string): (n: nat)
    ensures n <= |s|
    ensures forall i :: |s| - n <= i < |s| ==> IsSpace(s[i])
    ensures n < |s| ==> !IsSpace(s[|s| - 1 - n])
  {
    if s != [] && IsSpace(s[|s| - 1]) then 1 + Trail(s[..|s| - 1]) else 0
  }

  /** The string without its leading white space. */
  function TrimStart(s: string): string {
    s[Lead(s)..]
  }

  /** `String.prototype.trim`: the slice of `s` between its leading and its
      trailing white space. */
  function Trim(s: string): (r: string)
    ensures Lead(s) + |r| <= |s| && r == s[Lead(s)..Lead(s) + |r|]
    ensures forall i :: Lead(s) + |r| <= i < |s| ==> IsSpace(s[i])
    ensures r == [] || (!IsSpace(r[0]) && !IsSpace(r[|r| - 1]))
  {
    if Lead(s) == |s| then [] else s[Lead(s)..|s| - Trail(s)]
  }

  // ----------------------------------------------------------- normalize

  /** White space at `i` and at `i + 1`. */
  predicate SpacePair(s: string, i: nat)
    requires i + 1 < |s|
  {
    IsSpace(s[i]) && IsSpace(s[i + 1])
  }

  /** No white space other than ' ', and never two white-space characters
      in a row. */
  ghost predicate Collapsed(s: string) {
    && (forall i :: 0 <= i < |s| && IsSpace(s[i]) ==> s[i] == ' ')
    && (forall i: nat :: i + 1 < |s| ==> !SpacePair(s, i))
  }

  /** The shape `normalize` promises: collapsed, with no white space at
      either end. */
  ghost predicate Normalized(s: string) {
    Collapsed(s) && (s != [] ==> !IsSpace(s[0]) && !IsSpace(s[|s| - 1]))
  }

  /** A character in front of collapsed text keeps it collapsed, unless it
      makes a second white-space character in a row. */
  lemma CollapsedCons(x: char, c: string)
    requires Collapsed(c)
    requires IsSpace(x) ==> x == ' ' && (c == [] || !IsSpace(c[0]))
    ensures Collapsed([x] + c)
  {
    var r := [x] + c;
    forall i | 0 <= i < |r| && IsSpace(r[i])
      ensures r[i] == ' '
    {
      if i > 0 {
        assert r[i] == c[i - 1];
      }
    }
    forall i: nat | i + 1 < |r|
      ensures !SpacePair(r, i)
    {
      if i > 0 {
        assert !SpacePair(c, i - 1);
      }
    }
  }

  /** Every slice of collapsed text is collapsed. */
  lemma CollapsedSlice(s: string, a: nat, b: nat)
    requires Collapsed(s) && a <= b <= |s|
    ensures Collapsed(s[a..b])
  {
    var r := s[a..b];
    forall i: nat | i + 1 < |r|
      ensures !SpacePair(r, i)
    {
      assert !SpacePair(s, a + i);
    }
  }

  /** `replace(/\s+/g, " ")`: every maximal run of white space becomes one
      space. */
  function Collapse(s: string): (r: string)
    decreases |s|
    ensures |r| == 0 <==> |s| == 0
    ensures |s| > 0 ==> (r[0] == ' ' <==> IsSpace(s[0]))
    ensures |s| > 0 && !IsSpace(s[0]) ==> r[0] == s[0]
    ensures Collapsed(r)
  {
    if s == [] then []
    else if IsSpace(s[0]) then
      var c := Collapse(TrimStart(s));
      CollapsedCons(' ', c);
      [' '] + c
    else
      var c := Collapse(s[1..]);
      CollapsedCons(s[0], c);
      [s[0]] + c
  }

  /** `normalize(text)`: collapse white-space runs, then trim. */
  function Normalize(s: string): (r: string)
    ensures Normalized(r)
  {
    var c := Collapse(s);
    var r := Trim(c);
    CollapsedSlice(c, Lead(c), Lead(c) + |r|);
    r
  }

  lemma CollapsedTail(s: string)
    requires s != [] && Collapsed(s)
    ensures Collapsed(s[1..])
    ensures IsSpace(s[0]) ==> s[0] == ' ' && (|s| == 1 || !IsSpace(s[1]))
  {
    CollapsedSlice(s, 1, |s|);
    assert s[1..|s|] == s[1..];
    if IsSpace(s[0]) && |s| > 1 {
      assert !SpacePair(s, 0);
    }
  }

  lemma {:induction false} CollapseOfCollapsed(s: string)
    requires Collapsed(s)
    ensures Collapse(s) == s
    decreases |s|
  {
    if s != [] {
      var tail := s[1..];
      CollapsedTail(s);
      CollapseOfCollapsed(tail);
      if IsSpace(s[0]) {
        assert Lead(tail) == 0;
        assert TrimStart(s) == tail;
        assert Collapse(s) == [' '] + Collapse(tail);
      } else {
        assert Collapse(s) == [s[0]] + Collapse(tail);
      }
      assert s == [s[0]] + tail;
    }
  }

  /** Text already in normal form is left as it is. */
  lemma NormalizeOfNormalized(s: string)
    requires Normalized(s)
    ensures Normalize(s) == s
  {
    CollapseOfCollapsed(s);
    if s != [] {
      assert Lead(s) == 0 && Trail(s) == 0;
      assert s[0..|s|] == s;
    }
  }

  /** `normalize` is idempotent. */
  lemma NormalizeIdempotent(s: string)
    ensures Normalize(Normalize(s)) == Normalize(s)
  {
    NormalizeOfNormalized(Normalize(s));
  }

  /** Text without any white space. */
  predicate SpaceFree(s: string) {
    forall i :: 0 <= i < |s| ==> !IsSpace(s[i])
  }

  lemma SpaceFreeNormalized(s: string)
    requires SpaceFree(s)
    ensures Normalized(s)
  {
  }

  /** Two normalized words joined by one space are normalized. */
  lemma JoinNormalized(a: string, b: string)
    requires Normalized(a) && Normalized(b) && a != [] && b != []
    ensures Normalized(a + " " + b)
  {
    var s := a + " " + b;
    forall i | 0 <= i < |s|
      ensures s[i] == (if i < |a| then a[i] else if i == |a| then ' ' else b[i - |a| - 1])
    {
    }
    forall i: nat | i + 1 < |s|
      ensures !SpacePair(s, i)
    {
      if i + 1 < |a| {
        assert !SpacePair(a, i);
      } else if i > |a| {
        assert !SpacePair(b, i - |a| - 1);
      }
    }
  }

  // --------------------------------------- a white-space run inside text

  /** Text made of white space only. */
  predicate AllSpace(w: string) {
    forall i :: 0 <= i < |w| ==> IsSpace(w[i])
  }

  /** Leading white space of `a` is not extended by what follows `a`, as
      long as `a` holds a non-space character. */
  lemma {:induction false} LeadPrefix(a: string, x: string)
    requires Lead(a) < |a|
    ensures Lead(a + x) == Lead(a)
    decreases |a|
  {
    if IsSpace(a[0]) {
      assert (a + x)[1..] == a[1..] + x;
      LeadPrefix(a[1..], x);
    }
  }

  /** A white-space run followed by a non-space (or nothing) is all of the
      leading white space. */
  lemma {:induction false} LeadSpaces(w: string, b: string)
    requires AllSpace(w)
    requires b == [] || !IsSpace(b[0])
    ensures Lead(w + b) == |w|
    decreases |w|
  {
    if w != [] {
      assert (w + b)[1..] == w[1..] + b;
      LeadSpaces(w[1..], b);
    } else {
      assert w + b == b;
    }
  }

  /** The run of white space `w` between `a` and `b` becomes exactly one
      space: it neither vanishes nor merges with its neighbours. */
  lemma {:induction false} CollapseRun(a: string, w: string, b: string)
    requires a == [] || !IsSpace(a[|a| - 1])
    requires w != [] && AllSpace(w)
    requires b == [] || !IsSpace(b[0])
    ensures Collapse(a + w + b) == Collapse(a) + " " + Collapse(b)
    decreases |a|
  {
    if a == [] {
      CollapseRunFront(w, b);
      EmptyFront(a, w, b);
    } else {
      var k := CollapseFront(a, w + b);
      CollapseRun(a[k..], w, b);
      Assoc(a[k..], w, b);
      ConsRun(Collapse(a), Collapse(a + (w + b)), Collapse(a[k..]), Collapse(a[k..] + (w + b)), Collapse(b));
      Assoc(a, w, b);
    }
  }

  // Sequence identities, proved apart so that no Collapse term takes part
  // in their extensionality reasoning.
  lemma Assoc(a: string, w: string, b: string)
    ensures a + (w + b) == a + w + b
  {
  }

  lemma EmptyFront(a: string, w: string, b: string)
    requires a == []
    ensures a + w + b == w + b
  {
  }

  /** The same first character in front of `p` and of `p + " " + q`. */
  lemma ConsRun(c: string, d: string, p: string, pq: string, q: string)
    requires c != [] && c[1..] == p && d != [] && d[0] == c[0] && d[1..] == pq
    requires pq == p + " " + q
    ensures d == c + " " + q
  {
    assert d == [d[0]] + d[1..];
    assert c == [c[0]] + c[1..];
  }

  /** The first step of Collapse on `a + x` depends on `a` alone, when `a`
      ends in a non-space: it emits the same character and goes on with
      the same rest of `a`. */
  lemma CollapseFront(a: string, x: string) returns (k: nat)
    requires a != [] && !IsSpace(a[|a| - 1])
    ensures 0 < k <= |a|
    ensures Collapse(a) != [] && Collapse(a)[1..] == Collapse(a[k..])
    ensures Collapse(a + x) != [] && Collapse(a + x)[0] == Collapse(a)[0]
    ensures Collapse(a + x)[1..] == Collapse(a[k..] + x)
  {
    if IsSpace(a[0]) {
      k := Lead(a);
      LeadPrefix(a, x);
      assert (a + x)[k..] == a[k..] + x;
    } else {
      k := 1;
      assert (a + x)[1..] == a[1..] + x;
    }
  }

  lemma CollapseRunFront(w: string, b: string)
    requires w != [] && AllSpace(w)
    requires b == [] || !IsSpace(b[0])
    ensures Collapse(w + b) == " " + Collapse(b)
  {
    LeadSpaces(w, b);
    assert TrimStart(w + b) == b;
  }

  /** Text ending in a non-space collapses to text ending in a non-space. */
  lemma {:induction false} CollapseLast(s: string)
    requires s != [] && !IsSpace(s[|s| - 1])
    ensures var c := Collapse(s); c != [] && !IsSpace(c[|c| - 1])
    decreases |s|
  {
    if IsSpace(s[0]) {
      var k := Lead(s);
      assert k < |s|;
      assert s[k..][|s| - k - 1] == s[|s| - 1];
      CollapseLast(s[k..]);
    } else if |s| > 1 {
      assert s[1..][|s| - 2] == s[|s| - 1];
      CollapseLast(s[1..]);
    }
  }

  /** Text that starts and ends with a non-space is only collapsed by
      `normalize`. */
  lemma NormalizeOfTrimmed(s: string)
    requires s != [] && !IsSpace(s[0]) && !IsSpace(s[|s| - 1])
    ensures Normalize(s) == Collapse(s)
  {
    var c := Collapse(s);
    CollapseLast(s);
    assert Lead(c) == 0;
    assert Trail(c) == 0;
    assert c[0..|c|] == c;
  }

  /** Two words of text separated by any run of white space normalize to
      the two words normalized, joined by a single space. */
  lemma NormalizeRun(a: string, w: string, b: string)
    requires a != [] && !IsSpace(a[0]) && !IsSpace(a[|a| - 1])
    requires w != [] && AllSpace(w)
    requires b != [] && !IsSpace(b[0]) && !IsSpace(b[|b| - 1])
    ensures Normalize(a + w + b) == Normalize(a) + " " + Normalize(b)
  {
    CollapseRun(a, w, b);
    NormalizeOfTrimmed(a);
    NormalizeOfTrimmed(b);
    var s := a + w + b;
    assert s[0] == a[0];
    assert s[|s| - 1] == b[|b| - 1];
    NormalizeOfTrimmed(s);
  }

  // ----------------------------------------- what normalize leaves alone

  /** The non-white-space characters of `s`, in order. */
  function NonSpace(s: string): string {
    if s == [] then []
    else if IsSpace(s[0]) then NonSpace(s[1..])
    else [s[0]] + NonSpace(s[1..])
  }

  lemma {:induction false} NonSpaceAppend(a: string, b: string)
    ensures NonSpace(a + b) == NonSpace(a) + NonSpace(b)
    decreases |a|
  {
    if a != [] {
      assert (a + b)[1..] == a[1..] + b;
      NonSpaceAppend(a[1..], b);
    } else {
      assert a + b == b;
    }
  }

  lemma {:induction false} NonSpaceOfSpaces(s: string)
    requires forall i :: 0 <= i < |s| ==> IsSpace(s[i])
    ensures NonSpace(s) == []
    decreases |s|
  {
    if s != [] {
      NonSpaceOfSpaces(s[1..]);
    }
  }

  /** Cutting `s` at `k` keeps its non-white-space characters. */
  lemma NonSpaceSplit(s: string, k: nat)
    requires k <= |s|
    ensures NonSpace(s) == NonSpace(s[..k]) + NonSpace(s[k..])
  {
    assert s == s[..k] + s[k..];
    NonSpaceAppend(s[..k], s[k..]);
  }

  lemma {:induction false} NonSpaceCollapse(s: string)
    ensures NonSpace(Collapse(s)) == NonSpace(s)
    decreases |s|
  {
    if s != [] {
      if IsSpace(s[0]) {
        var k := Lead(s);
        var rest := TrimStart(s);
        NonSpaceCollapse(rest);
        NonSpaceAppend([' '], Collapse(rest));
        NonSpaceSplit(s, k);
        NonSpaceOfSpaces(s[..k]);
      } else {
        NonSpaceCollapse(s[1..]);
        assert ([s[0]] + Collapse(s[1..]))[1..] == Collapse(s[1..]);
      }
    }
  }

  lemma NonSpaceTrim(s: string)
    ensures NonSpace(Trim(s)) == NonSpace(s)
  {
    var a := Lead(s);
    var b := a + |Trim(s)|;
    NonSpaceSplit(s, a);
    NonSpaceSplit(s[a..], b - a);
    assert s[a..][..b - a] == Trim(s);
    NonSpaceOfSpaces(s[..a]);
    NonSpaceOfSpaces(s[a..][b - a..]);
  }

  /** `normalize` changes white space only: every other character survives,
      in order. */
  lemma NormalizeKeepsNonSpace(s: string)
    ensures NonSpace(Normalize(s)) == NonSpace(s)
  {
    NonSpaceCollapse(s);
    NonSpaceTrim(Collapse(s));
  }

  // ------------------------------------------------------------ includes

  predicate HasAt(s: string, sub: string, i: nat) {
    i + |sub| <= |s| && s[i..i + |sub|] == sub
  }

  /** `s.includes(sub)`. */
  function Contains(s: string, sub: string): (b: bool)
    ensures b <==> exists i: nat :: HasAt(s, sub, i)
  {
    ContainsFrom(s, sub, 0)
  }

  function ContainsFrom(s: string, sub: string, i: nat): (b: bool)
    decreases |s| - i
    ensures b <==> exists j: nat :: i <= j && HasAt(s, sub, j)
  {
    if i + |sub| > |s| then false
    else HasAt(s, sub, i) || ContainsFrom(s, sub, i + 1)
  }
}
