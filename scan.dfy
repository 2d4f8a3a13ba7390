/**
 * The pieces of regular-expression matching the parsers of content.js rely
 * on, stated in the way a backtracking matcher runs them:
 *
 *  - an unanchored pattern is tried at start positions 0, 1, ..., |t| and
 *    the first position where it matches wins;
 *  - a lazy `.*?` is tried with lengths 0, 1, 2, ... and the first length
 *    for which the rest of the pattern matches wins; `.` does not match a
 *    line terminator, so the lengths stop at the next one;
 *  - a greedy `\s*` or `\s+` followed by a literal that is not white space
 *    can only ever match the whole run of white space, so it is "skip all
 *    white space" (for `\s+`, at least one).
 */
module Scan {
  import opened Wrappers
  import opened Text

  /** The first `Some` among `f(lo), f(lo + 1), ..., f(hi)`. */
  function FirstSome<T>(f: nat -> Option<T>, lo: nat, hi: nat): Option<T>
    decreases hi - lo
  {
    if lo > hi then None
    else if f(lo).Some? then f(lo)
    else FirstSome(f, lo + 1, hi)
  }

  /** When the first `Some` is known, `FirstSome` returns it. */
  lemma {:induction false} FirstSomeIs<T>(f: nat -> Option<T>, lo: nat, hi: nat, i: nat)
    requires lo <= i <= hi && f(i).Some?
    requires forall j :: lo <= j < i ==> f(j).None?
    ensures FirstSome(f, lo, hi) == f(i)
    decreases i - lo
  {
    if lo < i {
      FirstSomeIs(f, lo + 1, hi, i);
    }
  }

  /** `FirstSome` finds nothing exactly when every candidate is `None`. */
  lemma {:induction false} FirstSomeNone<T>(f: nat -> Option<T>, lo: nat, hi: nat)
    ensures FirstSome(f, lo, hi).None? <==> forall i :: lo <= i <= hi ==> f(i).None?
    decreases hi - lo
  {
    if lo <= hi {
      FirstSomeNone(f, lo + 1, hi);
    }
  }

  /** What `FirstSome` finds is some candidate's value. */
  lemma {:induction false} FirstSomeFound<T>(f: nat -> Option<T>, lo: nat, hi: nat)
    ensures FirstSome(f, lo, hi).Some? ==>
      exists i :: lo <= i <= hi && f(i) == FirstSome(f, lo, hi)
    decreases hi - lo
  {
    if lo <= hi && f(lo).None? {
      FirstSomeFound(f, lo + 1, hi);
    }
  }

  /** Candidates known to be `None` at the front can be skipped. */
  lemma {:induction false} FirstSomeSkip<T>(f: nat -> Option<T>, lo: nat, m: nat, hi: nat)
    requires lo <= m <= hi + 1
    requires forall j :: lo <= j < m ==> f(j).None?
    ensures FirstSome(f, lo, hi) == FirstSome(f, m, hi)
    decreases m - lo
  {
    if lo < m {
      FirstSomeSkip(f, lo + 1, m, hi);
    }
  }

  /** Candidates known to be `None` at the back make no difference. */
  lemma {:induction false} FirstSomeExtend<T>(f: nat -> Option<T>, lo: nat, hi: nat, hi': nat)
    requires hi <= hi'
    requires forall j :: hi < j <= hi' ==> f(j).None?
    ensures FirstSome(f, lo, hi) == FirstSome(f, lo, hi')
    decreases hi - lo
  {
    if lo > hi {
      FirstSomeNone(f, lo, hi');
    } else if f(lo).None? {
      FirstSomeExtend(f, lo + 1, hi, hi');
    }
  }

  /** Renumbering the candidates by a fixed offset finds the same value. */
  lemma {:induction false} FirstSomeShift<T>(f: nat -> Option<T>, g: nat -> Option<T>, d: nat, lo: nat, hi: nat)
    requires forall i :: lo <= i <= hi ==> g(i) == f(i + d)
    ensures FirstSome(g, lo, hi) == FirstSome(f, lo + d, hi + d)
    decreases hi - lo
  {
    if lo <= hi && g(lo).None? {
      FirstSomeShift(f, g, d, lo + 1, hi);
    }
  }

  /** Greedy `\s*` from `k`: the first position at or after `k` that does
      not hold white space. */
  function SkipSpace(t: string, k: nat): (r: nat)
    decreases |t| - k
    ensures k <= r && (k <= |t| ==> r <= |t|)
    ensures r < |t| ==> !IsSpace(t[r])
  {
    if k < |t| && IsSpace(t[k]) then SkipSpace(t, k + 1) else k
  }

  /** Everything `SkipSpace` passes over is white space. */
  lemma {:induction false} SkipSpaceSkipsSpace(t: string, k: nat)
    ensures forall i :: k <= i < SkipSpace(t, k) ==> i < |t| && IsSpace(t[i])
    decreases |t| - k
  {
    if k < |t| && IsSpace(t[k]) {
      SkipSpaceSkipsSpace(t, k + 1);
      forall i | k <= i < SkipSpace(t, k)
        ensures i < |t| && IsSpace(t[i])
      {
        if i > k {
          assert k + 1 <= i < SkipSpace(t, k + 1);
        }
      }
    } else {
      assert SkipSpace(t, k) == k;
    }
  }

  /** The first line terminator at or after `k`, or the end of `t`: a lazy
      `.*?` starting at `k` can stop at any position up to this one. */
  function NextLineTerminator(t: string, k: nat): (r: nat)
    decreases |t| - k
    ensures k <= r && (k <= |t| ==> r <= |t|)
    ensures r < |t| ==> IsLineTerminator(t[r])
  {
    if k < |t| && !IsLineTerminator(t[k]) then NextLineTerminator(t, k + 1) else k
  }

  /** A stretch without line terminators lies within the reach of `.*?`. */
  lemma {:induction false} NextLineTerminatorBeyond(t: string, k: nat, m: nat)
    requires k <= m <= |t|
    requires forall i :: k <= i < m ==> !IsLineTerminator(t[i])
    ensures m <= NextLineTerminator(t, k)
    decreases m - k
  {
    if k < m {
      NextLineTerminatorBeyond(t, k + 1, m);
    }
  }

  /** The literal `UTC` under the `i` flag. */
  predicate UtcAt(t: string, k: nat) {
    k + 3 <= |t| && LowerChar(t[k]) == 'u' && LowerChar(t[k + 1]) == 't' &&
    LowerChar(t[k + 2]) == 'c'
  }

  /** The value of the two digits at `i`. */
  function Num2(t: string, i: nat): (n: nat)
    requires i + 2 <= |t| && IsDigit(t[i]) && IsDigit(t[i + 1])
    ensures n < 100
  {
    10 * DigitValue(t[i]) + DigitValue(t[i + 1])
  }
}
