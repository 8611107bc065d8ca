/**
 The theory of periods and maximal suffixes that the Two-Way string search of the
 kernel's C library (src/libc/libc.cpp) rests on.  Words are sequences of integers;
 a factorization of `x` is given by the length `cut` of its left part.
 */
module CriticalFactorization {

  /** The order on letters used by a maximal-suffix computation, or its opposite. */
  predicate Less(rev: bool, a: int, b: int) {
    if rev then b < a else a < b
  }

  /** `p` is a period of the suffix of `x` that starts at `from`. */
  ghost predicate IsPeriod(x: seq<int>, from: nat, p: nat) {
    forall i, j | from <= i && i + p == j < |x| :: x[i] == x[j]
  }

  /** The `d` letters from `s` on and the `d` letters from `q` on are the same. */
  ghost predicate Agree(x: seq<int>, s: nat, q: nat, d: nat)
    requires s + d <= |x| && q + d <= |x|
  {
    forall i, j | s <= i < s + d && j - q == i - s :: x[i] == x[j]
  }

  /** The suffix at `s` is larger than the one at `q`: they first differ `d` letters in. */
  ghost predicate BeatsAt(x: seq<int>, rev: bool, s: nat, q: nat, d: nat) {
    s + d < |x| && q + d < |x| && Agree(x, s, q, d) && Less(rev, x[q + d], x[s + d])
  }

  ghost predicate Beats(x: seq<int>, rev: bool, s: nat, q: nat) {
    exists d: nat :: BeatsAt(x, rev, s, q, d)
  }

  /** The suffix at `q` is a prefix of the suffix at `s`. */
  ghost predicate PrefixOf(x: seq<int>, q: nat, s: nat) {
    s <= q <= |x| && Agree(x, s, q, |x| - q)
  }

  /** The suffix at `s` is the largest one in the lexicographic order built on `Less(rev)`. */
  ghost predicate IsMaximalSuffix(x: seq<int>, rev: bool, s: nat) {
    forall q: nat | q < |x| && q != s :: Beats(x, rev, s, q) || PrefixOf(x, q, s)
  }

  /** `r` letters on the two sides of `cut` agree, as far as both sides lie inside `x`. */
  ghost predicate IsRepetition(x: seq<int>, cut: nat, r: nat) {
    forall i, j | cut <= i < cut + r && 0 <= j == i - r && i < |x| :: x[i] == x[j]
  }

  lemma BeatsTransitive(x: seq<int>, rev: bool, t: nat, s: nat, q: nat)
    requires Beats(x, rev, t, s) && Beats(x, rev, s, q)
    ensures Beats(x, rev, t, q)
  {
    var d: nat :| BeatsAt(x, rev, t, s, d);
    var e: nat :| BeatsAt(x, rev, s, q, e);
    var f := if d < e then d else e;
    forall i, j | t <= i < t + f && j - q == i - t ensures x[i] == x[j] {
      assert x[i] == x[i - t + s];
    }
    assert x[t + f] == x[s + f] || f == d;
    assert x[s + f] == x[q + f] || f == e;
    assert BeatsAt(x, rev, t, q, f);
  }

  lemma BeatsOneWay(x: seq<int>, rev: bool, s: nat, q: nat, d: nat, e: nat)
    requires BeatsAt(x, rev, s, q, e)
    ensures !BeatsAt(x, rev, q, s, d)
  {
  }

  /** No suffix beats a maximal one. */
  lemma NothingBeatsMaximal(x: seq<int>, rev: bool, s: nat, q: nat, d: nat)
    requires s < |x| && IsMaximalSuffix(x, rev, s)
    ensures !BeatsAt(x, rev, q, s, d)
  {
    if q < |x| && q != s && Beats(x, rev, s, q) {
      var e: nat :| BeatsAt(x, rev, s, q, e);
      BeatsOneWay(x, rev, s, q, d, e);
    }
  }

  lemma DifferenceBeyondRepetition(x: seq<int>, rev: bool, cut: nat, r: nat, d: nat)
    requires r <= cut < |x| && IsRepetition(x, cut, r)
    requires BeatsAt(x, rev, cut, cut - r, d)
    ensures r <= d && BeatsAt(x, rev, cut + r, cut, d - r)
  {
  }

  /** The left part is shorter than any repetition: otherwise a longer suffix would win. */
  lemma RepetitionExceedsLeft(x: seq<int>, rev: bool, cut: nat, r: nat)
    requires cut < |x| && IsMaximalSuffix(x, rev, cut)
    requires 0 < r && IsRepetition(x, cut, r)
    ensures cut < r
  {
    if r <= cut {
      assert Beats(x, rev, cut, cut - r) || PrefixOf(x, cut - r, cut);
      var d: nat :| BeatsAt(x, rev, cut, cut - r, d);
      DifferenceBeyondRepetition(x, rev, cut, r, d);
      NothingBeatsMaximal(x, rev, cut, cut + r, d - r);
    }
  }

  /**
   The positions where no repetition is shorter than a period of the whole word: there
   a mismatch-driven shift of a search window cannot skip an occurrence.
   */
  ghost predicate IsCritical(x: seq<int>, cut: nat) {
    && cut < |x|
    && forall r: nat | 0 < r && IsRepetition(x, cut, r) :: cut < r && IsPeriod(x, 0, r)
  }

  /** The case of the theorem below where the repetition ends inside the word. */
  lemma RepetitionPropagates(x: seq<int>, ord: bool, cut: nat, cut2: nat, r: nat)
    requires cut2 <= cut < r && cut + r < |x|
    requires IsMaximalSuffix(x, ord, cut) && IsMaximalSuffix(x, !ord, cut2)
    requires IsRepetition(x, cut, r)
    ensures PrefixOf(x, cut + r, cut)
  {
    if !PrefixOf(x, cut + r, cut) {
      var d: nat :| BeatsAt(x, ord, cut, cut + r, d);
      // read from cut2 on, the same difference is a win in the opposite order
      var g := cut - cut2;
      var q := cut + r - g;
      assert BeatsAt(x, !ord, q, cut2, g + d);
      NothingBeatsMaximal(x, !ord, cut2, q, g + d);
    }
  }

  /** The critical factorization theorem, for the shorter of the two maximal suffixes. */
  lemma ShorterMaximalSuffixIsCritical(x: seq<int>, ord: bool, cut: nat, cut2: nat)
    requires cut2 <= cut < |x|
    requires IsMaximalSuffix(x, ord, cut) && IsMaximalSuffix(x, !ord, cut2)
    ensures IsCritical(x, cut)
  {
    forall r: nat | 0 < r && IsRepetition(x, cut, r)
      ensures cut < r && IsPeriod(x, 0, r)
    {
      RepetitionExceedsLeft(x, ord, cut, r);
      if cut + r < |x| {
        RepetitionPropagates(x, ord, cut, cut2, r);
      }
    }
  }

  /** `off` is zero or more times `p`. */
  predicate IsMultiple(off: nat, p: nat) {
    off == 0 || (0 < p <= off && IsMultiple(off - p, p))
  }

  lemma {:induction false} DifferenceOfMultiples(a: nat, b: nat, p: nat)
    requires IsMultiple(a, p) && IsMultiple(b, p) && a <= b
    ensures IsMultiple(b - a, p)
    ensures a < b ==> a + p <= b
  {
    if a > 0 {
      DifferenceOfMultiples(a - p, b - p, p);
    }
  }

  /** Every number is a multiple of `p` plus a remainder. */
  lemma {:induction false} SplitOff(e: nat, p: nat) returns (off: nat, r: nat)
    requires 0 < p
    ensures r < p && e == off + r && IsMultiple(off, p)
  {
    if e < p {
      off, r := 0, e;
    } else {
      off, r := SplitOff(e - p, p);
      off := off + p;
    }
  }

  lemma {:induction false} PeriodMultiple(x: seq<int>, from: nat, p: nat, off: nat, i: nat)
    requires IsPeriod(x, from, p) && IsMultiple(off, p)
    requires from <= i && i + off < |x|
    ensures x[i] == x[i + off]
  {
    if off > 0 {
      PeriodMultiple(x, from, p, off - p, i);
      assert x[i + (off - p)] == x[i + (off - p) + p];
    }
  }

  /** A period of the word, reduced by a multiple of a period of the right part, is a repetition. */
  lemma ReducedPeriodRepeats(x: seq<int>, cut: nat, p: nat, s: nat, e: nat)
    requires 0 < e <= s && IsMultiple(s - e, p) && cut + s <= |x|
    requires IsPeriod(x, 0, s) && IsPeriod(x, cut, p)
    ensures IsRepetition(x, cut, e)
  {
    forall i, j | cut <= i < cut + e && 0 <= j == i - e && i < |x| ensures x[i] == x[j] {
      assert x[j] == x[j + s];
      PeriodMultiple(x, cut, p, s - e, i);
    }
  }

  /** `p` is the smallest period of the suffix at `from`. */
  ghost predicate IsSmallestPeriod(x: seq<int>, from: nat, p: nat) {
    && 0 < p && from + p <= |x| && IsPeriod(x, from, p)
    && forall e: nat | 0 < e < p :: !IsPeriod(x, from, e)
  }

  /**
   When the smallest period of the right part does not carry over to the left part, every
   period of the whole word is longer than both parts.
   */
  lemma PeriodsOfUnbordered(x: seq<int>, cut: nat, p: nat, s: nat)
    requires IsCritical(x, cut) && IsSmallestPeriod(x, cut, p)
    requires !IsPeriod(x, 0, p)
    requires 0 < s && IsPeriod(x, 0, s)
    ensures cut < s && |x| - cut < s
  {
    assert IsRepetition(x, cut, s);
    if s <= |x| - cut {
      var off, r := SplitOff(s - 1, p);
      var e := r + 1;
      ReducedPeriodRepeats(x, cut, p, s, e);
      assert IsPeriod(x, 0, e);
      assert IsPeriod(x, cut, e);
    }
  }
}
