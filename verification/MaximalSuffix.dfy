/**
 The maximal-suffix scan of the Two-Way search (src/libc/libc.cpp:252-303): one left to
 right pass that finds where the largest suffix of the needle starts, and its period.
 */
module MaximalSuffix {
  import opened CriticalFactorization

  /** The suffix at `s` is larger than the one at `q`, as letters before `end` show. */
  ghost predicate BeatsBefore(x: seq<int>, rev: bool, s: nat, q: nat, end: nat) {
    exists d: nat :: q + d < end && BeatsAt(x, rev, s, q, d)
  }

  /** The block from `s` to `end` is larger than each of its own proper suffixes. */
  ghost predicate BlockWins(x: seq<int>, rev: bool, s: nat, end: nat) {
    forall q: nat | s < q < end :: BeatsBefore(x, rev, s, q, end)
  }

  /** Letters `s` up to `m` repeat with period `p`. */
  ghost predicate Periodic(x: seq<int>, s: nat, m: nat, p: nat) {
    forall i, j | s <= i && i + p == j < m <= |x| :: x[i] == x[j]
  }

  /**
   The state of the scan: `s` is the best start so far, `s + c` the start it is compared
   with and `m` the number of letters inspected; the letters from `s` to `m` repeat with
   period `p`, and a repeated block is larger than each of its own proper suffixes.
   */
  ghost predicate Scanned(x: seq<int>, rev: bool, s: nat, c: nat, m: nat, p: nat) {
    && 0 < p <= c && IsMultiple(c, p) && s + c <= m <= |x| && m < s + c + p
    && Periodic(x, s, m, p)
    && (forall q: nat | q < s :: Beats(x, rev, s, q))
    && BlockWins(x, rev, s, s + p)
  }

  lemma Shifted(x: seq<int>, s: nat, m: nat, p: nat, off: nat, i: nat)
    requires Periodic(x, s, m, p) && IsMultiple(off, p)
    requires s <= i && i + off < m <= |x|
    ensures x[i] == x[i + off]
  {
    var y := x[..m];
    assert IsPeriod(y, s, p);
    PeriodMultiple(y, s, p, off, i);
  }

  /** The letter that the period predicts at `m` does not depend on how far one looks back. */
  lemma Predicted(x: seq<int>, s: nat, m: nat, p: nat, a: nat, b: nat)
    requires m <= |x| && Periodic(x, s, m, p)
    requires IsMultiple(a, p) && IsMultiple(b, p)
    requires 0 < a && 0 < b && s + a <= m && s + b <= m
    ensures x[m - a] == x[m - b]
  {
    if a <= b {
      DifferenceOfMultiples(a, b, p);
      Shifted(x, s, m, p, b - a, m - b);
    } else {
      DifferenceOfMultiples(b, a, p);
      Shifted(x, s, m, p, a - b, m - a);
    }
  }

  /** The win over `u`, inside the first block, repeats in every later block that has been inspected. */
  lemma BeatenLater(x: seq<int>, rev: bool, s: nat, m: nat, p: nat, u: nat, q: nat, d: nat)
    requires m <= |x| && Periodic(x, s, m, p) && s <= u <= q && IsMultiple(q - u, p)
    requires BeatsAt(x, rev, s, u, d)
    requires q + d < m
    ensures BeatsAt(x, rev, s, q, d)
  {
    forall i, j | s <= i < s + d && j - q == i - s ensures x[i] == x[j] {
      assert x[i] == x[i - s + u];
      Shifted(x, s, m, p, q - u, i - s + u);
    }
    Shifted(x, s, m, p, q - u, u + d);
  }

  /** The same, cut short by the end of what has been inspected. */
  lemma AgreeLater(x: seq<int>, rev: bool, s: nat, m: nat, p: nat, u: nat, q: nat, d: nat)
    requires m <= |x| && Periodic(x, s, m, p) && s <= u <= q && IsMultiple(q - u, p)
    requires BeatsAt(x, rev, s, u, d)
    requires q <= m <= q + d
    ensures Agree(x, s, q, m - q)
  {
    forall i, j | s <= i < s + (m - q) && j - q == i - s ensures x[i] == x[j] {
      assert x[i] == x[i - s + u];
      Shifted(x, s, m, p, q - u, i - s + u);
    }
  }

  /** The inspected letter is smaller than predicted: starts a whole number of periods away lose ... */
  lemma ExtendAligned(x: seq<int>, rev: bool, s: nat, c: nat, m: nat, p: nat, off: nat)
    requires m < |x| && Periodic(x, s, m, p) && IsMultiple(c, p) && IsMultiple(off, p)
    requires 0 < c && 0 < off && s + c <= m && s + off <= m && Less(rev, x[m], x[m - c])
    ensures BeatsAt(x, rev, s, s + off, m - (s + off))
  {
    hide Less, IsMultiple, Periodic;
    var q := s + off;
    forall i, j | s <= i < s + (m - q) && j - q == i - s ensures x[i] == x[j] {
      Shifted(x, s, m, p, off, i);
    }
    Predicted(x, s, m, p, c, off);
  }

  /** ... and so do the others. */
  lemma ExtendInside(x: seq<int>, rev: bool, s: nat, c: nat, m: nat, p: nat, u: nat, q: nat, end: nat)
    requires m < |x| && 0 < c && s + c <= m && s < u <= q <= m && end <= m && Less(rev, x[m], x[m - c])
    requires Periodic(x, s, m, p) && IsMultiple(c, p) && IsMultiple(q - u, p) && BeatsBefore(x, rev, s, u, end)
    ensures BeatsBefore(x, rev, s, q, m + 1)
  {
    hide IsMultiple, Periodic;
    var d: nat :| u + d < end && BeatsAt(x, rev, s, u, d);
    if q + d < m {
      BeatenLater(x, rev, s, m, p, u, q, d);
    } else {
      AgreeLater(x, rev, s, m, p, u, q, d);
      Predicted(x, s, m, p, c, q - u);
      var i, j := s + (m - q), u + (m - q);
      assert q + d == m || x[i] == x[j];
      assert x[j] == x[m - (q - u)];
      assert BeatsAt(x, rev, s, q, m - q);
    }
  }

  /** Everything from `s` on is one new block. */
  lemma ExtendSmaller(x: seq<int>, rev: bool, s: nat, c: nat, m: nat, p: nat, q: nat)
    requires Scanned(x, rev, s, c, m, p) && m < |x|
    requires Less(rev, x[m], x[m - c])
    requires s < q <= m
    ensures BeatsBefore(x, rev, s, q, m + 1)
  {
    hide Less, IsMultiple, Periodic, BeatsAt;
    var off, r := SplitOff(q - s, p);
    if r == 0 {
      ExtendAligned(x, rev, s, c, m, p, off);
    } else {
      assert BeatsBefore(x, rev, s, s + r, s + p);
      ExtendInside(x, rev, s, c, m, p, s + r, q, s + p);
    }
  }

  /** The inspected letter is larger than predicted: the compared start beats all aligned ones. */
  lemma TakeOverAligned(x: seq<int>, rev: bool, t: nat, m: nat, p: nat, q: nat)
    requires q < t <= m < |x| && Periodic(x, q, m, p) && IsMultiple(t - q, p)
    requires Less(rev, x[m - (t - q)], x[m])
    ensures Beats(x, rev, t, q)
  {
    forall i, j | t <= i < m && j - q == i - t ensures x[i] == x[j] {
      Shifted(x, q, m, p, t - q, j);
    }
    assert BeatsAt(x, rev, t, q, m - t);
  }

  lemma TakeOverInside(x: seq<int>, rev: bool, t: nat, s: nat, m: nat, p: nat, u: nat, q: nat, end: nat)
    requires m <= |x| && Periodic(x, s, m, p)
    requires Beats(x, rev, t, s)
    requires BeatsBefore(x, rev, s, u, end)
    requires s <= u <= q && IsMultiple(q - u, p) && q - u + end <= m
    ensures Beats(x, rev, t, q)
  {
    var d: nat :| u + d < end && BeatsAt(x, rev, s, u, d);
    BeatenLater(x, rev, s, m, p, u, q, d);
    BeatsTransitive(x, rev, t, s, q);
  }

  /** ... and, by transitivity, all others. */
  lemma TakeOver(x: seq<int>, rev: bool, s: nat, t: nat, m: nat, p: nat, q: nat)
    requires s < t && Scanned(x, rev, s, t - s, m, p) && m < |x|
    requires Less(rev, x[m - (t - s)], x[m])
    requires q < t
    ensures Beats(x, rev, t, q)
  {
    hide Less, IsMultiple, Beats, BeatsBefore;
    TakeOverAligned(x, rev, t, m, p, s);
    if q < s {
      BeatsTransitive(x, rev, t, s, q);
    } else {
      var off, r := SplitOff(q - s, p);
      DifferenceOfMultiples(off, t - s, p);
      if r == 0 {
        Predicted(x, s, m, p, t - s, t - q);
        TakeOverAligned(x, rev, t, m, p, q);
      } else {
        assert BeatsBefore(x, rev, s, s + r, s + p);
        TakeOverInside(x, rev, t, s, m, p, s + r, q, s + p);
      }
    }
  }

  /** Once the whole word is inspected, no later start beats `s`. */
  lemma LaterStartsLose(x: seq<int>, rev: bool, s: nat, c: nat, p: nat, q: nat)
    requires Scanned(x, rev, s, c, |x|, p) && s < q < |x|
    ensures Beats(x, rev, s, q) || PrefixOf(x, q, s)
  {
    var m := |x|;
    var off, r := SplitOff(q - s, p);
    if r == 0 {
      forall i, j | s <= i < s + (m - q) && j - q == i - s ensures x[i] == x[j] {
        Shifted(x, s, m, p, off, i);
      }
    } else {
      var u, end := s + r, s + p;
      assert BeatsBefore(x, rev, s, u, end);
      var d: nat :| u + d < end && BeatsAt(x, rev, s, u, d);
      if q + d < m {
        BeatenLater(x, rev, s, m, p, u, q, d);
      } else {
        AgreeLater(x, rev, s, m, p, u, q, d);
      }
    }
  }

  /** At the end of the word the scan has found the maximal suffix and its smallest period. */
  lemma ScanComplete(x: seq<int>, rev: bool, s: nat, c: nat, p: nat)
    requires Scanned(x, rev, s, c, |x|, p)
    ensures IsMaximalSuffix(x, rev, s) && IsSmallestPeriod(x, s, p)
  {
    forall q: nat | q < |x| && q != s ensures Beats(x, rev, s, q) || PrefixOf(x, q, s) {
      if s < q {
        LaterStartsLose(x, rev, s, c, p, q);
      }
    }
    forall e: nat | 0 < e < p ensures !IsPeriod(x, s, e) {
      var u, end := s + e, s + p;
      assert BeatsBefore(x, rev, s, u, end);
      var d: nat :| u + d < end && BeatsAt(x, rev, s, u, d);
      assert x[s + d] != x[u + d];
    }
  }

  lemma StepEqual(x: seq<int>, rev: bool, s: nat, c: nat, m: nat, p: nat)
    requires Scanned(x, rev, s, c, m, p) && m < |x|
    requires x[m] == x[m - c]
    ensures Periodic(x, s, m + 1, p)
    ensures Scanned(x, rev, s, if m + 1 < s + c + p then c else c + p, m + 1, p)
  {
    Predicted(x, s, m, p, c, p);
  }

  lemma StepSmaller(x: seq<int>, rev: bool, s: nat, c: nat, m: nat, p: nat)
    requires Scanned(x, rev, s, c, m, p) && m < |x|
    requires Less(rev, x[m], x[m - c])
    ensures Scanned(x, rev, s, m + 1 - s, m + 1, m + 1 - s)
  {
    var end := m + 1;
    forall q: nat | s < q < end ensures BeatsBefore(x, rev, s, q, end) {
      ExtendSmaller(x, rev, s, c, m, p, q);
    }
  }

  lemma StepLarger(x: seq<int>, rev: bool, s: nat, c: nat, m: nat, p: nat)
    requires Scanned(x, rev, s, c, m, p) && m < |x|
    requires Less(rev, x[m - c], x[m])
    ensures Scanned(x, rev, s + c, 1, s + c + 1, 1)
  {
    var t := s + c;
    forall q: nat | q < t ensures Beats(x, rev, t, q) {
      TakeOver(x, rev, s, t, m, p, q);
    }
  }

  /**
   The scan itself.  The source keeps `ip` in a `size_t` and starts it at -1; every use of
   it is `ip + k`, `ip + 1` or `jp - ip`, which is the same as with a signed `ip`.
   */
  method FindMaximalSuffix(n: seq<int>, l: nat, rev: bool) returns (ip: int, p: nat)
    requires 0 < l <= |n|
    ensures -1 <= ip && ip + 1 < l
    ensures IsMaximalSuffix(n[..l], rev, ip + 1)
    ensures IsSmallestPeriod(n[..l], ip + 1, p)
  {
    ghost var x := n[..l];
    ghost var s, c, m := 0, 1, 1;
    ip := -1;
    var jp, k := 0, 1;
    p := 1;
    while jp + k < l
      invariant 1 <= k <= p && jp + k <= l
      invariant 0 <= s == ip + 1 && 0 < c == jp - ip && m == jp + k
      invariant Scanned(x, rev, s, c, m, p)
      decreases l - jp, l - k
    {
      if n[ip + k] == n[jp + k] {
        StepEqual(x, rev, s, c, m, p);
        if k == p {
          jp := jp + p;
          k := 1;
        } else {
          k := k + 1;
        }
      } else if Less(rev, n[jp + k], n[ip + k]) {
        StepSmaller(x, rev, s, c, m, p);
        jp := jp + k;
        k := 1;
        p := jp - ip;
      } else {
        StepLarger(x, rev, s, c, m, p);
        ip := jp;
        jp := jp + 1;
        k, p := 1, 1;
      }
      s, c, m := ip + 1, jp - ip, jp + k;
    }
    ScanComplete(x, rev, s, c, p);
  }
}
