/**
 `strstr` of src/libc/libc.cpp:214-394: rolling windows for needles of two, three and
 four bytes and the Two-Way algorithm for longer ones.  All of them find the first
 occurrence, and none reads outside the mapped words that hold the strings.
 */
module StrStr {
  import opened Bytes
  import opened CString
  import opened CriticalFactorization
  import opened MaximalSuffix

  /** The word `x` lies in the string that ends at `e`, starting at address `i`. */
  ghost predicate Occurs(hay: seq<Byte>, e: nat, x: seq<Byte>, i: nat) {
    && i + |x| <= e <= |hay|
    && Matches(hay, x, i, 0, |x|)
  }

  /** Letters `a` up to `b` of `x` are found in the window at `h`. */
  ghost predicate Matches(hay: seq<Byte>, x: seq<Byte>, h: nat, a: nat, b: nat)
    requires b <= |x| && h + b <= |hay|
  {
    forall k, i | a <= k < b && i - h == k :: hay[i] == x[k]
  }

  ghost predicate NoneIn(hay: seq<Byte>, e: nat, x: seq<Byte>, from: nat, to: nat) {
    forall i: nat | from <= i < to :: !Occurs(hay, e, x, i)
  }

  /** The result that section 7.24.5.7 of ISO C11 asks for. */
  ghost predicate IsFirstOccurrence(hay: seq<Byte>, h: nat, e: nat, x: seq<Byte>, r: Option<nat>) {
    match r
    case Some(i) => h <= i && Occurs(hay, e, x, i) && NoneIn(hay, e, x, h, i)
    case None => NoneIn(hay, e, x, h, e + 1)
  }

  // ---------- Why each shift of the window is safe ----------

  /** The last byte of the window is not among the last `k` letters of the needle. */
  lemma SkipByLastByte(hay: seq<Byte>, e: nat, x: seq<Byte>, h: nat, k: nat)
    requires 0 < k <= |x| && h + |x| <= e <= |hay|
    requires forall j | |x| - k <= j < |x| :: x[j] != hay[h + |x| - 1]
    ensures NoneIn(hay, e, x, h, h + k)
  {
    forall i: nat | h <= i < h + k ensures !Occurs(hay, e, x, i) {
      assert x[h + |x| - 1 - i] != hay[h + |x| - 1];
    }
  }

  /** The remembered prefix matches but the last byte does not. */
  lemma SkipWithMemory(hay: seq<Byte>, e: nat, x: seq<Byte>, h: nat, p: nat)
    requires p < |x| && h + |x| <= e <= |hay| && IsPeriod(x, 0, p)
    requires Matches(hay, x, h, 0, |x| - p)
    requires hay[h + |x| - 1] != x[|x| - 1]
    ensures NoneIn(hay, e, x, h, h + (|x| - p))
  {
    var l := |x|;
    forall i: nat | h <= i < h + (l - p) ensures !Occurs(hay, e, x, i) {
      var s := i - h;
      assert x[l - 1] == x[l - 1 - p] == hay[h + l - 1 - p];
      assert x[l - 1 - s] == x[l - 1 - s - p];
    }
  }

  /** An occurrence that overlaps the matched right part repeats it around the cut. */
  lemma OverlapIsRepetition(hay: seq<Byte>, e: nat, x: seq<Byte>, cut: nat, h: nat, k: nat, s: nat)
    requires cut <= k <= |x| && h + |x| <= |hay| && Matches(hay, x, h, cut, k)
    requires Occurs(hay, e, x, h + s) && (cut + s <= k || k == |x|)
    ensures IsRepetition(x, cut, s)
  {
    forall a, b | cut <= a < cut + s && 0 <= b == a - s && a < |x| ensures x[a] == x[b] {
      assert hay[h + a] == x[a];
    }
  }

  /** The right part matches up to letter `k`, where it fails. */
  lemma SkipPastMismatch(hay: seq<Byte>, e: nat, x: seq<Byte>, cut: nat, h: nat, k: nat)
    requires IsCritical(x, cut) && cut <= k < |x| && h + |x| <= e <= |hay|
    requires Matches(hay, x, h, cut, k)
    requires hay[h + k] != x[k]
    ensures NoneIn(hay, e, x, h, h + (k - cut) + 1)
  {
    forall i: nat | h <= i < h + (k - cut) + 1 ensures !Occurs(hay, e, x, i) {
      var s := i - h;
      assert hay[h + k] == x[k - s] ==> x[k - s] != x[k];
      if Occurs(hay, e, x, i) && 0 < s {
        OverlapIsRepetition(hay, e, x, cut, h, k, s);
      }
    }
  }

  /** The right part matches but the whole needle does not. */
  lemma SkipPeriod(hay: seq<Byte>, e: nat, x: seq<Byte>, cut: nat, h: nat, p: nat)
    requires IsCritical(x, cut) && h + |x| <= e <= |hay|
    requires Matches(hay, x, h, cut, |x|) && !Occurs(hay, e, x, h)
    requires forall s: nat | 0 < s && IsPeriod(x, 0, s) :: p <= s
    ensures NoneIn(hay, e, x, h, h + p)
  {
    forall i: nat | h <= i < h + p ensures !Occurs(hay, e, x, i) {
      if Occurs(hay, e, x, i) && h < i {
        OverlapIsRepetition(hay, e, x, cut, h, |x|, i - h);
      }
    }
  }

  /** After a shift by a period the part of the needle that stays in place still matches. */
  lemma RememberPrefix(hay: seq<Byte>, x: seq<Byte>, cut: nat, h: nat, p: nat)
    requires IsCritical(x, cut) && 0 < p <= |x| && IsPeriod(x, 0, p)
    requires h + |x| <= |hay| && Matches(hay, x, h, cut, |x|)
    ensures h + p + (|x| - p) <= |hay| && Matches(hay, x, h + p, 0, |x| - p)
  {
    assert IsRepetition(x, cut, p);
    forall k, i | 0 <= k < |x| - p && i - (h + p) == k ensures hay[i] == x[k] {
      assert x[k] == x[k + p];
    }
  }

  // ---------- The Two-Way search ----------

  /** Which bytes the needle contains, and how far from its start each was last seen. */
  ghost predicate IsShiftTable(x: seq<Byte>, byteset: seq<bool>, shift: seq<nat>) {
    && |byteset| == |shift| == 256
    && forall c: Byte ::
      if byteset[c] then 0 < shift[c] <= |x| && x[shift[c] - 1] == c && Absent(x, c, shift[c]) else Absent(x, c, 0)
  }

  ghost predicate Absent(x: seq<Byte>, c: Byte, from: nat) {
    forall i | from <= i < |x| :: x[i] != c
  }

  /** Needle length and tables; stops early if the haystack is shorter than the needle. */
  method Scan(hay: seq<Byte>, h: nat, ghost e: nat, n: seq<Byte>, ghost nl: nat)
      returns (l: nat, byteset: array<bool>, shift: array<nat>)
    requires Terminated(hay, h, e) && Terminated(n, 0, nl)
    ensures l <= nl && h + l <= e && (l < nl ==> h + l == e)
    ensures byteset.Length == shift.Length == 256 && IsShiftTable(n[..l], byteset[..], shift[..])
  {
    byteset := new bool[256](_ => false);
    shift := new nat[256](_ => 0);
    l := 0;
    while n[l] != 0 && hay[h + l] != 0
      invariant l <= nl && h + l <= e
      invariant IsShiftTable(n[..l], byteset[..], shift[..])
      decreases nl - l
    {
      ghost var x, b, s := n[..l], byteset[..], shift[..];
      byteset[n[l]] := true;
      shift[n[l]] := l + 1;
      l := l + 1;
      assert n[..l] == x + [n[l - 1]];
      assert byteset[..] == b[n[l - 1] := true] && shift[..] == s[n[l - 1] := l];
      forall c: Byte ensures
        if byteset[c] then 0 < shift[c] <= l && n[..l][shift[c] - 1] == c && Absent(n[..l], c, shift[c])
        else Absent(n[..l], c, 0)
      {
        assert Absent(x, c, 0) || (b[c] && Absent(x, c, s[c]));
      }
    }
  }

  /** No period of the needle is shorter than the shift `p`. */
  ghost predicate IsSafeShift(x: seq<Byte>, p: nat) {
    0 < p <= |x| && forall s: nat | 0 < s && IsPeriod(x, 0, s) :: p <= s
  }

  /** What the search needs to know of a needle: the cut `ms + 1`, the shift `p` and the memory `mem0`. */
  ghost predicate IsPrepared(x: seq<Byte>, ms: int, p: nat, mem0: nat) {
    && -1 <= ms && IsCritical(x, ms + 1) && IsSafeShift(x, p)
    && (mem0 > 0 ==> mem0 == |x| - p && IsPeriod(x, 0, p))
  }

  lemma UnborderedShift(x: seq<Byte>, cut: nat, p: nat)
    requires IsCritical(x, cut) && IsSmallestPeriod(x, cut, p) && !IsPeriod(x, 0, p)
    ensures 0 < cut && IsSafeShift(x, if cut > |x| - cut + 1 then cut else |x| - cut + 1)
  {
    assert cut == 0 ==> IsPeriod(x, cut, p);
    forall s: nat | 0 < s && IsPeriod(x, 0, s) ensures cut < s && |x| - cut < s {
      PeriodsOfUnbordered(x, cut, p, s);
    }
  }

  lemma PeriodicShift(x: seq<Byte>, cut: nat, p: nat)
    requires IsSmallestPeriod(x, cut, p) && IsPeriod(x, 0, p)
    ensures IsSafeShift(x, p)
  {
    forall s: nat | 0 < s && IsPeriod(x, 0, s) ensures p <= s {
      assert IsPeriod(x, cut, s);
    }
  }

  /** The later start of the two maximal suffixes, with the period found for it. */
  method ChooseCut(n: seq<Byte>, l: nat) returns (ms: int, p: nat)
    requires 0 < l && Terminated(n, 0, l)
    ensures -1 <= ms && IsCritical(n[..l], ms + 1) && IsSmallestPeriod(n[..l], ms + 1, p)
  {
    ghost var x := n[..l];
    var p0, ip;
    ms, p0 := FindMaximalSuffix(n, l, false);
    ip, p := FindMaximalSuffix(n, l, true);
    if ip + 1 > ms + 1 {
      ShorterMaximalSuffixIsCritical(x, true, ip + 1, ms + 1);
      ms := ip;
    } else {
      ShorterMaximalSuffixIsCritical(x, false, ms + 1, ip + 1);
      p := p0;
    }
  }

  lemma LeftPartDecides(n: seq<Byte>, l: nat, cut: nat, p: nat)
    requires Terminated(n, 0, l) && 0 < p && cut + p <= l && IsPeriod(n[..l], cut, p)
    ensures IsPeriod(n[..l], 0, p) <==> SameBytes(n, 0, p, cut)
  {
    ghost var x := n[..l];
    if SameBytes(n, 0, p, cut) {
      forall i, j | 0 <= i && i + p == j < l ensures x[i] == x[j] {
        assert i < cut ==> n[i] == n[j];
      }
    } else {
      var i, j :| 0 <= i < cut && j - p == i && n[i] != n[j];
      assert x[i] != x[j];
    }
  }

  /** The search parameters: the test whether the right part's period is the needle's own decides the mode. */
  method Factorize(n: seq<Byte>, l: nat) returns (ms: int, p: nat, mem0: nat)
    requires 0 < l && Terminated(n, 0, l)
    ensures IsPrepared(n[..l], ms, p, mem0)
  {
    hide SameBytes, FirstDifference, IsPeriod, IsCritical, IsSafeShift, Terminated;
    ms, p := ChooseCut(n, l);
    CutInside(n, l, ms + 1, p);
    var diff := MemCmp(n, 0, p, ms + 1);
    LeftPartDecides(n, l, ms + 1, p);
    if diff != 0 {
      ghost var k: nat :| k < ms + 1 && FirstDifference(n, 0, p, k);
      DifferenceShows(n, 0, p, k, ms + 1);
      UnborderedShift(n[..l], ms + 1, p);
      mem0 := 0;
      p := (if ms > l - ms - 1 then ms else l - ms - 1) + 1;
    } else {
      PeriodicShift(n[..l], ms + 1, p);
      mem0 := l - p;
    }
  }

  lemma CutInside(n: seq<Byte>, l: nat, cut: nat, p: nat)
    requires Terminated(n, 0, l) && IsCritical(n[..l], cut) && IsSmallestPeriod(n[..l], cut, p)
    ensures l < |n| && 0 < p && cut + p <= l && IsPeriod(n[..l], cut, p)
  {
  }

  /** Compares the window at `h` with the needle, right part first; `h + step` is the next window. */
  method Compare(hay: seq<Byte>, h: nat, ghost e: nat, n: seq<Byte>, l: nat, ms: int, p: nat, mem0: nat, mem: nat)
      returns (found: bool, step: nat, mem': nat)
    requires Terminated(n, 0, l) && IsPrepared(n[..l], ms, p, mem0)
    requires h + l <= e <= |hay| && mem <= l && Matches(hay, n[..l], h, 0, mem)
    ensures found ==> Occurs(hay, e, n[..l], h)
    ensures !found ==> 0 < step <= l && NoneIn(hay, e, n[..l], h, h + step)
    ensures !found && mem' > 0 ==> mem' == mem0 && h + step + mem' <= e && Matches(hay, n[..l], h + step, 0, mem')
  {
    ghost var x, cut := n[..l], ms + 1;
    var k := if ms + 1 > mem then ms + 1 else mem;
    while n[k] != 0 && n[k] == hay[h + k]
      invariant cut <= k <= l && mem <= k
      invariant Matches(hay, x, h, cut, k)
      decreases l - k
    {
      k := k + 1;
    }
    if n[k] != 0 {
      SkipPastMismatch(hay, e, x, cut, h, k);
      return false, k - ms, 0;
    }
    k := ms + 1;
    while k > mem && n[k - 1] == hay[h + k - 1]
      invariant 0 <= k <= cut
      invariant Matches(hay, x, h, k, l)
      decreases k
    {
      k := k - 1;
    }
    if k <= mem {
      return true, 0, 0;
    }
    SkipPeriod(hay, e, x, cut, h, p);
    if mem0 > 0 {
      RememberPrefix(hay, x, cut, h, p);
    }
    return false, p, mem0;
  }

  /** Looks at the last byte of the window first; a positive `step` skips the comparison. */
  method SkipByTable(hay: seq<Byte>, h: nat, ghost e: nat, ghost x: seq<Byte>, l: nat, byteset: array<bool>,
      shift: array<nat>, ghost ms: int, p: nat, mem0: nat, mem: nat)
      returns (step: nat)
    requires l == |x| && IsPrepared(x, ms, p, mem0)
    requires byteset.Length == shift.Length == 256 && IsShiftTable(x, byteset[..], shift[..])
    requires h + l <= e <= |hay| && (mem == 0 || mem == mem0) && Matches(hay, x, h, 0, mem)
    ensures step <= l && NoneIn(hay, e, x, h, h + step)
  {
    var last := hay[h + l - 1];
    assert byteset[last] == byteset[..][last] && shift[last] == shift[..][last];
    if byteset[last] {
      step := l - shift[last];
      if step > 0 {
        SkipByLastByte(hay, e, x, h, step);
        if mem0 > 0 && mem > 0 && step < p {
          SkipWithMemory(hay, e, x, h, p);
          step := l - p;
        }
      }
    } else {
      SkipByLastByte(hay, e, x, h, l);
      step := l;
    }
  }

  /** The Two-Way search for needles of any length. */
  method TwoWay(hay: seq<Byte>, h0: nat, ghost e: nat, n: seq<Byte>, ghost nl: nat) returns (r: Option<nat>)
    requires WholeWords(hay) && Terminated(hay, h0, e)
    requires 0 < nl && Terminated(n, 0, nl)
    ensures IsFirstOccurrence(hay, h0, e, n[..nl], r)
  {
    var h := h0;
    var l, byteset, shift := Scan(hay, h, e, n, nl);
    if n[l] != 0 {
      return None;
    }
    ghost var x := n[..l];
    var ms, p, mem0 := Factorize(n, l);
    var mem := 0;
    var z := h;
    while true
      invariant h0 <= h <= z <= e
      invariant NoneIn(hay, e, x, h0, h)
      invariant mem == 0 || mem == mem0
      invariant mem > 0 ==> h + mem <= e && Matches(hay, x, h, 0, mem)
      invariant IsShiftTable(x, byteset[..], shift[..])
      decreases e - h
    {
      if z - h < l {
        // l | 63
        var grow := l / 64 * 64 + 63;
        var z2 := MemChr(hay, z, 0, grow);
        if z2.Some? {
          z := z2.value;
          if z - h < l {
            return None;
          }
        } else {
          z := z + grow;
        }
      }
      var step := SkipByTable(hay, h, e, x, l, byteset, shift, ms, p, mem0, mem);
      if step > 0 {
        h := h + step;
        mem := 0;
      } else {
        var found;
        found, step, mem := Compare(hay, h, e, n, l, ms, p, mem0, mem);
        if found {
          return Some(h);
        }
        h := h + step;
      }
    }
  }

  // ---------- Short needles: the last bytes read, kept in one word ----------

  function Word2(a: Byte, b: Byte): int {
    a as int * 0x100 + b
  }

  function Word3(a: Byte, b: Byte, c: Byte): int {
    a as int * 0x100_0000 + b as int * 0x1_0000 + c as int * 0x100
  }

  function Word4(a: Byte, b: Byte, c: Byte, d: Byte): int {
    a as int * 0x100_0000 + b as int * 0x1_0000 + c as int * 0x100 + d
  }

  /** A byte shifted out of the word is lost. */
  lemma ShiftedOut(q: nat, r: nat)
    ensures r < 0x1_0000 ==> (q * 0x1_0000 + r) % 0x1_0000 == r
    ensures r < 0x1_0000_0000 ==> (q * 0x1_0000_0000 + r) % 0x1_0000_0000 == r
  {
  }

  /** `hw << 8 | x` in a `uint16_t`. */
  lemma Roll2(a: Byte, b: Byte, x: Byte)
    ensures (Word2(a, b) * 0x100 + x) % 0x1_0000 == Word2(b, x)
  {
    ShiftedOut(a, Word2(b, x));
  }

  /** `(hw | x) << 8` in a `uint32_t` whose low byte is zero. */
  lemma Roll3(a: Byte, b: Byte, c: Byte, x: Byte)
    ensures (Word3(a, b, c) + x) * 0x100 % 0x1_0000_0000 == Word3(b, c, x)
  {
    ShiftedOut(a, Word3(b, c, x));
  }

  /** `hw << 8 | x` in a `uint32_t`. */
  lemma Roll4(a: Byte, b: Byte, c: Byte, d: Byte, x: Byte)
    ensures (Word4(a, b, c, d) * 0x100 + x) % 0x1_0000_0000 == Word4(b, c, d, x)
  {
    ShiftedOut(a, Word4(b, c, d, x));
  }

  lemma SamePair(q: int, r: int, q': int, r': int)
    requires 0 <= r < 0x1_0000 && 0 <= r' < 0x1_0000
    ensures q * 0x1_0000 + r == q' * 0x1_0000 + r' <==> q == q' && r == r'
  {
  }

  lemma SameWord2(a: Byte, b: Byte, a': Byte, b': Byte)
    ensures Word2(a, b) == Word2(a', b') <==> a == a' && b == b'
  {
  }

  lemma SameWord4(a: Byte, b: Byte, c: Byte, d: Byte, a': Byte, b': Byte, c': Byte, d': Byte)
    ensures Word4(a, b, c, d) == Word4(a', b', c', d') <==> a == a' && b == b' && c == c' && d == d'
    ensures Word3(a, b, c) == Word3(a', b', c') <==> a == a' && b == b' && c == c'
    ensures Word2(a, b) == Word2(a', b') <==> a == a' && b == b'
  {
    hide Word2, Word3, Word4;
    WordOfPairs(a, b, c, d);
    WordOfPairs(a', b', c', d');
    SamePair(Word2(a, b), Word2(c, d), Word2(a', b'), Word2(c', d'));
    SamePair(Word2(a, b), Word2(c, 0), Word2(a', b'), Word2(c', 0));
    SameWord2(a, b, a', b');
    SameWord2(c, d, c', d');
    SameWord2(c, 0, c', 0);
  }

  lemma WordOfPairs(a: Byte, b: Byte, c: Byte, d: Byte)
    ensures Word4(a, b, c, d) == Word2(a, b) * 0x1_0000 + Word2(c, d) && 0 <= Word2(c, d) < 0x1_0000
    ensures Word3(a, b, c) == Word2(a, b) * 0x1_0000 + Word2(c, 0) && 0 <= Word2(c, 0) < 0x1_0000
  {
  }

  lemma OccursHere(hay: seq<Byte>, e: nat, x: seq<Byte>, i: nat)
    requires 2 <= |x| <= 4 && i + |x| <= e <= |hay|
    ensures Occurs(hay, e, x, i) <==>
      && hay[i] == x[0] && hay[i + 1] == x[1]
      && (|x| > 2 ==> hay[i + 2] == x[2]) && (|x| > 3 ==> hay[i + 3] == x[3])
  {
  }

  method StrStr2(hay: seq<Byte>, h: nat, ghost e: nat, n: seq<Byte>) returns (r: Option<nat>)
    requires Terminated(hay, h, e) && h + 1 <= e && Terminated(n, 0, 2)
    ensures IsFirstOccurrence(hay, h, e, n[..2], r)
  {
    var nw := Word2(n[0], n[1]);
    var hw := Word2(hay[h], hay[h + 1]);
    var i := h + 1;
    SameWord4(n[0], n[1], 0, 0, hay[i - 1], hay[i], 0, 0);
    while hay[i] != 0 && hw != nw
      invariant h + 1 <= i <= e
      invariant hw == Word2(hay[i - 1], hay[i])
      invariant hw == nw <==> n[0] == hay[i - 1] && n[1] == hay[i]
      invariant NoneIn(hay, e, n[..2], h, i - 1)
      decreases e - i
    {
      OccursHere(hay, e, n[..2], i - 1);
      Roll2(hay[i - 1], hay[i], hay[i + 1]);
      i := i + 1;
      hw := (hw * 0x100 + hay[i]) % 0x1_0000;
      SameWord4(n[0], n[1], 0, 0, hay[i - 1], hay[i], 0, 0);
    }
    r := if hay[i] != 0 then Some(i - 1) else None;
  }

  method StrStr3(hay: seq<Byte>, h: nat, ghost e: nat, n: seq<Byte>) returns (r: Option<nat>)
    requires Terminated(hay, h, e) && h + 2 <= e && Terminated(n, 0, 3)
    ensures IsFirstOccurrence(hay, h, e, n[..3], r)
  {
    var nw := Word3(n[0], n[1], n[2]);
    var hw := Word3(hay[h], hay[h + 1], hay[h + 2]);
    var i := h + 2;
    SameWord4(n[0], n[1], n[2], 0, hay[i - 2], hay[i - 1], hay[i], 0);
    while hay[i] != 0 && hw != nw
      invariant h + 2 <= i <= e
      invariant hw == Word3(hay[i - 2], hay[i - 1], hay[i])
      invariant hw == nw <==> n[0] == hay[i - 2] && n[1] == hay[i - 1] && n[2] == hay[i]
      invariant NoneIn(hay, e, n[..3], h, i - 2)
      decreases e - i
    {
      OccursHere(hay, e, n[..3], i - 2);
      Roll3(hay[i - 2], hay[i - 1], hay[i], hay[i + 1]);
      i := i + 1;
      hw := (hw + hay[i]) * 0x100 % 0x1_0000_0000;
      SameWord4(n[0], n[1], n[2], 0, hay[i - 2], hay[i - 1], hay[i], 0);
    }
    r := if hay[i] != 0 then Some(i - 2) else None;
  }

  method StrStr4(hay: seq<Byte>, h: nat, ghost e: nat, n: seq<Byte>) returns (r: Option<nat>)
    requires Terminated(hay, h, e) && h + 3 <= e && Terminated(n, 0, 4)
    ensures IsFirstOccurrence(hay, h, e, n[..4], r)
  {
    var nw := Word4(n[0], n[1], n[2], n[3]);
    var hw := Word4(hay[h], hay[h + 1], hay[h + 2], hay[h + 3]);
    var i := h + 3;
    SameWord4(n[0], n[1], n[2], n[3], hay[i - 3], hay[i - 2], hay[i - 1], hay[i]);
    while hay[i] != 0 && hw != nw
      invariant h + 3 <= i <= e
      invariant hw == Word4(hay[i - 3], hay[i - 2], hay[i - 1], hay[i])
      invariant hw == nw <==> n[0] == hay[i - 3] && n[1] == hay[i - 2] && n[2] == hay[i - 1] && n[3] == hay[i]
      invariant NoneIn(hay, e, n[..4], h, i - 3)
      decreases e - i
    {
      OccursHere(hay, e, n[..4], i - 3);
      Roll4(hay[i - 3], hay[i - 2], hay[i - 1], hay[i], hay[i + 1]);
      i := i + 1;
      hw := (hw * 0x100 + hay[i]) % 0x1_0000_0000;
      SameWord4(n[0], n[1], n[2], n[3], hay[i - 3], hay[i - 2], hay[i - 1], hay[i]);
    }
    r := if hay[i] != 0 then Some(i - 3) else None;
  }

  /** `strstr`: the first occurrence of the needle, for every haystack and every needle. */
  method StrStr(hay: seq<Byte>, h0: nat, ghost e: nat, n: seq<Byte>, ghost nl: nat) returns (r: Option<nat>)
    requires WholeWords(hay) && Terminated(hay, h0, e) && Terminated(n, 0, nl)
    ensures IsFirstOccurrence(hay, h0, e, n[..nl], r)
  {
    if n[0] == 0 {
      return Some(h0);
    }
    var first := StrChr(hay, h0, n[0], e);
    assert NoneIn(hay, e, n[..nl], h0, if first.Some? then first.value else e + 1) by {
      forall i: nat | h0 <= i < (if first.Some? then first.value else e + 1)
        ensures !Occurs(hay, e, n[..nl], i)
      {
        assert n[..nl][0] == n[0] != hay[i] || i == e;
      }
    }
    if first.None? {
      return None;
    }
    var h := first.value;
    if n[1] == 0 {
      return Some(h);
    }
    if hay[h + 1] == 0 {
      return None;
    }
    if n[2] == 0 {
      r := StrStr2(hay, h, e, n);
      return;
    }
    if hay[h + 2] == 0 {
      return None;
    }
    if n[3] == 0 {
      r := StrStr3(hay, h, e, n);
      return;
    }
    if hay[h + 3] == 0 {
      return None;
    }
    if n[4] == 0 {
      r := StrStr4(hay, h, e, n);
      return;
    }
    r := TwoWay(hay, h, e, n, nl);
  }

  /** The result is fully determined: any two answers that satisfy the contract of `StrStr` are the same. */
  lemma FirstOccurrenceUnique(hay: seq<Byte>, h: nat, e: nat, x: seq<Byte>, r1: Option<nat>, r2: Option<nat>)
    requires IsFirstOccurrence(hay, h, e, x, r1) && IsFirstOccurrence(hay, h, e, x, r2)
    ensures r1 == r2
  {
  }
}
