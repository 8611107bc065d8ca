/**
 Decimal text (src/libc/kprintf.cpp:4-29 and src/libc/libc.cpp:396-433): printing unsigned
 32-bit numbers and reading numbers back.
 */
module Decimal {
  import opened Bytes

  const UINT32_MAX: int := 0xFFFF_FFFF
  const INT_MAX: int := 0x7FFF_FFFF
  const ZERO: int := 48

  predicate IsDigit(c: int) {
    ZERO <= c < ZERO + 10
  }

  function Pow10(n: nat): (p: int)
    ensures p > 0
  {
    if n == 0 then 1 else 10 * Pow10(n - 1)
  }

  /** The number a text of digits denotes. */
  function Denotes(s: seq<Byte>): int {
    if s == [] then 0 else (s[0] as int - ZERO) * Pow10(|s| - 1) + Denotes(s[1..])
  }

  ghost predicate AllDigits(s: seq<Byte>) {
    forall k | 0 <= k < |s| :: IsDigit(s[k])
  }

  lemma {:induction false} LeadingZeros(k: nat, s: seq<Byte>)
    ensures Denotes(seq(k, _ => 48) + s) == Denotes(s)
  {
    var z: seq<Byte> := seq(k, _ => 48);
    if k == 0 {
      assert z + s == s;
    } else {
      assert (z + s)[1..] == seq(k - 1, _ => 48) + s;
      LeadingZeros(k - 1, s);
    }
  }

  lemma {:induction false} DenotesLast(s: seq<Byte>, c: Byte)
    ensures Denotes(s + [c]) == 10 * Denotes(s) + (c as int - ZERO)
  {
    if s == [] {
      assert s + [c] == [c];
      assert Denotes([c][1..]) == 0;
    } else {
      assert (s + [c])[1..] == s[1..] + [c];
      DenotesLast(s[1..], c);
      assert Pow10(|s|) == 10 * Pow10(|s| - 1);
      Tenfold(s[0] as int - ZERO, Pow10(|s| - 1));
    }
  }

  lemma Tenfold(a: int, p: int)
    ensures a * (10 * p) == 10 * (a * p)
  {
  }

  lemma {:induction false} DenotesBound(s: seq<Byte>)
    requires AllDigits(s)
    ensures 0 <= Denotes(s) < Pow10(|s|)
  {
    if s != [] {
      assert AllDigits(s[1..]);
      DenotesBound(s[1..]);
      DigitTimes(s[0] as int - ZERO, Pow10(|s| - 1));
    }
  }

  lemma DigitTimes(d: int, p: int)
    requires 0 <= d <= 9 && 0 < p
    ensures 0 <= d * p <= 9 * p
  {
  }

  // ---------- The width loop ----------

  /** `9`, `99`, `999`, ... in 32-bit arithmetic. */
  function Nines(n: nat): int
    requires n > 0
  {
    if n == 1 then 9 else (10 * Nines(n - 1) + 9) % (UINT32_MAX + 1)
  }

  lemma NextNines(n: nat, v: int, overflow: int)
    requires n > 0 && Nines(n) == v && overflow * (UINT32_MAX + 1) <= 10 * v + 9 < (overflow + 1) * (UINT32_MAX + 1)
    ensures Nines(n + 1) == 10 * v + 9 - overflow * (UINT32_MAX + 1)
  {
    assert (10 * v + 9) / (UINT32_MAX + 1) == overflow;
  }

  /**
   From ten digits on the values have wrapped around; at thirty-two all bits are set, since 10^32
   is a multiple of 2^32.
   */
  lemma NinesTable()
    ensures Nines(1) == 9 && Nines(2) == 99 && Nines(3) == 999 && Nines(4) == 9999 && Nines(5) == 99999
    ensures Nines(6) == 999999 && Nines(7) == 9999999 && Nines(8) == 99999999 && Nines(9) == 999999999 &&
      Nines(10) == 1410065407
    ensures Nines(32) == UINT32_MAX
  {
    assert Nines(1) == 9;
    hide Nines;
    NextNines(1, 9, 0);
    NextNines(2, 99, 0);
    NextNines(3, 999, 0);
    NextNines(4, 9999, 0);
    NextNines(5, 99999, 0);
    NextNines(6, 999999, 0);
    NextNines(7, 9999999, 0);
    NextNines(8, 99999999, 0);
    NextNines(9, 999999999, 2);
    NextNines(10, 1410065407, 3);
    NextNines(11, 1215752191, 2);
    NextNines(12, 3567587327, 8);
    NextNines(13, 1316134911, 3);
    NextNines(14, 276447231, 0);
    NextNines(15, 2764472319, 6);
    NextNines(16, 1874919423, 4);
    NextNines(17, 1569325055, 3);
    NextNines(18, 2808348671, 6);
    NextNines(19, 2313682943, 5);
    NextNines(20, 1661992959, 3);
    NextNines(21, 3735027711, 8);
    NextNines(22, 2990538751, 6);
    NextNines(23, 4135583743, 9);
    NextNines(24, 2701131775, 6);
    NextNines(25, 1241513983, 2);
    NextNines(26, 3825205247, 8);
    NextNines(27, 3892314111, 9);
    NextNines(28, 268435455, 0);
    NextNines(29, 2684354559, 6);
    NextNines(30, 1073741823, 2);
    NextNines(31, 2147483647, 4);
  }

  /** The width of the widest value that the loop stops at with `n`. */
  ghost predicate StopsAt(value: int, n: nat) {
    && 0 < n <= 32 && (value <= Nines(n) || Nines(n) == UINT32_MAX)
    && forall m | 0 < m < n :: Nines(m) < value
  }

  lemma NinesBelowTen(n: nat)
    requires 0 < n < 10
    ensures Nines(n) == Pow10(n) - 1 < 1000000000
  {
    NinesTable();
    SmallPowers();
    hide Nines, Pow10;
    if n < 5 {
      assert n == 1 || n == 2 || n == 3 || n == 4;
    } else {
      assert n == 5 || n == 6 || n == 7 || n == 8 || n == 9;
    }
  }

  /** The width never is too small, and too large exactly for values above 1410065407. */
  lemma WidthIsEnough(value: int, n: nat)
    requires 0 <= value <= UINT32_MAX && StopsAt(value, n)
    ensures value < Pow10(n)
    ensures (n > 1 ==> Pow10(n - 1) <= value) <==> value <= 1410065407
  {
    NinesTable();
    SmallPowers();
    hide Nines, Pow10;
    if n >= 10 {
      PowGrows(10, n);
      assert Nines(9) < value;
      if n > 10 {
        PowGrows(10, n - 1);
        assert Nines(10) < value;
      }
    } else {
      NinesBelowTen(n);
      if n > 1 {
        NinesBelowTen(n - 1);
        assert Nines(n - 1) < value;
      }
    }
  }

  lemma SmallPowers()
    ensures Pow10(1) == 10 && Pow10(2) == 100 && Pow10(3) == 1000 && Pow10(4) == 10000 && Pow10(5) == 100000
    ensures Pow10(6) == 1000000 && Pow10(7) == 10000000 && Pow10(8) == 100000000 && Pow10(9) == 1000000000 &&
      Pow10(10) == 10000000000
  {
    assert Pow10(2) == 100;
    assert Pow10(4) == 10000;
    assert Pow10(6) == 1000000;
    assert Pow10(8) == 100000000;
  }

  lemma {:induction false} PowGrows(a: nat, b: nat)
    requires a <= b
    ensures Pow10(a) <= Pow10(b)
  {
    if a < b {
      PowGrows(a, b - 1);
    }
  }

  lemma FirstNine()
    ensures Nines(1) == 9
  {
  }

  lemma WrapTwice(a: nat, b: nat)
    ensures (a % (UINT32_MAX + 1) + b) % (UINT32_MAX + 1) == (a + b) % (UINT32_MAX + 1)
  {
    var q, r := a / (UINT32_MAX + 1), a % (UINT32_MAX + 1);
    var p, t := (r + b) / (UINT32_MAX + 1), (r + b) % (UINT32_MAX + 1);
    assert a + b == (q + p) * (UINT32_MAX + 1) + t;
  }

  /** The two steps of the loop wrap around separately. */
  lemma NextNine(n: nat, i: int)
    requires n > 0 && Nines(n) == i && 0 <= i
    ensures Nines(n + 1) == ((i * 10) % (UINT32_MAX + 1) + 9) % (UINT32_MAX + 1)
  {
    WrapTwice(10 * i, 9);
  }

  lemma LastNines(n: nat)
    requires 0 < n <= 32 && Nines(n) < UINT32_MAX
    ensures n < 32
  {
    NinesTable();
  }

  /** The first loop of `print_dec`; it ends within 31 rounds. */
  method Width(value: int) returns (n: nat)
    requires 0 <= value <= UINT32_MAX
    ensures StopsAt(value, n)
  {
    n := 1;
    hide Nines;
    var i := 9;
    FirstNine();
    while value > i && i < UINT32_MAX
      invariant 0 < n <= 32 && i == Nines(n) && 0 <= i
      invariant forall m | 0 < m < n :: Nines(m) < value
      decreases 32 - n
    {
      LastNines(n);
      NextNine(n, i);
      n := n + 1;
      i := (i * 10) % (UINT32_MAX + 1);
      i := (i + 9) % (UINT32_MAX + 1);
    }
  }

  /**
   `print_dec`: zeros up to `width`, then the digits; everything else in the buffer stays.
   */
  method PrintDec(value0: int, width: nat, buf: array<Byte>, ptr0: nat) returns (ptr: nat)
    requires 0 <= value0 <= UINT32_MAX && ptr0 + (if width < 32 then 32 else width) <= buf.Length
    modifies buf
    ensures ptr0 < ptr <= buf.Length && width <= ptr - ptr0 <= if width < 32 then 32 else width
    ensures AllDigits(buf[ptr0..ptr]) && Denotes(buf[ptr0..ptr]) == value0
    ensures forall k | ptr0 <= k < ptr :: 48 <= buf[k] <= 57
    ensures buf[ptr0] == 48 <==> value0 == 0 || value0 > 1410065407 || (width > 0 && value0 < Pow10(width - 1))
    ensures ptr - ptr0 > width && ptr - ptr0 > 1 ==> (buf[ptr0] == 48 <==> value0 > 1410065407)
    ensures forall k | 0 <= k < buf.Length && !(ptr0 <= k < ptr) :: buf[k] == old(buf[k])
  {
    hide StopsAt, Nines, Denotes, Pow10;
    var n := Width(value0);
    WidthIsEnough(value0, n);
    StopsFirst(value0, n);
    var printed := Pad(n, width, buf, ptr0);
    ptr := ptr0 + printed;
    WriteDigits(value0, n, buf, ptr);
    assert buf[ptr0..ptr + n] == buf[ptr0..ptr] + buf[ptr..ptr + n];
    Padded(buf[ptr0..ptr], buf[ptr..ptr + n]);
    ptr := ptr + n;
    LeadingDigit(buf[ptr0..ptr]);
    FirstIsZero(value0, n, width);
    forall k | ptr0 <= k < ptr ensures 48 <= buf[k] <= 57 {
      assert buf[ptr0..ptr][k - ptr0] == buf[k];
    }
  }

  /** The second loop of `print_dec`. */
  method Pad(n: nat, width: nat, buf: array<Byte>, ptr0: nat) returns (printed: nat)
    requires ptr0 + (if n < width then width - n else 0) <= buf.Length
    modifies buf
    ensures printed == if n < width then width - n else 0
    ensures forall k | ptr0 <= k < ptr0 + printed :: buf[k] == 48
    ensures forall k | 0 <= k < buf.Length && !(ptr0 <= k < ptr0 + printed) :: buf[k] == old(buf[k])
  {
    var ptr := ptr0;
    printed := 0;
    while n + printed < width
      invariant ptr == ptr0 + printed && (printed == 0 || n + printed <= width)
      invariant forall k | ptr0 <= k < ptr :: buf[k] == 48
      invariant forall k | 0 <= k < buf.Length && !(ptr0 <= k < ptr) :: buf[k] == old(buf[k])
    {
      buf[ptr] := 48;
      ptr := ptr + 1;
      printed := printed + 1;
    }
  }

  lemma Padded(zeros: seq<Byte>, s: seq<Byte>)
    requires AllDigits(s) && forall k | 0 <= k < |zeros| :: zeros[k] == 48
    ensures AllDigits(zeros + s) && Denotes(zeros + s) == Denotes(s)
  {
    LeadingZeros(|zeros|, s);
    assert zeros == seq(|zeros|, _ => 48);
  }

  /** When the first digit of a text of at least `width` digits is a zero. */
  lemma FirstIsZero(value: int, n: nat, width: nat)
    requires 0 <= value <= UINT32_MAX && StopsAt(value, n)
    ensures value < Pow10((if n < width then width else n) - 1) <==>
      value == 0 || value > 1410065407 || (width > 0 && value < Pow10(width - 1))
  {
    hide StopsAt;
    WidthIsEnough(value, n);
    StopsFirst(value, n);
    if n < width {
      PowGrows(n, width - 1);
    } else if width > 0 {
      PowGrows(width - 1, n - 1);
    }
  }

  lemma StopsFirst(value: int, n: nat)
    requires 0 <= value && StopsAt(value, n)
    ensures 0 < n <= 32 && (value == 0 ==> n == 1)
  {
    NinesTable();
  }

  /** The last loop of `print_dec`: `n` digits, from the last to the first. */
  method WriteDigits(value0: int, n: nat, buf: array<Byte>, ptr: nat)
    requires 0 <= value0 < Pow10(n) && n > 0 && ptr + n <= buf.Length
    modifies buf
    ensures AllDigits(buf[ptr..ptr + n]) && Denotes(buf[ptr..ptr + n]) == value0
    ensures forall k | 0 <= k < buf.Length && !(ptr <= k < ptr + n) :: buf[k] == old(buf[k])
    ensures Pow10(n - 1) <= value0 <==> buf[ptr] != 48
  {
    var value, i: nat := value0, n;
    while i > 0
      invariant 0 <= i <= n && 0 <= value < Pow10(i)
      invariant forall k | ptr + i <= k < ptr + n :: IsDigit(buf[k])
      invariant forall k | 0 <= k < buf.Length && !(ptr + i <= k < ptr + n) :: buf[k] == old(buf[k])
      invariant value0 == value * Pow10(n - i) + Denotes(buf[ptr + i..ptr + n])
    {
      var next, r := value / 10, value % 10;
      ghost var rest := buf[ptr + i..ptr + n];
      buf[ptr + i - 1] := r + ZERO;
      assert buf[ptr + i..ptr + n] == rest;
      assert buf[ptr + i - 1..ptr + n] == [buf[ptr + i - 1]] + rest;
      DigitMoves(next, r, Pow10(n - i));
      i := i - 1;
      value := next;
    }
    LeadingDigit(buf[ptr..ptr + n]);
  }

  lemma DigitMoves(next: int, r: int, p: int)
    ensures (10 * next + r) * p == next * (10 * p) + r * p
  {
  }

  /** A text starts with a zero exactly if it denotes less than a tenth of what its length allows. */
  lemma LeadingDigit(s: seq<Byte>)
    requires s != [] && AllDigits(s)
    ensures Pow10(|s| - 1) <= Denotes(s) <==> s[0] != 48
  {
    assert AllDigits(s[1..]);
    DenotesBound(s[1..]);
    if s[0] != 48 {
      AtLeast(s[0] as int - ZERO, Pow10(|s| - 1));
    }
  }

  lemma AtLeast(d: int, p: int)
    requires 1 <= d && 0 < p
    ensures p <= d * p
  {
    assert 0 <= (d - 1) * p;
  }

  // ---------- Reading ----------

  predicate IsSpace(c: int) {
    c == 32 || 9 <= c < 14
  }

  /** Which bytes `atoi` skips, and which it reads: tab to carriage return and blank, and `0` to `9`. */
  lemma Characters(c: Byte)
    ensures IsSpace(c) <==> c in {9, 10, 11, 12, 13, 32}
    ensures IsDigit(c) <==> c in {48, 49, 50, 51, 52, 53, 54, 55, 56, 57}
    ensures Denotes([c]) == c as int - 48
  {
    assert [c][1..] == [];
  }

  /** The first position from `i` on that does not satisfy the test of a scanning loop. */
  ghost predicate ScansTo(s: seq<Byte>, i: nat, j: nat, space: bool) {
    && i <= j < |s| && (forall k | i <= k < j :: if space then IsSpace(s[k]) else IsDigit(s[k]))
    && !(if space then IsSpace(s[j]) else IsDigit(s[j]))
  }

  /** The sign and the digits of a number in a text. */
  ghost predicate NumberAt(s: seq<Byte>, start: nat, negative: bool, from: nat, stop: nat) {
    exists i: nat :: ScansTo(s, start, i, true) && negative == (s[i] == 45)
      && from == (if s[i] == 45 || s[i] == 43 then i + 1 else i) && ScansTo(s, from, stop, false)
  }

  /** `atoi`, as long as the number fits into an int. */
  method Atoi(s: seq<Byte>, start: nat, ghost negative: bool, ghost from: nat, ghost stop: nat) returns (r: int)
    requires NumberAt(s, start, negative, from, stop)
    requires Denotes(s[from..stop]) <= INT_MAX || (negative && Denotes(s[from..stop]) <= INT_MAX + 1)
    ensures r == if negative then -Denotes(s[from..stop]) else Denotes(s[from..stop])
  {
    ghost var blank: nat :| ScansTo(s, start, blank, true) && negative == (s[blank] == 45)
      && from == (if s[blank] == 45 || s[blank] == 43 then blank + 1 else blank) && ScansTo(s, from, stop, false);
    var n, neg, p := 0, false, start;
    while IsSpace(s[p])
      invariant start <= p <= blank
      decreases blank - p
    {
      p := p + 1;
    }
    if s[p] == 45 {
      neg := true;
      p := p + 1;
    } else if s[p] == 43 {
      p := p + 1;
    }
    assert !IsDigit(s[stop]);
    while IsDigit(s[p])
      invariant !IsDigit(s[stop])
      invariant from <= p <= stop < |s| && n == -Denotes(s[from..p])
      decreases stop - p
    {
      DenotesLast(s[from..p], s[p]);
      assert s[from..p + 1] == s[from..p] + [s[p]];
      n := 10 * n - (s[p] as int - ZERO);
      p := p + 1;
    }
    return if neg then n else -n;
  }

  /** What `print_dec` has printed is a number for `atoi`: no sign, and just these digits. */
  lemma PrintedIsNumber(s: seq<Byte>, from: nat, stop: nat)
    requires from < stop < |s| && AllDigits(s[from..stop]) && s[stop] == 0
    ensures NumberAt(s, from, false, from, stop)
  {
    forall k | from <= k < stop ensures IsDigit(s[k]) {
      assert s[k] == s[from..stop][k - from];
    }
    assert ScansTo(s, from, from, true);
  }

  /** Printing and reading back, for every value up to INT_MAX and any width. */
  method PrintAndRead(value: int, width: nat, buf: array<Byte>) returns (r: int)
    requires 0 <= value <= INT_MAX && (if width < 32 then 32 else width) < buf.Length
    modifies buf
    ensures r == value
  {
    var ptr := PrintDec(value, width, buf, 0);
    ghost var text := buf[0..ptr];
    buf[ptr] := 0;
    assert buf[..][0..ptr] == text;
    PrintedIsNumber(buf[..], 0, ptr);
    r := Atoi(buf[..], 0, false, 0, ptr);
  }
}
