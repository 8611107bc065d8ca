/**
 NUL-terminated strings in memory, and the byte searches of src/libc/libc.cpp that look
 at four bytes at a time.  Addresses are indices into `mem`, whose first byte is
 word-aligned.
 */
module CString {
  import opened Bytes
  import opened Words

  const WORD: nat := 4

  /** Memory is mapped in whole words. */
  predicate WholeWords(mem: seq<Byte>) {
    |mem| % WORD == 0
  }

  ghost predicate NonZero(mem: seq<Byte>, a: nat, b: nat)
    requires b <= |mem|
  {
    forall i | a <= i < b :: mem[i] != 0
  }

  /** The string that starts at `s` has its terminating NUL at `e`. */
  ghost predicate Terminated(mem: seq<Byte>, s: nat, e: nat) {
    s <= e < |mem| && mem[e] == 0 && NonZero(mem, s, e)
  }

  function Bits(b: Byte): bv8 {
    b as bv8
  }

  function LoadWord(mem: seq<Byte>, a: nat): bv32
    requires a + WORD <= |mem|
  {
    Pack(Bits(mem[a]), Bits(mem[a + 1]), Bits(mem[a + 2]), Bits(mem[a + 3]))
  }

  lemma {:induction false} BitsOf(b: Byte) returns (v: bv8)
    ensures v as int == b
  {
    if b == 0 {
      v := 0;
    } else {
      v := BitsOf(b - 1);
      assert v < 255;
      v := v + 1;
    }
  }

  lemma BitsExact(b: Byte)
    ensures Bits(b) as int == b
  {
    var v := BitsOf(b);
    assert (v as int) as bv8 == v;
  }

  lemma BitsInjective(b: Byte, c: Byte)
    ensures Bits(b) == Bits(c) <==> b == c
  {
    BitsExact(b);
    BitsExact(c);
  }

  ghost predicate Among(mem: seq<Byte>, a: nat, c: Byte)
    requires a + WORD <= |mem|
  {
    mem[a] == c || mem[a + 1] == c || mem[a + 2] == c || mem[a + 3] == c
  }

  lemma AmongBits(mem: seq<Byte>, a: nat, c: Byte)
    requires a + WORD <= |mem|
    ensures Among(mem, a, c) <==>
      || Bits(mem[a]) == Bits(c) || Bits(mem[a + 1]) == Bits(c)
      || Bits(mem[a + 2]) == Bits(c) || Bits(mem[a + 3]) == Bits(c)
  {
    hide Bits;
    BitsInjective(mem[a], c);
    BitsInjective(mem[a + 1], c);
    BitsInjective(mem[a + 2], c);
    BitsInjective(mem[a + 3], c);
  }

  /** The word-at-a-time test: XORed with four copies of `c`, a word has a zero byte iff `c` is in it. */
  lemma WordContains(mem: seq<Byte>, a: nat, k: bv32, c: Byte)
    requires a + WORD <= |mem|
    requires Lanes(k, Bits(c), Bits(c), Bits(c), Bits(c))
    ensures HasZero(LoadWord(mem, a) ^ k) <==> Among(mem, a, c)
  {
    hide HasZero, Lanes, Bits, Among, Pack;
    AmongBits(mem, a, c);
    HasZeroIffContains(LoadWord(mem, a), k, Bits(mem[a]), Bits(mem[a + 1]), Bits(mem[a + 2]), Bits(mem[a + 3]),
      Bits(c));
  }

  lemma ZeroBits()
    ensures Bits(0) == 0
  {
  }

  lemma WordContainsZero(mem: seq<Byte>, a: nat)
    requires a + WORD <= |mem|
    ensures HasZero(LoadWord(mem, a)) <==> Among(mem, a, 0)
  {
    hide HasZero, Lanes, Bits, Among, Pack;
    ZeroBits();
    AmongBits(mem, a, 0);
    HasZeroIffContainsZero(LoadWord(mem, a), Bits(mem[a]), Bits(mem[a + 1]), Bits(mem[a + 2]), Bits(mem[a + 3]));
  }

  /** `ONES * c`, computed once before a search. */
  method SearchMask(c: Byte) returns (k: bv32)
    ensures Lanes(k, Bits(c), Bits(c), Bits(c), Bits(c))
  {
    k := Repeat(Bits(c));
  }

  /** `HASZERO(*w ^ k)` */
  method WordHolds(mem: seq<Byte>, a: nat, k: bv32, ghost c: Byte) returns (b: bool)
    requires a + WORD <= |mem|
    requires Lanes(k, Bits(c), Bits(c), Bits(c), Bits(c))
    ensures b <==> Among(mem, a, c)
  {
    hide HasZero, Lanes, Bits, Among, Pack;
    WordContains(mem, a, k, c);
    b := HasZero(LoadWord(mem, a) ^ k);
  }

  /** `HASZERO(*w)` */
  method WordHoldsZero(mem: seq<Byte>, a: nat) returns (b: bool)
    requires a + WORD <= |mem|
    ensures b <==> Among(mem, a, 0)
  {
    hide HasZero, Lanes, Bits, Among, Pack;
    WordContainsZero(mem, a);
    b := HasZero(LoadWord(mem, a));
  }

  lemma WordFits(mem: seq<Byte>, a: nat)
    requires WholeWords(mem) && a % WORD == 0 && a < |mem|
    ensures a + WORD <= |mem| && (a + WORD) % WORD == 0
  {
  }

  /** The first `c` among the `n` bytes at `s0`.  Bytes past the end of memory are never read. */
  method MemChr(mem: seq<Byte>, s0: nat, c: Byte, n0: nat) returns (r: Option<nat>)
    requires WholeWords(mem) && s0 <= |mem|
    requires s0 + n0 <= |mem| || c in mem[s0..]
    ensures r.Some? ==> s0 <= r.value < s0 + n0 && r.value < |mem| && mem[r.value] == c
    ensures forall i | s0 <= i < (if r.Some? then r.value else s0 + n0) :: i < |mem| && mem[i] != c
  {
    var s, n := s0, n0;
    while s % WORD != 0 && n > 0 && mem[s] != c
      invariant s0 <= s && 0 <= n && s + n == s0 + n0 && s <= |mem|
      invariant forall i | s0 <= i < s :: mem[i] != c
      invariant n > 0 ==> s < |mem|
      decreases n
    {
      s, n := s + 1, n - 1;
    }
    if n > 0 && mem[s] != c {
      var k := SearchMask(c);
      while n >= WORD
        invariant s0 <= s && s % WORD == 0 && 0 <= n && s + n == s0 + n0 && s <= |mem|
        invariant forall i | s0 <= i < s :: mem[i] != c
        invariant n > 0 ==> s < |mem|
        decreases n
      {
        WordFits(mem, s);
        var found := WordHolds(mem, s, k, c);
        if found {
          break;
        }
        s, n := s + WORD, n - WORD;
      }
      while n > 0 && mem[s] != c
        invariant s0 <= s && 0 <= n && s + n == s0 + n0 && s <= |mem|
        invariant forall i | s0 <= i < s :: mem[i] != c
        invariant n > 0 ==> s < |mem|
        decreases n
      {
        s, n := s + 1, n - 1;
      }
    }
    r := if n > 0 then Some(s) else None;
  }

  /** `strlen`: the distance of the terminator. */
  method StrLen(mem: seq<Byte>, a: nat, ghost e: nat) returns (n: nat)
    requires WholeWords(mem) && Terminated(mem, a, e)
    ensures a + n == e
  {
    var s := a;
    while s % WORD != 0
      invariant a <= s <= e
      decreases e - s
    {
      if mem[s] == 0 {
        return s - a;
      }
      s := s + 1;
    }
    while true
      invariant a <= s <= e && s % WORD == 0
      decreases e - s
    {
      WordFits(mem, s);
      var ended := WordHoldsZero(mem, s);
      if ended {
        break;
      }
      s := s + WORD;
    }
    while mem[s] != 0
      invariant a <= s <= e
      decreases e - s
    {
      s := s + 1;
    }
    n := s - a;
  }

  /** The first occurrence of the byte `c` in the string at `s0`, or its terminator. */
  method StrChrNul(mem: seq<Byte>, s0: nat, c: Byte, ghost e: nat) returns (s: nat)
    requires WholeWords(mem) && Terminated(mem, s0, e)
    ensures s0 <= s <= e && (s < e ==> mem[s] == c)
    ensures forall i | s0 <= i < s :: mem[i] != c
  {
    if c == 0 {
      var n := StrLen(mem, s0, e);
      return s0 + n;
    }
    s := s0;
    while s % WORD != 0
      invariant s0 <= s <= e
      invariant forall i | s0 <= i < s :: mem[i] != c
      decreases e - s
    {
      if mem[s] == 0 || mem[s] == c {
        return;
      }
      s := s + 1;
    }
    var k := SearchMask(c);
    while true
      invariant s0 <= s <= e && s % WORD == 0
      invariant forall i | s0 <= i < s :: mem[i] != c
      decreases e - s
    {
      WordFits(mem, s);
      var ended := WordHoldsZero(mem, s);
      var found := WordHolds(mem, s, k, c);
      if ended || found {
        break;
      }
      s := s + WORD;
    }
    while mem[s] != 0 && mem[s] != c
      invariant s0 <= s <= e
      invariant forall i | s0 <= i < s :: mem[i] != c
      decreases e - s
    {
      s := s + 1;
    }
  }

  /** The first occurrence of the byte `c` in the string at `s`, whose terminator belongs to it. */
  method StrChr(mem: seq<Byte>, s: nat, c: Byte, ghost e: nat) returns (r: Option<nat>)
    requires WholeWords(mem) && Terminated(mem, s, e)
    ensures r.Some? ==> s <= r.value <= e && mem[r.value] == c
    ensures forall i | s <= i < (if r.Some? then r.value else e + 1) :: mem[i] != c
  {
    var p := StrChrNul(mem, s, c, e);
    r := if mem[p] == c then Some(p) else None;
  }

  /** The `n` bytes at `l` and those at `r` are the same. */
  ghost predicate SameBytes(mem: seq<Byte>, l: nat, r: nat, n: nat) {
    l + n <= |mem| && r + n <= |mem| && forall i, j | l <= i < l + n && j - r == i - l :: mem[i] == mem[j]
  }

  /** The bytes at `l` and at `r` differ at distance `k` and not before. */
  ghost predicate FirstDifference(mem: seq<Byte>, l: nat, r: nat, k: nat) {
    SameBytes(mem, l, r, k) && l + k < |mem| && r + k < |mem| && mem[l + k] != mem[r + k]
  }

  lemma DifferenceShows(mem: seq<Byte>, l: nat, r: nat, k: nat, n: nat)
    requires FirstDifference(mem, l, r, k) && k < n
    ensures !SameBytes(mem, l, r, n)
  {
    var i, j := l + k, r + k;
    assert mem[i] != mem[j];
  }

  /** The first difference among `n0` bytes decides; nothing behind it is read. */
  method MemCmp(mem: seq<Byte>, l0: nat, r0: nat, n0: nat) returns (diff: int)
    requires (l0 + n0 <= |mem| && r0 + n0 <= |mem|) || exists k: nat :: k < n0 && FirstDifference(mem, l0, r0, k)
    ensures diff == 0 ==> SameBytes(mem, l0, r0, n0)
    ensures diff != 0 ==> exists k: nat ::
      k < n0 && FirstDifference(mem, l0, r0, k) && diff == mem[l0 + k] as int - mem[r0 + k] as int
  {
    var l, r, n := l0, r0, n0;
    while n > 0 && mem[l] == mem[r]
      invariant l - l0 == r - r0 == n0 - n >= 0 && n >= 0
      invariant l <= |mem| && r <= |mem| && (n > 0 ==> l < |mem| && r < |mem|)
      invariant forall i, j | l0 <= i < l && j - r0 == i - l0 :: mem[i] == mem[j]
      decreases n
    {
      n, l, r := n - 1, l + 1, r + 1;
    }
    if n > 0 {
      assert FirstDifference(mem, l0, r0, l - l0);
    }
    diff := if n > 0 then mem[l] as int - mem[r] as int else 0;
  }
}
