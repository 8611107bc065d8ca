/**
 Copies that survive overlap (src/libc/libc.cpp:12-17 and 49-91; section 7.24.2.2 of ISO C11).
 */
module MemMove {
  import opened Bytes

  const WORD: int := 4

  /**
   The bytes from `lo` up to `hi` have been copied from `shift` further on, and no other byte of
   memory has changed.
   */
  predicate Shifted(before: seq<Byte>, after: seq<Byte>, lo: int, hi: int, shift: int)
    requires 0 <= lo + shift && hi + shift <= |before|
  {
    |after| == |before| && forall a {:trigger after[a]} | 0 <= a < |after| ::
      after[a] == if lo <= a < hi then before[a + shift] else before[a]
  }

  /** `n` bytes have been copied from `src` to `dst`. */
  predicate Copied(before: seq<Byte>, after: seq<Byte>, dst: int, src: int, n: int)
    requires 0 <= src && src + n <= |before|
  {
    Shifted(before, after, dst, dst + n, src - dst)
  }

  lemma NothingYet(before: seq<Byte>, at: int, shift: int)
    requires 0 <= at + shift <= |before|
    ensures Shifted(before, before, at, at, shift)
  {
  }

  /** A piece more at the upper end, read from bytes that have not been written yet. */
  lemma PieceAbove(before: seq<Byte>, m: seq<Byte>, m': seq<Byte>, lo: int, hi: int, piece: int, shift: int)
    requires lo <= hi && 0 <= piece && 0 <= lo + shift && hi + piece + shift <= |before|
    requires Shifted(before, m, lo, hi, shift) && Shifted(m, m', hi, hi + piece, shift)
    requires 0 <= shift || hi + piece + shift <= lo
    ensures Shifted(before, m', lo, hi + piece, shift)
  {
    forall a | 0 <= a < |m'| ensures m'[a] == if lo <= a < hi + piece then before[a + shift] else before[a] {
      if hi <= a < hi + piece {
        assert m'[a] == m[a + shift] == before[a + shift];
      }
    }
  }

  /** A piece more at the lower end. */
  lemma PieceBelow(before: seq<Byte>, m: seq<Byte>, m': seq<Byte>, lo: int, hi: int, piece: int, shift: int)
    requires lo <= hi && 0 <= piece && 0 <= lo - piece + shift && hi + shift <= |before|
    requires Shifted(before, m, lo, hi, shift) && Shifted(m, m', lo - piece, lo, shift) && shift <= 0
    ensures Shifted(before, m', lo - piece, hi, shift)
  {
    forall a | 0 <= a < |m'| ensures m'[a] == if lo - piece <= a < hi then before[a + shift] else before[a] {
      if lo - piece <= a < lo {
        assert m'[a] == m[a + shift] == before[a + shift];
      }
    }
  }

  /** One byte is copied. */
  method CopyByte(mem: array<Byte>, d: int, s: int)
    requires 0 <= d < mem.Length && 0 <= s < mem.Length
    modifies mem
    ensures Copied(old(mem[..]), mem[..], d, s, 1)
  {
    mem[d] := mem[s];
  }

  /** `memcpy`: byte by byte, upwards. */
  method MemCpy(mem: array<Byte>, dst: int, src: int, n: int)
    requires 0 <= n && 0 <= dst <= mem.Length - n && 0 <= src <= mem.Length - n
    requires src + n <= dst || dst <= src
    modifies mem
    ensures Copied(old(mem[..]), mem[..], dst, src, n)
  {
    hide Shifted;
    NothingYet(mem[..], dst, src - dst);
    var k := 0;
    while k < n
      invariant 0 <= k <= n
      invariant Copied(old(mem[..]), mem[..], dst, src, k)
    {
      ghost var m := mem[..];
      CopyByte(mem, dst + k, src + k);
      PieceAbove(old(mem[..]), m, mem[..], dst, dst + k, 1, src - dst);
      k := k + 1;
    }
  }

  /** The word at `s` goes to `d` in one store. */
  method CopyWord(mem: array<Byte>, d: int, s: int)
    requires 0 <= d <= mem.Length - WORD && 0 <= s <= mem.Length - WORD
    modifies mem
    ensures Copied(old(mem[..]), mem[..], d, s, WORD)
  {
    mem[d], mem[d + 1], mem[d + 2], mem[d + 3] := mem[s], mem[s + 1], mem[s + 2], mem[s + 3];
  }

  /** The branch for a destination below the source: upwards, in words once both are aligned. */
  method MoveDown(mem: array<Byte>, dst: int, src: int, n0: int)
    requires 0 <= n0 && 0 <= dst < src <= mem.Length - n0
    modifies mem
    ensures Copied(old(mem[..]), mem[..], dst, src, n0)
  {
    hide Shifted;
    NothingYet(mem[..], dst, src - dst);
    var k, n := 0, n0;
    if src % WORD == dst % WORD {
      while (dst + k) % WORD != 0
        invariant 0 <= k && k + n == n0 && 0 <= n && Copied(old(mem[..]), mem[..], dst, src, k)
        decreases n
      {
        if n == 0 {
          return;
        }
        n := n - 1;
        ghost var m := mem[..];
        CopyByte(mem, dst + k, src + k);
        PieceAbove(old(mem[..]), m, mem[..], dst, dst + k, 1, src - dst);
        k := k + 1;
      }
      while n >= WORD
        invariant 0 <= k && k + n == n0 && 0 <= n && Copied(old(mem[..]), mem[..], dst, src, k)
      {
        WordsApart(dst, src);
        ghost var m := mem[..];
        CopyWord(mem, dst + k, src + k);
        PieceAbove(old(mem[..]), m, mem[..], dst, dst + k, WORD, src - dst);
        n := n - WORD;
        k := k + WORD;
      }
    }
    while n != 0
      invariant 0 <= k && k + n == n0 && 0 <= n && Copied(old(mem[..]), mem[..], dst, src, k)
    {
      ghost var m := mem[..];
      CopyByte(mem, dst + k, src + k);
      PieceAbove(old(mem[..]), m, mem[..], dst, dst + k, 1, src - dst);
      k := k + 1;
      n := n - 1;
    }
  }

  /** Different words with the same alignment do not share bytes. */
  lemma WordsApart(d: int, s: int)
    requires s % WORD == d % WORD && d < s
    ensures d + WORD <= s
  {
  }

  /** The branch for a destination above the source: downwards, in words once both ends are aligned. */
  method MoveUp(mem: array<Byte>, dst: int, src: int, n0: int)
    requires 0 <= n0 && 0 <= src < dst <= mem.Length - n0
    modifies mem
    ensures Copied(old(mem[..]), mem[..], dst, src, n0)
  {
    hide Shifted;
    NothingYet(mem[..], dst + n0, src - dst);
    var n := n0;
    if src % WORD == dst % WORD {
      while (dst + n) % WORD != 0
        invariant 0 <= n <= n0 && Shifted(old(mem[..]), mem[..], dst + n, dst + n0, src - dst)
        decreases n
      {
        if n == 0 {
          return;
        }
        n := n - 1;
        ghost var m := mem[..];
        CopyByte(mem, dst + n, src + n);
        PieceBelow(old(mem[..]), m, mem[..], dst + n + 1, dst + n0, 1, src - dst);
      }
      while n >= WORD
        invariant 0 <= n <= n0 && Shifted(old(mem[..]), mem[..], dst + n, dst + n0, src - dst)
      {
        n := n - WORD;
        WordsApart(src, dst);
        ghost var m := mem[..];
        CopyWord(mem, dst + n, src + n);
        PieceBelow(old(mem[..]), m, mem[..], dst + n + WORD, dst + n0, WORD, src - dst);
      }
    }
    while n != 0
      invariant 0 <= n <= n0 && Shifted(old(mem[..]), mem[..], dst + n, dst + n0, src - dst)
    {
      n := n - 1;
      ghost var m := mem[..];
      CopyByte(mem, dst + n, src + n);
      PieceBelow(old(mem[..]), m, mem[..], dst + n + 1, dst + n0, 1, src - dst);
    }
  }

  /** `memmove`: whatever the overlap, the destination gets what the source was. */
  method MemMove(mem: array<Byte>, dst: int, src: int, n: int)
    requires 0 <= n && 0 <= dst <= mem.Length - n && 0 <= src <= mem.Length - n
    modifies mem
    ensures Copied(old(mem[..]), mem[..], dst, src, n)
  {
    if dst == src {
      return;
    }
    if src + n <= dst || dst + n <= src {
      MemCpy(mem, dst, src, n);
    } else if dst < src {
      MoveDown(mem, dst, src, n);
    } else {
      MoveUp(mem, dst, src, n);
    }
  }
}
