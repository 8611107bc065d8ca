/**
 Bytes, bits and little-endian words of disk blocks, as the ext2 driver reads and writes
 them through casts (src/modules/fs/ext2.cpp:24-26 and throughout).
 */
module Ext2Bytes {
  import opened Bytes

  const WORD_LIMIT: int := 0x1_0000_0000

  function Zeros(n: nat): (r: seq<Byte>)
    ensures |r| == n && forall k | 0 <= k < n :: r[k] == 0
  {
    seq(n, _ => 0)
  }

  /** The `k`-th 32-bit word. */
  function GetWord(b: seq<Byte>, k: nat): (w: int)
    requires 4 * k + 4 <= |b|
    ensures 0 <= w < WORD_LIMIT
  {
    var b0: int, b1: int, b2: int, b3: int := b[4 * k], b[4 * k + 1], b[4 * k + 2], b[4 * k + 3];
    b0 + 256 * b1 + 65536 * b2 + 16777216 * b3
  }

  function SetWord(b: seq<Byte>, k: nat, v: int): (r: seq<Byte>)
    requires 4 * k + 4 <= |b| && 0 <= v < WORD_LIMIT
    ensures |r| == |b|
  {
    b[4 * k := v % 256][4 * k + 1 := v / 256 % 256][4 * k + 2 := v / 65536 % 256][4 * k + 3 := v / 16777216]
  }

  /** A word of a block, zero where there is none. */
  function Word(b: seq<Byte>, k: nat): (w: int)
    ensures 0 <= w < WORD_LIMIT
  {
    if 4 * k + 4 <= |b| then GetWord(b, k) else 0
  }

  /** The `h`-th 16-bit half word. */
  function GetHalf(b: seq<Byte>, h: nat): (w: int)
    requires 2 * h + 2 <= |b|
    ensures 0 <= w < 65536
  {
    var b0: int, b1: int := b[2 * h], b[2 * h + 1];
    b0 + 256 * b1
  }

  function SetHalf(b: seq<Byte>, h: nat, v: int): (r: seq<Byte>)
    requires 2 * h + 2 <= |b| && 0 <= v < 65536
    ensures |r| == |b|
  {
    b[2 * h := v % 256][2 * h + 1 := v / 256]
  }

  lemma FourBytes(v: int)
    requires 0 <= v < WORD_LIMIT
    ensures v % 256 + 256 * (v / 256 % 256) + 65536 * (v / 65536 % 256) + 16777216 * (v / 16777216) == v
  {
    assert v / 65536 == v / 256 / 256 && v / 16777216 == v / 256 / 256 / 256;
  }

  lemma OtherWord(b: seq<Byte>, k: nat, v: int, j: nat)
    requires 4 * k + 4 <= |b| && 4 * j + 4 <= |b| && 0 <= v < WORD_LIMIT && j != k
    ensures GetWord(SetWord(b, k, v), j) == GetWord(b, j)
  {
    var r := SetWord(b, k, v);
    forall a | 4 * j <= a < 4 * j + 4 ensures r[a] == b[a] {
    }
  }

  /** A stored word is read back, and no other word changes. */
  lemma WordStored(b: seq<Byte>, k: nat, v: int, j: nat)
    requires 4 * k + 4 <= |b| && 4 * j + 4 <= |b| && 0 <= v < WORD_LIMIT
    ensures GetWord(SetWord(b, k, v), j) == if j == k then v else GetWord(b, j)
  {
    if j == k {
      FourBytes(v);
    } else {
      OtherWord(b, k, v, j);
    }
  }

  lemma HalfStored(b: seq<Byte>, h: nat, v: int, j: nat)
    requires 2 * h + 2 <= |b| && 2 * j + 2 <= |b| && 0 <= v < 65536
    ensures GetHalf(SetHalf(b, h, v), j) == if j == h then v else GetHalf(b, j)
  {
  }

  lemma WordBesideHalf(b: seq<Byte>, h: nat, v: int, k: nat)
    requires 2 * h + 2 <= |b| && 4 * k + 4 <= |b| && 0 <= v < 65536 && 2 * k != h && 2 * k + 1 != h
    ensures GetWord(SetHalf(b, h, v), k) == GetWord(b, k)
  {
  }

  lemma ZeroWord(n: nat, k: nat)
    requires 4 * k + 4 <= n
    ensures GetWord(Zeros(n), k) == 0
  {
  }

  // ---------- Bits ----------

  /** Bit `k` of a byte. */
  predicate ByteBit(x: nat, k: nat) {
    if k == 0 then x % 2 == 1 else ByteBit(x / 2, k - 1)
  }

  /** `x | NTH_BIT(k)` */
  function OrBit(x: nat, k: nat): nat {
    if k == 0 then (if x % 2 == 1 then x else x + 1) else 2 * OrBit(x / 2, k - 1) + x % 2
  }

  lemma {:induction false} OrBitSets(x: nat, k: nat, j: nat)
    ensures ByteBit(OrBit(x, k), j) <==> j == k || ByteBit(x, j)
  {
    var y := OrBit(x, k);
    if k == 0 {
      assert y / 2 == x / 2;
    } else {
      assert y / 2 == OrBit(x / 2, k - 1) && y % 2 == x % 2;
      if j > 0 {
        OrBitSets(x / 2, k - 1, j - 1);
      }
    }
  }

  lemma {:induction false} OrBitFits(x: nat, k: nat, limit: int)
    requires 0 <= x < limit && Fits(limit, k)
    ensures 0 <= OrBit(x, k) < limit
  {
    if k > 0 {
      OrBitFits(x / 2, k - 1, limit / 2);
    }
  }

  /** `limit` is even `k + 1` times over. */
  predicate Fits(limit: int, k: nat) {
    limit % 2 == 0 && limit > 0 && (k > 0 ==> Fits(limit / 2, k - 1))
  }

  /** BLOCKBIT: bit `n` of a bitmap. */
  predicate BitAt(b: seq<Byte>, n: nat)
    requires n / 8 < |b|
  {
    ByteBit(b[n / 8], n % 8)
  }

  /** A bit of a block, clear where there is none. */
  predicate IsSet(b: seq<Byte>, n: nat) {
    n / 8 < |b| && BitAt(b, n)
  }

  lemma OrBitIsByte(x: Byte, k: nat)
    requires k < 8
    ensures 0 <= OrBit(x, k) < 256
  {
    assert Fits(2, 0) && Fits(4, 1) && Fits(8, 2) && Fits(16, 3) && Fits(32, 4) && Fits(64, 5) && Fits(128, 6) &&
      Fits(256, 7);
    EightBits(k);
    OrBitFits(x, k, 256);
  }

  lemma EightBits(k: nat)
    requires k < 8
    ensures Fits(256, k)
  {
    assert Fits(128, 0) && Fits(64, 0) && Fits(32, 0) && Fits(16, 0) && Fits(8, 0) && Fits(4, 0) && Fits(2, 0);
    assert Fits(8, 2) && Fits(16, 3) && Fits(32, 4);
    FitsLess(256, 7, k);
  }

  lemma {:induction false} FitsLess(limit: int, k: nat, j: nat)
    requires Fits(limit, k) && j <= k
    ensures Fits(limit, j)
  {
    if j > 0 {
      FitsLess(limit / 2, k - 1, j - 1);
    }
  }

  /** BLOCKBYTE(n) |= SETBIT(n) */
  function SetBitAt(b: seq<Byte>, n: nat): (r: seq<Byte>)
    requires n / 8 < |b|
    ensures |r| == |b|
  {
    OrBitIsByte(b[n / 8], n % 8);
    b[n / 8 := OrBit(b[n / 8], n % 8)]
  }

  lemma BitStored(b: seq<Byte>, n: nat, j: nat)
    requires n / 8 < |b| && j / 8 < |b|
    ensures BitAt(SetBitAt(b, n), j) <==> j == n || BitAt(b, j)
  {
    if n / 8 == j / 8 {
      OrBitSets(b[n / 8], n % 8, j % 8);
    }
  }

  /** How many of the first `n` bits are clear. */
  function Clear(b: seq<Byte>, n: nat): nat
    requires n <= 8 * |b|
  {
    if n == 0 then 0 else Clear(b, n - 1) + if BitAt(b, n - 1) then 0 else 1
  }

  lemma {:induction false} SomeClear(b: seq<Byte>, n: nat)
    requires n <= 8 * |b|
    ensures Clear(b, n) > 0 <==> exists k: nat :: k < n && !BitAt(b, k)
    ensures Clear(b, n) <= n
  {
    if n > 0 {
      SomeClear(b, n - 1);
      assert Clear(b, n - 1) > 0 ==> exists k: nat :: k < n - 1 && !BitAt(b, k);
    }
  }

  /** Setting a clear bit makes one less. */
  lemma {:induction false} ClearAfterSet(b: seq<Byte>, k: nat, n: nat)
    requires n <= 8 * |b| && k < 8 * |b| && !BitAt(b, k)
    ensures Clear(SetBitAt(b, k), n) == Clear(b, n) - if k < n then 1 else 0
  {
    if n > 0 {
      ClearAfterSet(b, k, n - 1);
      BitStored(b, k, n - 1);
    }
  }
}
