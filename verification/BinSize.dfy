/**
 The choice of a bin (src/memory/alloc.cpp:188-207): from the position of the highest bit
 of a size and the test for a power of two to the smallest bin whose cells are large enough.
 */
module BinSize {
  import opened HeapSpec

  const SMALLEST_BIN_LOG: int := 2

  function Pow2(n: nat): int {
    if n == 0 then 1 else 2 * Pow2(n - 1)
  }

  /** The number of bits up to the highest one that is set; `32 - __builtin_clzl(size)` for 32-bit words. */
  function BitLength(size: nat): nat {
    if size == 0 then 0 else 1 + BitLength(size / 2)
  }

  /** Bitwise and. */
  function And(a: nat, b: nat): nat {
    if a == 0 || b == 0 then 0 else (if a % 2 == 1 && b % 2 == 1 then 1 else 0) + 2 * And(a / 2, b / 2)
  }

  /** The adjustment to the range of bins. */
  function AdjustBin(bin: int): int {
    if bin <= SMALLEST_BIN_LOG then 0
    else if bin - (SMALLEST_BIN_LOG + 1) > BIG_BIN then BIG_BIN
    else bin - (SMALLEST_BIN_LOG + 1)
  }

  function BinOf(size: nat): int
    requires size > 0
  {
    AdjustBin(BitLength(size) + if And(size, size - 1) != 0 then 1 else 0)
  }

  lemma {:induction false} AndSelf(a: nat)
    ensures And(a, a) == a
  {
    if a > 0 {
      AndSelf(a / 2);
    }
  }

  lemma {:induction false} HighestBit(size: nat)
    requires size > 0
    ensures Pow2(BitLength(size) - 1) <= size < Pow2(BitLength(size))
  {
    if size > 1 {
      HighestBit(size / 2);
    }
  }

  lemma AndWithPredecessor(h: nat)
    requires h > 0
    ensures And(2 * h + 1, 2 * h) == 2 * h
    ensures And(2 * h, 2 * h - 1) == 2 * And(h, h - 1)
  {
    AndSelf(h);
    assert (2 * h + 1) / 2 == h && (2 * h) / 2 == h && (2 * h - 1) / 2 == h - 1;
    assert (2 * h) % 2 == 0;
  }

  /** `size & (size - 1)` clears the lowest bit: nothing is left exactly for a power of two. */
  lemma {:induction false} PowerOfTwoTest(size: nat)
    requires size > 0
    ensures And(size, size - 1) == 0 <==> size == Pow2(BitLength(size) - 1)
  {
    if size > 1 {
      AndWithPredecessor(size / 2);
      PowerOfTwoTest(size / 2);
    }
  }

  lemma {:induction false} Pow2Ascends(a: nat, b: nat)
    requires a <= b
    ensures Pow2(a) <= Pow2(b) && 0 < Pow2(a)
  {
    if a < b {
      Pow2Ascends(a, b - 1);
    } else if a > 0 {
      Pow2Ascends(a - 1, a - 1);
    }
  }

  lemma SmallPowers()
    ensures Pow2(0) == 1 && Pow2(1) == 2 && Pow2(2) == 4 && Pow2(3) == 8 && Pow2(4) == 16 && Pow2(5) == 32 &&
      Pow2(6) == 64
    ensures Pow2(7) == 128 && Pow2(8) == 256 && Pow2(9) == 512 && Pow2(10) == 1024 && Pow2(11) == 2048 &&
      Pow2(12) == 4096
  {
    assert Pow2(3) == 8;
    assert Pow2(6) == 64;
    assert Pow2(9) == 512;
  }

  /**
   Cells are powers of two from 4 to 2048, and a request gets the smallest that holds it: less than
   twice its size.
   */
  lemma CellsArePowers(size: nat, bin: nat)
    requires 0 < size && bin < 10
    ensures CellSize(bin) == Pow2(bin + 2) && CellSize(0) == 4 && CellSize(BIG_BIN - 1) == 2048
    ensures BinOf(size) == BIG_BIN <==> size > 2048
    ensures size <= 2048 ==> size <= CellSize(BinOf(size)) && (CellSize(BinOf(size)) < 2 * size || size < 4)
  {
    SmallPowers();
    BinIsSmallestFit(size);
    hide BinOf;
    if size <= 2048 && BinOf(size) > 0 {
      DoubleCells(BinOf(size));
    }
  }

  lemma DoubleCells(bin: nat)
    requires 0 < bin < BIG_BIN
    ensures CellSize(bin) == 2 * CellSize(bin - 1)
  {
  }

  /** The bin is the smallest one whose cells can hold `size`; sizes above the largest cell go to the big bins. */
  lemma BinIsSmallestFit(size: nat)
    requires size > 0
    ensures 0 <= BinOf(size) <= BIG_BIN
    ensures BinOf(size) == BIG_BIN <==> size > CellSize(BIG_BIN - 1)
    ensures BinOf(size) < BIG_BIN ==>
      size <= CellSize(BinOf(size)) && (BinOf(size) > 0 ==> CellSize(BinOf(size) - 1) < size)
  {
    SmallPowers();
    HighestBit(size);
    PowerOfTwoTest(size);
    var n := BitLength(size);
    if n >= 13 {
      Pow2Ascends(12, n - 1);
    } else if n == 12 {
    } else {
      Pow2Ascends(n, 11);
      assert size < 2048;
    }
  }
}
