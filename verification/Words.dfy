/**
 The word-at-a-time zero-byte test of src/libc.h:24-27, used by the string searches of
 src/libc/libc.cpp.
 */
module Words {

  predicate HasZero(x: bv32) {
    (x - 0x0101_0101) & !x & 0x8080_8080 != 0
  }

  /** `w` is the little-endian word made of these four bytes. */
  predicate Lanes(w: bv32, b0: bv8, b1: bv8, b2: bv8, b3: bv8) {
    && w & 0xFF == b0 as bv32
    && w & 0xFF00 == (b1 as bv32) << 8
    && w & 0xFF_0000 == (b2 as bv32) << 16
    && w & 0xFF00_0000 == (b3 as bv32) << 24
  }

  function Pack(b0: bv8, b1: bv8, b2: bv8, b3: bv8): (w: bv32)
    ensures Lanes(w, b0, b1, b2, b3)
  {
    (b0 as bv32) | ((b1 as bv32) << 8) | ((b2 as bv32) << 16) | ((b3 as bv32) << 24)
  }

  /** `ONES * c` holds `c` in each of its bytes. */
  function Repeat(c: bv8): (k: bv32)
    ensures Lanes(k, c, c, c, c)
  {
    0x0101_0101 * (c as bv32)
  }

  /** Without false positives or negatives, whatever borrows the subtraction makes. */
  lemma HasZeroIffEqualLane(w: bv32, k: bv32)
    ensures HasZero(w ^ k) <==>
      || w & 0xFF == k & 0xFF || w & 0xFF00 == k & 0xFF00
      || w & 0xFF_0000 == k & 0xFF_0000 || w & 0xFF00_0000 == k & 0xFF00_0000
  {
  }

  /** A word XORed with four copies of `c` has a zero byte exactly when `c` is one of its bytes. */
  lemma HasZeroIffContains(w: bv32, k: bv32, b0: bv8, b1: bv8, b2: bv8, b3: bv8, c: bv8)
    requires Lanes(w, b0, b1, b2, b3) && Lanes(k, c, c, c, c)
    ensures HasZero(w ^ k) <==> b0 == c || b1 == c || b2 == c || b3 == c
  {
    HasZeroIffEqualLane(w, k);
  }

  lemma HasZeroIffContainsZero(w: bv32, b0: bv8, b1: bv8, b2: bv8, b3: bv8)
    requires Lanes(w, b0, b1, b2, b3)
    ensures HasZero(w) <==> b0 == 0 || b1 == 0 || b2 == 0 || b3 == 0
  {
    HasZeroIffContains(w, 0, b0, b1, b2, b3, 0);
  }
}
