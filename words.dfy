/** 64-bit words used as bit sets, bit j meaning `(w & (1L << j)) != 0`. */
module Words {

  /** Booleans per word: `Long.SIZE`, the column's `WORD_LENS_IN_BITS`. */
  const WordBits: nat := 64

  /** Bit j of w, as `(w & (1L << j)) != 0`. */
  predicate Bit(w: bv64, j: nat)
    requires j < WordBits
  {
    w & (1 << j) != 0
  }

  /** `w | (1L << j)`. */
  function SetBit(w: bv64, j: nat): bv64
    requires j < WordBits
  {
    w | (1 << j)
  }

  /** Setting bit j sets bit j and leaves every other bit as it was. */
  lemma SetBitAt(w: bv64, j: nat, i: nat)
    requires j < WordBits && i < WordBits
    ensures Bit(SetBit(w, j), i) == (Bit(w, i) || i == j)
  {
    AndOverOr(1 << i, w, 1 << j);
    OrNonZero(w & (1 << i), (1 << j) & (1 << i));
    SingleBits(i, j);
  }

  lemma AndOverOr(n: bv64, a: bv64, b: bv64)
    ensures (a | b) & n == (a & n) | (b & n)
    ensures n & (a | b) == (n & a) | (n & b)
  {
  }

  lemma OrNonZero(a: bv64, b: bv64)
    ensures a | b != 0 <==> a != 0 || b != 0
  {
  }

  lemma SingleBits(i: nat, j: nat)
    requires i < WordBits && j < WordBits
    ensures (1 as bv64 << j) & (1 as bv64 << i) != 0 <==> i == j
  {
  }
}
