/** Bitwise operations on 32-bit words, named so that proofs can be about the names.

    A proof about a word's fields needs only what a mask keeps and what it leaves
    out, and not how the solver works with single bits.  These lemmas say that, once
    for all masks: what an or sets, an and-not clears and an exclusive or inverts,
    and that the bits outside the mask are as they were. */
module BitOps {

  function BitAnd(a: bv32, b: bv32): bv32 { a & b }
  function BitOr(a: bv32, b: bv32): bv32 { a | b }
  function BitXor(a: bv32, b: bv32): bv32 { a ^ b }
  function BitNot(a: bv32): bv32 { !a }

  predicate Meets(w: bv32, mask: bv32) { BitAnd(w, mask) != 0 }

  lemma OrMasked(w: bv32, m: bv32, n: bv32)
    requires BitAnd(m, n) == 0
    ensures BitAnd(BitOr(w, m), n) == BitAnd(w, n)
  {
    assert (w | m) & n == (w & n) | (m & n);
  }

  lemma NoneMasked(m: bv32, n: bv32)
    requires BitAnd(m, n) == 0
    ensures BitAnd(n, BitNot(m)) == n
  {
  }

  lemma AndRegroup(a: bv32, b: bv32, c: bv32)
    ensures BitAnd(BitAnd(a, b), c) == BitAnd(a, BitAnd(c, b))
  {
  }

  lemma AndNotMasked(w: bv32, m: bv32, n: bv32)
    requires BitAnd(m, n) == 0
    ensures BitAnd(BitAnd(w, BitNot(m)), n) == BitAnd(w, n)
  {
    hide BitAnd, BitNot;
    NoneMasked(m, n);
    AndRegroup(w, BitNot(m), n);
  }

  lemma XorMasked(w: bv32, m: bv32, n: bv32)
    requires BitAnd(m, n) == 0
    ensures BitAnd(BitXor(w, m), n) == BitAnd(w, n)
  {
    assert (w ^ m) & n == (w & n) ^ (m & n);
  }
}
