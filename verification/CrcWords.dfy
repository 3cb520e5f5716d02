/** The machine words that the CRC functions of base/c_hash.c work on. */
module CrcWords {

  type Word = bv32

  type Byte = b: Word | b <= 0xff

  // ---- Bit algebra ----

  function Xor(a: Word, b: Word): Word { a ^ b }

  lemma {:induction false} XorZero(a: Word)
    ensures Xor(a, 0) == a && Xor(0, a) == a
  {
  }

  lemma {:induction false} XorSelf(a: Word)
    ensures Xor(a, a) == 0
  {
  }

  lemma {:induction false} XorComm(a: Word, b: Word)
    ensures Xor(a, b) == Xor(b, a)
  {
  }

  lemma {:induction false} XorAssoc(a: Word, b: Word, c: Word)
    ensures Xor(Xor(a, b), c) == Xor(a, Xor(b, c))
  {
  }

  /** Sums of sums may be regrouped. */
  lemma {:induction false} XorRegroup(p: Word, q: Word, r: Word, s: Word)
    ensures Xor(Xor(p, q), Xor(r, s)) == Xor(Xor(p, r), Xor(q, s))
  {
    hide Xor;
    XorAssoc(p, q, Xor(r, s));
    XorAssoc(q, r, s);
    XorComm(q, r);
    XorAssoc(r, q, s);
    XorAssoc(p, r, Xor(q, s));
  }

  /** A signed `char` widened to the width of the index expression. */
  function SignExtend(b: Byte): Word { if b < 0x80 then b else b | 0xffff_ff00 }
}
