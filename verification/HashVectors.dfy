/** The hash value that is published with lookup3, computed in the model step by
    step. */
module HashVectors {
  import opened Machine
  import opened Bits
  import opened Jenkins

  // ---- One step on numbers ----

  /** A rotation, with 2^k and 2^(32-k) given as numbers. */
  function Turned(x: nat, p: nat, q: nat): nat
    requires q >= 1
  {
    p * (x % q) + x / q
  }

  predicate Powers(k: nat, p: nat, q: nat) { 0 < k < 32 && Pow2(k) == p && Pow2(32 - k) == q }

  /** `g` and `h` are the operands of the exclusive or, in digits. */
  lemma {:induction false} MixStepIs(s: ABC, k: nat, p: nat, q: nat, g: Hex, h: Hex, t: ABC)
    requires Powers(k, p, q) && q >= 1 && Digits(g) && Digits(h)
    requires Number(g) == (s.a - s.c) % 0x1_0000_0000 && Number(h) == Turned(s.c, p, q)
    requires t.a == s.b && t.b == (s.c + s.b) % 0x1_0000_0000 && t.c == Number(HexXor(g, h))
    ensures MixStep(s, k) == t
  {
    hide Xor, Rot, HexXor, Number, Digits, Pow2;
    RotValue(s.c, k);
    XorHex(g, h);
  }

  lemma {:induction false} FinalStepIs(s: ABC, k: nat, p: nat, q: nat, g: Hex, h: Hex, t: ABC)
    requires Powers(k, p, q) && q >= 1 && Digits(g) && Digits(h)
    requires Number(g) == s.c && Number(h) == s.b
    requires t.a == s.b && t.b == (Number(HexXor(g, h)) - Turned(s.b, p, q)) % 0x1_0000_0000 && t.c == s.a
    ensures FinalStep(s, k) == t
  {
    hide Xor, Rot, HexXor, Number, Digits, Pow2;
    RotValue(s.b, k);
    XorHex(g, h);
  }

  lemma {:induction false} Powers4()
    ensures Powers(4, 0x00000010, 0x10000000)
  {
    hide Pow2;
    PowerTable();
  }

  lemma {:induction false} Powers6()
    ensures Powers(6, 0x00000040, 0x04000000)
  {
    hide Pow2;
    PowerTable();
  }

  lemma {:induction false} Powers8()
    ensures Powers(8, 0x00000100, 0x01000000)
  {
    hide Pow2;
    PowerTable();
  }

  lemma {:induction false} Powers11()
    ensures Powers(11, 0x00000800, 0x00200000)
  {
    hide Pow2;
    PowerTable();
  }

  lemma {:induction false} Powers14()
    ensures Powers(14, 0x00004000, 0x00040000)
  {
    hide Pow2;
    PowerTable();
  }

  lemma {:induction false} Powers16()
    ensures Powers(16, 0x00010000, 0x00010000)
  {
    hide Pow2;
    PowerTable();
  }

  lemma {:induction false} Powers19()
    ensures Powers(19, 0x00080000, 0x00002000)
  {
    hide Pow2;
    PowerTable();
  }

  lemma {:induction false} Powers24()
    ensures Powers(24, 0x01000000, 0x00000100)
  {
    hide Pow2;
    PowerTable();
  }

  lemma {:induction false} Powers25()
    ensures Powers(25, 0x02000000, 0x00000080)
  {
    hide Pow2;
    PowerTable();
  }

  lemma {:induction false} PowerTable()
    ensures Pow2(4) == 0x00000010
    ensures Pow2(6) == 0x00000040
    ensures Pow2(7) == 0x00000080
    ensures Pow2(8) == 0x00000100
    ensures Pow2(11) == 0x00000800
    ensures Pow2(13) == 0x00002000
    ensures Pow2(14) == 0x00004000
    ensures Pow2(16) == 0x00010000
    ensures Pow2(18) == 0x00040000
    ensures Pow2(19) == 0x00080000
    ensures Pow2(21) == 0x00200000
    ensures Pow2(24) == 0x01000000
    ensures Pow2(25) == 0x02000000
    ensures Pow2(26) == 0x04000000
    ensures Pow2(28) == 0x10000000
  {
    hide Pow2;
    Pow2Step(0);
    Pow2Four(0);
    Pow2Four(4);
    Pow2Four(8);
    Pow2Four(12);
    Pow2Four(16);
    Pow2Four(20);
    Pow2Four(24);
  }

  lemma {:induction false} Pow2Four(k: nat)
    ensures Pow2(k + 1) == 2 * Pow2(k) && Pow2(k + 2) == 4 * Pow2(k) && Pow2(k + 3) == 8 * Pow2(k)
    ensures Pow2(k + 4) == 16 * Pow2(k)
  {
  }

  // ---- "Four score and seven years ago", published with lookup3 ----

  const FOUR_SCORE: seq<Byte> :=
    [0x46, 0x6f, 0x75, 0x72, 0x20, 0x73, 0x63, 0x6f, 0x72, 0x65, 0x20, 0x61, 0x6e, 0x64, 0x20, 0x73, 0x65, 0x76, 0x65, 0x6e, 0x20, 0x79, 0x65, 0x61, 0x72, 0x73, 0x20, 0x61, 0x67, 0x6f]

  lemma {:induction false} FourScore0Step1()
    ensures MixStep(ABC(0x51232e53, 0x4e11322d, 0x3fce247f), 4) == ABC(0x4e11322d, 0x8ddf56ac, 0xedb74e27)
  {
    hide MixStep, FinalStep, Powers;
    Powers4();
    var g, h := Hex(0x1, 0x1, 0x5, 0x5, 0x0, 0x9, 0xd, 0x4), Hex(0xf, 0xc, 0xe, 0x2, 0x4, 0x7, 0xf, 0x3);
    assert HexXor(g, h) == Hex(0xe, 0xd, 0xb, 0x7, 0x4, 0xe, 0x2, 0x7);
    MixStepIs(ABC(0x51232e53, 0x4e11322d, 0x3fce247f), 4, 0x00000010, 0x10000000, g, h, ABC(0x4e11322d, 0x8ddf56ac, 0xedb74e27));
  }

  lemma {:induction false} FourScore0Step2()
    ensures MixStep(ABC(0x4e11322d, 0x8ddf56ac, 0xedb74e27), 6) == ABC(0x8ddf56ac, 0x7b96a4d3, 0x0d8a6dfd)
  {
    hide MixStep, FinalStep, Powers;
    Powers6();
    var g, h := Hex(0x6, 0x0, 0x5, 0x9, 0xe, 0x4, 0x0, 0x6), Hex(0x6, 0xd, 0xd, 0x3, 0x8, 0x9, 0xf, 0xb);
    assert HexXor(g, h) == Hex(0x0, 0xd, 0x8, 0xa, 0x6, 0xd, 0xf, 0xd);
    MixStepIs(ABC(0x4e11322d, 0x8ddf56ac, 0xedb74e27), 6, 0x00000040, 0x04000000, g, h, ABC(0x8ddf56ac, 0x7b96a4d3, 0x0d8a6dfd));
  }

  lemma {:induction false} FourScore0Step3()
    ensures MixStep(ABC(0x8ddf56ac, 0x7b96a4d3, 0x0d8a6dfd), 8) == ABC(0x7b96a4d3, 0x892112d0, 0x0a3915a2)
  {
    hide MixStep, FinalStep, Powers;
    Powers8();
    var g, h := Hex(0x8, 0x0, 0x5, 0x4, 0xe, 0x8, 0xa, 0xf), Hex(0x8, 0xa, 0x6, 0xd, 0xf, 0xd, 0x0, 0xd);
    assert HexXor(g, h) == Hex(0x0, 0xa, 0x3, 0x9, 0x1, 0x5, 0xa, 0x2);
    MixStepIs(ABC(0x8ddf56ac, 0x7b96a4d3, 0x0d8a6dfd), 8, 0x00000100, 0x01000000, g, h, ABC(0x7b96a4d3, 0x892112d0, 0x0a3915a2));
  }

  lemma {:induction false} FourScore0Step4()
    ensures MixStep(ABC(0x7b96a4d3, 0x892112d0, 0x0a3915a2), 16) == ABC(0x892112d0, 0x935a2872, 0x64ff8508)
  {
    hide MixStep, FinalStep, Powers;
    Powers16();
    var g, h := Hex(0x7, 0x1, 0x5, 0xd, 0x8, 0xf, 0x3, 0x1), Hex(0x1, 0x5, 0xa, 0x2, 0x0, 0xa, 0x3, 0x9);
    assert HexXor(g, h) == Hex(0x6, 0x4, 0xf, 0xf, 0x8, 0x5, 0x0, 0x8);
    MixStepIs(ABC(0x7b96a4d3, 0x892112d0, 0x0a3915a2), 16, 0x00010000, 0x00010000, g, h, ABC(0x892112d0, 0x935a2872, 0x64ff8508));
  }

  lemma {:induction false} FourScore0Step5()
    ensures MixStep(ABC(0x892112d0, 0x935a2872, 0x64ff8508), 19) == ABC(0x935a2872, 0xf859ad7a, 0x0c62aa34)
  {
    hide MixStep, FinalStep, Powers;
    Powers19();
    var g, h := Hex(0x2, 0x4, 0x2, 0x1, 0x8, 0xd, 0xc, 0x8), Hex(0x2, 0x8, 0x4, 0x3, 0x2, 0x7, 0xf, 0xc);
    assert HexXor(g, h) == Hex(0x0, 0xc, 0x6, 0x2, 0xa, 0xa, 0x3, 0x4);
    MixStepIs(ABC(0x892112d0, 0x935a2872, 0x64ff8508), 19, 0x00080000, 0x00002000, g, h, ABC(0x935a2872, 0xf859ad7a, 0x0c62aa34));
  }

  lemma {:induction false} FourScore0Step6()
    ensures MixStep(ABC(0x935a2872, 0xf859ad7a, 0x0c62aa34), 4) == ABC(0xf859ad7a, 0x04bc57ae, 0x40dddd7e)
  {
    hide MixStep, FinalStep, Powers;
    Powers4();
    var g, h := Hex(0x8, 0x6, 0xf, 0x7, 0x7, 0xe, 0x3, 0xe), Hex(0xc, 0x6, 0x2, 0xa, 0xa, 0x3, 0x4, 0x0);
    assert HexXor(g, h) == Hex(0x4, 0x0, 0xd, 0xd, 0xd, 0xd, 0x7, 0xe);
    MixStepIs(ABC(0x935a2872, 0xf859ad7a, 0x0c62aa34), 4, 0x00000010, 0x10000000, g, h, ABC(0xf859ad7a, 0x04bc57ae, 0x40dddd7e));
  }

  lemma {:induction false} FourScore0()
    ensures Mix(ABC(0x51232e53, 0x4e11322d, 0x3fce247f)) == ABC(0xf859ad7a, 0x04bc57ae, 0x40dddd7e)
  {
    hide MixStep, FinalStep;
    FourScore0Step1();
    FourScore0Step2();
    FourScore0Step3();
    FourScore0Step4();
    FourScore0Step5();
    FourScore0Step6();
  }

  lemma {:induction false} FourScore0Word0()
    ensures W(FOUR_SCORE, 0) == 0x72756f46
  {
  }

  lemma {:induction false} FourScore0Word1()
    ensures W(FOUR_SCORE, 4) == 0x6f637320
  {
  }

  lemma {:induction false} FourScore0Word2()
    ensures W(FOUR_SCORE, 8) == 0x61206572
  {
  }

  lemma {:induction false} FourScore0Words()
    ensures Absorb(ABC(0xdeadbf0d, 0xdeadbf0d, 0xdeadbf0d), FOUR_SCORE, 0) == ABC(0x51232e53, 0x4e11322d, 0x3fce247f)
  {
    hide W;
    FourScore0Word0();
    FourScore0Word1();
    FourScore0Word2();
  }

  lemma {:induction false} FourScore1Step1()
    ensures MixStep(ABC(0x6b7a11e8, 0x7321ce13, 0xa243569e), 4) == ABC(0x7321ce13, 0x156524b1, 0xed03d2a0)
  {
    hide MixStep, FinalStep, Powers;
    Powers4();
    var g, h := Hex(0xc, 0x9, 0x3, 0x6, 0xb, 0xb, 0x4, 0xa), Hex(0x2, 0x4, 0x3, 0x5, 0x6, 0x9, 0xe, 0xa);
    assert HexXor(g, h) == Hex(0xe, 0xd, 0x0, 0x3, 0xd, 0x2, 0xa, 0x0);
    MixStepIs(ABC(0x6b7a11e8, 0x7321ce13, 0xa243569e), 4, 0x00000010, 0x10000000, g, h, ABC(0x7321ce13, 0x156524b1, 0xed03d2a0));
  }

  lemma {:induction false} FourScore1Step2()
    ensures MixStep(ABC(0x7321ce13, 0x156524b1, 0xed03d2a0), 6) == ABC(0x156524b1, 0x0268f751, 0xc6e95348)
  {
    hide MixStep, FinalStep, Powers;
    Powers6();
    var g, h := Hex(0x8, 0x6, 0x1, 0xd, 0xf, 0xb, 0x7, 0x3), Hex(0x4, 0x0, 0xf, 0x4, 0xa, 0x8, 0x3, 0xb);
    assert HexXor(g, h) == Hex(0xc, 0x6, 0xe, 0x9, 0x5, 0x3, 0x4, 0x8);
    MixStepIs(ABC(0x7321ce13, 0x156524b1, 0xed03d2a0), 6, 0x00000040, 0x04000000, g, h, ABC(0x156524b1, 0x0268f751, 0xc6e95348));
  }

  lemma {:induction false} FourScore1Step3()
    ensures MixStep(ABC(0x156524b1, 0x0268f751, 0xc6e95348), 8) == ABC(0x0268f751, 0xc9524a99, 0xa72899af)
  {
    hide MixStep, FinalStep, Powers;
    Powers8();
    var g, h := Hex(0x4, 0xe, 0x7, 0xb, 0xd, 0x1, 0x6, 0x9), Hex(0xe, 0x9, 0x5, 0x3, 0x4, 0x8, 0xc, 0x6);
    assert HexXor(g, h) == Hex(0xa, 0x7, 0x2, 0x8, 0x9, 0x9, 0xa, 0xf);
    MixStepIs(ABC(0x156524b1, 0x0268f751, 0xc6e95348), 8, 0x00000100, 0x01000000, g, h, ABC(0x0268f751, 0xc9524a99, 0xa72899af));
  }

  lemma {:induction false} FourScore1Step4()
    ensures MixStep(ABC(0x0268f751, 0xc9524a99, 0xa72899af), 16) == ABC(0xc9524a99, 0x707ae448, 0xc2effa8a)
  {
    hide MixStep, FinalStep, Powers;
    Powers16();
    var g, h := Hex(0x5, 0xb, 0x4, 0x0, 0x5, 0xd, 0xa, 0x2), Hex(0x9, 0x9, 0xa, 0xf, 0xa, 0x7, 0x2, 0x8);
    assert HexXor(g, h) == Hex(0xc, 0x2, 0xe, 0xf, 0xf, 0xa, 0x8, 0xa);
    MixStepIs(ABC(0x0268f751, 0xc9524a99, 0xa72899af), 16, 0x00010000, 0x00010000, g, h, ABC(0xc9524a99, 0x707ae448, 0xc2effa8a));
  }

  lemma {:induction false} FourScore1Step5()
    ensures MixStep(ABC(0xc9524a99, 0x707ae448, 0xc2effa8a), 19) == ABC(0x707ae448, 0x336aded2, 0xd2344770)
  {
    hide MixStep, FinalStep, Powers;
    Powers19();
    var g, h := Hex(0x0, 0x6, 0x6, 0x2, 0x5, 0x0, 0x0, 0xf), Hex(0xd, 0x4, 0x5, 0x6, 0x1, 0x7, 0x7, 0xf);
    assert HexXor(g, h) == Hex(0xd, 0x2, 0x3, 0x4, 0x4, 0x7, 0x7, 0x0);
    MixStepIs(ABC(0xc9524a99, 0x707ae448, 0xc2effa8a), 19, 0x00080000, 0x00002000, g, h, ABC(0x707ae448, 0x336aded2, 0xd2344770));
  }

  lemma {:induction false} FourScore1Step6()
    ensures MixStep(ABC(0x707ae448, 0x336aded2, 0xd2344770), 4) == ABC(0x336aded2, 0x059f2642, 0xbd02ebd5)
  {
    hide MixStep, FinalStep, Powers;
    Powers4();
    var g, h := Hex(0x9, 0xe, 0x4, 0x6, 0x9, 0xc, 0xd, 0x8), Hex(0x2, 0x3, 0x4, 0x4, 0x7, 0x7, 0x0, 0xd);
    assert HexXor(g, h) == Hex(0xb, 0xd, 0x0, 0x2, 0xe, 0xb, 0xd, 0x5);
    MixStepIs(ABC(0x707ae448, 0x336aded2, 0xd2344770), 4, 0x00000010, 0x10000000, g, h, ABC(0x336aded2, 0x059f2642, 0xbd02ebd5));
  }

  lemma {:induction false} FourScore1()
    ensures Mix(ABC(0x6b7a11e8, 0x7321ce13, 0xa243569e)) == ABC(0x336aded2, 0x059f2642, 0xbd02ebd5)
  {
    hide MixStep, FinalStep;
    FourScore1Step1();
    FourScore1Step2();
    FourScore1Step3();
    FourScore1Step4();
    FourScore1Step5();
    FourScore1Step6();
  }

  lemma {:induction false} FourScore1Word0()
    ensures W(FOUR_SCORE, 12) == 0x7320646e
  {
  }

  lemma {:induction false} FourScore1Word1()
    ensures W(FOUR_SCORE, 16) == 0x6e657665
  {
  }

  lemma {:induction false} FourScore1Word2()
    ensures W(FOUR_SCORE, 20) == 0x61657920
  {
  }

  lemma {:induction false} FourScore1Words()
    ensures Absorb(ABC(0xf859ad7a, 0x04bc57ae, 0x40dddd7e), FOUR_SCORE, 12) == ABC(0x6b7a11e8, 0x7321ce13, 0xa243569e)
  {
    hide W;
    FourScore1Word0();
    FourScore1Word1();
    FourScore1Word2();
  }

  lemma {:induction false} FourScore2Step1()
    ensures FinalStep(ABC(0x948b5244, 0x059f95a9, 0xbd02ebd5), 14) == ABC(0x059f95a9, 0xd3333d15, 0x948b5244)
  {
    hide MixStep, FinalStep, Powers;
    Powers14();
    var g, h := Hex(0xb, 0xd, 0x0, 0x2, 0xe, 0xb, 0xd, 0x5), Hex(0x0, 0x5, 0x9, 0xf, 0x9, 0x5, 0xa, 0x9);
    assert HexXor(g, h) == Hex(0xb, 0x8, 0x9, 0xd, 0x7, 0xe, 0x7, 0xc);
    FinalStepIs(ABC(0x948b5244, 0x059f95a9, 0xbd02ebd5), 14, 0x00004000, 0x00040000, g, h, ABC(0x059f95a9, 0xd3333d15, 0x948b5244));
  }

  lemma {:induction false} FourScore2Step2()
    ensures FinalStep(ABC(0x059f95a9, 0xd3333d15, 0x948b5244), 11) == ABC(0xd3333d15, 0xadcfc0b8, 0x059f95a9)
  {
    hide MixStep, FinalStep, Powers;
    Powers11();
    var g, h := Hex(0x9, 0x4, 0x8, 0xb, 0x5, 0x2, 0x4, 0x4), Hex(0xd, 0x3, 0x3, 0x3, 0x3, 0xd, 0x1, 0x5);
    assert HexXor(g, h) == Hex(0x4, 0x7, 0xb, 0x8, 0x6, 0xf, 0x5, 0x1);
    FinalStepIs(ABC(0x059f95a9, 0xd3333d15, 0x948b5244), 11, 0x00000800, 0x00200000, g, h, ABC(0xd3333d15, 0xadcfc0b8, 0x059f95a9));
  }

  lemma {:induction false} FourScore2Step3()
    ensures FinalStep(ABC(0xd3333d15, 0xadcfc0b8, 0x059f95a9), 25) == ABC(0xadcfc0b8, 0x36f4b590, 0xd3333d15)
  {
    hide MixStep, FinalStep, Powers;
    Powers25();
    var g, h := Hex(0x0, 0x5, 0x9, 0xf, 0x9, 0x5, 0xa, 0x9), Hex(0xa, 0xd, 0xc, 0xf, 0xc, 0x0, 0xb, 0x8);
    assert HexXor(g, h) == Hex(0xa, 0x8, 0x5, 0x0, 0x5, 0x5, 0x1, 0x1);
    FinalStepIs(ABC(0xd3333d15, 0xadcfc0b8, 0x059f95a9), 25, 0x02000000, 0x00000080, g, h, ABC(0xadcfc0b8, 0x36f4b590, 0xd3333d15));
  }

  lemma {:induction false} FourScore2Step4()
    ensures FinalStep(ABC(0xadcfc0b8, 0x36f4b590, 0xd3333d15), 16) == ABC(0x36f4b590, 0x30375191, 0xadcfc0b8)
  {
    hide MixStep, FinalStep, Powers;
    Powers16();
    var g, h := Hex(0xd, 0x3, 0x3, 0x3, 0x3, 0xd, 0x1, 0x5), Hex(0x3, 0x6, 0xf, 0x4, 0xb, 0x5, 0x9, 0x0);
    assert HexXor(g, h) == Hex(0xe, 0x5, 0xc, 0x7, 0x8, 0x8, 0x8, 0x5);
    FinalStepIs(ABC(0xadcfc0b8, 0x36f4b590, 0xd3333d15), 16, 0x00010000, 0x00010000, g, h, ABC(0x36f4b590, 0x30375191, 0xadcfc0b8));
  }

  lemma {:induction false} FourScore2Step5()
    ensures FinalStep(ABC(0x36f4b590, 0x30375191, 0xadcfc0b8), 4) == ABC(0x30375191, 0x9a837816, 0x36f4b590)
  {
    hide MixStep, FinalStep, Powers;
    Powers4();
    var g, h := Hex(0xa, 0xd, 0xc, 0xf, 0xc, 0x0, 0xb, 0x8), Hex(0x3, 0x0, 0x3, 0x7, 0x5, 0x1, 0x9, 0x1);
    assert HexXor(g, h) == Hex(0x9, 0xd, 0xf, 0x8, 0x9, 0x1, 0x2, 0x9);
    FinalStepIs(ABC(0x36f4b590, 0x30375191, 0xadcfc0b8), 4, 0x00000010, 0x10000000, g, h, ABC(0x30375191, 0x9a837816, 0x36f4b590));
  }

  lemma {:induction false} FourScore2Step6()
    ensures FinalStep(ABC(0x30375191, 0x9a837816, 0x36f4b590), 14) == ABC(0x9a837816, 0xce7226e6, 0x30375191)
  {
    hide MixStep, FinalStep, Powers;
    Powers14();
    var g, h := Hex(0x3, 0x6, 0xf, 0x4, 0xb, 0x5, 0x9, 0x0), Hex(0x9, 0xa, 0x8, 0x3, 0x7, 0x8, 0x1, 0x6);
    assert HexXor(g, h) == Hex(0xa, 0xc, 0x7, 0x7, 0xc, 0xd, 0x8, 0x6);
    FinalStepIs(ABC(0x30375191, 0x9a837816, 0x36f4b590), 14, 0x00004000, 0x00040000, g, h, ABC(0x9a837816, 0xce7226e6, 0x30375191));
  }

  lemma {:induction false} FourScore2Step7()
    ensures FinalStep(ABC(0x9a837816, 0xce7226e6, 0x30375191), 24) == ABC(0xce7226e6, 0x17770551, 0x9a837816)
  {
    hide MixStep, FinalStep, Powers;
    Powers24();
    var g, h := Hex(0x3, 0x0, 0x3, 0x7, 0x5, 0x1, 0x9, 0x1), Hex(0xc, 0xe, 0x7, 0x2, 0x2, 0x6, 0xe, 0x6);
    assert HexXor(g, h) == Hex(0xf, 0xe, 0x4, 0x5, 0x7, 0x7, 0x7, 0x7);
    FinalStepIs(ABC(0x9a837816, 0xce7226e6, 0x30375191), 24, 0x01000000, 0x00000100, g, h, ABC(0xce7226e6, 0x17770551, 0x9a837816));
  }

  lemma {:induction false} FourScore2()
    ensures Final(ABC(0x948b5244, 0x059f95a9, 0xbd02ebd5)) == ABC(0x9a837816, 0xce7226e6, 0x17770551)
  {
    hide MixStep, FinalStep;
    FourScore2Step1();
    FourScore2Step2();
    FourScore2Step3();
    FourScore2Step4();
    FourScore2Step5();
    FourScore2Step6();
    FourScore2Step7();
  }

  lemma {:induction false} FourScore2Word0()
    ensures W(FOUR_SCORE, 24) == 0x61207372
  {
  }

  lemma {:induction false} FourScore2Word1()
    ensures W(FOUR_SCORE, 28) == 0x00006f67
  {
  }

  lemma {:induction false} FourScore2Word2()
    ensures W(FOUR_SCORE, 32) == 0x00000000
  {
  }

  lemma {:induction false} FourScore2Words()
    ensures Absorb(ABC(0x336aded2, 0x059f2642, 0xbd02ebd5), FOUR_SCORE, 24) == ABC(0x948b5244, 0x059f95a9, 0xbd02ebd5)
  {
    hide W;
    FourScore2Word0();
    FourScore2Word1();
    FourScore2Word2();
  }

  lemma {:induction false} FourScoreVector()
    ensures HashFrom(FOUR_SCORE, 0) == 0x17770551
  {
    hide Mix, Final, Absorb;
    assert |FOUR_SCORE| == 30 && Init(30, 0) == 0xdeadbf0d;
    FourScore0Words();
    FourScore0();
    FourScore1Words();
    FourScore1();
    FourScore2Words();
    FourScore2();
    assert Lookup3(ABC(0x336aded2, 0x059f2642, 0xbd02ebd5), FOUR_SCORE, 24) == 0x17770551;
    assert Lookup3(ABC(0xf859ad7a, 0x04bc57ae, 0x40dddd7e), FOUR_SCORE, 12) == 0x17770551;
    assert Lookup3(ABC(0xdeadbf0d, 0xdeadbf0d, 0xdeadbf0d), FOUR_SCORE, 0) == 0x17770551;
  }
}
