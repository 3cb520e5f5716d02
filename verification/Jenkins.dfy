/** Bob Jenkins' lookup3 as in base/c_hash.c: mixing functions, one reference
    definition of the hash of a byte string, and the three loop bodies the code
    chooses between by the alignment of the key. */
module Jenkins {
  import opened Machine
  import opened Bits

  /** The internal state. */
  datatype ABC = ABC(a: Word, b: Word, c: Word)

  // ---- mix and final ----

  /** One line group of `mix`: x -= y; x ^= rot(y, k); y += z. The result is
      arranged for the next group, where z plays the part of x. */
  function MixStep(s: ABC, k: nat): ABC
    requires 0 < k < 32
  {
    ABC(s.b, Plus(s.c, s.b), XorW(Minus(s.a, s.c), Rot(s.c, k)))
  }

  function UnmixStep(s: ABC, k: nat): ABC
    requires 0 < k < 32
  {
    var c := Minus(s.b, s.a);
    ABC(Plus(XorW(s.c, Rot(c, k)), c), s.a, c)
  }

  /** The macro `mix`. */
  function Mix(s: ABC): ABC {
    MixStep(MixStep(MixStep(MixStep(MixStep(MixStep(s, 4), 6), 8), 16), 19), 4)
  }

  function Unmix(s: ABC): ABC {
    UnmixStep(UnmixStep(UnmixStep(UnmixStep(UnmixStep(UnmixStep(s, 4), 19), 16), 8), 6), 4)
  }

  /** One line pair of `final`: x ^= w; x -= rot(w, k), with x in `c` and w in
      `b`; the result is arranged for the next pair. */
  function FinalStep(s: ABC, k: nat): ABC
    requires 0 < k < 32
  {
    ABC(s.b, Minus(XorW(s.c, s.b), Rot(s.b, k)), s.a)
  }

  function UnfinalStep(s: ABC, k: nat): ABC
    requires 0 < k < 32
  {
    ABC(s.c, s.a, XorW(Plus(s.b, Rot(s.a, k)), s.a))
  }

  /** Undoes the turn of roles left over after seven steps. */
  function TurnBack(s: ABC): ABC { ABC(s.c, s.a, s.b) }

  function Turn(s: ABC): ABC { ABC(s.b, s.c, s.a) }

  /** The macro `final`. */
  function Final(s: ABC): ABC {
    TurnBack(FinalStep(FinalStep(FinalStep(FinalStep(FinalStep(FinalStep(FinalStep(s, 14), 11), 25), 16), 4), 14), 24))
  }

  function Unfinal(s: ABC): ABC {
    UnfinalStep(UnfinalStep(UnfinalStep(UnfinalStep(UnfinalStep(UnfinalStep(UnfinalStep(Turn(s), 24), 14), 4), 16), 25), 11), 14)
  }

  lemma {:induction false} MixStepInverse(s: ABC, k: nat)
    requires 0 < k < 32
    ensures UnmixStep(MixStep(s, k), k) == s && MixStep(UnmixStep(s, k), k) == s
  {
    hide Rot, Plus, Minus, XorW;
    PlusMinus(s.c, s.b);
    XorWTwice(Minus(s.a, s.c), Rot(s.c, k));
    PlusMinus(s.a, s.c);
    var c := Minus(s.b, s.a);
    PlusMinus(s.b, s.a);
    PlusMinus(XorW(s.c, Rot(c, k)), c);
    XorWTwice(s.c, Rot(c, k));
  }

  lemma {:induction false} FinalStepInverse(s: ABC, k: nat)
    requires 0 < k < 32
    ensures UnfinalStep(FinalStep(s, k), k) == s && FinalStep(UnfinalStep(s, k), k) == s
  {
    hide Rot, Plus, Minus, XorW;
    PlusMinus(XorW(s.c, s.b), Rot(s.b, k));
    XorWTwice(s.c, s.b);
    XorWTwice(Plus(s.b, Rot(s.a, k)), s.a);
    PlusMinus(s.b, Rot(s.a, k));
  }

  /** `mix` loses nothing: it is a bijection with this inverse. */
  lemma {:induction false} MixInverse(s: ABC)
    ensures Unmix(Mix(s)) == s && Mix(Unmix(s)) == s
  {
    hide MixStep, UnmixStep;
    var s1 := MixStep(s, 4);
    var s2 := MixStep(s1, 6);
    var s3 := MixStep(s2, 8);
    var s4 := MixStep(s3, 16);
    var s5 := MixStep(s4, 19);
    MixStepInverse(s, 4);
    MixStepInverse(s1, 6);
    MixStepInverse(s2, 8);
    MixStepInverse(s3, 16);
    MixStepInverse(s4, 19);
    MixStepInverse(s5, 4);
    var t1 := UnmixStep(s, 4);
    var t2 := UnmixStep(t1, 19);
    var t3 := UnmixStep(t2, 16);
    var t4 := UnmixStep(t3, 8);
    var t5 := UnmixStep(t4, 6);
    MixStepInverse(t1, 19);
    MixStepInverse(t2, 16);
    MixStepInverse(t3, 8);
    MixStepInverse(t4, 6);
    MixStepInverse(t5, 4);
  }

  /** So is `final`. */
  lemma {:induction false} FinalInverse(s: ABC)
    ensures Unfinal(Final(s)) == s && Final(Unfinal(s)) == s
  {
    hide FinalStep, UnfinalStep;
    var s1 := FinalStep(s, 14);
    var s2 := FinalStep(s1, 11);
    var s3 := FinalStep(s2, 25);
    var s4 := FinalStep(s3, 16);
    var s5 := FinalStep(s4, 4);
    var s6 := FinalStep(s5, 14);
    FinalStepInverse(s, 14);
    FinalStepInverse(s1, 11);
    FinalStepInverse(s2, 25);
    FinalStepInverse(s3, 16);
    FinalStepInverse(s4, 4);
    FinalStepInverse(s5, 14);
    FinalStepInverse(s6, 24);
    var t := Turn(s);
    var t1 := UnfinalStep(t, 24);
    var t2 := UnfinalStep(t1, 14);
    var t3 := UnfinalStep(t2, 4);
    var t4 := UnfinalStep(t3, 16);
    var t5 := UnfinalStep(t4, 25);
    var t6 := UnfinalStep(t5, 11);
    FinalStepInverse(t, 24);
    FinalStepInverse(t1, 14);
    FinalStepInverse(t2, 4);
    FinalStepInverse(t3, 16);
    FinalStepInverse(t4, 25);
    FinalStepInverse(t5, 11);
    FinalStepInverse(t6, 14);
  }

  /** The macro `mix`, assignment by assignment. */
  method MixMacro(a0: Word, b0: Word, c0: Word) returns (a: Word, b: Word, c: Word)
    ensures ABC(a, b, c) == Mix(ABC(a0, b0, c0))
  {
    hide Rot, Plus, Minus, XorW;
    a, b, c := a0, b0, c0;
    a := Minus(a, c);
    a := XorW(a, Rot(c, 4));
    c := Plus(c, b);
    b := Minus(b, a);
    b := XorW(b, Rot(a, 6));
    a := Plus(a, c);
    c := Minus(c, b);
    c := XorW(c, Rot(b, 8));
    b := Plus(b, a);
    a := Minus(a, c);
    a := XorW(a, Rot(c, 16));
    c := Plus(c, b);
    b := Minus(b, a);
    b := XorW(b, Rot(a, 19));
    a := Plus(a, c);
    c := Minus(c, b);
    c := XorW(c, Rot(b, 4));
    b := Plus(b, a);
  }

  /** The macro `final`, assignment by assignment. */
  method FinalMacro(a0: Word, b0: Word, c0: Word) returns (a: Word, b: Word, c: Word)
    ensures ABC(a, b, c) == Final(ABC(a0, b0, c0))
  {
    hide Rot, Plus, Minus, XorW;
    a, b, c := a0, b0, c0;
    c := XorW(c, b);
    c := Minus(c, Rot(b, 14));
    a := XorW(a, c);
    a := Minus(a, Rot(c, 11));
    b := XorW(b, a);
    b := Minus(b, Rot(a, 25));
    c := XorW(c, b);
    c := Minus(c, Rot(b, 16));
    a := XorW(a, c);
    a := Minus(a, Rot(c, 4));
    b := XorW(b, a);
    b := Minus(b, Rot(a, 14));
    c := XorW(c, b);
    c := Minus(c, Rot(b, 24));
  }

  // ---- fmix64 ----

  const M1: nat := 0xff51afd7ed558ccd
  const M2: nat := 0xc4ceb9fe1a85ec53
  const M1_INVERSE: nat := 0x4f74430c22a54005
  const M2_INVERSE: nat := 0x9cb4b2f8129337db

  /** k ^= k >> 33. */
  function ShiftMix(k: nat): nat { Xor(k, Shr(k, 33)) }

  function Fmix64(k: nat): nat {
    ShiftMix(U64(ShiftMix(U64(ShiftMix(k) * M1)) * M2))
  }

  /** `fmix64`, assignment by assignment. */
  method FmixSteps(k0: nat) returns (k: nat)
    ensures k == Fmix64(k0)
  {
    hide Xor, Shr, U64;
    Pow2ThirtyThree();
    k := k0;
    ShrDivides(k, 33);
    k := Xor(k, k / 0x2_0000_0000);
    k := U64(k * 0xff51afd7ed558ccd);
    ShrDivides(k, 33);
    k := Xor(k, k / 0x2_0000_0000);
    k := U64(k * 0xc4ceb9fe1a85ec53);
    ShrDivides(k, 33);
    k := Xor(k, k / 0x2_0000_0000);
  }

  lemma {:induction false} Pow2ThirtyThree()
    ensures Pow2(33) == 0x2_0000_0000
  {
    hide Pow2;
    Pow2Thirty2();
    Pow2Step(33);
  }

  function Unfmix64(k: nat): nat {
    ShiftMix(U64(ShiftMix(U64(ShiftMix(k) * M2_INVERSE)) * M1_INVERSE))
  }

  /** Shifting by more than half the width makes the step its own inverse. */
  lemma {:induction false} ShiftMixTwice(k: nat)
    requires k < TWO64
    ensures ShiftMix(k) < TWO64 && ShiftMix(ShiftMix(k)) == k
  {
    hide Pow2, Xor, Shr;
    Pow2Sixty4();
    var h := Shr(k, 33);
    XorBound(k, h, 64);
    XorShr(k, h, 33);
    ShrAdd(k, 33, 33);
    ShrAdd(k, 64, 2);
    ShrAll(k, 64);
    assert Shr(0, 2) == 0;
    XorZero(h);
    XorTwice(k, h);
  }

  /** Multiplication by an odd constant is undone by its inverse modulo 2^64. */
  lemma {:induction false} MultiplyBack(k: nat, m: nat, inverse: nat, q: nat)
    requires k < TWO64 && m * inverse == q * TWO64 + 1
    ensures U64(U64(k * m) * inverse) == k
  {
    var t := k * m / 0x1_0000_0000_0000_0000;
    assert U64(k * m) == k * m - t * TWO64;
    var n := U64(k * m) * inverse;
    assert n == (k * q - t * inverse) * TWO64 + k by {
      assert n == (k * m) * inverse - (t * TWO64) * inverse;
      assert (k * m) * inverse == k * (m * inverse);
      assert k * (q * TWO64 + 1) == (k * q) * TWO64 + k;
      assert (t * TWO64) * inverse == (t * inverse) * TWO64;
    }
    ModUnique(n, k * q - t * inverse, TWO64, k);
  }

  /** `fmix64` is a permutation of the 64-bit values. */
  lemma {:induction false} Fmix64Inverse(k: nat)
    requires k < TWO64
    ensures Fmix64(k) < TWO64 && Unfmix64(Fmix64(k)) == k && Fmix64(Unfmix64(k)) == k
  {
    hide ShiftMix;
    assert M1 * M1_INVERSE == (M1 * M1_INVERSE / 0x1_0000_0000_0000_0000) * TWO64 + 1;
    assert M2 * M2_INVERSE == (M2 * M2_INVERSE / 0x1_0000_0000_0000_0000) * TWO64 + 1;
    UndoFmix(k, M1, M2, M1_INVERSE, M2_INVERSE);
    UndoFmix(k, M2_INVERSE, M1_INVERSE, M2, M1);
  }

  lemma {:induction false} UndoFmix(k: nat, m1: nat, m2: nat, i1: nat, i2: nat)
    requires k < TWO64
    requires exists q: nat :: m1 * i1 == q * TWO64 + 1
    requires exists q: nat :: m2 * i2 == q * TWO64 + 1
    ensures var r := ShiftMix(U64(ShiftMix(U64(ShiftMix(k) * m1)) * m2));
            r < TWO64 && ShiftMix(U64(ShiftMix(U64(ShiftMix(r) * i2)) * i1)) == k
  {
    hide ShiftMix, U64;
    var q1: nat :| m1 * i1 == q1 * TWO64 + 1;
    var q2: nat :| m2 * i2 == q2 * TWO64 + 1;
    ShiftMixTwice(k);
    var x := ShiftMix(k);
    MultiplyBack(x, m1, i1, q1);
    var y := U64(x * m1);
    U64Bound(x * m1);
    ShiftMixTwice(y);
    var z := ShiftMix(y);
    MultiplyBack(z, m2, i2, q2);
    var w := U64(z * m2);
    U64Bound(z * m2);
    ShiftMixTwice(w);
  }

  lemma {:induction false} U64Bound(n: int)
    ensures 0 <= U64(n) < TWO64
  {
  }

  // ---- The hash of a byte string ----

  const INITVAL: nat := 13

  /** Byte `i` of the key; zero past its end. */
  function B(key: seq<Byte>, i: nat): Byte { if i < |key| then key[i] else 0 }

  /** The little-endian word at `i` of the key padded with zeros. */
  function W(key: seq<Byte>, i: nat): Word {
    B(key, i) as int + 0x100 * B(key, i + 1) as int + 0x1_0000 * B(key, i + 2) as int + 0x100_0000 * B(key, i + 3) as int
  }

  /** Twelve bytes of the key are added to the state. */
  function Absorb(s: ABC, key: seq<Byte>, at: nat): ABC {
    ABC(Plus(s.a, W(key, at)), Plus(s.b, W(key, at + 4)), Plus(s.c, W(key, at + 8)))
  }

  /** The rest of the hash from position `at` on: all blocks but the last are
      mixed, the last one, possibly partial, is finalized. */
  function Lookup3(s: ABC, key: seq<Byte>, at: nat): Word
    requires at <= |key|
    decreases |key| - at
  {
    if |key| - at > 12 then Lookup3(Mix(Absorb(s, key, at)), key, at + 12)
    else Final(Absorb(s, key, at)).c
  }

  function Init(len: nat, initval: nat): Word { (0xdeadbeef + len % 0x1_0000_0000 + initval) % 0x1_0000_0000 }

  /** lookup3 with any initial value. */
  function HashFrom(key: seq<Byte>, initval: nat): Word {
    var i := Init(|key|, initval);
    if |key| == 0 then i else Lookup3(ABC(i, i, i), key, 0)
  }

  /** The hash as the source seeds it. */
  function Hash(key: seq<Byte>): Word { HashFrom(key, INITVAL) }

  /** a = b = c = 0xdeadbeef + (uint32_t)length + JENKINS_INITVAL. */
  lemma {:induction false} SeedIs(len: nat)
    ensures Plus(Plus(0xdeadbeef, len % 0x1_0000_0000), 13) == Init(len, INITVAL)
  {
  }

  // ---- 32-bit reads ----

  lemma {:induction false} Masks(w: Word)
    ensures And(w, 0xff) == w % 0x100 && And(w, 0xffff) == w % 0x1_0000 && And(w, 0xff_ffff) == w % 0x100_0000
  {
    hide And, Pow2;
    Pow2Byte(0);
    Pow2Byte(8);
    Pow2Byte(16);
    Pow2Step(0);
    AndBelow(w, 8);
    AndBelow(w, 16);
    AndBelow(w, 24);
  }

  /** The word at `i` of memory, cut to the `n` bytes that belong to the key. */
  function Cut(mem: seq<Byte>, i: nat, n: int): Word
    requires n > 0 ==> i + 4 <= |mem|
  {
    if n <= 0 then 0
    else if n == 1 then LE32(mem, i) % 0x100
    else if n == 2 then LE32(mem, i) % 0x1_0000
    else if n == 3 then LE32(mem, i) % 0x100_0000
    else LE32(mem, i)
  }

  lemma {:induction false} CutIsWord(mem: seq<Byte>, len: nat, i: nat)
    requires len <= |mem| && (i < len ==> i + 4 <= |mem|)
    ensures Cut(mem, i, len - i) == W(mem[..len], i)
  {
    hide LE32;
    if i < len {
      LoadCut(mem, i);
      assert forall j :: 0 <= j < len ==> mem[..len][j] == mem[j];
    }
  }

  /** The low bytes of a loaded word. */
  lemma {:induction false} LoadCut(mem: seq<Byte>, i: nat)
    requires i + 4 <= |mem|
    ensures var two := mem[i] as int + 0x100 * mem[i + 1] as int;
            var three := two + 0x1_0000 * mem[i + 2] as int;
            && LE32(mem, i) == three + 0x100_0000 * mem[i + 3] as int
            && LE32(mem, i) % 0x100 == mem[i] && LE32(mem, i) % 0x1_0000 == two && LE32(mem, i) % 0x100_0000 == three
  {
    var a, b, c, d := mem[i] as int, mem[i + 1] as int, mem[i + 2] as int, mem[i + 3] as int;
    CutOne(a, b + 0x100 * c + 0x1_0000 * d);
    CutTwo(a + 0x100 * b, c + 0x100 * d);
    CutThree(a + 0x100 * b + 0x1_0000 * c, d);
  }

  lemma {:induction false} CutOne(x: nat, rest: nat)
    requires x < 0x100
    ensures (x + 0x100 * rest) % 0x100 == x
  {
  }

  lemma {:induction false} CutTwo(x: nat, rest: nat)
    requires x < 0x1_0000
    ensures (x + 0x1_0000 * rest) % 0x1_0000 == x
  {
  }

  lemma {:induction false} CutThree(x: nat, rest: nat)
    requires x < 0x100_0000
    ensures (x + 0x100_0000 * rest) % 0x100_0000 == x
  {
  }

  lemma {:induction false} PlusNothing(x: Word)
    ensures Plus(x, 0) == x
  {
  }

  /** The last block of the 32-bit body: whole words, the last one masked. */
  method WordTail(mem: seq<Byte>, len: nat, at: nat, s: ABC) returns (r: ABC)
    requires at < len <= at + 12 && at % 4 == 0 && (len + 3) / 4 * 4 <= |mem|
    ensures r == Absorb(s, mem[..len], at)
  {
    hide Plus, LE32, W, And;
    var a, b, c := s.a, s.b, s.c;
    var n := len - at;
    PlusNothing(b);
    PlusNothing(c);
    CutIsWord(mem, len, at);
    CutIsWord(mem, len, at + 4);
    CutIsWord(mem, len, at + 8);
    var k0 := LE32(mem, at);
    Masks(k0);
    if n >= 9 {
      var k1, k2 := LE32(mem, at + 4), LE32(mem, at + 8);
      Masks(k2);
      if n == 12 {
        c := Plus(c, k2);
      } else if n == 11 {
        c := Plus(c, And(k2, 0xff_ffff));
      } else if n == 10 {
        c := Plus(c, And(k2, 0xffff));
      } else {
        c := Plus(c, And(k2, 0xff));
      }
      b := Plus(b, k1);
      a := Plus(a, k0);
    } else if n >= 5 {
      var k1 := LE32(mem, at + 4);
      Masks(k1);
      if n == 8 {
        b := Plus(b, k1);
      } else if n == 7 {
        b := Plus(b, And(k1, 0xff_ffff));
      } else if n == 6 {
        b := Plus(b, And(k1, 0xffff));
      } else {
        b := Plus(b, And(k1, 0xff));
      }
      a := Plus(a, k0);
    } else if n == 4 {
      a := Plus(a, k0);
    } else if n == 3 {
      a := Plus(a, And(k0, 0xff_ffff));
    } else if n == 2 {
      a := Plus(a, And(k0, 0xffff));
    } else {
      a := Plus(a, And(k0, 0xff));
    }
    r := ABC(a, b, c);
  }

  /** The body for keys on a 4-byte boundary. It reads whole words, up to three
      bytes past the key, and the result does not depend on those. */
  method HashWords(mem: seq<Byte>, len: nat) returns (r: Word)
    requires (len + 3) / 4 * 4 <= |mem|
    ensures r == Hash(mem[..len])
  {
    hide Mix, Final, Plus, LE32, W, Init;
    ghost var key := mem[..len];
    var i := Plus(Plus(0xdeadbeef, len % 0x1_0000_0000), 13);
    SeedIs(len);
    var s := ABC(i, i, i);
    var at, left := 0, len;
    while left > 12
      invariant 0 <= at && 0 <= left && at % 4 == 0 && at + left == len && (len > 0 ==> left > 0)
      invariant len > 0 ==> Lookup3(s, key, at) == Hash(key)
      invariant len == 0 ==> s == ABC(i, i, i)
    {
      CutIsWord(mem, len, at);
      CutIsWord(mem, len, at + 4);
      CutIsWord(mem, len, at + 8);
      s := Mix(ABC(Plus(s.a, LE32(mem, at)), Plus(s.b, LE32(mem, at + 4)), Plus(s.c, LE32(mem, at + 8))));
      left, at := left - 12, at + 12;
    }
    if left == 0 {
      return s.c;
    }
    s := WordTail(mem, len, at, s);
    r := Final(s).c;
  }

  // ---- 16-bit reads ----

  lemma {:induction false} PlusPlus(x: Word, u: int, v: int)
    ensures Plus(Plus(x, u), v) == Plus(x, u + v)
  {
  }

  /** A word from two halves: k[i] + (((uint32_t) k[i + 1]) << 16). */
  function Halves(mem: seq<Byte>, i: nat): (w: Word)
    requires i + 4 <= |mem|
    ensures w == LE32(mem, i)
  {
    LE16(mem, i) + 0x1_0000 * LE16(mem, i + 2)
  }

  /** What is added for the last, partial word of `n` bytes at `i`. */
  function HalfCut(mem: seq<Byte>, i: nat, n: int): int
    requires i + n <= |mem|
  {
    if n <= 0 then 0
    else if n == 1 then mem[i]
    else if n == 2 then LE16(mem, i)
    else if n == 3 then 0x1_0000 * mem[i + 2] as int + LE16(mem, i)
    else LE32(mem, i)
  }

  lemma {:induction false} HalfCutIsWord(mem: seq<Byte>, len: nat, i: nat)
    requires len <= |mem|
    ensures HalfCut(mem, i, len - i) == W(mem[..len], i)
  {
  }

  /** The last block of the 16-bit body; its odd cases fall through. */
  method HalfTail(mem: seq<Byte>, len: nat, at: nat, s: ABC) returns (r: ABC)
    requires at < len <= at + 12 && len <= |mem|
    ensures r == Absorb(s, mem[..len], at)
  {
    hide Plus, LE32, LE16, W;
    var a, b, c := s.a, s.b, s.c;
    var n := len - at;
    PlusNothing(b);
    PlusNothing(c);
    HalfCutIsWord(mem, len, at);
    HalfCutIsWord(mem, len, at + 4);
    HalfCutIsWord(mem, len, at + 8);
    if n >= 8 {
      if n == 12 {
        c := Plus(c, Halves(mem, at + 8));
      } else if n == 11 {
        PlusPlus(c, 0x1_0000 * mem[at + 10] as int, LE16(mem, at + 8));
        c := Plus(c, 0x1_0000 * mem[at + 10] as int);
        c := Plus(c, LE16(mem, at + 8));
      } else if n == 10 {
        c := Plus(c, LE16(mem, at + 8));
      } else if n == 9 {
        c := Plus(c, mem[at + 8]);
      }
      b := Plus(b, Halves(mem, at + 4));
      a := Plus(a, Halves(mem, at));
    } else if n >= 4 {
      if n == 7 {
        PlusPlus(b, 0x1_0000 * mem[at + 6] as int, LE16(mem, at + 4));
        b := Plus(b, 0x1_0000 * mem[at + 6] as int);
        b := Plus(b, LE16(mem, at + 4));
      } else if n == 6 {
        b := Plus(b, LE16(mem, at + 4));
      } else if n == 5 {
        b := Plus(b, mem[at + 4]);
      }
      a := Plus(a, Halves(mem, at));
    } else if n == 3 {
      PlusPlus(a, 0x1_0000 * mem[at + 2] as int, LE16(mem, at));
      a := Plus(a, 0x1_0000 * mem[at + 2] as int);
      a := Plus(a, LE16(mem, at));
    } else if n == 2 {
      a := Plus(a, LE16(mem, at));
    } else {
      a := Plus(a, mem[at]);
    }
    r := ABC(a, b, c);
  }

  /** The body for keys on a 2-byte boundary. */
  method HashHalves(mem: seq<Byte>, len: nat) returns (r: Word)
    requires len <= |mem|
    ensures r == Hash(mem[..len])
  {
    hide Mix, Final, Plus, LE32, W, Init;
    ghost var key := mem[..len];
    var i := Plus(Plus(0xdeadbeef, len % 0x1_0000_0000), 13);
    SeedIs(len);
    var s := ABC(i, i, i);
    var at, left := 0, len;
    while left > 12
      invariant 0 <= at && 0 <= left && at + left == len && (len > 0 ==> left > 0)
      invariant len > 0 ==> Lookup3(s, key, at) == Hash(key)
      invariant len == 0 ==> s == ABC(i, i, i)
    {
      HalfCutIsWord(mem, len, at);
      HalfCutIsWord(mem, len, at + 4);
      HalfCutIsWord(mem, len, at + 8);
      s := Mix(ABC(Plus(s.a, Halves(mem, at)), Plus(s.b, Halves(mem, at + 4)), Plus(s.c, Halves(mem, at + 8))));
      left, at := left - 12, at + 12;
    }
    if left == 0 {
      return s.c;
    }
    s := HalfTail(mem, len, at, s);
    r := Final(s).c;
  }

  // ---- Byte reads ----

  /** Four byte-wise additions, low byte first, add the word. */
  lemma {:induction false} ByteSum(x: Word, b0: Byte, b1: Byte, b2: Byte, b3: Byte)
    ensures Plus(Plus(Plus(Plus(x, b0), 0x100 * b1 as int), 0x1_0000 * b2 as int), 0x100_0000 * b3 as int)
            == Plus(x, b0 as int + 0x100 * b1 as int + 0x1_0000 * b2 as int + 0x100_0000 * b3 as int)
  {
    hide Plus;
    PlusPlus(x, b0, 0x100 * b1 as int);
    PlusPlus(x, b0 as int + 0x100 * b1 as int, 0x1_0000 * b2 as int);
    PlusPlus(x, b0 as int + 0x100 * b1 as int + 0x1_0000 * b2 as int, 0x100_0000 * b3 as int);
  }

  /** So do additions high byte first. */
  lemma {:induction false} ByteSumDown(x: Word, b0: Byte, b1: Byte, b2: Byte, b3: Byte)
    ensures Plus(Plus(Plus(Plus(x, 0x100_0000 * b3 as int), 0x1_0000 * b2 as int), 0x100 * b1 as int), b0)
            == Plus(x, b0 as int + 0x100 * b1 as int + 0x1_0000 * b2 as int + 0x100_0000 * b3 as int)
  {
    hide Plus;
    PlusPlus(x, 0x100_0000 * b3 as int, 0x1_0000 * b2 as int);
    PlusPlus(x, 0x100_0000 * b3 as int + 0x1_0000 * b2 as int, 0x100 * b1 as int);
    PlusPlus(x, 0x100_0000 * b3 as int + 0x1_0000 * b2 as int + 0x100 * b1 as int, b0);
  }

  /** a += k[0]; a += k[1] << 8; a += k[2] << 16; a += k[3] << 24. */
  method AddBytes(x: Word, key: seq<Byte>, i: nat) returns (r: Word)
    requires i + 4 <= |key|
    ensures r == Plus(x, W(key, i))
  {
    hide Plus;
    ByteSum(x, key[i], key[i + 1], key[i + 2], key[i + 3]);
    r := Plus(x, key[i]);
    r := Plus(r, 0x100 * key[i + 1] as int);
    r := Plus(r, 0x1_0000 * key[i + 2] as int);
    r := Plus(r, 0x100_0000 * key[i + 3] as int);
  }

  /** The fall-through additions for one word of the last block, high byte
      first, for as many bytes as the key still has. */
  method AddBytesDown(x: Word, key: seq<Byte>, i: nat) returns (r: Word)
    ensures r == Plus(x, W(key, i))
  {
    hide Plus;
    ByteSumDown(x, B(key, i), B(key, i + 1), B(key, i + 2), B(key, i + 3));
    PlusNothing(x);
    PlusNothing(Plus(x, 0x100_0000 * B(key, i + 3) as int));
    PlusNothing(Plus(Plus(x, 0x100_0000 * B(key, i + 3) as int), 0x1_0000 * B(key, i + 2) as int));
    PlusNothing(Plus(Plus(Plus(x, 0x100_0000 * B(key, i + 3) as int), 0x1_0000 * B(key, i + 2) as int), 0x100 * B(key, i + 1) as int));
    r := x;
    if i + 3 < |key| {
      r := Plus(r, 0x100_0000 * key[i + 3] as int);
    }
    if i + 2 < |key| {
      r := Plus(r, 0x1_0000 * key[i + 2] as int);
    }
    if i + 1 < |key| {
      r := Plus(r, 0x100 * key[i + 1] as int);
    }
    if i < |key| {
      r := Plus(r, key[i]);
    }
  }

  /** The body for unaligned keys. */
  method HashBytes(key: seq<Byte>) returns (r: Word)
    ensures r == Hash(key)
  {
    hide Mix, Final, Plus, W, Init;
    var i := Plus(Plus(0xdeadbeef, |key| % 0x1_0000_0000), 13);
    SeedIs(|key|);
    var s := ABC(i, i, i);
    var at, left := 0, |key|;
    while left > 12
      invariant 0 <= at && 0 <= left && at + left == |key| && (key != [] ==> left > 0)
      invariant key != [] ==> Lookup3(s, key, at) == Hash(key)
      invariant key == [] ==> s == ABC(i, i, i)
    {
      var a := AddBytes(s.a, key, at);
      var b := AddBytes(s.b, key, at + 4);
      var c := AddBytes(s.c, key, at + 8);
      s := Mix(ABC(a, b, c));
      left, at := left - 12, at + 12;
    }
    if left == 0 {
      return s.c;
    }
    var c := AddBytesDown(s.c, key, at + 8);
    var b := AddBytesDown(s.b, key, at + 4);
    var a := AddBytesDown(s.a, key, at);
    assert ABC(a, b, c) == Absorb(s, key, at);
    r := Final(ABC(a, b, c)).c;
  }

  /** `c_hash_jenkins` on a key of `len` bytes at the given address: the result
      is the hash of those bytes, whatever the alignment and whatever follows
      them in memory. */
  method HashAt(address: nat, mem: seq<Byte>, len: nat) returns (r: Word)
    requires len <= |mem| && (address % 4 == 0 ==> (len + 3) / 4 * 4 <= |mem|)
    ensures r == Hash(mem[..len])
  {
    if address % 4 == 0 {
      r := HashWords(mem, len);
    } else if address % 2 == 0 {
      r := HashHalves(mem, len);
    } else {
      r := HashBytes(mem[..len]);
    }
  }

  // ---- Nothing is lost on short keys ----

  /** The state after `final` of a key of at most twelve bytes. */
  function ShortState(key: seq<Byte>): ABC {
    var i := Init(|key|, INITVAL);
    Final(Absorb(ABC(i, i, i), key, 0))
  }

  lemma {:induction false} WordBytes(key: seq<Byte>, other: seq<Byte>, i: nat)
    requires |key| == |other| && W(key, i) == W(other, i)
    ensures forall j :: i <= j < i + 4 && j < |key| ==> key[j] == other[j]
  {
    hide B;
    LoadInjective(B(key, i), B(key, i + 1), B(key, i + 2), B(key, i + 3),
                  B(other, i), B(other, i + 1), B(other, i + 2), B(other, i + 3));
    forall j | i <= j < i + 4 && j < |key| ensures key[j] == other[j] {
      InKey(key, j);
      InKey(other, j);
    }
  }

  lemma {:induction false} InKey(key: seq<Byte>, j: nat)
    requires j < |key|
    ensures B(key, j) == key[j]
  {
  }

  lemma {:induction false} LoadInjective(a: Byte, b: Byte, c: Byte, d: Byte, a': Byte, b': Byte, c': Byte, d': Byte)
    requires a as int + 0x100 * b as int + 0x1_0000 * c as int + 0x100_0000 * d as int
          == a' as int + 0x100 * b' as int + 0x1_0000 * c' as int + 0x100_0000 * d' as int
    ensures a == a' && b == b' && c == c' && d == d'
  {
    var r, r' := b as int + 0x100 * c as int + 0x1_0000 * d as int, b' as int + 0x100 * c' as int + 0x1_0000 * d' as int;
    LowByte(a, r, a', r');
    LowByte(b, c as int + 0x100 * d as int, b', c' as int + 0x100 * d' as int);
    LowByte(c, d, c', d');
  }

  lemma {:induction false} LowByte(x: Byte, rest: nat, x': Byte, rest': nat)
    requires x as int + 0x100 * rest == x' as int + 0x100 * rest'
    ensures x == x' && rest == rest'
  {
  }

  lemma {:induction false} PlusInjective(x: Word, u: Word, v: Word)
    requires Plus(x, u) == Plus(x, v)
    ensures u == v
  {
  }

  /** Keys of equal length up to twelve bytes reach the same final state only
      if they are equal. */
  lemma {:induction false} ShortKeysInjective(key: seq<Byte>, other: seq<Byte>)
    requires |key| == |other| <= 12 && ShortState(key) == ShortState(other)
    ensures key == other
  {
    hide Final, Unfinal, Plus, W, Init;
    var i := Init(|key|, INITVAL);
    var s := ABC(i, i, i);
    FinalInverse(Absorb(s, key, 0));
    FinalInverse(Absorb(s, other, 0));
    PlusInjective(i, W(key, 0), W(other, 0));
    PlusInjective(i, W(key, 4), W(other, 4));
    PlusInjective(i, W(key, 8), W(other, 8));
    WordBytes(key, other, 0);
    WordBytes(key, other, 4);
    WordBytes(key, other, 8);
  }
}
