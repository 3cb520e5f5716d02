/** Exclusive or on naturals, and the word operations of the hash functions
    that undo each other. */
module Bits {
  import opened Machine

  function Xor(a: nat, b: nat): nat {
    if a == 0 && b == 0 then 0
    else 2 * Xor(a / 2, b / 2) + (if a % 2 == b % 2 then 0 else 1)
  }

  lemma {:induction false} XorHalf(a: nat, b: nat)
    ensures Xor(a, b) / 2 == Xor(a / 2, b / 2)
    ensures Xor(a, b) % 2 == if a % 2 == b % 2 then 0 else 1
  {
  }

  lemma {:induction false} XorZero(a: nat)
    ensures Xor(a, 0) == a && Xor(0, a) == a
  {
    if a > 0 {
      XorZero(a / 2);
    }
  }

  /** Applying the same mask twice changes nothing. */
  lemma {:induction false} XorTwice(a: nat, b: nat)
    ensures Xor(Xor(a, b), b) == a
    decreases a + b
  {
    if a > 0 || b > 0 {
      XorHalf(a, b);
      XorTwice(a / 2, b / 2);
      XorHalf(Xor(a, b), b);
    }
  }

  lemma {:induction false} XorBound(a: nat, b: nat, k: nat)
    requires a < Pow2(k) && b < Pow2(k)
    ensures Xor(a, b) < Pow2(k)
    decreases k
  {
    if k > 0 {
      XorHalf(a, b);
      XorBound(a / 2, b / 2, k - 1);
    }
  }

  lemma {:induction false} XorSwap(a: nat, b: nat, c: nat)
    ensures Xor(Xor(a, b), c) == Xor(Xor(a, c), b)
    decreases a + b + c
  {
    if a > 0 || b > 0 || c > 0 {
      XorHalf(a, b);
      XorHalf(a, c);
      XorHalf(Xor(a, b), c);
      XorHalf(Xor(a, c), b);
      XorSwap(a / 2, b / 2, c / 2);
    }
  }

  /** Shift right. */
  function Shr(n: nat, k: nat): (r: nat)
    ensures r <= n
    decreases k
  {
    if k == 0 then n else Shr(n / 2, k - 1)
  }

  lemma {:induction false} ShrAdd(n: nat, j: nat, k: nat)
    ensures Shr(Shr(n, j), k) == Shr(n, j + k)
    decreases j
  {
    if j > 0 {
      ShrAdd(n / 2, j - 1, k);
    }
  }

  lemma {:induction false} ShrAll(n: nat, k: nat)
    requires n < Pow2(k)
    ensures Shr(n, k) == 0
    decreases k
  {
    if k > 0 {
      ShrAll(n / 2, k - 1);
    }
  }

  /** Shifting right commutes with exclusive or. */
  lemma {:induction false} XorShr(a: nat, b: nat, k: nat)
    ensures Shr(Xor(a, b), k) == Xor(Shr(a, k), Shr(b, k))
    decreases k
  {
    if k > 0 {
      XorHalf(a, b);
      XorShr(a / 2, b / 2, k - 1);
    }
  }

  /** Bitwise or. */
  function Or(a: nat, b: nat): nat {
    if a == 0 && b == 0 then 0
    else 2 * Or(a / 2, b / 2) + (if a % 2 == 0 == b % 2 then 0 else 1)
  }

  lemma {:induction false} OrBound(a: nat, b: nat, k: nat)
    requires a < Pow2(k) && b < Pow2(k)
    ensures Or(a, b) < Pow2(k)
    decreases k
  {
    if k > 0 {
      OrBound(a / 2, b / 2, k - 1);
    }
  }

  lemma {:induction false} Pow2Sixty4()
    ensures Pow2(64) == TWO64
  {
    Pow2Thirty2();
    Pow2Byte(32);
    Pow2Byte(40);
    Pow2Byte(48);
    Pow2Byte(56);
  }

  lemma {:induction false} Pow2Byte(k: nat)
    ensures Pow2(k + 8) == 0x100 * Pow2(k)
  {
    assert Pow2(k + 2) == 4 * Pow2(k);
    assert Pow2(k + 4) == 4 * Pow2(k + 2);
    assert Pow2(k + 6) == 4 * Pow2(k + 4);
  }

  // ---- 32-bit words ----

  type Word = x: int | 0 <= x < 0x1_0000_0000

  function Plus(x: int, y: int): Word { (x + y) % 0x1_0000_0000 }

  function Minus(x: int, y: int): Word { (x - y) % 0x1_0000_0000 }

  function XorW(x: Word, y: Word): Word {
    Pow2Thirty2();
    XorBound(x, y, 32);
    Xor(x, y)
  }

  /** Shift left, dropping what leaves the word. */
  function Shl(x: Word, k: nat): Word { x * Pow2(k) % 0x1_0000_0000 }

  /** The macro `rot`. */
  function Rot(x: Word, k: nat): Word
    requires 0 < k < 32
  {
    Pow2Thirty2();
    OrBound(Shl(x, k), Shr(x, 32 - k), 32);
    Or(Shl(x, k), Shr(x, 32 - k))
  }

  lemma {:induction false} PlusMinus(x: Word, y: Word)
    ensures Minus(Plus(x, y), y) == x && Plus(Minus(x, y), y) == x
  {
    hide Plus, Minus;
    PlusThenMinus(x, y);
    MinusThenPlus(x, y);
  }

  lemma {:induction false} PlusThenMinus(x: Word, y: Word)
    ensures Minus(Plus(x, y), y) == x
  {
    assert Plus(x, y) == if x + y < 0x1_0000_0000 then x + y else x + y - 0x1_0000_0000;
  }

  lemma {:induction false} MinusThenPlus(x: Word, y: Word)
    ensures Plus(Minus(x, y), y) == x
  {
    assert Minus(x, y) == if x >= y then x - y else x - y + 0x1_0000_0000;
  }

  lemma {:induction false} XorWTwice(x: Word, r: Word)
    ensures XorW(XorW(x, r), r) == x
  {
    XorTwice(x, r);
  }

  // ---- What a rotation is ----

  lemma {:induction false} ShrDivides(n: nat, k: nat)
    ensures Shr(n, k) == n / Pow2(k)
    decreases k
  {
    hide Pow2;
    Pow2Step(k);
    if k > 0 {
      ShrDivides(n / 2, k - 1);
      DivideTwice(n, Pow2(k - 1));
    } else {
      ModUnique(n, n, 1, 0);
    }
  }

  lemma {:induction false} DivideTwice(n: nat, p: nat)
    requires p >= 1
    ensures n / 2 / p == n / (2 * p)
  {
    var h := n / 2;
    var q, r := h / p, h % p;
    assert n == q * (2 * p) + (2 * r + n % 2);
    ModUnique(n, q, 2 * p, 2 * r + n % 2);
  }

  lemma {:induction false} OrZero(a: nat)
    ensures Or(a, 0) == a
  {
    if a > 0 {
      OrZero(a / 2);
    }
  }

  lemma {:induction false} OrHalf(a: nat, b: nat)
    requires a % 2 == 0
    ensures Or(a, b) == 2 * Or(a / 2, b / 2) + b % 2
  {
  }

  /** Where no bits meet, or is addition. */
  lemma {:induction false} OrDisjoint(a: nat, b: nat, k: nat)
    requires a % Pow2(k) == 0 && b < Pow2(k)
    ensures Or(a, b) == a + b
    decreases k
  {
    hide Pow2, Or;
    Pow2Step(k);
    if k == 0 {
      OrZero(a);
    } else {
      HalveMod(a, Pow2(k - 1));
      OrHalf(a, b);
      OrDisjoint(a / 2, b / 2, k - 1);
    }
  }

  /** Scaling both the number and the modulus. */
  lemma {:induction false} ScaleMod(x: nat, p: nat, q: nat)
    requires p >= 1 && q >= 1
    ensures p * q >= 1 && x * p % (p * q) == p * (x % q)
  {
    var d, r := x / q, x % q;
    assert x == d * q + r;
    assert x * p == d * (p * q) + p * r by { Rearrange(d, q, r, p); }
    MulBelow(p, r, q);
    MulAtLeast(p, q);
    ModUnique(x * p, d, p * q, p * r);
  }

  lemma {:induction false} Rearrange(d: int, q: int, r: int, p: int)
    ensures (d * q + r) * p == d * (p * q) + p * r
  {
  }

  lemma {:induction false} MulBelow(p: nat, r: nat, q: nat)
    requires p >= 1 && r < q
    ensures p * r < p * q && p * q >= 1
  {
    assert p * q == p * r + p * (q - r);
    MulAtLeast(q - r, p);
  }

  lemma {:induction false} MulMod(p: nat, r: nat)
    requires p >= 1
    ensures p * r % p == 0
  {
    ModUnique(p * r, r, p, 0);
  }

  lemma {:induction false} QuotientBelow(x: nat, p: nat, q: nat)
    requires q >= 1 && x < p * q
    ensures x / q < p
  {
    var d := x / q;
    assert d * q <= x;
    if d >= p {
      MulMonotone(p, d, q);
    }
  }

  /** Rotating left by `k` moves the low bits up and brings the high ones round:
      nothing leaves the word. */
  lemma {:induction false} RotValue(x: Word, k: nat)
    requires 0 < k < 32
    ensures Rot(x, k) == Pow2(k) * (x % Pow2(32 - k)) + x / Pow2(32 - k)
    ensures Pow2(k) * (x % Pow2(32 - k)) == x * Pow2(k) % 0x1_0000_0000
  {
    hide Pow2, Shr, Or;
    var p, q := Pow2(k), Pow2(32 - k);
    Pow2Thirty2();
    Pow2Sum(k, 32 - k);
    ScaleMod(x, p, q);
    MulMod(p, x % q);
    ShrDivides(x, 32 - k);
    QuotientBelow(x, p, q);
    OrDisjoint(Shl(x, k), Shr(x, 32 - k), k);
  }

  /** The other rotation undoes it. */
  lemma {:induction false} RotBack(x: Word, k: nat)
    requires 0 < k < 32
    ensures Rot(Rot(x, k), 32 - k) == x
  {
    hide Pow2, Rot;
    var p, q := Pow2(k), Pow2(32 - k);
    RotValue(x, k);
    var y := Rot(x, k);
    RotValue(y, 32 - k);
    Pow2Thirty2();
    Pow2Sum(k, 32 - k);
    QuotientBelow(x, p, q);
    ModUnique(y, x % q, p, x / q);
  }

  // ---- Exclusive or, digit by digit ----

  /** Exclusive or of two hexadecimal digits. */
  function DigitXor(x: nat, y: nat): nat {
    (if (x >= 8) != (y >= 8) then 8 else 0) + (if (x % 8 >= 4) != (y % 8 >= 4) then 4 else 0)
    + (if (x % 4 >= 2) != (y % 4 >= 2) then 2 else 0) + (if x % 2 != y % 2 then 1 else 0)
  }

  lemma {:induction false} XorPair(u: nat, v: nat)
    requires u < 4 && v < 4
    ensures Xor(u, v) == (if (u >= 2) != (v >= 2) then 2 else 0) + (if u % 2 != v % 2 then 1 else 0)
  {
    hide Xor;
    XorEven(u / 2, v / 2, u % 2, v % 2);
    XorOne(u / 2, v / 2);
    XorOne(u % 2, v % 2);
  }

  lemma {:induction false} XorOne(u: nat, v: nat)
    requires u < 2 && v < 2
    ensures Xor(u, v) == if u != v then 1 else 0
  {
  }

  lemma {:induction false} XorDigit(x: nat, y: nat)
    requires x < 16 && y < 16
    ensures Xor(x, y) == DigitXor(x, y)
  {
    hide Xor;
    XorPairs(x / 4, y / 4, x % 4, y % 4);
    XorPair(x / 4, y / 4);
    XorPair(x % 4, y % 4);
    DigitParts(x);
    DigitParts(y);
  }

  lemma {:induction false} DigitParts(x: nat)
    requires x < 16
    ensures 4 * (x / 4) + x % 4 == x && (x / 4 >= 2 <==> x >= 8) && (x / 4 % 2 == 1 <==> x % 8 >= 4) && x % 4 % 2 == x % 2
  {
  }

  lemma {:induction false} XorEven(a: nat, b: nat, x: nat, y: nat)
    requires x < 2 && y < 2
    ensures Xor(2 * a + x, 2 * b + y) == 2 * Xor(a, b) + Xor(x, y)
  {
    assert (2 * a + x) / 2 == a && (2 * b + y) / 2 == b;
    assert Xor(x, y) == if x == y then 0 else 1;
  }

  /** A digit behind a number. */
  lemma {:induction false} XorShifted(a: nat, b: nat, x: nat, y: nat)
    requires x < 16 && y < 16
    ensures Xor(16 * a + x, 16 * b + y) == 16 * Xor(a, b) + DigitXor(x, y)
  {
    hide Xor, DigitXor;
    XorHigh(a, b, x, y);
    XorDigit(x, y);
  }

  lemma {:induction false} XorHigh(a: nat, b: nat, x: nat, y: nat)
    requires x < 16 && y < 16
    ensures Xor(16 * a + x, 16 * b + y) == 16 * Xor(a, b) + Xor(x, y)
  {
    hide Xor;
    XorPairs(4 * a + x / 4, 4 * b + y / 4, x % 4, y % 4);
    XorPairs(a, b, x / 4, y / 4);
    XorPairs(x / 4, y / 4, x % 4, y % 4);
  }

  lemma {:induction false} XorPairs(a: nat, b: nat, x: nat, y: nat)
    requires x < 4 && y < 4
    ensures Xor(4 * a + x, 4 * b + y) == 4 * Xor(a, b) + Xor(x, y)
  {
    hide Xor;
    XorEven(2 * a + x / 2, 2 * b + y / 2, x % 2, y % 2);
    XorEven(a, b, x / 2, y / 2);
    XorEven(x / 2, y / 2, x % 2, y % 2);
  }

  /** A word by its hexadecimal digits. */
  datatype Hex = Hex(d7: nat, d6: nat, d5: nat, d4: nat, d3: nat, d2: nat, d1: nat, d0: nat)

  predicate Digits(h: Hex) {
    h.d7 < 16 && h.d6 < 16 && h.d5 < 16 && h.d4 < 16 && h.d3 < 16 && h.d2 < 16 && h.d1 < 16 && h.d0 < 16
  }

  function Number(h: Hex): nat {
    16 * (16 * (16 * (16 * (16 * (16 * (16 * h.d7 + h.d6) + h.d5) + h.d4) + h.d3) + h.d2) + h.d1) + h.d0
  }

  function HexXor(g: Hex, h: Hex): Hex {
    Hex(DigitXor(g.d7, h.d7), DigitXor(g.d6, h.d6), DigitXor(g.d5, h.d5), DigitXor(g.d4, h.d4),
        DigitXor(g.d3, h.d3), DigitXor(g.d2, h.d2), DigitXor(g.d1, h.d1), DigitXor(g.d0, h.d0))
  }

  /** Exclusive or works digit by digit. */
  lemma {:induction false} XorHex(g: Hex, h: Hex)
    requires Digits(g) && Digits(h)
    ensures Xor(Number(g), Number(h)) == Number(HexXor(g, h))
  {
    hide Xor, DigitXor;
    var a6, b6 := 16 * g.d7 + g.d6, 16 * h.d7 + h.d6;
    var a5, b5 := 16 * a6 + g.d5, 16 * b6 + h.d5;
    var a4, b4 := 16 * a5 + g.d4, 16 * b5 + h.d4;
    var a3, b3 := 16 * a4 + g.d3, 16 * b4 + h.d3;
    var a2, b2 := 16 * a3 + g.d2, 16 * b3 + h.d2;
    var a1, b1 := 16 * a2 + g.d1, 16 * b2 + h.d1;
    XorDigit(g.d7, h.d7);
    XorShifted(g.d7, h.d7, g.d6, h.d6);
    XorShifted(a6, b6, g.d5, h.d5);
    XorShifted(a5, b5, g.d4, h.d4);
    XorShifted(a4, b4, g.d3, h.d3);
    XorShifted(a3, b3, g.d2, h.d2);
    XorShifted(a2, b2, g.d1, h.d1);
    XorShifted(a1, b1, g.d0, h.d0);
  }
}
