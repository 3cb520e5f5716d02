/** Machine arithmetic shared by the read path: 32- and 64-bit unsigned
    wrap-around, little-endian loads, bitwise AND on naturals, and the
    `ALIGN_TO` macro of fuse/common.h. */
module Machine {

  const TWO31: nat := 0x8000_0000
  const TWO32: nat := 0x1_0000_0000
  const TWO63: nat := 0x8000_0000_0000_0000
  const TWO64: nat := 0x1_0000_0000_0000_0000

  type Byte = x: int | 0 <= x < 256

  /** A file name: the bytes of one path component. */
  type Name = seq<Byte>

  /** What a call does in the debug build: it yields a value, or an `ASSERT`
      fails and the process stops. */
  datatype Outcome<+T> = Ok(value: T) | Abort {
    predicate IsFailure() { Abort? }
    function PropagateFailure<U>(): Outcome<U>
      requires Abort?
    {
      Abort
    }
    function Extract(): T
      requires Ok?
    {
      value
    }
  }

  datatype Option<+T> = None | Some(value: T)

  function U32(n: int): nat { n % 0x1_0000_0000 }

  function U64(n: int): nat { n % 0x1_0000_0000_0000_0000 }

  lemma {:induction false} U32Small(n: int)
    requires 0 <= n < TWO32
    ensures U32(n) == n
  {
  }

  lemma {:induction false} U64Small(n: int)
    requires 0 <= n < TWO64
    ensures U64(n) == n
  {
  }

  function Min(a: nat, b: nat): nat { if a < b then a else b }

  function LE16(s: seq<Byte>, i: nat): (n: nat)
    requires i + 2 <= |s|
    ensures n < 0x1_0000
  {
    s[i] as int + 0x100 * (s[i + 1] as int)
  }

  function LE32(s: seq<Byte>, i: nat): (n: nat)
    requires i + 4 <= |s|
    ensures n < TWO32
  {
    s[i] as int + 0x100 * (s[i + 1] as int) + 0x1_0000 * (s[i + 2] as int) + 0x100_0000 * (s[i + 3] as int)
  }

  function Pow2(k: nat): (p: nat)
    ensures p >= 1
  {
    if k == 0 then 1 else 2 * Pow2(k - 1)
  }

  /** Bitwise AND of two naturals. */
  function And(a: nat, b: nat): nat {
    if a == 0 || b == 0 then 0 else 2 * And(a / 2, b / 2) + (if a % 2 == 1 == b % 2 then 1 else 0)
  }

  /** `ALIGN_TO(n, align)` for a 64-bit `n` and a 32-bit `align`: the mask
      `~(align - 1)` is computed in 32 bits and then zero-extended. */
  function AlignTo(n: nat, align: nat): nat
    requires 1 <= align < TWO32
  {
    if n % align != 0 then And(n, TWO32 - align) + align else n
  }

  ghost predicate IsLeastMultiple(r: nat, n: nat, align: nat)
    requires align >= 1
  {
    r % align == 0 && n <= r < n + align
  }

  lemma {:induction false} Pow2Grows(k: nat, m: nat)
    requires k <= m
    ensures Pow2(k) <= Pow2(m)
    decreases m
  {
    if k < m {
      Pow2Grows(k, m - 1);
    }
  }

  lemma {:induction false} ModOfMultiple(q: nat, m: nat)
    requires m >= 1
    ensures (q * m) % m == 0
  {
    ModUnique(q * m, q, m, 0);
  }

  /** Quotient and remainder are determined by the division equation. */
  lemma {:induction false} ModUnique(n: int, q: int, m: int, r: int)
    requires m >= 1 && 0 <= r < m && n == q * m + r
    ensures n / m == q && n % m == r
  {
    var d := n / m - q;
    assert d * m == r - n % m;
    if d >= 1 {
      MulAtLeast(d, m);
    } else if d <= -1 {
      MulAtLeast(-d, m);
    }
  }

  lemma {:induction false} MulAtLeast(d: int, m: int)
    requires d >= 1 && m >= 1
    ensures d * m >= m
  {
  }

  lemma {:induction false} MulMonotone(a: nat, b: nat, w: nat)
    requires a <= b
    ensures a * w <= b * w
  {
    assert b * w == a * w + (b - a) * w;
  }

  lemma {:induction false} HalveMod(n: nat, p: nat)
    requires p >= 1
    ensures n % (2 * p) == 2 * ((n / 2) % p) + n % 2
  {
    var h := n / 2;
    var q, r := h / p, h % p;
    assert n == q * (2 * p) + (2 * r + n % 2);
    ModUnique(n, q, 2 * p, 2 * r + n % 2);
  }

  lemma {:induction false} AndEven(n: nat, m: nat, mask: nat)
    requires m == 2 * mask
    ensures And(n, m) == 2 * And(n / 2, mask)
  {
    assert m / 2 == mask && m % 2 == 0;
  }

  lemma {:induction false} AndOdd(n: nat, m: nat, mask: nat)
    requires m == 2 * mask + 1
    ensures And(n, m) == 2 * And(n / 2, mask) + n % 2
  {
    assert m / 2 == mask && m % 2 == 1;
  }

  lemma {:induction false} Pow2Step(m: nat)
    ensures Pow2(m) == if m == 0 then 1 else 2 * Pow2(m - 1)
  {
  }

  lemma {:induction false} Pow2Sum(a: nat, b: nat)
    ensures Pow2(a) * Pow2(b) == Pow2(a + b)
    decreases b
  {
    hide Pow2;
    Pow2Step(b);
    Pow2Step(a + b);
    if b > 0 {
      Pow2Sum(a, b - 1);
      DoubleFactor(Pow2(a), Pow2(b - 1));
    }
  }

  lemma {:induction false} DoubleFactor(p: nat, q: nat)
    ensures p * (2 * q) == 2 * (p * q)
  {
  }

  /** The low `m` bits of a natural. */
  ghost function LowBits(n: nat, m: nat): nat { n % Pow2(m) }

  lemma {:induction false} LowBitsStep(n: nat, m: nat)
    requires m > 0
    ensures LowBits(n, m) == 2 * LowBits(n / 2, m - 1) + n % 2
  {
    HalveMod(n, Pow2(m - 1));
  }

  lemma {:induction false} NoBits(n: nat)
    ensures LowBits(n, 0) == 0 && And(n, 0) == 0
  {
  }

  /** Masking with the bits below m keeps exactly those bits. */
  lemma {:induction false} AndBelow(n: nat, m: nat)
    ensures And(n, Pow2(m) - 1) == LowBits(n, m)
  {
    hide And, LowBits, Pow2;
    Pow2Step(m);
    NoBits(n);
    if m > 0 {
      AndBelow(n / 2, m - 1);
      AndOdd(n, Pow2(m) - 1, Pow2(m - 1) - 1);
      LowBitsStep(n, m);
    }
  }

  /** Masking with the bits k..m-1 keeps exactly those bits. */
  lemma {:induction false} AndBits(n: nat, k: nat, m: nat)
    requires k <= m
    ensures Pow2(k) <= Pow2(m)
    ensures And(n, Pow2(m) - Pow2(k)) == LowBits(n, m) - LowBits(n, k)
    decreases m
  {
    hide And, LowBits, Pow2;
    Pow2Grows(k, m);
    Pow2Step(k);
    Pow2Step(m);
    NoBits(n);
    if k == 0 {
      AndBelow(n, m);
    } else {
      AndBits(n / 2, k - 1, m - 1);
      AndEven(n, Pow2(m) - Pow2(k), Pow2(m - 1) - Pow2(k - 1));
      LowBitsStep(n, m);
      LowBitsStep(n, k);
    }
  }

  lemma {:induction false} Pow2Thirty2()
    ensures Pow2(32) == TWO32
  {
    assert Pow2(8) == 256;
    assert Pow2(16) == 0x1_0000;
    assert Pow2(24) == 0x100_0000;
  }

  /** What `ALIGN_TO` computes: it rounds up the low 32 bits of an unaligned
      offset and forgets the rest. */
  lemma {:induction false} AlignToValue(n: nat, k: nat)
    requires k < 32
    ensures 1 <= Pow2(k) < TWO32
    ensures AlignTo(n, Pow2(k)) ==
            if n % Pow2(k) == 0 then n else U32(n) - n % Pow2(k) + Pow2(k)
  {
    Pow2Thirty2();
    Pow2Grows(k, 31);
    AndBits(n, k, 32);
  }

  /** `ALIGN_TO` returns the least multiple of the block size at or above an
      offset exactly when the offset is aligned or fits in 32 bits. */
  lemma {:induction false} AlignToExact(n: nat, k: nat)
    requires k < 32
    ensures 1 <= Pow2(k) < TWO32
    ensures IsLeastMultiple(AlignTo(n, Pow2(k)), n, Pow2(k))
            <==> n % Pow2(k) == 0 || n < TWO32
  {
    hide AlignTo, Pow2;
    AlignToValue(n, k);
    U32Wraps(n);
    RoundUp(n, Pow2(k));
  }

  lemma {:induction false} U32Wraps(n: nat)
    ensures if n < TWO32 then U32(n) == n else U32(n) <= n - TWO32
  {
  }

  lemma {:induction false} RoundUp(n: nat, a: nat)
    requires a >= 1
    ensures (n - n % a + a) % a == 0
  {
    var q := n / a;
    assert n - n % a + a == (q + 1) * a;
    ModOfMultiple(q + 1, a);
  }
}
