/** Jump consistent hashing (metaserver/dict.c, base/c_hash.c). The double
    arithmetic is modelled over the reals with an arbitrary rounding function,
    so the results hold in every rounding mode. */
module JumpHash {
  import opened Machine

  type Rounding = real -> real

  /** m * 2^e: a double when m has at most 53 bits. */
  function Dyadic(m: nat, e: nat): real { (m * Pow2(e)) as real }

  /** Rounding is monotone and leaves representable numbers alone. */
  ghost predicate IsRounding(rnd: Rounding) {
    && (forall x, y :: x <= y ==> rnd(x) <= rnd(y))
    && (forall m, e :: m <= 0x20_0000_0000_0000 ==> rnd(Dyadic(m, e)) == Dyadic(m, e))
  }

  /** The linear congruential step on the 64-bit key. */
  function NextKey(key: nat): nat { U64(key * 2862933555777941757 + 1) }

  /** The divisor: the top 31 bits of the key, plus one. */
  function Divisor(key: nat): (d: nat)
    ensures d >= 1
  {
    key / 0x2_0000_0000 + 1
  }

  /** The exact quotient and product that are rounded. */
  function Quotient(key: nat): real { 2147483648.0 / Divisor(key) as real }

  function Times(x: real, y: real): real { x * y }

  function Product(m: nat, q: real): real { Times(m as real, q) }

  /** The next candidate bucket after `b`. */
  function Jump(rnd: Rounding, key: nat, b: nat): int {
    rnd(Product(b + 1, rnd(Quotient(key)))).Floor
  }

  lemma {:induction false} RoundsExactly(rnd: Rounding, m: nat)
    requires IsRounding(rnd) && m <= 0x1_0000_0000
    ensures rnd(m as real) == m as real
    ensures rnd((m * 0x8000_0000) as real) == (m * 0x8000_0000) as real
  {
    assert Dyadic(m, 0) == m as real;
    Pow2Thirty2();
    assert Pow2(32) == 2 * Pow2(31);
    assert Dyadic(m, 31) == (m * 0x8000_0000) as real;
  }

  lemma {:induction false} Monotone(rnd: Rounding, x: real, y: real)
    requires IsRounding(rnd) && x <= y
    ensures rnd(x) <= rnd(y)
  {
  }

  lemma {:induction false} QuotientBounds(key: nat)
    requires key < TWO64
    ensures 1.0 <= Quotient(key) <= 2147483648.0
  {
    assert 1 <= Divisor(key) <= 0x8000_0000;
    DivideBounds(Divisor(key) as real);
  }

  lemma {:induction false} DivideBounds(x: real)
    requires 1.0 <= x <= 2147483648.0
    ensures 1.0 <= 2147483648.0 / x <= 2147483648.0
  {
  }

  lemma {:induction false} ProductBounds(m: nat, q: real)
    requires 1.0 <= q <= 2147483648.0
    ensures m as real <= Product(m, q) <= (m * 0x8000_0000) as real
  {
    hide Times;
    MultiplyBounds(m as real, q);
  }

  lemma {:induction false} MultiplyBounds(r: real, q: real)
    requires r >= 0.0 && 1.0 <= q <= 2147483648.0
    ensures r <= Times(r, q) <= 2147483648.0 * r
  {
  }

  lemma {:induction false} FloorBetween(r: real, lo: int, hi: int)
    requires lo as real <= r <= hi as real
    ensures lo <= r.Floor <= hi
  {
  }

  /** Every jump goes forward, and the product stays below 2^63, so the
      conversion to a 64-bit integer is exact. */
  lemma {:induction false} JumpBounds(rnd: Rounding, key: nat, b: nat)
    requires IsRounding(rnd) && key < TWO64 && b + 1 < TWO32
    ensures b < Jump(rnd, key, b) <= (b + 1) * 0x8000_0000 < TWO63
  {
    hide IsRounding, Quotient, Product;
    var m := b + 1;
    RoundsExactly(rnd, 1);
    QuotientBounds(key);
    Monotone(rnd, 1.0, Quotient(key));
    Monotone(rnd, Quotient(key), 2147483648.0);
    var q := rnd(Quotient(key));
    ProductBounds(m, q);
    RoundsExactly(rnd, m);
    Monotone(rnd, m as real, Product(m, q));
    Monotone(rnd, Product(m, q), (m * 0x8000_0000) as real);
    FloorBetween(rnd(Product(m, q)), m, m * 0x8000_0000);
  }

  /** The bucket for `n` buckets, from candidate `j` on: the last candidate
      below n. */
  function BucketFrom(rnd: Rounding, key: nat, j: nat, n: nat): (b: nat)
    requires IsRounding(rnd) && key < TWO64 && j < n < TWO32
    ensures j <= b < n
    decreases n - j
  {
    JumpBounds(rnd, NextKey(key), j);
    var next := Jump(rnd, NextKey(key), j);
    if next < n then BucketFrom(rnd, NextKey(key), next, n) else j
  }

  function Bucket(rnd: Rounding, key: nat, n: nat): (b: nat)
    requires IsRounding(rnd) && key < TWO64 && 1 <= n < TWO32
    ensures b < n
  {
    BucketFrom(rnd, key, 0, n)
  }

  /** The loop of `dict_jump_consistent` and `c_hash_jump_consistent`. With no
      buckets it returns 1. */
  method JumpConsistent(rnd: Rounding, key0: nat, n: int) returns (value: nat)
    requires IsRounding(rnd) && key0 < TWO64 && n < TWO32
    ensures n <= 0 ==> value == 1
    ensures n >= 1 ==> value == Bucket(rnd, key0, n) && value < n
  {
    hide IsRounding, Jump, NextKey;
    var b: int, j: int, key: nat := -1, 0, key0;
    while j < n
      invariant key < TWO64 && 0 <= j
      invariant j < n ==> BucketFrom(rnd, key, j, n) == Bucket(rnd, key0, n)
      invariant n <= 0 ==> b == -1
      invariant n >= 1 && j >= n ==> b == Bucket(rnd, key0, n)
      decreases n - j
    {
      b := j;
      KeyBound(key);
      key := NextKey(key);
      JumpBounds(rnd, key, b);
      j := Jump(rnd, key, b);
    }
    value := if b < 0 then -b else b;
  }

  lemma {:induction false} KeyBound(key: nat)
    ensures NextKey(key) < TWO64
  {
  }

  /** Consistency: with more buckets a key stays where it was or moves to one
      of the new ones. */
  lemma {:induction false} ConsistentFrom(rnd: Rounding, key: nat, j: nat, n: nat, m: nat)
    requires IsRounding(rnd) && key < TWO64 && j < n <= m < TWO32
    ensures BucketFrom(rnd, key, j, m) == BucketFrom(rnd, key, j, n) || BucketFrom(rnd, key, j, m) >= n
    decreases n - j
  {
    JumpBounds(rnd, NextKey(key), j);
    var next := Jump(rnd, NextKey(key), j);
    hide IsRounding, Jump, NextKey;
    if next < n {
      KeyBound(key);
      ConsistentFrom(rnd, NextKey(key), next, n, m);
    }
  }

  lemma {:induction false} Consistent(rnd: Rounding, key: nat, n: nat, m: nat)
    requires IsRounding(rnd) && key < TWO64 && 1 <= n <= m < TWO32
    ensures Bucket(rnd, key, m) == Bucket(rnd, key, n) || Bucket(rnd, key, m) >= n
  {
    ConsistentFrom(rnd, key, 0, n, m);
  }

  // ---- Which candidate comes next ----

  function Exact(): Rounding { x => x }

  lemma {:induction false} ExactRounds()
    ensures IsRounding(Exact())
  {
    hide Dyadic;
  }

  lemma {:induction false} QuotientReaches(b: nat, d: nat, m: nat)
    requires d >= 1
    ensures Times((b + 1) as real, 2147483648.0 / d as real) >= m as real <==> m * d <= (b + 1) * 0x8000_0000
  {
    var x, y, z := (b + 1) as real, d as real, m as real;
    var q := 2147483648.0 / y;
    assert q * y == 2147483648.0;
    ScaleBoth(x * q, z, y);
    assert (x * q) * y == x * (q * y) by { Associate(x, q, y); }
    assert (m * d) as real == z * y;
    assert ((b + 1) * 0x8000_0000) as real == x * 2147483648.0;
  }

  lemma {:induction false} Associate(x: real, y: real, z: real)
    ensures (x * y) * z == x * (y * z)
  {
  }

  lemma {:induction false} ScaleBoth(p: real, q: real, y: real)
    requires y > 0.0
    ensures p >= q <==> p * y >= q * y
  {
    assert (p - q) * y == p * y - q * y;
  }

  lemma {:induction false} FloorReaches(r: real, m: int)
    ensures r.Floor >= m <==> r >= m as real
  {
  }

  /** In exact arithmetic: the next candidate is at least `m` if and only if
      (b + 1) / m reaches the fraction (key's top 31 bits + 1) / 2^31. So this
      is when a key leaves bucket `b` as buckets are added up to `m`. */
  lemma {:induction false} JumpExactly(key: nat, b: nat, m: nat)
    ensures Jump(Exact(), key, b) >= m <==> m * (key / 0x2_0000_0000 + 1) <= (b + 1) * 0x8000_0000
  {
    hide Times;
    var d := key / 0x2_0000_0000 + 1;
    var r := Times((b + 1) as real, 2147483648.0 / d as real);
    assert Jump(Exact(), key, b) == r.Floor;
    FloorReaches(r, m);
    QuotientReaches(b, d, m);
  }

  // ---- Every rounding ----

  lemma {:induction false} PowerQuotient(e: nat)
    requires e <= 31
    ensures 2147483648.0 / Pow2(e) as real == Pow2(31 - e) as real
  {
    hide Pow2;
    Pow2Sum(e, 31 - e);
    Pow2Thirty2();
    Pow2Step(32);
    assert (Pow2(e) * Pow2(31 - e)) as real == Pow2(e) as real * Pow2(31 - e) as real;
    DivideProduct(Pow2(e) as real, Pow2(31 - e) as real);
  }

  lemma {:induction false} DivideProduct(x: real, y: real)
    requires x > 0.0
    ensures (x * y) / x == y
  {
    assert ((x * y) / x) * x == x * y;
    assert ((x * y) / x - y) * x == 0.0;
  }

  /** A divisor that is a power of two gives the exact jump in every rounding. */
  lemma {:induction false} JumpByPower(rnd: Rounding, key: nat, b: nat, e: nat)
    requires IsRounding(rnd) && b + 1 < TWO32 && e <= 31 && Divisor(key) == Pow2(e)
    ensures Jump(rnd, key, b) == (b + 1) * Pow2(31 - e)
  {
    hide IsRounding, Pow2, Divisor;
    var p := Pow2(31 - e);
    PowerQuotient(e);
    RoundsDyadic(rnd, 1, 31 - e);
    RoundsDyadic(rnd, b + 1, 31 - e);
    assert Quotient(key) == p as real && rnd(Quotient(key)) == p as real;
    assert Product(b + 1, p as real) == ((b + 1) * p) as real;
    FloorBetween(((b + 1) * p) as real, (b + 1) * p, (b + 1) * p);
  }

  lemma {:induction false} RoundsDyadic(rnd: Rounding, m: nat, e: nat)
    requires IsRounding(rnd) && m <= TWO32
    ensures rnd((m * Pow2(e)) as real) == (m * Pow2(e)) as real
  {
    assert Dyadic(m, e) == (m * Pow2(e)) as real;
  }

  /** In every rounding a smaller divisor jumps at least as far. */
  lemma {:induction false} JumpMonotone(rnd: Rounding, key: nat, other: nat, b: nat)
    requires IsRounding(rnd) && Divisor(key) <= Divisor(other)
    ensures Jump(rnd, other, b) <= Jump(rnd, key, b)
  {
    hide IsRounding, Divisor;
    var p, q := Quotient(other), Quotient(key);
    QuotientMonotone(Divisor(key) as real, Divisor(other) as real);
    Monotone(rnd, p, q);
    ProductMonotone((b + 1) as real, rnd(p), rnd(q));
    Monotone(rnd, Product(b + 1, rnd(p)), Product(b + 1, rnd(q)));
    FloorMonotone(rnd(Product(b + 1, rnd(p))), rnd(Product(b + 1, rnd(q))));
  }

  lemma {:induction false} QuotientMonotone(x: real, y: real)
    requires 0.0 < x <= y
    ensures 2147483648.0 / y <= 2147483648.0 / x
  {
    var p, q := 2147483648.0 / y, 2147483648.0 / x;
    assert p * y == 2147483648.0 && q * x == 2147483648.0;
    assert q * (y - x) >= 0.0;
    assert q * y == q * x + q * (y - x);
    ScaleBoth(q, p, y);
  }

  lemma {:induction false} ProductMonotone(m: real, p: real, q: real)
    requires m >= 0.0 && p <= q
    ensures Times(m, p) <= Times(m, q)
  {
    assert m * (q - p) >= 0.0;
  }

  lemma {:induction false} FloorMonotone(p: real, q: real)
    requires p <= q
    ensures p.Floor <= q.Floor
  {
  }

  /** In every rounding the jump lies between those of the powers of two around
      the divisor. */
  lemma {:induction false} JumpBracket(rnd: Rounding, key: nat, b: nat, e: nat)
    requires IsRounding(rnd) && key < TWO64 && b + 1 < TWO32 && e < 31
    requires Pow2(e) <= Divisor(key) <= Pow2(e + 1)
    ensures (b + 1) * Pow2(30 - e) <= Jump(rnd, key, b) <= (b + 1) * Pow2(31 - e)
  {
    hide IsRounding, Pow2, Jump, Divisor;
    var low := KeyFor(e);
    var high := KeyFor(e + 1);
    JumpByPower(rnd, low, b, e);
    JumpByPower(rnd, high, b, e + 1);
    JumpMonotone(rnd, low, key, b);
    JumpMonotone(rnd, key, high, b);
  }

  /** Some key has the divisor 2^e. */
  lemma {:induction false} KeyFor(e: nat) returns (key: nat)
    ensures Divisor(key) == Pow2(e)
  {
    key := (Pow2(e) - 1) * 0x2_0000_0000;
  }

  // ---- A computed value ----

  lemma {:induction false} JumpIs(key: nat, b: nat, j: nat)
    requires j * (key / 0x2_0000_0000 + 1) <= (b + 1) * 0x8000_0000 < (j + 1) * (key / 0x2_0000_0000 + 1)
    ensures Jump(Exact(), key, b) == j
  {
    hide Jump, Exact;
    JumpExactly(key, b, j);
    JumpExactly(key, b, j + 1);
  }

  /** Key 1 goes to bucket 6 of 10, straight from candidate 0. */
  lemma {:induction false} BucketOfOne()
    ensures IsRounding(Exact()) && Bucket(Exact(), 1, 10) == 6
  {
    hide Jump, Exact, IsRounding, BucketFrom;
    ExactRounds();
    assert NextKey(1) == 2862933555777941758;
    JumpIs(2862933555777941758, 0, 6);
    BucketStep(1, 0, 10);
    assert NextKey(2862933555777941758) == 7520437575244155655;
    JumpIs(7520437575244155655, 6, 17);
    BucketStep(2862933555777941758, 6, 10);
  }

  lemma {:induction false} BucketStep(key: nat, j: nat, n: nat)
    requires IsRounding(Exact()) && key < TWO64 && j < n < TWO32
    ensures var next := Jump(Exact(), NextKey(key), j);
            && NextKey(key) < TWO64 && next > j
            && BucketFrom(Exact(), key, j, n) == if next < n then BucketFrom(Exact(), NextKey(key), next, n) else j
  {
    hide Jump, Exact, IsRounding, NextKey;
    KeyBound(key);
    JumpBounds(Exact(), NextKey(key), j);
  }
}
