/** Powers of two, products, and division with remainder. */
module Powers {

  function Pow2(n: nat): (r: nat)
    ensures r > 0
  {
    if n == 0 then 1 else 2 * Pow2(n - 1)
  }

  function Max(x: int, y: int): int { if x > y then x else y }

  lemma {:induction false} Pow2Sum(m: nat, n: nat)
    ensures Pow2(m + n) == Pow2(m) * Pow2(n)
  {
    if n > 0 {
      Pow2Sum(m, n - 1);
      Associate(Pow2(m), Pow2(n - 1));
    }
  }

  lemma {:induction false} Associate(p: int, q: int)
    ensures 2 * (p * q) == p * (2 * q)
  {
  }

  lemma {:induction false} Pow2Monotone(m: nat, n: nat)
    requires m <= n
    ensures Pow2(m) <= Pow2(n)
  {
    if m < n { Pow2Monotone(m, n - 1); }
  }

  lemma {:induction false} Pow2Strict(m: nat, n: nat)
    requires m < n
    ensures 2 * Pow2(m) <= Pow2(n)
  {
    Pow2Monotone(m + 1, n);
  }

  lemma {:induction false} Pow2Byte()
    ensures Pow2(8) == 256
  {
    assert Pow2(4) == 16;
  }

  lemma {:induction false} Pow2Word()
    ensures Pow2(32) == 0x1_0000_0000
  {
    Pow2Byte();
    Pow2Sum(8, 8);
    Pow2Sum(16, 16);
  }

  // ---------------------------------------------------------------------------
  // Products
  // ---------------------------------------------------------------------------

  lemma {:induction false} MulLeft(a: int, b: int, m: nat)
    requires a <= b
    ensures a * m <= b * m
  {
  }

  lemma {:induction false} MulStrict(a: int, b: int, m: nat)
    requires a < b
    ensures a * m + m <= b * m
  {
    MulLeft(a + 1, b, m);
    Distribute(a, 1, m);
  }

  lemma {:induction false} Distribute(a: int, b: int, m: int)
    ensures (a + b) * m == a * m + b * m
  {
  }

  lemma {:induction false} MulAssoc(a: int, b: int, c: int)
    ensures (a * b) * c == a * (b * c)
  {
  }

  /** The product, by repeated addition. */
  function Mul(m: nat, x: nat): nat {
    if m == 0 then 0 else Mul(m - 1, x) + x
  }

  lemma {:induction false} MulIs(m: nat, x: nat)
    ensures Mul(m, x) == m * x
  {
    if m > 0 { MulIs(m - 1, x); }
  }

  lemma {:induction false} MulSum(m: nat, x: nat, y: nat)
    ensures Mul(m, x + y) == Mul(m, x) + Mul(m, y)
  {
    if m > 0 { MulSum(m - 1, x, y); }
  }

  lemma {:induction false} MulSumLeft(m: nat, n: nat, x: nat)
    ensures Mul(m + n, x) == Mul(m, x) + Mul(n, x)
  {
    if n > 0 { MulSumLeft(m, n - 1, x); }
  }

  lemma {:induction false} MulOrder(m: nat, x: nat, y: nat)
    requires x < y
    ensures Mul(m, x) + m <= Mul(m, y)
  {
    MulIs(m, x);
    MulIs(m, y);
    MulStrict(x, y, m);
  }

  lemma {:induction false} MulMul(m: nat, n: nat, x: nat)
    ensures Mul(m, Mul(n, x)) == Mul(m * n, x)
  {
    MulIs(n, x);
    MulIs(m, n * x);
    MulIs(m * n, x);
    MulAssoc(m, n, x);
  }

  lemma {:induction false} MulNest(x: nat, y: nat, z: nat)
    ensures Mul(Mul(x, y), z) == Mul(x, Mul(y, z))
  {
    MulIs(x, y);
    MulMul(x, y, z);
  }

  // ---------------------------------------------------------------------------
  // Division with remainder
  // ---------------------------------------------------------------------------

  /** Quotient and remainder are unique. */
  lemma {:induction false} DivModUnique(x: int, m: int, q: int, r: int)
    requires m > 0 && x == q * m + r && 0 <= r < m
    ensures x / m == q && x % m == r
  {
    var q', r' := x / m, x % m;
    assert x == q' * m + r' by { DivModIs(x, m); }
    if q' < q {
      MulStrict(q', q, m);
      assert false;
    } else if q < q' {
      MulStrict(q, q', m);
      assert false;
    }
  }

  lemma {:induction false} DivModIs(x: int, m: int)
    requires m > 0
    ensures x == (x / m) * m + x % m && 0 <= x % m < m
  {
  }

  /** Adding a multiple does not change the remainder. */
  lemma {:induction false} ModAdd(x: int, k: int, m: int)
    requires m > 0
    ensures (x + k * m) % m == x % m && (x + k * m) / m == x / m + k
  {
    DivModIs(x, m);
    Distribute(x / m, k, m);
    DivModUnique(x + k * m, m, x / m + k, x % m);
  }

  lemma {:induction false} DivMonotone(x: int, y: int, m: int)
    requires m > 0 && x <= y
    ensures x / m <= y / m
  {
    DivModIs(x, m);
    DivModIs(y, m);
    if y / m < x / m {
      MulStrict(y / m, x / m, m);
      assert false;
    }
  }

  /** Dividing by a product is dividing twice. */
  lemma {:induction false} DivDiv(x: nat, m: nat, n: nat)
    requires m > 0 && n > 0
    ensures m * n > 0 && x / (m * n) == (x / m) / n
  {
    var q, r := x / m, x % m;
    DivModIs(x, m);
    var q', r' := q / n, q % n;
    DivModIs(q, n);
    Distribute(q' * n, r', m);
    MulAssoc(q', n, m);
    MulLeft(1, n, m);
    MulStrict(r', n, m);
    MulLeft(0, r', m);
    assert x == q' * (n * m) + (r' * m + r);
    DivModUnique(x, n * m, q', r' * m + r);
    assert n * m == m * n;
  }

  // ---------------------------------------------------------------------------
  // Bits
  // ---------------------------------------------------------------------------

  /** x >> n. */
  function Shr(x: nat, n: nat): nat {
    if n == 0 then x else Shr(x / 2, n - 1)
  }

  /** The lowest `n` bits. */
  function LowBits(x: nat, n: nat): nat {
    if n == 0 then 0 else x % 2 + 2 * LowBits(x / 2, n - 1)
  }

  lemma {:induction false} ShrParts(x: nat, n: nat)
    ensures x == Shr(x, n) * Pow2(n) + LowBits(x, n) && LowBits(x, n) < Pow2(n)
  {
    if n > 0 {
      ShrParts(x / 2, n - 1);
      Associate(Shr(x / 2, n - 1), Pow2(n - 1));
    }
  }

  lemma {:induction false} ShrSum(x: nat, n: nat)
    ensures x == Mul(Pow2(n), Shr(x, n)) + LowBits(x, n) && LowBits(x, n) < Pow2(n)
  {
    ShrParts(x, n);
    MulIs(Pow2(n), Shr(x, n));
  }

  lemma {:induction false} LowBitsOfMultiple(x: nat, n: nat)
    ensures LowBits(Mul(Pow2(n), x), n) == 0
  {
    MulIs(Pow2(n), x);
    ShrUnique(Mul(Pow2(n), x), n, x, 0);
  }

  lemma {:induction false} ShrIs(x: nat, n: nat)
    ensures Shr(x, n) == x / Pow2(n) && LowBits(x, n) == x % Pow2(n)
  {
    ShrParts(x, n);
    DivModUnique(x, Pow2(n), Shr(x, n), LowBits(x, n));
  }

  lemma {:induction false} ShrUnique(x: nat, n: nat, q: nat, low: nat)
    requires x == q * Pow2(n) + low && low < Pow2(n)
    ensures Shr(x, n) == q && LowBits(x, n) == low
  {
    ShrIs(x, n);
    DivModUnique(x, Pow2(n), q, low);
  }
}
