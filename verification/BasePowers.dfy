/** Powers of a base, and how the sizes of two bases compare. */
module BasePowers {
  import opened Powers

  function Pow(b: nat, n: nat): nat {
    if n == 0 then 1 else Mul(Pow(b, n - 1), b)
  }

  lemma {:induction false} PowPositive(b: nat, n: nat)
    requires b > 0
    ensures Pow(b, n) > 0
  {
    if n > 0 {
      PowPositive(b, n - 1);
      MulIs(Pow(b, n - 1), b);
      MulLeft(1, Pow(b, n - 1), b);
    }
  }

  lemma {:induction false} PowSum(b: nat, m: nat, n: nat)
    ensures Pow(b, m + n) == Pow(b, m) * Pow(b, n)
  {
    if n > 0 {
      PowSum(b, m, n - 1);
      MulIs(Pow(b, m + n - 1), b);
      MulIs(Pow(b, n - 1), b);
      MulAssoc(Pow(b, m), Pow(b, n - 1), b);
    }
  }

  /** A power of a power. */
  lemma {:induction false} PowPow(b: nat, m: nat, n: nat)
    ensures Pow(b, m * n) == Pow(Pow(b, m), n)
  {
    if n > 0 {
      PowPow(b, m, n - 1);
      Distribute(n - 1, 1, m);
      PowSum(b, m * (n - 1), m);
      MulIs(Pow(Pow(b, m), n - 1), Pow(b, m));
    }
  }

  lemma {:induction false} PowMonotone(b: nat, m: nat, n: nat)
    requires b > 0 && m <= n
    ensures Pow(b, m) <= Pow(b, n)
  {
    if m < n {
      PowMonotone(b, m, n - 1);
      MulIs(Pow(b, n - 1), b);
      MulLeft(1, b, Pow(b, n - 1));
    }
  }

  lemma {:induction false} PowBase(x: nat, y: nat, n: nat)
    requires x <= y
    ensures Pow(x, n) <= Pow(y, n)
  {
    if n > 0 {
      PowBase(x, y, n - 1);
      MulIs(Pow(x, n - 1), x);
      MulIs(Pow(y, n - 1), y);
      MulLeft(x, y, Pow(x, n - 1));
      MulLeft(Pow(x, n - 1), Pow(y, n - 1), y);
    }
  }

  /** A power that is not smaller comes from a root that is not smaller. */
  lemma {:induction false} Root(x: nat, y: nat, n: nat)
    requires n > 0 && Pow(x, n) <= Pow(y, n)
    ensures x <= y
  {
    if y < x {
      PowBase(y, x, n - 1);
      PowPositive(x, n - 1);
      ProductLess(Pow(y, n - 1), Pow(x, n - 1), y, x);
    }
  }

  lemma {:induction false} ProductLess(p: nat, q: nat, y: nat, x: nat)
    requires p <= q && 0 < q && y < x
    ensures Mul(p, y) < Mul(q, x)
  {
    MulIs(p, y);
    MulIs(q, x);
    MulLeft(p, q, y);
    MulStrict(y, x, q);
  }

  /** If a^k is at most b^l, and l*n is at most k*m, then a^n is at most b^m. */
  lemma {:induction false} CompareRoots(a: nat, b: nat, k: nat, l: nat, n: nat, m: nat)
    requires k > 0 && a > 0 && b > 0 && Pow(a, k) <= Pow(b, l) && l * n <= k * m
    ensures Pow(a, n) <= Pow(b, m)
  {
    PowPow(a, k, n);
    PowPow(b, l, n);
    PowBase(Pow(a, k), Pow(b, l), n);
    assert k * n == n * k && m * k == k * m;
    PowMonotone(b, l * n, m * k);
    PowPow(a, n, k);
    PowPow(b, m, k);
    Root(Pow(a, n), Pow(b, m), k);
  }

  lemma {:induction false} PowOnce(b: nat, n: nat)
    requires n == 1
    ensures Pow(b, n) == b
  {
    MulIs(Pow(b, n - 1), b);
  }

  lemma {:induction false} PowTwice(b: nat, n: nat, x: nat) returns (m: nat)
    requires Pow(b, n) == x
    ensures m == 2 * n && Pow(b, m) == x * x
  {
    m := 2 * n;
    PowSum(b, n, n);
  }

  lemma {:induction false} PowAnd(b: nat, m: nat, x: nat, n: nat, y: nat) returns (k: nat)
    requires Pow(b, m) == x && Pow(b, n) == y
    ensures k == m + n && Pow(b, k) == x * y
  {
    k := m + n;
    PowSum(b, m, n);
  }

  // The bases and `one` are parameters in what follows, so that no power is evaluated digit by digit.

  /** 256^8 <= 58^11. */
  lemma {:induction false} EncodeBound(a: nat, b: nat, one: nat)
    requires a == 256 && b == 58 && one == 1
    ensures Pow(a, 8 * one) <= Pow(b, 11 * one)
  {
    PowOnce(a, one);
    var a2 := PowTwice(a, one, 256);
    var a4 := PowTwice(a, a2, 0x1_0000);
    var a8 := PowTwice(a, a4, 0x1_0000_0000);
    PowOnce(b, one);
    var b2 := PowTwice(b, one, 58);
    var b3 := PowAnd(b, b2, 3364, one, 58);
    var b4 := PowTwice(b, b2, 3364);
    var b8 := PowTwice(b, b4, 11316496);
    var b11 := PowAnd(b, b8, 128063081718016, b3, 195112);
  }

  /** 58^71 <= 256^52. */
  lemma {:induction false} DecodeBound(a: nat, b: nat, one: nat)
    requires a == 58 && b == 256 && one == 1
    ensures Pow(a, 71 * one) <= Pow(b, 52 * one)
  {
    PowOnce(a, one);
    var x1 := 58;
    var a2 := PowTwice(a, one, x1);
    var a3 := PowAnd(a, a2, x1 * x1, one, x1);
    var a4 := PowTwice(a, a2, x1 * x1);
    var x4 := 11316496;
    var a7 := PowAnd(a, a4, x4, a3, 195112);
    var a8 := PowTwice(a, a4, x4);
    var x8 := x4 * x4;
    var a16 := PowTwice(a, a8, x8);
    var x16 := x8 * x8;
    var a32 := PowTwice(a, a16, x16);
    var x32 := x16 * x16;
    var a64 := PowTwice(a, a32, x32);
    var x64 := x32 * x32;
    var a71 := PowAnd(a, a64, x64, a7, x4 * 195112);
    PowOnce(b, one);
    var b2 := PowTwice(b, one, 256);
    var b4 := PowTwice(b, b2, 0x1_0000);
    var y4 := 0x1_0000_0000;
    var b8 := PowTwice(b, b4, y4);
    var y8 := y4 * y4;
    var b16 := PowTwice(b, b8, y8);
    var y16 := y8 * y8;
    var b32 := PowTwice(b, b16, y16);
    var y32 := y16 * y16;
    var b48 := PowAnd(b, b32, y32, b16, y16);
    var b52 := PowAnd(b, b48, y32 * y16, b4, y4);
  }

  /** The buffer of EncodeBase58 is large enough. */
  lemma {:induction false} EncodeFits(a: nat, b: nat, one: nat, n: nat)
    requires a == 256 && b == 58 && one == 1
    ensures Pow(a, n) <= Pow(b, n * 138 / 100 + 1)
  {
    EncodeBound(a, b, one);
    CompareRoots(a, b, 8 * one, 11 * one, n, n * 138 / 100 + 1);
  }

  /** The buffer of DecodeBase58 is large enough. */
  lemma {:induction false} DecodeFits(a: nat, b: nat, one: nat, n: nat)
    requires a == 58 && b == 256 && one == 1
    ensures Pow(a, n) <= Pow(b, n * 733 / 1000 + 1)
  {
    DecodeBound(a, b, one);
    CompareRoots(a, b, 71 * one, 52 * one, n, n * 733 / 1000 + 1);
  }
}
