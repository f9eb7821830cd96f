/** Numbers of 32-bit limbs, lowest first, and the arithmetic of carries. */
module Limbs {
  import opened Powers

  const B: nat := 0x1_0000_0000

  type uint32 = x: nat | x < 0x1_0000_0000

  /** `x` moved up by `i` limbs. */
  function At(x: nat, i: nat): (r: nat)
    ensures x > 0 ==> r > 0
  {
    if i == 0 then x else 0x1_0000_0000 * At(x, i - 1)
  }

  /** The value of the first `n` limbs. */
  function NumTo(s: seq<uint32>, n: nat): nat
    requires n <= |s|
  {
    if n == 0 then 0 else NumTo(s, n - 1) + At(s[n - 1], n - 1)
  }

  function Num(s: seq<uint32>): nat {
    NumTo(s, |s|)
  }

  lemma {:induction false} AtSum(x: nat, y: nat, i: nat)
    ensures At(x + y, i) == At(x, i) + At(y, i)
  {
    if i > 0 { AtSum(x, y, i - 1); }
  }

  lemma {:induction false} AtZero(i: nat)
    ensures At(0, i) == 0
  {
    if i > 0 { AtZero(i - 1); }
  }

  lemma {:induction false} AtNext(x: nat, i: nat)
    ensures At(0x1_0000_0000 * x, i) == At(x, i + 1)
  {
    if i > 0 { AtNext(x, i - 1); }
  }

  lemma {:induction false} AtTwice(x: nat, i: nat, k: nat)
    ensures At(At(x, i), k) == At(x, i + k)
  {
    if k > 0 { AtTwice(x, i, k - 1); }
  }

  lemma {:induction false} AtOver(x: nat, i: nat, k: nat, n: nat)
    requires n == i + k
    ensures At(At(x, i), k) == At(x, n)
  {
    AtTwice(x, i, k);
  }

  lemma {:induction false} AtOrder(x: nat, y: nat, i: nat)
    requires x < y
    ensures At(x, i) + At(1, i) <= At(y, i)
  {
    AtSum(x, 1, i);
    AtSum(x + 1, y - x - 1, i);
  }

  /** A carry into limb `i` is worth its limb and the carry out. */
  lemma {:induction false} AtSplit(n: nat, low: nat, carry: nat, i: nat)
    requires n == low + carry * 0x1_0000_0000
    ensures At(n, i) == At(low, i) + At(carry, i + 1)
  {
    AtSum(low, 0x1_0000_0000 * carry, i);
    AtNext(carry, i);
  }

  lemma {:induction false} AtSplit3(x: nat, y: nat, z: nat, low: nat, carry: nat, t: nat)
    requires low + carry * 0x1_0000_0000 == x + y + z
    ensures At(low, t) + At(carry, t + 1) == At(x, t) + At(y, t) + At(z, t)
  {
    AtSplit(x + y + z, low, carry, t);
    AtSum(x + y, z, t);
    AtSum(x, y, t);
  }

  lemma {:induction false} AtIsPower(x: nat, i: nat)
    ensures At(x, i) == x * Pow2(32 * i)
  {
    if i > 0 {
      AtIsPower(x, i - 1);
      Pow2Word();
      Pow2Sum(32, 32 * (i - 1));
      Rearrange(x, 0x1_0000_0000, Pow2(32 * (i - 1)));
    }
  }

  lemma {:induction false} Rearrange(x: int, b: int, p: int)
    ensures b * (x * p) == x * (b * p)
  {
  }

  lemma {:induction false} NumSame(s: seq<uint32>, t: seq<uint32>, n: nat)
    requires n <= |s| && n <= |t| && forall i :: 0 <= i < n ==> s[i] == t[i]
    ensures NumTo(s, n) == NumTo(t, n)
  {
    if n > 0 { NumSame(s, t, n - 1); }
  }

  lemma {:induction false} NumBound(s: seq<uint32>, n: nat)
    requires n <= |s|
    ensures NumTo(s, n) < At(1, n)
  {
    if n > 0 {
      NumBound(s, n - 1);
      AtOrder(s[n - 1], B, n - 1);
      AtNext(1, n - 1);
    }
  }

  lemma {:induction false} NumZero(s: seq<uint32>, n: nat)
    requires n <= |s|
    ensures NumTo(s, n) == 0 <==> forall i :: 0 <= i < n ==> s[i] == 0
  {
    if n > 0 {
      NumZero(s, n - 1);
      AtZero(n - 1);
    }
  }

  /** What a computation with carry out keeps. */
  lemma {:induction false} KeptLow(kept: nat, carry: nat, n: nat, total: nat)
    requires kept + At(carry, n) == total && kept < At(1, n)
    ensures kept == total % At(1, n)
  {
    AtIsPower(carry, n);
    AtIsPower(1, n);
    DivModUnique(total, At(1, n), carry, kept);
  }

  // ---------------------------------------------------------------------------
  // Addition and subtraction
  // ---------------------------------------------------------------------------

  /** The first `n` limbs and the carry are the sum of the first `n` limbs of two numbers. */
  ghost predicate Added(s: seq<uint32>, a: seq<uint32>, b: seq<uint32>, n: nat, carry: nat) {
    n <= |s| && n <= |a| && n <= |b| && NumTo(s, n) + At(carry, n) == NumTo(a, n) + NumTo(b, n)
  }

  lemma {:induction false} AddStep(s: seq<uint32>, s': seq<uint32>, a: seq<uint32>, b: seq<uint32>, i: nat, carry: nat,
                                   carry': nat)
    requires Added(s, a, b, i, carry) && i < |s| == |s'| == |a| == |b|
    requires forall k :: 0 <= k < i ==> s'[k] == s[k]
    requires s'[i] + carry' * 0x1_0000_0000 == carry + a[i] + b[i]
    ensures Added(s', a, b, i + 1, carry')
  {
    NumSame(s, s', i);
    AtSplit3(carry, a[i], b[i], s'[i], carry', i);
  }

  lemma {:induction false} SumKept(s: seq<uint32>, a: seq<uint32>, b: seq<uint32>, carry: nat)
    requires |s| == |a| == |b| && Added(s, a, b, |s|, carry)
    ensures Num(s) == (Num(a) + Num(b)) % At(1, |s|)
  {
    NumBound(s, |s|);
    KeptLow(Num(s), carry, |s|, Num(a) + Num(b));
  }

  /** The first `n` limbs are one more, or all of them zero with a carry to give. */
  ghost predicate OneMore(s: seq<uint32>, a: seq<uint32>, n: nat, carry: nat) {
    n <= |s| && n <= |a| && NumTo(s, n) + At(carry, n) == NumTo(a, n) + 1
  }

  lemma {:induction false} OneMoreStep(s: seq<uint32>, s': seq<uint32>, a: seq<uint32>, i: nat, carry: nat)
    requires OneMore(s, a, i, 1) && i < |s| == |s'| == |a|
    requires forall k :: 0 <= k < i ==> s'[k] == s[k]
    requires s'[i] + carry * 0x1_0000_0000 == a[i] as int + 1
    ensures OneMore(s', a, i + 1, carry)
  {
    NumSame(s, s', i);
    AtSplit(a[i] as int + 1, s'[i], carry, i);
    AtSum(a[i], 1, i);
  }

  /** Above the limb where the increment stops, nothing changes. */
  lemma {:induction false} OneMoreAll(s: seq<uint32>, a: seq<uint32>, n: nat, carry: nat)
    requires n <= |s| == |a| && forall k :: n <= k < |s| ==> s[k] == a[k]
    requires OneMore(s, a, n, carry) && (carry == 0 || n == |s|)
    ensures Num(s) == (Num(a) + 1) % At(1, |s|)
    decreases |s| - n
  {
    if n < |s| {
      AtZero(n);
      AtZero(n + 1);
      OneMoreAll(s, a, n + 1, carry);
    } else {
      NumBound(s, n);
      KeptLow(Num(s), carry, n, Num(a) + 1);
    }
  }

  lemma {:induction false} Complement(s: seq<uint32>, a: seq<uint32>, n: nat)
    requires n <= |s| == |a| && forall k :: 0 <= k < n ==> s[k] as int + a[k] == B - 1
    ensures NumTo(s, n) + NumTo(a, n) + 1 == At(1, n)
  {
    if n > 0 {
      Complement(s, a, n - 1);
      AtSum(s[n - 1], a[n - 1], n - 1);
      AtSum(B - 1, 1, n - 1);
      AtNext(1, n - 1);
    }
  }

  lemma {:induction false} SubtractByAdding(a: nat, b: nat, m: nat)
    requires a < m && b < m
    ensures (a + (m - b) % m) % m == (a - b) % m
  {
    if b == 0 {
      DivModUnique(m, m, 1, 0);
    } else {
      DivModUnique(m - b, m, 0, m - b);
      ModAdd(a - b, 1, m);
    }
  }

  // ---------------------------------------------------------------------------
  // Multiplication
  // ---------------------------------------------------------------------------

  lemma {:induction false} AtTimes(m: nat, x: nat, i: nat)
    ensures At(Mul(m, x), i) == Mul(m, At(x, i))
  {
    if m > 0 {
      AtTimes(m - 1, x, i);
      AtSum(Mul(m - 1, x), x, i);
    } else {
      AtZero(i);
    }
  }

  lemma {:induction false} LimbProduct(x: uint32, y: uint32)
    ensures x * y <= 0xffff_fffe_0000_0001
  {
    MulLeft(x, 0xffff_ffff, y);
    MulLeft(y, 0xffff_ffff, 0xffff_ffff);
  }

  /** The first `n` limbs and the carry are `m` times the first `n` limbs. */
  ghost predicate Scaled(s: seq<uint32>, a: seq<uint32>, m: nat, n: nat, carry: nat) {
    n <= |s| && n <= |a| && NumTo(s, n) + At(carry, n) == Mul(m, NumTo(a, n))
  }

  lemma {:induction false} ScaleStep(s: seq<uint32>, s': seq<uint32>, a: seq<uint32>, m: nat, i: nat, carry: nat,
                                     carry': nat)
    requires Scaled(s, a, m, i, carry) && i < |s| == |s'| == |a|
    requires forall k :: 0 <= k < i ==> s'[k] == s[k]
    requires s'[i] + carry' * 0x1_0000_0000 == carry + Mul(m, a[i])
    ensures Scaled(s', a, m, i + 1, carry')
  {
    NumSame(s, s', i);
    AtSplit3(0, carry, Mul(m, a[i]), s'[i], carry', i);
    AtZero(i);
    ScaledLimb(m, a, i);
  }

  lemma {:induction false} ScaledLimb(m: nat, a: seq<uint32>, i: nat)
    requires i < |a|
    ensures Mul(m, NumTo(a, i + 1)) == Mul(m, NumTo(a, i)) + At(Mul(m, a[i]), i)
  {
    AtTimes(m, a[i], i);
    MulSum(m, NumTo(a, i), At(a[i], i));
  }

  lemma {:induction false} ScaledKept(s: seq<uint32>, a: seq<uint32>, m: nat, carry: nat)
    requires |s| == |a| && Scaled(s, a, m, |s|, carry)
    ensures Num(s) == (m * Num(a)) % At(1, |s|)
  {
    NumBound(s, |s|);
    MulIs(m, Num(a));
    KeptLow(Num(s), carry, |s|, Mul(m, Num(a)));
  }

  lemma {:induction false} NumUpdate(s: seq<uint32>, s': seq<uint32>, t: nat, n: nat)
    requires t < n <= |s| == |s'| && forall k :: 0 <= k < n && k != t ==> s'[k] == s[k]
    ensures NumTo(s', n) + At(s[t], t) == NumTo(s, n) + At(s'[t], t)
  {
    if t == n - 1 {
      NumSame(s, s', t);
    } else {
      NumUpdate(s, s', t, n - 1);
    }
  }

  /** Row `j` of a product, up to its limb `n`: `v0` is the value before the row. */
  ghost predicate RowDone(s: seq<uint32>, v0: nat, m: nat, b: seq<uint32>, j: nat, n: nat, carry: nat) {
    n <= |b| && Num(s) + At(carry, n + j) == v0 + Mul(m, At(NumTo(b, n), j))
  }

  lemma {:induction false} RowProduct(m: nat, b: seq<uint32>, i: nat, j: nat)
    requires i < |b|
    ensures Mul(m, At(NumTo(b, i + 1), j)) == Mul(m, At(NumTo(b, i), j)) + At(Mul(m, b[i]), i + j)
  {
    AtSum(NumTo(b, i), At(b[i], i), j);
    AtTwice(b[i], i, j);
    MulSum(m, At(NumTo(b, i), j), At(b[i], i + j));
    AtTimes(m, b[i], i + j);
  }

  lemma {:induction false} RowStep(s: seq<uint32>, s': seq<uint32>, v0: nat, m: nat, b: seq<uint32>, j: nat, i: nat,
                                   t: nat, carry: nat, carry': nat)
    requires RowDone(s, v0, m, b, j, i, carry) && i < |b| && t == i + j < |s| == |s'|
    requires forall k :: 0 <= k < |s| && k != t ==> s'[k] == s[k]
    requires s'[t] + carry' * 0x1_0000_0000 == carry + s[t] + Mul(m, b[i])
    ensures RowDone(s', v0, m, b, j, i + 1, carry')
  {
    NumUpdate(s, s', t, |s|);
    AtSplit3(carry, s[t], Mul(m, b[i]), s'[t], carry', t);
    RowProduct(m, b, i, j);
    assert t + 1 == i + 1 + j;
  }

  lemma {:induction false} NumSplit(s: seq<uint32>, n: nat, m: nat) returns (high: nat)
    requires n <= m <= |s|
    ensures NumTo(s, m) == NumTo(s, n) + At(high, n)
  {
    if n == m {
      AtZero(n);
      high := 0;
    } else {
      high := NumSplit(s, n, m - 1);
      AtTwice(s[m - 1], m - 1 - n, n);
      AtSum(high, At(s[m - 1], m - 1 - n), n);
      high := high + At(s[m - 1], m - 1 - n);
    }
  }

  /** The rows done so far, up to a multiple of the modulus that is dropped. */
  ghost predicate RowsDone(v: nat, a: seq<uint32>, j: nat, b: nat, dropped: nat, w: nat) {
    j <= |a| && v + At(dropped, w) == Mul(NumTo(a, j), b)
  }

  lemma {:induction false} LimbsBeyond(b: seq<uint32>, j: nat) returns (high: nat)
    requires j <= |b|
    ensures At(Num(b), j) == At(NumTo(b, |b| - j), j) + At(high, |b|)
  {
    var w := |b|;
    high := NumSplit(b, w - j, w);
    AtSum(NumTo(b, w - j), At(high, w - j), j);
    AtOver(high, w - j, j, w);
  }

  /** A row that stops at the last limb leaves out a multiple of the modulus. */
  lemma {:induction false} RowTruncated(x: nat, b: seq<uint32>, j: nat) returns (h: nat)
    requires j <= |b|
    ensures Mul(x, At(Num(b), j)) == Mul(x, At(NumTo(b, |b| - j), j)) + At(h, |b|)
  {
    var high := LimbsBeyond(b, j);
    var low := At(NumTo(b, |b| - j), j);
    MulSum(x, low, At(high, |b|));
    AtTimes(x, high, |b|);
    h := Mul(x, high);
  }

  lemma {:induction false} RowAdded(a: seq<uint32>, j: nat, b: nat)
    requires j < |a|
    ensures Mul(NumTo(a, j + 1), b) == Mul(NumTo(a, j), b) + Mul(a[j], At(b, j))
  {
    AtSwap(a[j], b, j);
    MulSumLeft(NumTo(a, j), At(a[j], j), b);
  }

  lemma {:induction false} RowsStep(v0: nat, v: nat, a: seq<uint32>, b: seq<uint32>, j: nat, dropped: nat, carry: nat)
    returns (dropped': nat)
    requires j < |a| == |b| && RowsDone(v0, a, j, Num(b), dropped, |b|)
    requires v + At(carry, |b|) == v0 + Mul(a[j], At(NumTo(b, |b| - j), j))
    ensures RowsDone(v, a, j + 1, Num(b), dropped', |b|)
  {
    var h := RowTruncated(a[j], b, j);
    RowAdded(a, j, Num(b));
    AtSum(dropped, carry, |b|);
    AtSum(dropped + carry, h, |b|);
    dropped' := dropped + carry + h;
  }

  lemma {:induction false} AtSwap(x: nat, b: nat, j: nat)
    ensures Mul(At(x, j), b) == Mul(x, At(b, j))
  {
    MulSwap(At(x, j), b);
    AtTimes(b, x, j);
    AtTimes(x, b, j);
    MulSwap(x, b);
  }

  lemma {:induction false} MulSwap(x: nat, y: nat)
    ensures Mul(x, y) == Mul(y, x)
  {
    MulIs(x, y);
    MulIs(y, x);
  }

  lemma {:induction false} RowStart(s: seq<uint32>, m: nat, b: seq<uint32>, j: nat)
    ensures RowDone(s, Num(s), m, b, j, 0, 0)
  {
    AtZero(j);
    MulIs(m, 0);
  }
}
