/** Bits of limbs: order, number of bits, shifts, and setting single bits. */
module LimbBits {
  import opened Limbs
  import opened Powers

  // ---------------------------------------------------------------------------
  // Order
  // ---------------------------------------------------------------------------

  /** The highest limb that differs decides. */
  lemma {:induction false} NumOrder(s: seq<uint32>, t: seq<uint32>, i: nat, n: nat)
    requires i < n <= |s| && n <= |t| && s[i] < t[i] && forall k :: i < k < n ==> s[k] == t[k]
    ensures NumTo(s, n) < NumTo(t, n)
  {
    if i == n - 1 {
      NumBound(s, i);
      AtOrder(s[i], t[i], i);
    } else {
      NumOrder(s, t, i, n - 1);
    }
  }

  // ---------------------------------------------------------------------------
  // Powers of two at limbs
  // ---------------------------------------------------------------------------

  lemma {:induction false} Pow2Limb(n: nat)
    ensures Pow2(n + 32) == 0x1_0000_0000 * Pow2(n)
  {
    Pow2Word();
    Pow2Sum(32, n);
  }

  lemma {:induction false} AtPow2(n: nat, i: nat)
    ensures At(Pow2(n), i) == Pow2(32 * i + n)
  {
    if i > 0 {
      AtPow2(n, i - 1);
      Pow2Limb(32 * (i - 1) + n);
      assert 32 * (i - 1) + n + 32 == 32 * i + n;
    }
  }

  /** `n` is the number of bits of `v`. */
  ghost predicate IsBits(v: nat, n: nat) {
    if n == 0 then v == 0 else Pow2(n - 1) <= v < Pow2(n)
  }

  lemma {:induction false} BitsUnique(v: nat, m: nat, n: nat)
    requires IsBits(v, m) && IsBits(v, n)
    ensures m == n
  {
    if m < n {
      Pow2Monotone(m, n - 1);
    } else if n < m {
      Pow2Monotone(n, m - 1);
    }
  }

  /** The bits of a number are those of its highest limb that is not zero, and the limbs below. */
  lemma {:induction false} NumBits(s: seq<uint32>, pos: nat, e: nat)
    requires pos < |s| && forall k :: pos < k < |s| ==> s[k] == 0
    requires Pow2(e) <= s[pos] < Pow2(e + 1)
    ensures IsBits(Num(s), 32 * pos + e + 1)
  {
    ZeroAbove(s, pos + 1, |s|);
    NumBound(s, pos);
    AtPow2(e, pos);
    AtPow2(e + 1, pos);
    AtAtLeast(Pow2(e), s[pos], pos);
    AtOrder(s[pos], Pow2(e + 1), pos);
  }

  lemma {:induction false} AtAtLeast(x: nat, y: nat, i: nat)
    requires x <= y
    ensures At(x, i) <= At(y, i)
  {
    AtSum(x, y - x, i);
  }

  lemma {:induction false} ZeroAbove(s: seq<uint32>, m: nat, n: nat)
    requires m <= n <= |s| && forall k :: m <= k < n ==> s[k] == 0
    ensures NumTo(s, n) == NumTo(s, m)
  {
    if m < n {
      ZeroAbove(s, m, n - 1);
      AtZero(n - 1);
    }
  }

  lemma {:induction false} LowTwo(s: seq<uint32>)
    requires |s| >= 2
    ensures NumTo(s, 2) == s[0] as int + 0x1_0000_0000 * s[1] as int
  {
    assert NumTo(s, 2) == NumTo(s, 1) + At(s[1], 1);
  }

  lemma {:induction false} HighZero(high: nat)
    ensures At(high, 2) == 0x1_0000_0000_0000_0000 * high
  {
    assert At(high, 2) == 0x1_0000_0000 * At(high, 1);
  }

  /** Bit `e` of a limb. */
  predicate BitAt(x: nat, e: nat) {
    Shr(x, e) % 2 == 1
  }

  /** Of a limb below 2 to the e+1, bit `e` says whether it is at least 2 to the e. */
  lemma {:induction false} TopBit(x: nat, e: nat)
    requires x < Pow2(e + 1)
    ensures BitAt(x, e) <==> x >= Pow2(e)
  {
    if x >= Pow2(e) {
      ShrUnique(x, e, 1, x - Pow2(e));
    } else {
      ShrUnique(x, e, 0, x);
    }
  }

  // ---------------------------------------------------------------------------
  // Bitwise or
  // ---------------------------------------------------------------------------

  function BitOr(x: nat, y: nat): nat
    decreases x + y
  {
    if x == 0 then y
    else if y == 0 then x
    else (if x % 2 == 1 || y % 2 == 1 then 1 else 0) + 2 * BitOr(x / 2, y / 2)
  }

  lemma {:induction false} BitOrBound(x: nat, y: nat, n: nat)
    requires x < Pow2(n) && y < Pow2(n)
    ensures BitOr(x, y) < Pow2(n)
  {
    if n > 0 && x > 0 && y > 0 { BitOrBound(x / 2, y / 2, n - 1); }
  }

  /** Without common bits, or is addition: `x` has only bits from `n` on, `y` only bits below. */
  lemma {:induction false} DisjointOr(x: nat, y: nat, n: nat)
    requires LowBits(x, n) == 0 && y < Pow2(n)
    ensures BitOr(x, y) == x + y && BitOr(y, x) == x + y
  {
    if n > 0 {
      DisjointOr(x / 2, y / 2, n - 1);
    }
  }

  // ---------------------------------------------------------------------------
  // Shifting left
  // ---------------------------------------------------------------------------

  /** The part of a limb shifted left that stays in its limb, and the part that moves up. */
  function ShlLow(x: uint32, e: nat): (r: uint32) {
    Mul(Pow2(e), x) % B
  }

  function ShlHigh(x: uint32, e: nat): (r: nat)
    requires e <= 32
  {
    Shr(x, 32 - e)
  }

  lemma {:induction false} ShlSplit(x: uint32, e: nat)
    requires e < 32
    ensures ShlLow(x, e) + ShlHigh(x, e) * 0x1_0000_0000 == Mul(Pow2(e), x)
    ensures LowBits(ShlLow(x, e), e) == 0 && ShlHigh(x, e) < Pow2(e)
  {
    var low := LowBits(x, 32 - e);
    WordShift(x, e, 32 - e);
    LowBitsOfMultiple(low, e);
    WordParts(Mul(Pow2(e), x), ShlHigh(x, e), Mul(Pow2(e), low));
  }

  lemma {:induction false} WordParts(x: nat, q: nat, low: nat)
    requires x == q * 0x1_0000_0000 + low && low < B
    ensures x % B == low
  {
  }

  /** A limb moved up by `e` bits, split at its `f` lowest bits. */
  lemma {:induction false} WordShift(x: uint32, e: nat, f: nat)
    requires e + f == 32
    ensures Mul(Pow2(e), x) == Shr(x, f) * 0x1_0000_0000 + Mul(Pow2(e), LowBits(x, f))
    ensures Mul(Pow2(e), LowBits(x, f)) < B && Shr(x, f) < Pow2(e)
  {
    var p, r, q, low := Pow2(e), Pow2(f), Shr(x, f), LowBits(x, f);
    Pow2Sum(e, f);
    Pow2Word();
    ShrSum(x, f);
    MulSum(p, Mul(r, q), low);
    MulMul(p, r, q);
    MulIs(p * r, q);
    MulOrder(p, low, r);
    MulIs(p, r);
    if q >= p {
      MulIs(r, q);
      MulIs(r, p);
      MulLeft(p, q, r);
      assert false;
    }
  }

  /** Limb `t` of a left shift by `k` limbs and `e` bits, when the first `i` limbs have been shifted. */
  function ShlLimb(a: seq<uint32>, k: nat, e: nat, i: nat, t: nat): nat
    requires i <= |a| && e < 32
  {
    (if k <= t && t - k < i then ShlLow(a[t - k], e) else 0)
    + (if k < t && t - k - 1 < i then ShlHigh(a[t - k - 1], e) else 0)
  }

  /** What moves up from the limbs below `n`. */
  function ShlCarry(a: seq<uint32>, e: nat, n: nat): nat
    requires n <= |a| && e < 32
  {
    if n == 0 then 0 else ShlHigh(a[n - 1], e)
  }

  ghost predicate IsShl(r: seq<uint32>, a: seq<uint32>, k: nat, e: nat)
    requires e < 32
  {
    forall t :: 0 <= t < |r| ==> r[t] == ShlLimb(a, k, e, |a|, t)
  }

  lemma {:induction false} ShlAt(r: seq<uint32>, a: seq<uint32>, k: nat, e: nat, n: nat)
    requires e < 32 && IsShl(r, a, k, e) && n < |a| && n + k < |r|
    ensures r[n + k] == ShlLow(a[n], e) + ShlCarry(a, e, n)
  {
  }

  lemma {:induction false} ShlBelow(r: seq<uint32>, a: seq<uint32>, k: nat, e: nat, n: nat)
    requires e < 32 && IsShl(r, a, k, e) && n <= k && n <= |r|
    ensures NumTo(r, n) == 0
  {
    ZeroAbove(r, 0, n);
  }

  lemma {:induction false} ShlPrefix(r: seq<uint32>, a: seq<uint32>, k: nat, e: nat, n: nat)
    requires e < 32 && n <= |a| && n + k <= |r| && IsShl(r, a, k, e)
    ensures NumTo(r, n + k) + At(ShlCarry(a, e, n), n + k) == Mul(Pow2(e), At(NumTo(a, n), k))
  {
    if n == 0 {
      ShlBelow(r, a, k, e, k);
      AtZero(k);
      MulIs(Pow2(e), 0);
    } else {
      ShlPrefix(r, a, k, e, n - 1);
      ShlAt(r, a, k, e, n - 1);
      ShlLimbValue(a[n - 1], e, ShlCarry(a, e, n - 1), n - 1 + k);
      RowProduct(Pow2(e), a, n - 1, k);
    }
  }

  lemma {:induction false} ShlLimbValue(x: uint32, e: nat, carry: nat, t: nat)
    requires e < 32
    ensures At(ShlLow(x, e) + carry, t) + At(ShlHigh(x, e), t + 1) == At(carry, t) + At(Mul(Pow2(e), x), t)
  {
    ShlSplit(x, e);
    AtSum(ShlLow(x, e), carry, t);
    AtSplit(Mul(Pow2(e), x), ShlLow(x, e), ShlHigh(x, e), t);
  }

  /** 2 to the shift, at limb `k` and bit `e`. */
  lemma {:induction false} ShiftFactor(x: nat, k: nat, e: nat)
    ensures Mul(Pow2(e), At(x, k)) == x * Pow2(32 * k + e)
  {
    MulIs(Pow2(e), At(x, k));
    AtIsPower(x, k);
    Pow2Sum(32 * k, e);
    MulAssoc(x, Pow2(32 * k), Pow2(e));
  }

  lemma {:induction false} ShlValue(r: seq<uint32>, a: seq<uint32>, k: nat, e: nat)
    requires |r| == |a| && e < 32 && IsShl(r, a, k, e)
    ensures Num(r) == (Num(a) * Pow2(32 * k + e)) % At(1, |r|)
  {
    var w := |r|;
    var lost;
    if k <= w {
      lost := ShlLost(r, a, k, e);
      NumBound(r, w);
    } else {
      ShlBelow(r, a, k, e, w);
      AtTwice(Num(a), k - w, w);
      AtTimes(Pow2(e), At(Num(a), k - w), w);
      lost := Mul(Pow2(e), At(Num(a), k - w));
    }
    ShiftFactor(Num(a), k, e);
    KeptLow(Num(r), lost, w, Num(a) * Pow2(32 * k + e));
  }

  /** The bits shifted out at the top. */
  lemma {:induction false} ShlLost(r: seq<uint32>, a: seq<uint32>, k: nat, e: nat) returns (lost: nat)
    requires |r| == |a| && e < 32 && k <= |r| && IsShl(r, a, k, e)
    ensures Num(r) + At(lost, |r|) == Mul(Pow2(e), At(Num(a), k))
  {
    var w := |r|;
    ShlPrefix(r, a, k, e, w - k);
    var h := RowTruncated(Pow2(e), a, k);
    AtSum(ShlCarry(a, e, w - k), h, w);
    lost := ShlCarry(a, e, w - k) + h;
  }

  /** What the loop of a left shift writes. */
  lemma {:induction false} ShlCell(x: uint32, e: nat, high: nat)
    requires e < 32 && high < Pow2(e)
    ensures BitOr(high, ShlLow(x, e)) == ShlLow(x, e) + high < B
  {
    ShlSplit(x, e);
    DisjointOr(ShlLow(x, e), high, e);
    Pow2Word();
    Pow2Monotone(e, 32);
    BitOrBound(high, ShlLow(x, e), 32);
  }

  lemma {:induction false} ShlHighBound(x: uint32, e: nat)
    requires e < 32
    ensures ShlHigh(x, e) < Pow2(e) && ShlHigh(x, e) < B
  {
    ShlSplit(x, e);
    Pow2Word();
    Pow2Monotone(e, 32);
  }

  /** The limbs when the first `i` limbs have been shifted left. */
  ghost predicate ShlPart(s: seq<uint32>, a: seq<uint32>, k: nat, e: nat, i: nat)
    requires i <= |a| && e < 32
  {
    |s| == |a| && forall t :: 0 <= t < |s| ==> s[t] == ShlLimb(a, k, e, i, t)
  }

  /** What a step of a left shift finds. */
  lemma {:induction false} ShlFinds(s: seq<uint32>, a: seq<uint32>, k: nat, e: nat, i: nat)
    requires i < |a| && e < 32 && ShlPart(s, a, k, e, i)
    ensures i + k + 1 < |s| ==> s[i + k + 1] == 0
    ensures i + k < |s| ==> s[i + k] == ShlCarry(a, e, i) < Pow2(e)
  {
    if i > 0 { ShlHighBound(a[i - 1], e); }
  }

  // ---------------------------------------------------------------------------
  // Shifting right
  // ---------------------------------------------------------------------------

  /** The low bits of a limb that a right shift moves down into the limb below. */
  function ShrHigh(x: uint32, e: nat): (r: uint32)
    requires e <= 32
  {
    Mul(Pow2(32 - e), x) % B
  }

  /** Limb `t` of a right shift by `k` limbs and `e` bits, when the first `i` limbs have been shifted. */
  function ShrLimb(a: seq<uint32>, k: nat, e: nat, i: nat, t: nat): nat
    requires i <= |a| && e < 32
  {
    (if t + k < i then Shr(a[t + k], e) else 0) + (if t + k + 1 < i then ShrHigh(a[t + k + 1], e) else 0)
  }

  lemma {:induction false} ShrSplit(x: uint32, e: nat)
    requires e < 32
    ensures Shr(x, e) < Pow2(32 - e) && LowBits(ShrHigh(x, e), 32 - e) == 0
    ensures Mul(Pow2(e), Shr(x, e)) + LowBits(x, e) == x
    ensures Mul(Pow2(e), ShrHigh(x, e)) == LowBits(x, e) * 0x1_0000_0000
  {
    var low := LowBits(x, e);
    WordShift(x, 32 - e, e);
    LowBitsOfMultiple(low, 32 - e);
    WordParts(Mul(Pow2(32 - e), x), Shr(x, e), Mul(Pow2(32 - e), low));
    ShrSum(x, e);
    WordBack(low, e);
  }

  lemma {:induction false} WordBack(x: nat, e: nat)
    requires e <= 32
    ensures Mul(Pow2(e), Mul(Pow2(32 - e), x)) == x * 0x1_0000_0000
  {
    Pow2Sum(e, 32 - e);
    Pow2Word();
    MulMul(Pow2(e), Pow2(32 - e), x);
    MulIs(0x1_0000_0000, x);
  }

  /** The bits that fall out of limb `k + n`. */
  function ShrCarry(a: seq<uint32>, k: nat, e: nat, n: nat): nat {
    if n + k < |a| then LowBits(a[n + k], e) else 0
  }

  ghost predicate IsShr(r: seq<uint32>, a: seq<uint32>, k: nat, e: nat)
    requires e < 32
  {
    forall t :: 0 <= t < |r| ==> r[t] == ShrLimb(a, k, e, |a|, t)
  }

  /** `d` is `a` without its lowest `k` limbs. */
  ghost predicate IsDrop(d: seq<uint32>, a: seq<uint32>, k: nat) {
    |d| + k == |a| && forall t :: 0 <= t < |d| ==> d[t] == a[t + k]
  }

  lemma {:induction false} ShrAt(r: seq<uint32>, a: seq<uint32>, d: seq<uint32>, k: nat, e: nat, t: nat)
    requires e < 32 && t < |d| <= |r| && IsDrop(d, a, k) && IsShr(r, a, k, e)
    ensures Mul(Pow2(e), r[t]) + ShrCarry(a, k, e, t) == d[t] + ShrCarry(a, k, e, t + 1) * 0x1_0000_0000
  {
    ShrLimbIs(a, k, e, t);
  }

  /** `p` times the limbs `r` is the limbs `d`, where `c` says what falls out of each limb. */
  ghost predicate IsScaledDown(r: seq<uint32>, d: seq<uint32>, c: seq<nat>, p: nat) {
    |d| <= |r| && |c| == |d| + 1
    && forall t :: 0 <= t < |d| ==> Mul(p, r[t]) + c[t] == d[t] + c[t + 1] * 0x1_0000_0000
  }

  lemma {:induction false} ShrPrefix(r: seq<uint32>, d: seq<uint32>, c: seq<nat>, p: nat, n: nat)
    requires IsScaledDown(r, d, c, p) && n <= |d|
    ensures Mul(p, NumTo(r, n)) + c[0] == NumTo(d, n) + At(c[n], n)
  {
    if n == 0 {
      MulIs(p, 0);
    } else {
      ShrPrefix(r, d, c, p, n - 1);
      ShrPrefixStep(r, d, c, p, n - 1);
    }
  }

  lemma {:induction false} ShrPrefixStep(r: seq<uint32>, d: seq<uint32>, c: seq<nat>, p: nat, t: nat)
    requires IsScaledDown(r, d, c, p) && t < |d|
    requires Mul(p, NumTo(r, t)) + c[0] == NumTo(d, t) + At(c[t], t)
    ensures Mul(p, NumTo(r, t + 1)) + c[0] == NumTo(d, t + 1) + At(c[t + 1], t + 1)
  {
    var rs, ds, r', d' := NumTo(r, t), NumTo(d, t), r[t], d[t];
    ShrSumStep(p, rs, r', ds, d', c[0], c[t], c[t + 1], t);
    assert NumTo(r, t + 1) == rs + At(r', t) && NumTo(d, t + 1) == ds + At(d', t);
  }

  lemma {:induction false} ShrSumStep(p: nat, rs: nat, r: nat, ds: nat, d: nat, out0: nat, out: nat, carry: nat, t: nat)
    requires Mul(p, rs) + out0 == ds + At(out, t) && Mul(p, r) + out == d + carry * 0x1_0000_0000
    ensures Mul(p, rs + At(r, t)) + out0 == ds + At(d, t) + At(carry, t + 1)
  {
    ShrLimbValue(p, r, d, out, carry, t);
    MulSum(p, rs, At(r, t));
  }

  lemma {:induction false} ShrLimbIs(a: seq<uint32>, k: nat, e: nat, t: nat)
    requires t + k < |a| && e < 32
    ensures Mul(Pow2(e), ShrLimb(a, k, e, |a|, t)) + LowBits(a[t + k], e)
         == a[t + k] + ShrCarry(a, k, e, t + 1) * 0x1_0000_0000
  {
    if t + k + 1 < |a| {
      ShrJoin(a[t + k], a[t + k + 1], e);
    } else {
      ShrSplit(a[t + k], e);
    }
  }

  lemma {:induction false} ShrJoin(x: uint32, y: uint32, e: nat)
    requires e < 32
    ensures Mul(Pow2(e), Shr(x, e) + ShrHigh(y, e)) + LowBits(x, e) == x + LowBits(y, e) * 0x1_0000_0000
  {
    ShrSplit(x, e);
    ShrSplit(y, e);
    MulSum(Pow2(e), Shr(x, e), ShrHigh(y, e));
  }

  lemma {:induction false} ShrLimbValue(p: nat, r: nat, d: nat, out: nat, carry: nat, t: nat)
    requires Mul(p, r) + out == d + carry * 0x1_0000_0000
    ensures Mul(p, At(r, t)) + At(out, t) == At(d, t) + At(carry, t + 1)
  {
    AtTimes(p, r, t);
    AtSum(Mul(p, r), out, t);
    AtSplit(Mul(p, r) + out, d, carry, t);
  }

  lemma {:induction false} DropLimbs(a: seq<uint32>, d: seq<uint32>, k: nat, n: nat)
    requires n <= |d| && IsDrop(d, a, k)
    ensures NumTo(a, n + k) == NumTo(a, k) + At(NumTo(d, n), k)
  {
    if n == 0 {
      AtZero(k);
    } else {
      DropLimbs(a, d, k, n - 1);
      AtSum(NumTo(d, n - 1), At(d[n - 1], n - 1), k);
      AtTwice(d[n - 1], n - 1, k);
    }
  }

  lemma {:induction false} ShrValue(r: seq<uint32>, a: seq<uint32>, k: nat, e: nat)
    requires |r| == |a| && e < 32 && IsShr(r, a, k, e)
    ensures Num(r) == Shr(Num(a), 32 * k + e)
  {
    if k >= |a| {
      ZeroAbove(r, 0, |r|);
      NumBound(a, |a|);
      AtPow2(0, |a|);
      Pow2Monotone(32 * |a|, 32 * k + e);
      ShrUnique(Num(a), 32 * k + e, 0, Num(a));
    } else {
      var d := a[k..];
      ShrDropped(r, a, d, k, e);
    }
  }

  lemma {:induction false} ShrDropped(r: seq<uint32>, a: seq<uint32>, d: seq<uint32>, k: nat, e: nat)
    requires |r| == |a| && e < 32 && IsDrop(d, a, k) && IsShr(r, a, k, e)
    ensures Num(r) == Shr(Num(a), 32 * k + e)
  {
    var n := |d|;
    var c: seq<nat> := seq(n + 1, t requires 0 <= t <= n => ShrCarry(a, k, e, t));
    forall t | 0 <= t < n
      ensures Mul(Pow2(e), r[t]) + c[t] == d[t] + c[t + 1] * 0x1_0000_0000
    {
      ShrAt(r, a, d, k, e, t);
    }
    ShrPrefix(r, d, c, Pow2(e), n);
    AtZero(n);
    ShrAbove(r, a, k, e, n);
    LowBitsBound(a, k, e);
    DropLimbs(a, d, k, n);
    NumBound(a, k);
    ShrByParts(Num(a), NumTo(a, k), Num(d), Num(r), ShrCarry(a, k, e, 0), k, e);
  }

  lemma {:induction false} ShrAbove(r: seq<uint32>, a: seq<uint32>, k: nat, e: nat, n: nat)
    requires |r| == |a| == n + k && e < 32 && IsShr(r, a, k, e)
    ensures Num(r) == NumTo(r, n)
  {
    ZeroAbove(r, n, |r|);
  }

  /** A right shift by limbs, then by bits. */
  lemma {:induction false} ShrByParts(x: nat, low: nat, d: nat, r: nat, out: nat, k: nat, e: nat)
    requires x == low + At(d, k) && low < At(1, k) && d == Mul(Pow2(e), r) + out && out < Pow2(e)
    ensures r == Shr(x, 32 * k + e)
  {
    var p, q := Pow2(e), Pow2(32 * k);
    AtIsPower(d, k);
    AtIsPower(1, k);
    MulIs(p, r);
    Pow2Sum(32 * k, e);
    PartsSum(x, low, d, r, out, p, q);
    ShrUnique(x, 32 * k + e, r, out * q + low);
  }

  lemma {:induction false} PartsSum(x: nat, low: nat, d: nat, r: nat, out: nat, p: nat, q: nat)
    requires x == low + d * q && low < q && d == p * r + out && out < p
    ensures x == r * (q * p) + (out * q + low) && out * q + low < q * p
  {
    Distribute(p * r, out, q);
    MulStrict(out, p, q);
    assert (p * r) * q == r * (q * p) by {
      MulAssoc(r, p, q);
    }
  }

  lemma {:induction false} LowBitsBound(a: seq<uint32>, k: nat, e: nat)
    ensures ShrCarry(a, k, e, 0) < Pow2(e)
  {
    if k < |a| { ShrParts(a[k], e); }
  }

  /** What the loop of a right shift writes. */
  lemma {:induction false} ShrCell(x: uint32, y: uint32, e: nat)
    requires e < 32
    ensures BitOr(Shr(y, e), ShrHigh(x, e)) == Shr(y, e) + ShrHigh(x, e) < B
  {
    ShrSplit(x, e);
    ShrSplit(y, e);
    DisjointOr(ShrHigh(x, e), Shr(y, e), 32 - e);
    Pow2Word();
    Pow2Monotone(32 - e, 32);
    BitOrBound(Shr(y, e), ShrHigh(x, e), 32);
  }

  lemma {:induction false} ShrBound(x: uint32, e: nat)
    requires e < 32
    ensures Shr(x, e) < B && (e == 0 ==> ShrHigh(x, e) == 0)
  {
    ShrSplit(x, e);
    Pow2Word();
    Pow2Monotone(32 - e, 32);
  }

  /** The limbs when the first `i` limbs have been shifted right. */
  ghost predicate ShrPart(s: seq<uint32>, a: seq<uint32>, k: nat, e: nat, i: nat)
    requires i <= |a| && e < 32
  {
    |s| == |a| && forall t :: 0 <= t < |s| ==> s[t] == ShrLimb(a, k, e, i, t)
  }

  /** What a step of a right shift finds. */
  lemma {:induction false} ShrFinds(s: seq<uint32>, a: seq<uint32>, k: nat, e: nat, i: nat)
    requires i < |a| && e < 32 && ShrPart(s, a, k, e, i)
    ensures i >= k + 1 ==> s[i - k - 1] == Shr(a[i - 1], e)
    ensures i >= k ==> s[i - k] == 0
  {
  }

  // ---------------------------------------------------------------------------
  // Setting a bit of a quotient
  // ---------------------------------------------------------------------------

  /** All bits below `n` are zero. */
  ghost predicate LowZero(s: seq<uint32>, n: nat) {
    && (forall t :: 0 <= t < |s| && t < n / 32 ==> s[t] == 0)
    && (n / 32 < |s| ==> LowBits(s[n / 32], n % 32) == 0)
  }

  /** Setting a bit below all that are set. */
  lemma {:induction false} SetBit(s: seq<uint32>, s': seq<uint32>, n: nat)
    requires n / 32 < |s| == |s'| && LowZero(s, n + 1)
    requires s' == s[n / 32 := s'[n / 32]] && s'[n / 32] == BitOr(s[n / 32], Pow2(n % 32))
    ensures LowZero(s', n) && Num(s') == Num(s) + Pow2(n)
  {
    var t, e := n / 32, n % 32;
    BelowSet(s, n);
    SetLimb(s[t], e);
    NumUpdate(s, s', t, |s|);
    AtSum(s[t], Pow2(e), t);
    AtPow2(e, t);
  }

  lemma {:induction false} SetLimb(x: nat, e: nat)
    requires LowBits(x, e + 1) == 0
    ensures BitOr(x, Pow2(e)) == x + Pow2(e) && LowBits(BitOr(x, Pow2(e)), e) == 0
  {
    Pow2Strict(e, e + 1);
    DisjointOr(x, Pow2(e), e + 1);
    MultipleSum(x, e);
  }

  lemma {:induction false} LowZeroLess(s: seq<uint32>, n: nat)
    requires LowZero(s, n + 1)
    ensures LowZero(s, n)
  {
    if n / 32 < |s| {
      BelowSet(s, n);
      FewerBits(s[n / 32], n % 32);
    }
  }

  lemma {:induction false} FewerBits(x: nat, e: nat)
    requires LowBits(x, e + 1) == 0
    ensures LowBits(x, e) == 0
  {
    if e > 0 { FewerBits(x / 2, e - 1); }
  }

  lemma {:induction false} BelowSet(s: seq<uint32>, n: nat)
    requires n / 32 < |s| && LowZero(s, n + 1)
    ensures LowBits(s[n / 32], n % 32 + 1) == 0
    ensures forall t :: 0 <= t < n / 32 ==> s[t] == 0
  {
    if n % 32 == 31 {
      assert (n + 1) / 32 == n / 32 + 1;
      assert s[n / 32] == 0;
      ShrUnique(0, n % 32 + 1, 0, 0);
    } else {
      assert (n + 1) / 32 == n / 32 && (n + 1) % 32 == n % 32 + 1;
    }
  }

  lemma {:induction false} MultipleSum(x: nat, e: nat)
    requires LowBits(x, e + 1) == 0
    ensures LowBits(x + Pow2(e), e) == 0
  {
    var q := Shr(x, e + 1);
    ShrParts(x, e + 1);
    Associate(q, Pow2(e));
    MulAssoc(2, q, Pow2(e));
    Distribute(2 * q, 1, Pow2(e));
    ShrUnique(x + Pow2(e), e, 2 * q + 1, 0);
  }

  lemma {:induction false} BitFits(s: seq<uint32>, n: nat)
    requires n / 32 < |s|
    ensures BitOr(s[n / 32], Pow2(n % 32)) < B
  {
    Pow2Word();
    Pow2Strict(n % 32, 32);
    BitOrBound(s[n / 32], Pow2(n % 32), 32);
  }

  lemma {:induction false} AllZeroLow(s: seq<uint32>, n: nat)
    requires forall t :: 0 <= t < |s| ==> s[t] == 0
    ensures LowZero(s, n)
  {
    ShrUnique(0, n % 32, 0, 0);
  }

  // ---------------------------------------------------------------------------
  // Steps of the division
  // ---------------------------------------------------------------------------

  /** The divisor, shifted to the dividend's number of bits, fits, and twice that exceeds the dividend. */
  lemma {:induction false} AlignedFits(x: nat, y: nat, m: nat, n: nat, w: nat)
    requires IsBits(x, m) && IsBits(y, n) && 0 < n <= m <= 32 * w
    ensures (y * Pow2(m - n)) % At(1, w) == y * Pow2(m - n)
    ensures x < y * Pow2(m - n + 1)
  {
    var p := Pow2(m - n);
    Pow2Sum(n, m - n);
    MulStrict(y, Pow2(n), p);
    Pow2Monotone(m, 32 * w);
    AtPow2(0, w);
    DivModUnique(y * p, At(1, w), 0, y * p);
    Pow2Sum(n - 1, m - n + 1);
    MulLeft(Pow2(n - 1), y, Pow2(m - n + 1));
  }

  lemma {:induction false} HalfShifted(y: nat, n: nat)
    requires n > 0
    ensures Shr(y * Pow2(n), 1) == y * Pow2(n - 1)
  {
    Associate(y, Pow2(n - 1));
    assert Shr(y * Pow2(n), 1) == Shr((y * Pow2(n)) / 2, 0);
  }

  lemma {:induction false} TakeOut(x: nat, y: nat, q: nat, r: nat, p: nat)
    requires x == q * y + r && y * p <= r
    ensures x == (q + p) * y + (r - y * p)
  {
    Distribute(q, p, y);
  }

  lemma {:induction false} DoubleUp(y: nat, n: nat)
    ensures y * Pow2(n + 1) == 2 * (y * Pow2(n))
  {
    Associate(y, Pow2(n));
  }

  /** Subtracting what is not more stays below the modulus. */
  lemma {:induction false} ExactDifference(a: nat, b: nat, m: nat)
    requires b <= a < m
    ensures (a - b) % m == a - b
  {
    DivModUnique(a - b, m, 0, a - b);
  }
}
