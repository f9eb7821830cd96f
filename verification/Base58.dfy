/** Base58: conversion in place between digits of base 256 and of base 58. */
module Base58 {
  import opened BasePowers
  import opened Powers

  const BASE58: nat := 58
  const BASE256: nat := 256

  // ---------------------------------------------------------------------------
  // Digits, highest first
  // ---------------------------------------------------------------------------

  ghost predicate IsDigits(s: seq<nat>, b: nat) {
    forall i :: 0 <= i < |s| ==> s[i] < b
  }

  /** The value of the first `n` digits. */
  function FromDigits(s: seq<nat>, n: nat, b: nat): nat
    requires n <= |s|
  {
    if n == 0 then 0 else Mul(FromDigits(s, n - 1, b), b) + s[n - 1]
  }

  /** The digits of a number, without leading zeros. */
  function ToDigits(x: nat, b: nat): (s: seq<nat>)
    requires b > 1
    decreases x
  {
    if x == 0 then [] else QuotientLess(x, b); ToDigits(x / b, b) + [x % b]
  }

  lemma {:induction false} QuotientLess(x: nat, b: nat)
    requires b > 1 && x > 0
    ensures 0 <= x / b < x && 0 <= x % b < b && x == Mul(x / b, b) + x % b
  {
    var q := x / b;
    DivModIs(x, b);
    if q < 0 {
      MulLeft(q, -1, b);
    } else {
      MulIs(q, b);
      MulLeft(2, b, q);
    }
  }

  lemma {:induction false} SameDigits(s: seq<nat>, t: seq<nat>, n: nat, b: nat)
    requires n <= |s| && n <= |t| && forall i :: 0 <= i < n ==> s[i] == t[i]
    ensures FromDigits(s, n, b) == FromDigits(t, n, b)
  {
    if n > 0 { SameDigits(s, t, n - 1, b); }
  }

  lemma {:induction false} DigitsBound(s: seq<nat>, n: nat, b: nat)
    requires n <= |s| && IsDigits(s, b)
    ensures FromDigits(s, n, b) < Pow(b, n)
  {
    if n > 0 {
      DigitsBound(s, n - 1, b);
      MulIs(FromDigits(s, n - 1, b), b);
      MulIs(Pow(b, n - 1), b);
      MulStrict(FromDigits(s, n - 1, b), Pow(b, n - 1), b);
    }
  }

  /** The digits of a number are digits, do not start with zero, and have its value. */
  lemma {:induction false} ToDigitsOk(x: nat, b: nat)
    requires b > 1
    ensures var s := ToDigits(x, b);
            IsDigits(s, b) && (x > 0 ==> |s| > 0 && s[0] != 0) && (x == 0 ==> s == []) && FromDigits(s, |s|, b) == x
    decreases x
  {
    if x > 0 {
      QuotientLess(x, b);
      ToDigitsOk(x / b, b);
      var low := ToDigits(x / b, b);
      SameDigits(low, low + [x % b], |low|, b);
      if x / b == 0 { MulIs(0, b); }
    }
  }

  /** Skips leading zeros. */
  function Strip(s: seq<nat>): (r: seq<nat>)
    ensures r != [] ==> r[0] != 0
  {
    if s != [] && s[0] == 0 then Strip(s[1..]) else s
  }

  lemma {:induction false} DivideBack(q: nat, d: nat, b: nat)
    requires b > 1 && d < b
    ensures (Mul(q, b) + d) / b == q && (Mul(q, b) + d) % b == d
  {
    MulIs(q, b);
    DivModUnique(Mul(q, b) + d, b, q, d);
  }

  /** Digits without leading zeros are the digits of their value. */
  lemma {:induction false} ToDigitsFrom(s: seq<nat>, n: nat, b: nat)
    requires b > 1 && n <= |s| && IsDigits(s, b) && (n > 0 ==> s[0] != 0)
    ensures ToDigits(FromDigits(s, n, b), b) == s[..n]
  {
    if n > 0 {
      var q := FromDigits(s, n - 1, b);
      ToDigitsFrom(s, n - 1, b);
      DivideBack(q, s[n - 1], b);
      MulIs(q, b);
      if n == 1 {
        assert Mul(q, b) + s[0] > 0;
      } else {
        PrefixPositive(s, n - 1, b);
        MulLeft(1, b, q);
      }
      assert s[..n] == s[..n - 1] + [s[n - 1]];
    }
  }

  lemma {:induction false} PrefixPositive(s: seq<nat>, n: nat, b: nat)
    requires b > 1 && 0 < n <= |s| && s[0] != 0
    ensures FromDigits(s, n, b) > 0
  {
    if n > 1 {
      PrefixPositive(s, n - 1, b);
      MulIs(FromDigits(s, n - 1, b), b);
      MulLeft(1, FromDigits(s, n - 1, b), b);
    }
  }

  lemma {:induction false} LeadingZero(s: seq<nat>, n: nat, b: nat)
    requires 0 < n <= |s| && s[0] == 0
    ensures FromDigits(s, n, b) == FromDigits(s[1..], n - 1, b)
  {
    if n == 1 {
      MulIs(0, b);
    } else {
      LeadingZero(s, n - 1, b);
    }
  }

  lemma {:induction false} StripValue(s: seq<nat>, b: nat)
    requires IsDigits(s, b)
    ensures IsDigits(Strip(s), b) && FromDigits(Strip(s), |Strip(s)|, b) == FromDigits(s, |s|, b)
  {
    if s != [] && s[0] == 0 {
      LeadingZero(s, |s|, b);
      StripValue(s[1..], b);
    }
  }

  /** Stripped digits are the digits of the value. */
  lemma {:induction false} StripIsToDigits(s: seq<nat>, b: nat)
    requires b > 1 && IsDigits(s, b)
    ensures Strip(s) == ToDigits(FromDigits(s, |s|, b), b)
  {
    StripValue(s, b);
    ToDigitsFrom(Strip(s), |Strip(s)|, b);
    assert Strip(s)[..|Strip(s)|] == Strip(s);
  }

  // ---------------------------------------------------------------------------
  // The inner loop
  // ---------------------------------------------------------------------------

  /** The digits of the lowest `n` places after times `m` plus `carry`, and what is carried out. */
  function Applied(s: seq<nat>, n: nat, b: nat, m: nat, carry: nat): (seq<nat>, nat)
    requires n <= |s| && b > 1
  {
    if n == 0 then ([], carry)
    else
      var x := carry + Mul(s[n - 1], m);
      var (low, out) := Applied(s, n - 1, b, m, Quot(x, b));
      (low + [Rem(x, b)], out)
  }

  function Quot(x: nat, b: nat): nat
    requires b > 1
  {
    if x == 0 then 0 else QuotientLess(x, b); x / b
  }

  function Rem(x: nat, b: nat): nat
    requires b > 1
  {
    if x == 0 then 0 else QuotientLess(x, b); x % b
  }

  lemma {:induction false} QuotRem(x: nat, b: nat)
    requires b > 1
    ensures x == Mul(Quot(x, b), b) + Rem(x, b) && Rem(x, b) < b
    ensures Quot(x, b) == x / b && Rem(x, b) == x % b
  {
    if x > 0 {
      QuotientLess(x, b);
    } else {
      MulIs(0, b);
      DivModUnique(0, b, 0, 0);
    }
  }

  /** The value after one application, with what is carried out. */
  lemma {:induction false} AppliedValue(s: seq<nat>, n: nat, b: nat, m: nat, carry: nat)
    returns (r: seq<nat>, out: nat)
    requires n <= |s| && b > 1
    ensures Applied(s, n, b, m, carry) == (r, out) && |r| == n && IsDigits(r, b)
    ensures FromDigits(r, n, b) + Mul(out, Pow(b, n)) == Mul(m, FromDigits(s, n, b)) + carry
  {
    if n == 0 {
      r, out := [], carry;
      MulIs(carry, 1);
      MulIs(m, 0);
    } else {
      var q, d := Quot(carry + Mul(s[n - 1], m), b), Rem(carry + Mul(s[n - 1], m), b);
      QuotRem(carry + Mul(s[n - 1], m), b);
      var low;
      low, out := AppliedValue(s, n - 1, b, m, q);
      r := low + [d];
      DigitAppended(low, d, n - 1, n, b);
      AppliedStep(FromDigits(low, n - 1, b), FromDigits(r, n, b), out, Pow(b, n - 1), Pow(b, n),
                  FromDigits(s, n - 1, b), FromDigits(s, n, b), s[n - 1], q, d, b, m, carry);
    }
  }

  lemma {:induction false} DigitAppended(s: seq<nat>, d: nat, n: nat, next: nat, b: nat)
    requires n == |s| && next == n + 1
    ensures FromDigits(s + [d], next, b) == Mul(FromDigits(s, n, b), b) + d
    ensures IsDigits(s, b) && d < b ==> IsDigits(s + [d], b)
  {
    SameDigits(s, s + [d], n, b);
  }

  lemma {:induction false} AppliedStep(low: nat, low1: nat, out: nat, p: nat, p1: nat, v: nat, v1: nat, d: nat, q: nat,
                                       r: nat, b: nat, m: nat, carry: nat)
    requires low + Mul(out, p) == Mul(m, v) + q && Mul(q, b) + r == carry + Mul(d, m)
    requires low1 == Mul(low, b) + r && p1 == Mul(p, b) && v1 == Mul(v, b) + d
    ensures low1 + Mul(out, p1) == Mul(m, v1) + carry
  {
    MulSumLeft(low, Mul(out, p), b);
    MulNest(out, p, b);
    MulSumLeft(Mul(m, v), q, b);
    MulNest(m, v, b);
    MulSum(m, Mul(v, b), d);
    MulIs(m, d);
    MulIs(d, m);
  }

  /** Applied in place, from the last digit. */
  method ApplyInPlace(digits: array<nat>, b: nat, m: nat, ch: nat) returns (carry: nat)
    requires b > 1 && ch < m && b * m < 0x8000_0000 && IsDigits(digits[..], b)
    modifies digits
    ensures digits[..] == Applied(old(digits[..]), digits.Length, b, m, ch).0 && IsDigits(digits[..], b)
    ensures carry == Applied(old(digits[..]), digits.Length, b, m, ch).1
  {
    ghost var was := digits[..];
    ghost var all := Applied(was, |was|, b, m, ch);
    ghost var _, _ := AppliedValue(was, |was|, b, m, ch);
    carry := ch;
    var i := digits.Length;
    while i > 0
      invariant 0 <= i <= digits.Length && carry < m
      invariant all.1 == Applied(was, i, b, m, carry).1 && Prefix(all.0, Applied(was, i, b, m, carry).0)
      invariant |Applied(was, i, b, m, carry).0| == i
      invariant forall j :: 0 <= j < i ==> digits[j] == was[j]
      invariant forall j :: i <= j < digits.Length ==> digits[j] == all.0[j]
    {
      i := i - 1;
      carry := ApplyDigit(digits, i, b, m, carry, was, all.0);
    }
    assert digits[..] == all.0;
  }

  ghost predicate Prefix(all: seq<nat>, low: seq<nat>) {
    |low| <= |all| && forall i :: 0 <= i < |low| ==> all[i] == low[i]
  }

  lemma {:induction false} PrefixLess(all: seq<nat>, low: seq<nat>, d: nat)
    requires Prefix(all, low + [d])
    ensures Prefix(all, low) && |low| < |all| && all[|low|] == d
  {
    assert forall i :: 0 <= i < |low| ==> (low + [d])[i] == low[i];
    assert (low + [d])[|low|] == d;
  }

  method ApplyDigit(digits: array<nat>, i: nat, b: nat, m: nat, carry0: nat, ghost was: seq<nat>, ghost all: seq<nat>)
    returns (carry: nat)
    requires b > 1 && carry0 < m && b * m < 0x8000_0000 && i < digits.Length == |was|
    requires digits[i] == was[i] < b && Prefix(all, Applied(was, i + 1, b, m, carry0).0)
    modifies digits
    ensures digits[..] == old(digits[..])[i := digits[i]] && i < |all| && digits[i] == all[i] && carry < m
    ensures Applied(was, i + 1, b, m, carry0).1 == Applied(was, i, b, m, carry).1
    ensures Prefix(all, Applied(was, i, b, m, carry).0) && |Applied(was, i, b, m, carry).0| == i
  {
    MulIs(digits[i], m);
    DigitTimes(digits[i], b, m, carry0);
    var x := carry0 + digits[i] * m;
    assert x < 0x8000_0000;
    QuotRem(x, b);
    digits[i] := x % b;
    carry := x / b;
    ghost var _, _ := AppliedValue(was, i, b, m, carry);
    PrefixLess(all, Applied(was, i, b, m, carry).0, x % b);
  }

  lemma {:induction false} DigitTimes(d: nat, b: nat, m: nat, carry: nat)
    requires d < b && carry < m && b > 1
    ensures carry + d * m < b * m && (carry + d * m) / b < m
  {
    MulStrict(d, b, m);
    var x := carry + d * m;
    QuotRem(x, b);
    MulIs(x / b, b);
    if x / b >= m { MulLeft(m, x / b, b); }
  }

  /** Nothing is carried out as long as the value fits, and the value is then multiplied and added to. */
  lemma {:induction false} NoCarry(s: seq<nat>, b: nat, m: nat, ch: nat, limit: nat)
    requires b > 1 && IsDigits(s, b) && ch < m && FromDigits(s, |s|, b) < limit && m * limit <= Pow(b, |s|)
    ensures Applied(s, |s|, b, m, ch).1 == 0 && |Applied(s, |s|, b, m, ch).0| == |s|
    ensures FromDigits(Applied(s, |s|, b, m, ch).0, |s|, b) == Mul(FromDigits(s, |s|, b), m) + ch
  {
    var _, out := AppliedValue(s, |s|, b, m, ch);
    var v := FromDigits(s, |s|, b);
    MulIs(m, v);
    MulIs(v, m);
    MulIs(out, Pow(b, |s|));
    MulStrict(v, limit, m);
    BelowOne(out, Pow(b, |s|));
  }

  lemma {:induction false} BelowOne(out: nat, p: nat)
    ensures out * p >= if out > 0 then p else 0
  {
    if out > 0 { MulLeft(1, out, p); }
  }

  // ---------------------------------------------------------------------------
  // The alphabet
  // ---------------------------------------------------------------------------

  /** The characters 1-9, A-H, J-N, P-Z, a-k, m-z, in this order. */
  function CharOf(d: nat): char
    requires d < BASE58
  {
    if d < 9 then '1' + d as char
    else if d < 17 then 'A' + (d - 9) as char
    else if d < 22 then 'J' + (d - 17) as char
    else if d < 33 then 'P' + (d - 22) as char
    else if d < 44 then 'a' + (d - 33) as char
    else 'm' + (d - 44) as char
  }

  /** The position of a character in the alphabet, or -1. */
  function PositionOf(c: char): (d: int)
    ensures -1 <= d < BASE58
  {
    if '1' <= c <= '9' then c as int - '1' as int
    else if 'A' <= c <= 'H' then c as int - 'A' as int + 9
    else if 'J' <= c <= 'N' then c as int - 'J' as int + 17
    else if 'P' <= c <= 'Z' then c as int - 'P' as int + 22
    else if 'a' <= c <= 'k' then c as int - 'a' as int + 33
    else if 'm' <= c <= 'z' then c as int - 'm' as int + 44
    else -1
  }

  predicate IsSpace(c: char) {
    c == ' ' || '\t' <= c <= '\r'
  }

  lemma {:induction false} AlphabetOk(d: nat)
    requires d < BASE58
    ensures PositionOf(CharOf(d)) == d && !IsSpace(CharOf(d)) && (CharOf(d) == '1' <==> d == 0)
  {
  }

  lemma {:induction false} PositionOk(c: char)
    requires PositionOf(c) >= 0
    ensures CharOf(PositionOf(c)) == c && !IsSpace(c) && (PositionOf(c) == 0 <==> c == '1')
  {
  }

  // ---------------------------------------------------------------------------
  // Encoding and decoding as values
  // ---------------------------------------------------------------------------

  /** The number of leading elements equal to `x`. */
  function Lead<T(==)>(s: seq<T>, x: T): (n: nat)
    ensures n <= |s| && (n < |s| ==> s[n] != x) && forall i :: 0 <= i < n ==> s[i] == x
  {
    if s != [] && s[0] == x then 1 + Lead(s[1..], x) else 0
  }

  lemma {:induction false} LeadIs<T>(s: seq<T>, x: T, n: nat)
    requires n <= |s| && (n < |s| ==> s[n] != x) && forall i :: 0 <= i < n ==> s[i] == x
    ensures Lead(s, x) == n
  {
  }

  function Times<T>(x: T, n: nat): (s: seq<T>)
    ensures |s| == n && forall i :: 0 <= i < n ==> s[i] == x
  {
    seq(n, _ => x)
  }

  function Chars(d: seq<nat>): (s: string)
    requires IsDigits(d, BASE58)
    ensures |s| == |d| && forall i :: 0 <= i < |d| ==> s[i] == CharOf(d[i])
  {
    seq(|d|, i requires 0 <= i < |d| => CharOf(d[i]))
  }

  ghost predicate InAlphabet(s: string) {
    forall i :: 0 <= i < |s| ==> PositionOf(s[i]) >= 0
  }

  ghost function Positions(s: string): (d: seq<nat>)
    requires InAlphabet(s)
    ensures |d| == |s| && IsDigits(d, BASE58) && forall i :: 0 <= i < |d| ==> d[i] == PositionOf(s[i])
  {
    seq(|s|, i requires 0 <= i < |s| => PositionOf(s[i]))
  }

  /** EncodeBase58. */
  ghost function Encode(v: seq<nat>): (s: string) {
    var x := FromDigits(v, |v|, BASE256);
    ToDigitsOk(x, BASE58);
    Times('1', Lead(v, 0)) + Chars(ToDigits(x, BASE58))
  }

  /** The alphabet: all alphanumeric characters except for 0, I, O and l, in ascending order. */
  lemma {:induction false} Alphabet(c: char, above: char)
    ensures PositionOf(c) >= 0
            <==> ('0' <= c <= '9' || 'A' <= c <= 'Z' || 'a' <= c <= 'z') && c != '0' && c != 'I' && c != 'O' && c != 'l'
    ensures c < above && PositionOf(c) >= 0 && PositionOf(above) >= 0 ==> PositionOf(c) < PositionOf(above)
  {
  }

  /** The positions of ones and of the characters of digits. */
  lemma {:induction false} EncodedPositions(n: nat, d: seq<nat>, s: string, all: seq<nat>)
    requires IsDigits(d, BASE58) && s == Times('1', n) + Chars(d) && all == Times(0, n) + d
    ensures InAlphabet(s) && Positions(s) == all
  {
    forall i | 0 <= i < |s| ensures PositionOf(s[i]) == all[i] {
      if i >= n { AlphabetOk(d[i - n]); }
    }
  }

  lemma {:induction false} EncodedLead(n: nat, d: seq<nat>, s: string)
    requires IsDigits(d, BASE58) && s == Times('1', n) + Chars(d) && (d != [] ==> d[0] != 0)
    ensures Lead(s, '1') == n
  {
    if d != [] {
      AlphabetOk(d[0]);
      assert s[n] == CharOf(d[0]);
    }
    LeadIs(s, '1', n);
  }

  lemma {:induction false} EncodeParts(v: seq<nat>, n: nat, x: nat, d: seq<nat>)
    requires n == Lead(v, 0) && x == FromDigits(v, |v|, BASE256) && d == ToDigits(x, BASE58)
    ensures IsDigits(d, BASE58) && (d != [] ==> d[0] != 0) && FromDigits(d, |d|, BASE58) == x
    ensures Encode(v) == Times('1', n) + Chars(d)
  {
    ToDigitsOk(x, BASE58);
  }

  lemma {:induction false} EncodedMeans(s: string, n: nat, d: seq<nat>)
    requires IsDigits(d, BASE58) && s == Times('1', n) + Chars(d)
    ensures InAlphabet(s) && FromDigits(Positions(s), |s|, BASE58) == FromDigits(d, |d|, BASE58)
  {
    var zeros := Times(0, n);
    EncodedPositions(n, d, s, zeros + d);
    AfterZeros(zeros, d, n + |d|, BASE58);
  }

  /** What is encoded: as many ones as there are leading zero bytes, then the digits of the same number in base 58. */
  lemma {:induction false} EncodeMeans(v: seq<nat>)
    ensures var s := Encode(v);
            InAlphabet(s) && Lead(s, '1') == Lead(v, 0)
            && FromDigits(Positions(s), |s|, BASE58) == FromDigits(v, |v|, BASE256)
  {
    var x, n := FromDigits(v, |v|, BASE256), Lead(v, 0);
    EncodeParts(v, n, x, ToDigits(x, BASE58));
    EncodedMeans(Encode(v), n, ToDigits(x, BASE58));
    EncodedLead(n, ToDigits(x, BASE58), Encode(v));
  }

  /** Zeros in front change nothing. */
  lemma {:induction false} AfterZeros(zeros: seq<nat>, d: seq<nat>, n: nat, b: nat)
    requires (forall i :: 0 <= i < |zeros| ==> zeros[i] == 0) && n <= |zeros| + |d|
    ensures FromDigits(zeros + d, n, b) == if n <= |zeros| then 0 else FromDigits(d, n - |zeros|, b)
  {
    if n > 0 {
      AfterZeros(zeros, d, n - 1, b);
      MulIs(0, b);
    }
  }

  lemma {:induction false} ExampleValue(v: seq<nat>)
    requires v == [0x51, 0x6b, 0x6f, 0xcd, 0x0f]
    ensures FromDigits(v, 5, 256) == 349_694_840_079
  {
    MulIs(0, 256);
    assert FromDigits(v, 1, 256) == 81;
    MulIs(81, 256);
    assert FromDigits(v, 2, 256) == 20_843;
    MulIs(20_843, 256);
    assert FromDigits(v, 3, 256) == 5_335_919;
    MulIs(5_335_919, 256);
    assert FromDigits(v, 4, 256) == 1_365_995_469;
    MulIs(1_365_995_469, 256);
  }

  lemma {:induction false} OneMoreDigit(x: nat, b: nat, q: nat, r: nat, low: seq<nat>)
    requires b > 1 && x > 0 && x == q * b + r && r < b && ToDigits(q, b) == low
    ensures ToDigits(x, b) == low + [r]
  {
    DivModUnique(x, b, q, r);
  }

  lemma {:induction false} ExampleDigits()
    ensures ToDigits(349_694_840_079, 58) == [9, 10, 45, 19, 26, 44, 39]
  {
    OneMoreDigit(9, 58, 0, 9, []);
    OneMoreDigit(532, 58, 9, 10, [9]);
    OneMoreDigit(30_901, 58, 532, 45, [9, 10]);
    OneMoreDigit(1_792_277, 58, 30_901, 19, [9, 10, 45]);
    OneMoreDigit(103_952_092, 58, 1_792_277, 26, [9, 10, 45, 19]);
    OneMoreDigit(6_029_221_380, 58, 103_952_092, 44, [9, 10, 45, 19, 26]);
    OneMoreDigit(349_694_840_079, 58, 6_029_221_380, 39, [9, 10, 45, 19, 26, 44]);
  }

  lemma {:induction false} ExampleChars(d: seq<nat>)
    requires d == [9, 10, 45, 19, 26, 44, 39]
    ensures IsDigits(d, BASE58) && Chars(d) == "ABnLTmg"
  {
  }

  /** The bytes 51 6b 6f cd 0f. */
  lemma {:induction false} EncodeExample(v: seq<nat>)
    requires v == [0x51, 0x6b, 0x6f, 0xcd, 0x0f]
    ensures Encode(v) == "ABnLTmg"
  {
    ExampleValue(v);
    ExampleDigits();
    var d := [9, 10, 45, 19, 26, 44, 39];
    LeadIs(v, 0, 0);
    EncodeParts(v, 0, 349_694_840_079, d);
    ExampleChars(d);
  }

  datatype Decoded = Failed | Bytes(vch: seq<nat>)

  /** The number of leading characters that are spaces, or that are not. */
  function LeadSpaces(s: string, spaces: bool): (n: nat)
    ensures n <= |s| && (n < |s| ==> IsSpace(s[n]) != spaces) && forall i :: 0 <= i < n ==> IsSpace(s[i]) == spaces
  {
    if s != [] && IsSpace(s[0]) == spaces then 1 + LeadSpaces(s[1..], spaces) else 0
  }

  /** The bytes that leading ones and a body stand for. */
  ghost function BytesOf(zeroes: nat, body: string): seq<nat>
    requires InAlphabet(body)
  {
    Times(0, zeroes) + ToDigits(FromDigits(Positions(body), |body|, BASE58), BASE256)
  }

  /** A string as spaces, ones, what follows up to the next space, and the rest. */
  datatype Parts = Parts(first: nat, zeroes: nat, body: string, tail: string)

  function Split(s: string): Parts {
    var a := s[LeadSpaces(s, true)..];
    var u := a[Lead(a, '1')..];
    Parts(LeadSpaces(s, true), Lead(a, '1'), u[..LeadSpaces(u, false)], u[LeadSpaces(u, false)..])
  }

  predicate AllSpaces(s: string) {
    forall c :: c in s ==> IsSpace(c)
  }

  /** DecodeBase58: the body is in the alphabet, and nothing but spaces follows. */
  ghost function Decode(s: string): Decoded {
    var p := Split(s);
    if InAlphabet(p.body) && AllSpaces(p.tail) then Bytes(BytesOf(p.zeroes, p.body)) else Failed
  }

  /** Bytes are their leading zeros and the digits of their value. */
  lemma {:induction false} BytesSplit(v: seq<nat>)
    requires IsDigits(v, BASE256)
    ensures v == Times(0, Lead(v, 0)) + ToDigits(FromDigits(v, |v|, BASE256), BASE256)
  {
    StripIsToDigits(v, BASE256);
    StripSplit(v);
  }

  lemma {:induction false} OneMoreTime(x: nat, n: nat, next: nat, s: seq<nat>)
    requires next == n + 1
    ensures Times(x, next) + s == [x] + (Times(x, n) + s)
  {
  }

  lemma {:induction false} StripSplit(s: seq<nat>)
    ensures s == Times(0, Lead(s, 0)) + Strip(s)
  {
    if s != [] && s[0] == 0 {
      var rest := s[1..];
      StripSplit(rest);
      OneMoreTime(0, Lead(rest, 0), Lead(s, 0), Strip(rest));
      assert s == [0] + rest;
    }
  }

  lemma {:induction false} SpacesIs(s: string, spaces: bool, n: nat)
    requires n <= |s| && (n < |s| ==> IsSpace(s[n]) != spaces) && forall i :: 0 <= i < n ==> IsSpace(s[i]) == spaces
    ensures LeadSpaces(s, spaces) == n
  {
  }

  /** How ones and a body are split. */
  lemma {:induction false} SplitText(z: nat, body: string)
    requires InAlphabet(body) && (body != [] ==> body[0] != '1')
    ensures Split(Times('1', z) + body) == Parts(0, z, body, [])
  {
    var s := Times('1', z) + body;
    forall i | 0 <= i < |body| ensures !IsSpace(body[i]) {
      PositionOk(body[i]);
    }
    SpacesIs(s, true, 0);
    assert s[0..] == s;
    LeadIs(s, '1', z);
    assert s[z..] == body;
    SpacesIs(body, false, |body|);
    assert body[..|body|] == body && body[|body|..] == [];
  }

  /** What a string is split into makes up the string. */
  lemma {:induction false} SplitSum(s: string)
    ensures var p := Split(s);
            && p.first <= |s| && s == s[..p.first] + (Times('1', p.zeroes) + p.body) + p.tail
            && AllSpaces(s[..p.first]) && (p.body != [] ==> p.body[0] != '1')
  {
    var p := Split(s);
    var a := s[p.first..];
    var u := a[p.zeroes..];
    TakeDrop(s, p.first);
    TakeDrop(a, p.zeroes);
    TakeDrop(u, |p.body|);
    LeadTimes(a, '1');
    Join(s[..p.first], Times('1', p.zeroes), p.body, p.tail);
  }

  lemma {:induction false} TakeDrop(s: string, n: nat)
    requires n <= |s|
    ensures s == s[..n] + s[n..]
  {
  }

  lemma {:induction false} LeadTimes(s: string, x: char)
    ensures s[..Lead(s, x)] == Times(x, Lead(s, x))
  {
  }

  lemma {:induction false} Join(a: string, b: string, c: string, d: string)
    ensures a + (b + (c + d)) == a + (b + c) + d
  {
  }

  lemma {:induction false} CharsOk(d: seq<nat>)
    requires IsDigits(d, BASE58)
    ensures InAlphabet(Chars(d)) && Positions(Chars(d)) == d
    ensures forall i :: 0 <= i < |d| ==> (Chars(d)[i] == '1' <==> d[i] == 0)
  {
    forall i | 0 <= i < |d|
      ensures PositionOf(Chars(d)[i]) == d[i] && (Chars(d)[i] == '1' <==> d[i] == 0)
    {
      AlphabetOk(d[i]);
    }
  }

  /** Decoding what was encoded gives the bytes back. */
  lemma {:induction false} DecodeEncode(v: seq<nat>)
    requires IsDigits(v, BASE256)
    ensures Decode(Encode(v)) == Bytes(v)
  {
    var x := FromDigits(v, |v|, BASE256);
    ToDigitsOk(x, BASE58);
    var d := ToDigits(x, BASE58);
    CharsOk(d);
    SplitText(Lead(v, 0), Chars(d));
    BytesSplit(v);
  }

  /** An accepted string is, but for spaces around it, what its bytes encode to. */
  lemma {:induction false} EncodeDecode(s: string)
    requires Decode(s).Bytes?
    ensures var p := Split(s);
            && p.first <= |s| && s == s[..p.first] + Encode(Decode(s).vch) + p.tail
            && AllSpaces(s[..p.first]) && AllSpaces(p.tail)
  {
    var p := Split(s);
    SplitSum(s);
    EncodeBody(p.zeroes, p.body);
  }

  /** Encoding the bytes of leading ones and a body that does not start with one gives them back. */
  lemma {:induction false} EncodeBody(z: nat, body: string)
    requires InAlphabet(body) && (body != [] ==> body[0] != '1')
    ensures Encode(BytesOf(z, body)) == Times('1', z) + body
  {
    var d := Positions(body);
    forall i | 0 <= i < |body| ensures CharOf(d[i]) == body[i] && (d[i] == 0 <==> body[i] == '1') {
      PositionOk(body[i]);
    }
    var x := FromDigits(d, |d|, BASE58);
    ToDigitsFrom(d, |d|, BASE58);
    assert d[..|d|] == d;
    ToDigitsOk(x, BASE256);
    var v := BytesOf(z, body);
    LeadIs(v, 0, z);
    ZerosAhead(z, ToDigits(x, BASE256));
    assert Chars(d) == body;
  }

  lemma {:induction false} ZerosAhead(z: nat, s: seq<nat>)
    ensures FromDigits(Times(0, z) + s, z + |s|, BASE256) == FromDigits(s, |s|, BASE256)
  {
    if z == 0 {
      assert Times(0, z) + s == s;
    } else {
      LeadingZero(Times(0, z) + s, z + |s|, BASE256);
      assert (Times(0, z) + s)[1..] == Times(0, z - 1) + s;
      ZerosAhead(z - 1, s);
    }
  }

  // ---------------------------------------------------------------------------
  // EncodeBase58 and DecodeBase58
  // ---------------------------------------------------------------------------

  lemma {:induction false} StripDrop(s: seq<nat>)
    ensures Strip(s) == s[Lead(s, 0)..]
  {
    if s != [] && s[0] == 0 { StripDrop(s[1..]); }
  }

  lemma {:induction false} AllZero(s: seq<nat>, n: nat, b: nat)
    requires n <= |s| && forall i :: 0 <= i < n ==> s[i] == 0
    ensures FromDigits(s, n, b) == 0
  {
    if n > 0 {
      AllZero(s, n - 1, b);
      MulIs(0, b);
    }
  }

  /** The first position from which the elements are not `x`. */
  method SkipZeros(s: seq<nat>) returns (n: nat)
    ensures n == Lead(s, 0)
  {
    n := 0;
    while n < |s| && s[n] == 0
      invariant n <= |s| && forall i :: 0 <= i < n ==> s[i] == 0
    {
      n := n + 1;
    }
    LeadIs(s, 0, n);
  }

  /** Appends a digit to the number, in a buffer that is large enough: nothing is carried out. */
  method Push(digits: array<nat>, b: nat, m: nat, ch: nat, ghost d: seq<nat>)
    requires b > 1 && m > 1 && ch < m && b * m < 0x8000_0000 && IsDigits(d, m) && IsDigits(digits[..], b)
    requires Pow(m, |d| + 1) <= Pow(b, digits.Length)
    requires FromDigits(digits[..], digits.Length, b) == FromDigits(d, |d|, m)
    modifies digits
    ensures IsDigits(digits[..], b) && FromDigits(digits[..], digits.Length, b) == FromDigits(d + [ch], |d| + 1, m)
  {
    DigitsBound(d, |d|, m);
    MulIs(Pow(m, |d|), m);
    NoCarry(digits[..], b, m, ch, Pow(m, |d|));
    SameDigits(d, d + [ch], |d|, m);
    var carry := ApplyInPlace(digits, b, m, ch);
    assert carry == 0;
  }

  /** Converts the digits of `s` in base `m` to base `b`. */
  method Convert(digits: array<nat>, s: seq<nat>, b: nat, m: nat)
    requires b > 1 && m > 1 && b * m < 0x8000_0000 && IsDigits(s, m)
    requires Pow(m, |s|) <= Pow(b, digits.Length) && forall i :: 0 <= i < digits.Length ==> digits[i] == 0
    modifies digits
    ensures IsDigits(digits[..], b) && FromDigits(digits[..], digits.Length, b) == FromDigits(s, |s|, m)
  {
    AllZero(digits[..], digits.Length, b);
    for k := 0 to |s|
      invariant IsDigits(digits[..], b) && FromDigits(digits[..], digits.Length, b) == FromDigits(s[..k], k, m)
    {
      PowMonotone(m, k + 1, |s|);
      Push(digits, b, m, s[k], s[..k]);
      assert s[..k + 1] == s[..k] + [s[k]];
    }
    assert s[..|s|] == s;
  }

  /** The digits after the leading zeros, as characters. */
  method Translate(d: seq<nat>) returns (str: string)
    requires IsDigits(d, BASE58)
    ensures str == Chars(d)
  {
    str := [];
    for i := 0 to |d|
      invariant str == Chars(d)[..i]
    {
      str := str + [CharOf(d[i])];
    }
    assert Chars(d)[..|d|] == Chars(d);
  }

  /** What is left to translate after the conversion of all bytes but the leading zeros. */
  lemma {:induction false} EncodeIs(v: seq<nat>, s: seq<nat>)
    requires IsDigits(v, BASE256) && IsDigits(s, BASE58)
    requires var rest := v[Lead(v, 0)..]; FromDigits(s, |s|, BASE58) == FromDigits(rest, |rest|, BASE256)
    ensures IsDigits(s[Lead(s, 0)..], BASE58) && Encode(v) == Times('1', Lead(v, 0)) + Chars(s[Lead(s, 0)..])
  {
    StripDrop(v);
    StripValue(v, BASE256);
    StripDrop(s);
    StripIsToDigits(s, BASE58);
  }

  method EncodeBase58(v: seq<nat>) returns (str: string)
    requires IsDigits(v, BASE256)
    ensures str == Encode(v)
  {
    var zeroes := SkipZeros(v);
    var rest := v[zeroes..];
    var b58 := new nat[|rest| * 138 / 100 + 1](_ => 0);
    EncodeFits(BASE256, BASE58, 1, |rest|);
    Convert(b58, rest, BASE58, BASE256);
    EncodeIs(v, b58[..]);
    var it := SkipZeros(b58[..]);
    var text := Translate(b58[it..]);
    str := Times('1', zeroes) + text;
  }

  /** The number of leading characters that are spaces, or that are not. */
  method SkipSpaces(s: string, spaces: bool) returns (n: nat)
    ensures n == LeadSpaces(s, spaces)
  {
    n := 0;
    while n < |s| && IsSpace(s[n]) == spaces
      invariant n <= |s| && forall i :: 0 <= i < n ==> IsSpace(s[i]) == spaces
    {
      n := n + 1;
    }
    SpacesIs(s, spaces, n);
  }

  method SkipOnes(s: string) returns (n: nat)
    ensures n == Lead(s, '1')
  {
    n := 0;
    while n < |s| && s[n] == '1'
      invariant n <= |s| && forall i :: 0 <= i < n ==> s[i] == '1'
    {
      n := n + 1;
    }
    LeadIs(s, '1', n);
  }

  /** The loop of DecodeBase58 over the characters up to the next space, in a buffer that is large enough. */
  method DecodeBody(b256: array<nat>, s: string) returns (ok: bool, n: nat)
    requires b256.Length == |s| * 733 / 1000 + 1 && forall i :: 0 <= i < b256.Length ==> b256[i] == 0
    modifies b256
    ensures n <= LeadSpaces(s, false) && (ok <==> InAlphabet(s[..LeadSpaces(s, false)]))
    ensures ok ==> n == LeadSpaces(s, false) && IsDigits(b256[..], BASE256)
    ensures ok ==> FromDigits(b256[..], b256.Length, BASE256) == FromDigits(Positions(s[..n]), n, BASE58)
  {
    ghost var end := LeadSpaces(s, false);
    DecodeFits(BASE58, BASE256, 1, |s|);
    AllZero(b256[..], b256.Length, BASE256);
    n := 0;
    while n < |s| && !IsSpace(s[n])
      invariant n <= end && InAlphabet(s[..n]) && IsDigits(b256[..], BASE256)
      invariant FromDigits(b256[..], b256.Length, BASE256) == FromDigits(Positions(s[..n]), n, BASE58)
    {
      assert n < end;
      var ch := PositionOf(s[n]);
      if ch < 0 {
        assert s[..end][n] == s[n];
        return false, n;
      }
      PowMonotone(BASE58, n + 1, |s|);
      PositionsNext(s, n);
      Push(b256, BASE256, BASE58, ch, Positions(s[..n]));
      n := n + 1;
    }
    SpacesIs(s, false, n);
    return true, n;
  }

  lemma {:induction false} PositionsNext(s: string, n: nat)
    requires n < |s| && InAlphabet(s[..n]) && PositionOf(s[n]) >= 0
    ensures InAlphabet(s[..n + 1]) && Positions(s[..n + 1]) == Positions(s[..n]) + [PositionOf(s[n])]
  {
    assert s[..n + 1] == s[..n] + [s[n]];
  }

  method DecodeBase58(psz: string) returns (r: Decoded)
    ensures r == Decode(psz)
  {
    var first := SkipSpaces(psz, true);
    var a := psz[first..];
    var zeroes := SkipOnes(a);
    var u := a[zeroes..];
    var b256 := new nat[|u| * 733 / 1000 + 1](_ => 0);
    var ok, n := DecodeBody(b256, u);
    if !ok {
      return Failed;
    }
    var tail := u[n..];
    var spaces := SkipSpaces(tail, true);
    TailSpaces(tail);
    if spaces != |tail| {
      return Failed;
    }
    StripDrop(b256[..]);
    StripIsToDigits(b256[..], BASE256);
    var it := SkipZeros(b256[..]);
    return Bytes(Times(0, zeroes) + b256[it..]);
  }

  lemma {:induction false} TailSpaces(s: string)
    ensures LeadSpaces(s, true) == |s| <==> AllSpaces(s)
  {
    var n := LeadSpaces(s, true);
    if n < |s| { assert s[n] in s; }
  }

  // ---------------------------------------------------------------------------
  // With a checksum
  // ---------------------------------------------------------------------------

  /** EncodeBase58Check; `check` gives the first four bytes of the hash. */
  method EncodeBase58Check(v: seq<nat>, check: seq<nat> -> seq<nat>) returns (str: string)
    requires IsDigits(v, BASE256) && |check(v)| == 4 && IsDigits(check(v), BASE256)
    ensures str == Encode(v + check(v))
  {
    str := EncodeBase58(v + check(v));
  }

  /** What DecodeBase58Check accepts. */
  ghost function DecodeCheck(s: string, check: seq<nat> -> seq<nat>): Decoded {
    match Decode(s)
    case Failed => Failed
    case Bytes(w) =>
      if |w| >= 4 && check(w[..|w| - 4]) == w[|w| - 4..] then Bytes(w[..|w| - 4]) else Failed
  }

  /** A string is accepted as exactly those bytes whose check bytes, four of them, follow them in what it decodes to. */
  lemma {:induction false} CheckAccepts(s: string, check: seq<nat> -> seq<nat>, v: seq<nat>)
    ensures DecodeCheck(s, check) == Bytes(v) <==> |check(v)| == 4 && Decode(s) == Bytes(v + check(v))
  {
    if |check(v)| == 4 && Decode(s) == Bytes(v + check(v)) {
      var w := v + check(v);
      assert w[..|w| - 4] == v && w[|w| - 4..] == check(v);
    }
    if DecodeCheck(s, check) == Bytes(v) {
      var w := Decode(s).vch;
      assert w == w[..|w| - 4] + w[|w| - 4..];
    }
  }

  /** An accepted string is, but for spaces around it, the encoding of the bytes and their check bytes; any string with
      other check bytes is rejected. */
  lemma {:induction false} CheckedText(s: string, check: seq<nat> -> seq<nat>, v: seq<nat>)
    requires DecodeCheck(s, check) == Bytes(v)
    ensures |check(v)| == 4 && InSpaces(s, Encode(v + check(v)))
  {
    CheckAccepts(s, check, v);
    DecodedInSpaces(s, v + check(v));
  }

  /** `s` is `text` with nothing but spaces around it. */
  ghost predicate InSpaces(s: string, text: string) {
    exists before, after :: s == before + text + after && AllSpaces(before) && AllSpaces(after)
  }

  lemma {:induction false} DecodedInSpaces(s: string, w: seq<nat>)
    requires Decode(s) == Bytes(w)
    ensures InSpaces(s, Encode(w))
  {
    EncodeDecode(s);
    var p := Split(s);
    Around(s, s[..p.first], Encode(w), p.tail);
  }

  lemma {:induction false} SpacesBefore(before: string, rest: string, s: string)
    requires AllSpaces(before) && s == before + rest && (rest != [] ==> !IsSpace(rest[0]))
    ensures LeadSpaces(s, true) == |before| && s[|before|..] == rest
  {
    forall i | 0 <= i < |before| ensures IsSpace(s[i]) {
      assert before[i] in before;
    }
    SpacesIs(s, true, |before|);
  }

  lemma {:induction false} OnesBefore(z: nat, rest: string, a: string)
    requires a == Times('1', z) + rest && (rest != [] ==> rest[0] != '1')
    ensures Lead(a, '1') == z && a[z..] == rest
  {
    LeadIs(a, '1', z);
  }

  lemma {:induction false} BodyBefore(body: string, after: string, u: string)
    requires InAlphabet(body) && AllSpaces(after) && u == body + after
    ensures LeadSpaces(u, false) == |body| && u[..|body|] == body && u[|body|..] == after
  {
    forall i | 0 <= i < |body| ensures !IsSpace(u[i]) {
      PositionOk(body[i]);
    }
    if after != [] { assert after[0] in after; }
    SpacesIs(u, false, |body|);
  }

  /** How a text with spaces around it is split. */
  lemma {:induction false} SplitAround(before: string, z: nat, body: string, after: string, text: string, s: string)
    requires AllSpaces(before) && AllSpaces(after) && InAlphabet(body) && (body != [] ==> body[0] != '1')
    requires text == Times('1', z) + body && text != [] && s == before + text + after
    ensures Split(s) == Parts(|before|, z, body, after)
  {
    var a, u := text + after, body + after;
    assert !IsSpace(a[0]) by { if z == 0 { PositionOk(body[0]); } }
    assert s == before + a && a == Times('1', z) + u;
    SpacesBefore(before, a, s);
    assert u != [] ==> u[0] != '1' by { if body == [] && after != [] { assert after[0] in after; } }
    OnesBefore(z, u, a);
    BodyBefore(body, after, u);
  }

  lemma {:induction false} SplitSpaces(s: string)
    requires AllSpaces(s)
    ensures Split(s) == Parts(|s|, 0, [], [])
  {
    SpacesIs(s, true, |s|);
    assert s[|s|..] == [];
  }

  /** Spaces around an encoding are skipped. */
  lemma {:induction false} DecodeAround(v: seq<nat>, s: string, before: string, after: string)
    requires IsDigits(v, BASE256) && AllSpaces(before) && AllSpaces(after) && s == before + Encode(v) + after
    ensures Decode(s) == Bytes(v)
  {
    var x, n := FromDigits(v, |v|, BASE256), Lead(v, 0);
    var d := ToDigits(x, BASE58);
    EncodeParts(v, n, x, d);
    CharsOk(d);
    BytesSplit(v);
    if Encode(v) == [] {
      SplitSpaces(s);
    } else {
      SplitAround(before, n, Chars(d), after, Encode(v), s);
    }
  }

  lemma {:induction false} DecodedDigits(s: string)
    requires Decode(s).Bytes?
    ensures IsDigits(Decode(s).vch, BASE256)
  {
    var p := Split(s);
    ToDigitsOk(FromDigits(Positions(p.body), |p.body|, BASE58), BASE256);
  }

  /** A string is decoded to some bytes if and only if it is their encoding, but for spaces around it. */
  lemma {:induction false} DecodeIs(s: string, v: seq<nat>)
    ensures Decode(s) == Bytes(v) <==> IsDigits(v, BASE256) && InSpaces(s, Encode(v))
  {
    if Decode(s) == Bytes(v) {
      DecodedDigits(s);
      DecodedInSpaces(s, v);
    }
    if IsDigits(v, BASE256) && InSpaces(s, Encode(v)) {
      var before, after :| s == before + Encode(v) + after && AllSpaces(before) && AllSpaces(after);
      DecodeAround(v, s, before, after);
    }
  }

  lemma {:induction false} Around(s: string, before: string, text: string, after: string)
    requires s == before + text + after && AllSpaces(before) && AllSpaces(after)
    ensures InSpaces(s, text)
  {
  }

  method DecodeBase58Check(psz: string, check: seq<nat> -> seq<nat>) returns (r: Decoded)
    ensures forall v :: r == Bytes(v) <==> |check(v)| == 4 && Decode(psz) == Bytes(v + check(v))
    ensures r == DecodeCheck(psz, check)
  {
    forall v ensures DecodeCheck(psz, check) == Bytes(v) <==> |check(v)| == 4 && Decode(psz) == Bytes(v + check(v)) {
      CheckAccepts(psz, check, v);
    }
    r := DecodeBase58(psz);
    if r.Failed? || |r.vch| < 4 {
      return Failed;
    }
    var n := |r.vch| - 4;
    if check(r.vch[..n]) != r.vch[n..] {
      return Failed;
    }
    return Bytes(r.vch[..n]);
  }

  /** A checked string decodes to what was encoded. */
  lemma {:induction false} CheckRoundTrip(v: seq<nat>, check: seq<nat> -> seq<nat>)
    requires IsDigits(v, BASE256) && |check(v)| == 4 && IsDigits(check(v), BASE256)
    ensures DecodeCheck(Encode(v + check(v)), check) == Bytes(v)
  {
    DecodeEncode(v + check(v));
    assert (v + check(v))[..|v|] == v;
  }
}
