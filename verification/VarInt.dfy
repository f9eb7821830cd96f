/** The variable-length integers of the on-disk formats: base 128, most significant digit first, with one
    subtracted from all but the last digit. */
module VarInt {
  import opened Coins

  type Bytes = seq<uint8>

  const TWO64: nat := 0x1_0000_0000_0000_0000

  /** All digits but the last: each has bit 128 set. */
  function High(m: nat): Bytes {
    if m < 128 then [m + 128] else High(m / 128 - 1) + [m % 128 + 128]
  }

  function Write(n: nat): Bytes {
    if n < 128 then [n] else High(n / 128 - 1) + [n % 128]
  }

  /** What is written for a signed number: of a negative one, its seven lowest bits. */
  function Stored(n: int): nat {
    if n < 0 then n % 128 else n
  }

  /** Reads on from the value `acc` of the digits read so far. */
  function Read(s: Bytes, acc: nat): Option<(nat, Bytes)> {
    if s == [] then None
    else
      var n := acc * 128 + s[0] % 128;
      if s[0] >= 128 then Read(s[1..], n + 1) else Some((n, s[1..]))
  }

  lemma {:induction false} ReadHigh(m: nat, tail: Bytes)
    ensures Read(High(m) + tail, 0) == Read(tail, m + 1)
  {
    if m < 128 {
      assert ([m + 128] + tail)[1..] == tail;
    } else {
      var last: Bytes := [m % 128 + 128];
      assert High(m) + tail == High(m / 128 - 1) + (last + tail);
      ReadHigh(m / 128 - 1, last + tail);
      assert (last + tail)[1..] == tail;
    }
  }

  /** Reading back what was written. */
  lemma {:induction false} ReadWrite(n: nat, rest: Bytes)
    ensures Read(Write(n) + rest, 0) == Some((n, rest))
  {
    if n < 128 {
      assert ([n] + rest)[1..] == rest;
    } else {
      var last: Bytes := [n % 128];
      assert Write(n) + rest == High(n / 128 - 1) + (last + rest);
      ReadHigh(n / 128 - 1, last + rest);
      assert (last + rest)[1..] == rest;
    }
  }

  lemma {:induction false} LastDigit(acc: nat, b: nat)
    requires b < 128
    ensures High(acc * 128 + b) == (if acc == 0 then [] else High(acc - 1)) + [b + 128]
    ensures Write(acc * 128 + b) == (if acc == 0 then [] else High(acc - 1)) + [b]
  {
    var n := acc * 128 + b;
    assert n / 128 == acc && n % 128 == b;
  }

  /** What was read since the digits worth `acc` continues the only encoding of the result. */
  lemma {:induction false} WriteReadFrom(s: Bytes, acc: nat) returns (used: Bytes)
    requires Read(s, acc).Some?
    ensures s == used + Read(s, acc).value.1
    ensures Write(Read(s, acc).value.0) == (if acc == 0 then [] else High(acc - 1)) + used
  {
    var n := acc * 128 + s[0] % 128;
    LastDigit(acc, s[0] % 128);
    if s[0] >= 128 {
      var more := WriteReadFrom(s[1..], n + 1);
      used := [s[0]] + more;
    } else {
      used := [s[0]];
    }
  }

  /** Every encoding that can be read is the one that Write produces: encodings are unique. */
  lemma {:induction false} WriteRead(s: Bytes)
    requires Read(s, 0).Some?
    ensures var (n, rest) := Read(s, 0).value; Write(n) + rest == s
  {
    var used := WriteReadFrom(s, 0);
  }

  function Pow128(i: nat): nat {
    if i == 0 then 1 else 128 * Pow128(i - 1)
  }

  /** The last digit and, for the `n` digits before it, 128^i times one more than the digit i places from the end. */
  function Worth(s: Bytes, n: nat): nat
    requires n < |s|
  {
    if n == 0 then s[|s| - 1] % 128 else Worth(s, n - 1) + Pow128(n) * (s[|s| - 1 - n] % 128 + 1)
  }

  lemma {:induction false} WorthSnoc(s: Bytes, d: uint8, n: nat)
    requires n < |s|
    ensures Worth(s + [d], n + 1) == 128 * (Worth(s, n) + 1) + d % 128
  {
    var t := s + [d];
    if n == 0 {
      assert Worth(t, 0) == d % 128 && Pow128(1) == 128 * Pow128(0);
    } else {
      WorthSnoc(s, d, n - 1);
      var digit := s[|s| - 1 - n] % 128 + 1;
      assert t[|t| - 1 - (n + 1)] == s[|s| - 1 - n];
      TimesFactor(Pow128(n), digit);
    }
  }

  lemma {:induction false} TimesFactor(p: nat, digit: nat)
    ensures (128 * p) * digit == 128 * (p * digit)
  {
  }

  lemma {:induction false} HighMeans(m: nat)
    ensures var s := High(m); s != [] && Worth(s, |s| - 1) == m && forall i :: 0 <= i < |s| ==> s[i] >= 128
  {
    if m >= 128 {
      HighMeans(m / 128 - 1);
      var s := High(m / 128 - 1);
      WorthSnoc(s, m % 128 + 128, |s| - 1);
    }
  }

  /** What is written for a number: digits of which all but the last have bit 128 set, and which are worth the
      number. */
  lemma {:induction false} WriteMeans(n: nat)
    ensures var s := Write(n);
            s != [] && s[|s| - 1] < 128 && (forall i :: 0 <= i < |s| - 1 ==> s[i] >= 128) && Worth(s, |s| - 1) == n
  {
    if n >= 128 {
      HighMeans(n / 128 - 1);
      var s := High(n / 128 - 1);
      WorthSnoc(s, n % 128, |s| - 1);
    }
  }

  /** Numbers at which the length changes. */
  lemma {:induction false} ShortExamples()
    ensures Write(0) == [0x00] && Write(127) == [0x7F] && Write(128) == [0x80, 0x00] && Write(255) == [0x80, 0x7F]
    ensures Write(256) == [0x81, 0x00] && Write(16383) == [0xFE, 0x7F] && Write(16384) == [0xFF, 0x00]
    ensures Write(16511) == [0xFF, 0x7F]
  {
    assert High(0) == [0x80] && High(1) == [0x81] && High(126) == [0xFE] && High(127) == [0xFF];
  }

  lemma {:induction false} LongExamples()
    ensures Write(16512) == [0x80, 0x80, 0x00] && Write(65535) == [0x82, 0xFE, 0x7F]
    ensures Write(0x1_0000_0000) == [0x8E, 0xFE, 0xFE, 0xFF, 0x00]
  {
    assert High(128) == High(0) + [0x80] && High(0) == [0x80];
    assert High(510) == High(2) + [0xFE] && High(2) == [0x82];
    var h := High(33_554_431);
    assert High(14) == [0x8E];
    assert High(2046) == High(14) + [0xFE];
    assert High(262_142) == High(2046) + [0xFE];
    assert h == High(262_142) + [0xFF];
  }

  /** The digits that the documentation lists for 16511 and 65535 are those of other numbers. */
  lemma {:induction false} MisprintedExamples()
    ensures Write(32895) == [0x80, 0xFF, 0x7F] && Write(65407) == [0x82, 0xFD, 0x7F]
  {
    assert High(0) == [0x80] && High(255) == High(0) + [0xFF];
    assert High(2) == [0x82] && High(509) == High(2) + [0xFD];
  }

  /** How large the value can still be after `len` digits of a 64-bit integer. */
  function Bound(len: nat): nat {
    if len == 0 then TWO64 else Bound(len - 1) / 128
  }

  lemma {:induction false} BoundAtEnd()
    ensures Bound(9) == 2
  {
    assert Bound(1) == 0x200_0000_0000_0000;
    assert Bound(3) == 0x800_0000_0000;
    assert Bound(5) == 0x2000_0000;
    assert Bound(7) == 0x8000;
    assert Bound(8) == 0x100;
  }

  lemma {:induction false} BoundDecreases(i: nat, j: nat)
    requires i <= j
    ensures Bound(j) <= Bound(i)
    decreases j
  {
    if i < j {
      BoundDecreases(i, j - 1);
    }
  }

  /** The digits left in the buffer, in the order they are written out. */
  function Reversed(s: Bytes): Bytes {
    if s == [] then [] else [s[|s| - 1]] + Reversed(s[..|s| - 1])
  }

  /** What the digits in the buffer and the value left to write stand for. */
  function Pending(n: nat, digits: Bytes): Bytes {
    if digits == [] then Write(n) else High(n) + Reversed(digits)
  }

  lemma {:induction false} PendingStep(n: nat, next: nat, digits: Bytes, last: uint8)
    requires n >= 128 && next == n / 128 - 1 && last == n % 128 + if digits == [] then 0 else 128
    ensures Pending(n, digits) == Pending(next, digits + [last])
  {
    var ds := digits + [last];
    assert ds[..|ds| - 1] == digits && ds[|ds| - 1] == last;
    assert Reversed(ds) == [last] + Reversed(digits);
  }

  lemma {:induction false} PendingEnd(n: nat, digits: Bytes)
    requires n < 128
    ensures Pending(n, digits) == Reversed(digits + [n + if digits == [] then 0 else 128])
  {
    var last: uint8 := n + if digits == [] then 0 else 128;
    var ds := digits + [last];
    assert ds[..|ds| - 1] == digits && ds[|ds| - 1] == last;
    assert Reversed(ds) == [last] + Reversed(digits);
  }

  /** The second loop of WriteVarInt: writes the buffer out, last digit first. */
  method WriteOut(tmp: array<uint8>, len: nat) returns (out: Bytes)
    requires len < tmp.Length
    ensures out == Reversed(tmp[..len + 1])
  {
    out := [];
    var k := len;
    while k >= 0
      invariant -1 <= k <= len
      invariant out + Reversed(tmp[..k + 1]) == Reversed(tmp[..len + 1])
    {
      assert tmp[..k + 1][..k] == tmp[..k];
      out := out + [tmp[k]];
      k := k - 1;
    }
  }

  lemma {:induction false} BoundNext(n: nat, len: nat, next: nat)
    requires 128 <= n < Bound(len) && len < 10 && next == len + 1
    ensures next < 10 && n / 128 - 1 < Bound(next)
  {
    BoundAtEnd();
  }

  /** WriteVarInt: the ten-byte buffer is large enough for any 64-bit value. A negative number ends the loop at once. */
  method WriteVarInt(nIn: int) returns (out: Bytes)
    requires nIn < TWO64
    ensures out == Write(Stored(nIn))
  {
    if nIn < 0 {
      var one := new uint8[10](_ => 0);
      one[0] := nIn % 128;
      out := WriteOut(one, 0);
      assert one[..1] == [one[0]];
    } else {
      out := WriteNatural(nIn);
    }
  }

  /** The first loop of WriteVarInt: all digits but the highest, lowest one first. */
  method WriteDigits(nIn: nat, tmp: array<uint8>) returns (n: nat, len: nat, ghost digits: Bytes)
    requires nIn < TWO64 && tmp.Length == 10
    modifies tmp
    ensures n < 128 && len == |digits| < 10 && digits == tmp[..len] && Pending(nIn, []) == Pending(n, digits)
  {
    n, len, digits := nIn, 0, [];
    while n > 0x7F
      invariant 0 <= len < 10 && n < Bound(len)
      invariant digits == tmp[..len]
      invariant Pending(nIn, []) == Pending(n, digits)
      decreases n
    {
      var last: uint8 := n % 128 + if len > 0 then 128 else 0;
      PendingStep(n, n / 128 - 1, digits, last);
      BoundNext(n, len, len + 1);
      tmp[len] := last;
      digits := digits + [last];
      n := n / 128 - 1;
      len := len + 1;
    }
  }

  method WriteNatural(nIn: nat) returns (out: Bytes)
    requires nIn < TWO64
    ensures out == Write(nIn)
  {
    var tmp := new uint8[10](_ => 0);
    var n, len;
    ghost var digits;
    n, len, digits := WriteDigits(nIn, tmp);
    PendingEnd(n, digits);
    tmp[len] := n + if len > 0 then 128 else 0;
    assert tmp[..len + 1] == digits + [tmp[len]];
    out := WriteOut(tmp, len);
  }
}
