/** The compact form of difficulty targets: SetCompact and GetCompact. */
module Compact {
  import opened ArithUint
  import opened LimbBits
  import opened Limbs
  import opened Powers

  // ---------------------------------------------------------------------------
  // Sizes in bytes
  // ---------------------------------------------------------------------------

  /** The number of bytes of an arith_uint256. */
  const WIDTH_BYTES: nat := 32

  /** The number of bytes of a number. */
  function SizeOf(x: nat): nat {
    if x == 0 then 0 else 1 + SizeOf(x / 256)
  }

  /** 256 to the power of n. */
  function Bytes(n: nat): (r: nat)
    ensures r > 0
  {
    if n == 0 then 1 else 256 * Bytes(n - 1)
  }

  lemma {:induction false} BytesIs(n: nat)
    ensures Bytes(n) == Pow2(8 * n)
  {
    if n > 0 {
      BytesIs(n - 1);
      Pow2Sum(8, 8 * (n - 1));
      Pow2Byte();
    }
  }

  lemma {:induction false} BytesMonotone(m: nat, n: nat)
    requires m <= n
    ensures Bytes(m) <= Bytes(n)
  {
    if m < n { BytesMonotone(m, n - 1); }
  }

  lemma {:induction false} SizeBounds(x: nat)
    ensures x < Bytes(SizeOf(x)) && (x > 0 ==> Bytes(SizeOf(x) - 1) <= x)
  {
    if x >= 256 {
      SizeBounds(x / 256);
    } else if x > 0 {
      assert SizeOf(x / 256) == 0;
    }
  }

  lemma {:induction false} SizeUnique(x: nat, n: nat)
    requires x < Bytes(n) && (n > 0 ==> Bytes(n - 1) <= x)
    ensures SizeOf(x) == n
  {
    SizeBounds(x);
    if SizeOf(x) < n {
      BytesMonotone(SizeOf(x), n - 1);
    } else if n < SizeOf(x) {
      BytesMonotone(n, SizeOf(x) - 1);
    }
  }

  lemma {:induction false} SizeMonotone(x: nat, y: nat)
    requires x <= y
    ensures SizeOf(x) <= SizeOf(y)
  {
    SizeBounds(x);
    SizeBounds(y);
    if SizeOf(y) < SizeOf(x) { BytesMonotone(SizeOf(y), SizeOf(x) - 1); }
  }

  /** Bytes from bits. */
  lemma {:induction false} SizeFromBits(x: nat, n: nat)
    requires IsBits(x, n)
    ensures SizeOf(x) == (n + 7) / 8
  {
    var s := (n + 7) / 8;
    BytesIs(s);
    Pow2Monotone(n, 8 * s);
    if n > 0 {
      BytesIs(s - 1);
      Pow2Monotone(8 * (s - 1), n - 1);
    }
    SizeUnique(x, s);
  }

  // ---------------------------------------------------------------------------
  // Moving by bytes
  // ---------------------------------------------------------------------------

  /** x >> 8 * n. */
  function Drop(x: nat, n: nat): nat {
    if n == 0 then x else Drop(x / 256, n - 1)
  }

  /** x << 8 * n. */
  function Raise(x: nat, n: nat): nat {
    if n == 0 then x else 256 * Raise(x, n - 1)
  }

  lemma {:induction false} DropIsShr(x: nat, n: nat)
    ensures Drop(x, n) == Shr(x, 8 * n)
  {
    if n > 0 {
      DropIsShr(x / 256, n - 1);
      ShrByte(x, 8 * (n - 1));
    }
  }

  lemma {:induction false} ShrByte(x: nat, n: nat)
    ensures Shr(x, n + 8) == Shr(x / 256, n)
  {
    assert Shr(x, n + 8) == Shr(x / 2, n + 7) == Shr(x / 4, n + 6);
    assert Shr(x / 4, n + 6) == Shr(x / 8, n + 5) == Shr(x / 16, n + 4);
    assert Shr(x / 16, n + 4) == Shr(x / 32, n + 3) == Shr(x / 64, n + 2);
    assert Shr(x / 64, n + 2) == Shr(x / 128, n + 1) == Shr(x / 256, n);
  }

  lemma {:induction false} RaiseIs(x: nat, n: nat)
    ensures Raise(x, n) == x * Pow2(8 * n)
  {
    if n > 0 {
      RaiseIs(x, n - 1);
      Pow2Sum(8, 8 * (n - 1));
      Pow2Byte();
      MulAssoc(256, x, Pow2(8 * (n - 1)));
      MulAssoc(x, 256, Pow2(8 * (n - 1)));
    }
  }

  lemma {:induction false} RaiseMonotone(x: nat, y: nat, n: nat)
    ensures x <= y ==> Raise(x, n) <= Raise(y, n)
    ensures x < y ==> Raise(x, n) < Raise(y, n)
  {
    if n > 0 { RaiseMonotone(x, y, n - 1); }
  }

  lemma {:induction false} RaiseBytes(m: nat, n: nat)
    ensures Raise(Bytes(m), n) == Bytes(m + n)
  {
    if n > 0 { RaiseBytes(m, n - 1); }
  }

  lemma {:induction false} DropMonotone(x: nat, y: nat, n: nat)
    requires x <= y
    ensures Drop(x, n) <= Drop(y, n)
  {
    if n > 0 { DropMonotone(x / 256, y / 256, n - 1); }
  }

  lemma {:induction false} DropNext(x: nat, n: nat)
    ensures Drop(x, n) / 256 == Drop(x, n + 1)
  {
    if n > 0 { DropNext(x / 256, n - 1); }
  }

  lemma {:induction false} DropBounds(x: nat, n: nat, s: nat)
    ensures Bytes(s + n) <= x ==> Bytes(s) <= Drop(x, n)
    ensures x < Bytes(s + n) ==> Drop(x, n) < Bytes(s)
  {
    if n > 0 { DropBounds(x / 256, n - 1, s); }
  }

  lemma {:induction false} DropRaise(x: nat, n: nat)
    ensures Drop(Raise(x, n), n) == x
  {
    if n > 0 { DropRaise(x, n - 1); }
  }

  /** Dropping low bytes and coming back loses only them. */
  lemma {:induction false} RaiseDrop(x: nat, n: nat)
    ensures Raise(Drop(x, n), n) <= x < Raise(Drop(x, n), n) + Bytes(n)
  {
    if n > 0 {
      RaiseDrop(x, n - 1);
      DropNext(x, n - 1);
      var d := Drop(x, n - 1);
      RaiseSum(256 * (d / 256), d % 256, n - 1);
      RaiseSwap(d / 256, n - 1);
      RaiseMonotone(d % 256, 255, n - 1);
      RaiseIs255(n - 1);
    }
  }

  lemma {:induction false} DropIsDiv(x: nat, n: nat)
    ensures Drop(x, n) == x / Pow2(8 * n)
  {
    RaiseDrop(x, n);
    RaiseIs(Drop(x, n), n);
    BytesIs(n);
    DivModUnique(x, Pow2(8 * n), Drop(x, n), x - Raise(Drop(x, n), n));
  }

  lemma {:induction false} RaiseSum(x: nat, y: nat, n: nat)
    ensures Raise(x + y, n) == Raise(x, n) + Raise(y, n)
  {
    if n > 0 { RaiseSum(x, y, n - 1); }
  }

  lemma {:induction false} RaiseSwap(x: nat, n: nat)
    ensures Raise(256 * x, n) == Raise(x, n + 1)
  {
    if n > 0 { RaiseSwap(x, n - 1); }
  }

  lemma {:induction false} RaiseIs255(n: nat)
    ensures Raise(255, n) + Bytes(n) == Bytes(n + 1)
  {
    if n > 0 { RaiseIs255(n - 1); }
  }

  // ---------------------------------------------------------------------------
  // The compact form
  // ---------------------------------------------------------------------------

  /** x moved so that its byte `size` becomes the third. */
  function Mantissa(x: nat, size: nat): nat {
    if size <= 3 then Raise(x, 3 - size) else Drop(x, size - 3)
  }

  /** The size and the mantissa before the sign bit is cleared, and after. */
  function EncodedSize(x: nat): nat {
    if Mantissa(x, SizeOf(x)) >= 0x80_0000 then SizeOf(x) + 1 else SizeOf(x)
  }

  function EncodedMantissa(x: nat): nat {
    var m := Mantissa(x, SizeOf(x));
    if m >= 0x80_0000 then m / 256 else m
  }

  /** GetCompact. */
  function Encode(x: nat, fNegative: bool): nat {
    var m := EncodedMantissa(x);
    m + 0x100_0000 * EncodedSize(x) + if fNegative && m != 0 then 0x80_0000 else 0
  }

  datatype Decoded = Decoded(value: nat, fNegative: bool, fOverflow: bool)

  /** The mantissa of a compact form, moved right if its size is small. */
  function WordOf(nCompact: nat): nat {
    var nSize, nWord := nCompact / 0x100_0000, nCompact % 0x80_0000;
    if nSize <= 3 then Drop(nWord, 3 - nSize) else nWord
  }

  /** What 256 bits keep of a number. */
  function Wrap(x: nat): nat {
    ModNatural(x, Bytes(WIDTH_BYTES));
    x % Bytes(WIDTH_BYTES)
  }

  lemma {:induction false} ModNatural(x: nat, m: nat)
    requires m > 0
    ensures x % m >= 0
  {
  }

  /** SetCompact. */
  function Decode(nCompact: nat): Decoded {
    var nSize, nWord := nCompact / 0x100_0000, WordOf(nCompact);
    Decoded(if nSize <= 3 then nWord else Wrap(Raise(nWord, nSize - 3)),
            nWord != 0 && (nCompact / 0x80_0000) % 2 == 1,
            nWord != 0 && (nSize > 34 || (nWord > 0xff && nSize > 33) || (nWord > 0xffff && nSize > 32)))
  }

  /** What a compact form means: an exponent, a sign bit, and a mantissa of 23 bits that is moved by the exponent less
      three bytes. The sign counts only if anything is left of the mantissa. */
  lemma {:induction false} DecodeMeans(size: nat, sign: bool, m: nat)
    requires m < 0x80_0000
    ensures var d := Decode(0x100_0000 * size + (if sign then 0x80_0000 else 0) + m);
            && d.value == (if size <= 3 then m / Pow2(8 * (3 - size)) else m * Pow2(8 * (size - 3)) % Pow2(256))
            && (d.fNegative <==> sign && if size <= 3 then m / Pow2(8 * (3 - size)) != 0 else m != 0)
  {
    WordParts(m, size, sign);
    if size <= 3 {
      DropIsDiv(m, 3 - size);
    } else {
      RaiseIs(m, size - 3);
      BytesIs(WIDTH_BYTES);
    }
  }

  /** Words whose size is too small for their mantissa, and the sign bit. */
  lemma {:induction false} SmallExamples()
    ensures Decode(0x0012_3456) == Decoded(0, false, false) && Decode(0x0112_3456) == Decoded(0x12, false, false)
    ensures Decode(0x01fe_dcba) == Decoded(0x7e, true, false) && Decode(0x0212_3456) == Decoded(0x1234, false, false)
  {
    assert Drop(0x12_3456, 3) == 0 && Drop(0x12_3456, 2) == 0x12 && Drop(0x12_3456, 1) == 0x1234;
    assert Drop(0x7e_dcba, 2) == 0x7e;
  }

  lemma {:induction false} LargeExample(sign: bool)
    ensures Decode(0x0412_3456 + if sign then 0x80_0000 else 0).value == 0x1234_5600
  {
    DecodeMeans(4, sign, 0x12_3456);
    Pow2Byte();
    Pow2Word();
    Pow2Monotone(32, 256);
    DivModUnique(0x1234_5600, Pow2(256), 0, 0x1234_5600);
  }

  /** The overflow flag is set exactly when the mantissa, moved up by the size less 3 bytes, does not fit 256 bits. */
  lemma {:induction false} OverflowExact(nCompact: nat)
    ensures Decode(nCompact).fOverflow
       <==> nCompact / 0x100_0000 > 3 && Raise(WordOf(nCompact), nCompact / 0x100_0000 - 3) >= Bytes(WIDTH_BYTES)
  {
    var nSize, nWord := nCompact / 0x100_0000, WordOf(nCompact);
    if nSize > 3 {
      WordSmall(nCompact);
      if nSize > 34 {
        BigOverflow(nWord, nSize - 3);
      } else {
        SmallOverflow(nWord, nSize - 3);
      }
    }
  }

  lemma {:induction false} WordSmall(nCompact: nat)
    requires nCompact / 0x100_0000 > 3
    ensures WordOf(nCompact) < 0x80_0000
  {
  }

  lemma {:induction false} BigOverflow(m: nat, n: nat)
    requires n >= 32
    ensures Raise(m, n) >= Bytes(WIDTH_BYTES) <==> m != 0
  {
    RaiseZero(n);
    RaiseMonotone(1, m, n);
    RaiseBytes(0, n);
    BytesMonotone(WIDTH_BYTES, n);
    BytesMonotone(0, WIDTH_BYTES);
  }

  lemma {:induction false} RaiseZero(n: nat)
    ensures Raise(0, n) == 0
  {
    if n > 0 { RaiseZero(n - 1); }
  }

  /** A mantissa of at most three bytes, moved by n bytes, needs 32 bytes exactly when it has enough bytes itself. */
  lemma {:induction false} SmallOverflow(m: nat, n: nat)
    requires m < 0x80_0000 && 0 < n <= 31
    ensures Raise(m, n) >= Bytes(WIDTH_BYTES) <==> (n == 31 && m > 0xff) || (n == 30 && m > 0xffff)
  {
    var k := WIDTH_BYTES - n;
    RaiseBytes(k, n);
    RaiseMonotone(m, Bytes(k), n);
    RaiseMonotone(Bytes(k), m, n);
    if n <= 29 {
      BytesMonotone(3, k);
      assert Bytes(3) == 0x100_0000;
    } else if n == 30 {
      assert Bytes(2) == 0x1_0000;
    } else {
      assert Bytes(1) == 0x100;
    }
  }

  // ---------------------------------------------------------------------------
  // Encoding
  // ---------------------------------------------------------------------------

  lemma {:induction false} MantissaNext(x: nat, size: nat)
    ensures Mantissa(x, size) / 256 == Mantissa(x, size + 1)
  {
    if size >= 3 { DropNext(x, size - 3); }
  }

  lemma {:induction false} MantissaMonotone(x: nat, y: nat, size: nat)
    requires x <= y
    ensures Mantissa(x, size) <= Mantissa(y, size)
  {
    if size <= 3 { RaiseMonotone(x, y, 3 - size); } else { DropMonotone(x, y, size - 3); }
  }

  lemma {:induction false} MantissaBounds(x: nat)
    ensures Mantissa(x, SizeOf(x)) < 0x100_0000
    ensures x > 0 ==> Mantissa(x, SizeOf(x)) >= 0x1_0000
  {
    var s := SizeOf(x);
    SizeBounds(x);
    assert Bytes(3) == 0x100_0000 && Bytes(2) == 0x1_0000;
    if s <= 3 {
      RaiseMonotone(x, Bytes(s), 3 - s);
      RaiseBytes(s, 3 - s);
      if x > 0 {
        RaiseMonotone(Bytes(s - 1), x, 3 - s);
        RaiseBytes(s - 1, 3 - s);
      }
    } else {
      DropBounds(x, s - 3, 3);
      DropBounds(x, s - 3, 2);
    }
  }

  /** The mantissa and the size that GetCompact writes: the sign bit is free, and nothing overlaps. */
  lemma {:induction false} EncodedParts(x: nat)
    ensures EncodedMantissa(x) == Mantissa(x, EncodedSize(x)) < 0x80_0000
    ensures x > 0 ==> EncodedMantissa(x) >= 0x8000
    ensures SizeOf(x) <= EncodedSize(x) <= SizeOf(x) + 1
  {
    MantissaBounds(x);
    MantissaNext(x, SizeOf(x));
  }

  lemma {:induction false} EncodeSplit(x: nat, fNegative: bool)
    ensures var w := Encode(x, fNegative);
            && w / 0x100_0000 == EncodedSize(x) && w % 0x80_0000 == EncodedMantissa(x)
            && ((w / 0x80_0000) % 2 == 1 <==> fNegative && EncodedMantissa(x) != 0)
  {
    EncodedParts(x);
    WordParts(EncodedMantissa(x), EncodedSize(x), fNegative && EncodedMantissa(x) != 0);
  }

  lemma {:induction false} WordParts(m: nat, size: nat, sign: bool)
    requires m < 0x80_0000
    ensures var w := m + 0x100_0000 * size + if sign then 0x80_0000 else 0;
            w / 0x100_0000 == size && w % 0x80_0000 == m && ((w / 0x80_0000) % 2 == 1 <==> sign)
  {
    var w := m + 0x100_0000 * size + if sign then 0x80_0000 else 0;
    var half := 2 * size + if sign then 1 else 0;
    assert w == half * 0x80_0000 + m;
    DivModUnique(w, 0x80_0000, half, m);
    DivModUnique(w, 0x100_0000, size, w - 0x100_0000 * size);
  }

  /** How many low bytes the compact form loses. */
  function Lost(x: nat): nat {
    if EncodedSize(x) <= 3 then 0 else EncodedSize(x) - 3
  }

  /** How many bytes are lost: as few as leave a mantissa of 23 bits. */
  lemma {:induction false} LostIs(x: nat)
    ensures Lost(x) == 0 <==> x < 0x80_0000
    ensures Lost(x) > 0 ==> 0x8000 <= Drop(x, Lost(x)) < 0x80_0000
  {
    EncodedParts(x);
    SizeBounds(x);
    assert Bytes(2) == 0x1_0000 && Bytes(3) == 0x100_0000;
    if SizeOf(x) >= 4 {
      BytesMonotone(3, SizeOf(x) - 1);
    } else if SizeOf(x) <= 2 {
      BytesMonotone(SizeOf(x), 2);
      RaiseBytes(SizeOf(x), 3 - SizeOf(x));
    }
  }

  /** Decoding an encoded number gives it back without the lowest bytes; no overflow, and the right sign. */
  lemma {:induction false} DecodeEncode(x: nat, fNegative: bool)
    requires x < Bytes(WIDTH_BYTES)
    ensures var d := Decode(Encode(x, fNegative));
            && d.value == Raise(Drop(x, Lost(x)), Lost(x)) <= x < d.value + Bytes(Lost(x))
            && !d.fOverflow && d.fNegative == (fNegative && x != 0)
  {
    EncodedParts(x);
    EncodeSplit(x, fNegative);
    RaiseDrop(x, Lost(x));
    if EncodedSize(x) <= 3 {
      DropRaise(x, 3 - EncodedSize(x));
      EncodedZero(x);
    } else {
      BigDecode(Encode(x, fNegative), Raise(Drop(x, Lost(x)), Lost(x)));
    }
  }

  lemma {:induction false} BigDecode(w: nat, v: nat)
    requires w / 0x100_0000 > 3 && v == Raise(w % 0x80_0000, w / 0x100_0000 - 3) < Bytes(WIDTH_BYTES)
    ensures Decode(w).value == v && !Decode(w).fOverflow
  {
    DivModUnique(v, Bytes(WIDTH_BYTES), 0, v);
    OverflowExact(w);
  }

  lemma {:induction false} EncodedZero(x: nat)
    requires EncodedSize(x) <= 3
    ensures EncodedMantissa(x) == 0 <==> x == 0
  {
    EncodedParts(x);
    if x == 0 { RaiseZero(3); }
  }

  /** Encoding what was decoded gives the same word again. */
  lemma {:induction false} EncodeAgain(x: nat, fNegative: bool)
    requires x < Bytes(WIDTH_BYTES)
    ensures Encode(Decode(Encode(x, fNegative)).value, fNegative) == Encode(x, fNegative)
  {
    DecodeEncode(x, fNegative);
    EncodedParts(x);
    if Lost(x) > 0 {
      RaisedSame(EncodedMantissa(x), Lost(x));
    }
  }

  /** A mantissa with its size encodes to itself. */
  lemma {:induction false} RaisedSame(m: nat, k: nat)
    requires 0x8000 <= m < 0x80_0000 && k > 0
    ensures EncodedMantissa(Raise(m, k)) == m && EncodedSize(Raise(m, k)) == k + 3
  {
    var y := Raise(m, k);
    var n := if m < 0x1_0000 then 2 else 3;
    assert Bytes(1) == 0x100 && Bytes(2) == 0x1_0000 && Bytes(3) == 0x100_0000;
    RaiseBytes(n, k);
    RaiseBytes(n - 1, k);
    RaiseMonotone(m, Bytes(n), k);
    RaiseMonotone(Bytes(n - 1), m, k);
    SizeUnique(y, n + k);
    DropRaise(m, k);
    if n == 2 {
      RaiseSwap(m, k - 1);
      DropRaise(256 * m, k - 1);
    }
  }

  /** The compact form keeps the order. */
  lemma {:induction false} EncodeMonotone(x: nat, y: nat)
    requires x <= y
    ensures Encode(x, false) <= Encode(y, false)
  {
    SizeMonotone(x, y);
    EncodedParts(x);
    EncodedParts(y);
    if SizeOf(x) == SizeOf(y) { MantissaMonotone(x, y, SizeOf(x)); }
    if EncodedSize(x) == EncodedSize(y) { MantissaMonotone(x, y, EncodedSize(x)); }
  }

  // ---------------------------------------------------------------------------
  // SetCompact and GetCompact on limbs
  // ---------------------------------------------------------------------------

  lemma {:induction false} LimbsAreBytes(n: nat)
    ensures At(1, n) == Bytes(4 * n)
  {
    if n > 0 {
      LimbsAreBytes(n - 1);
      var k := 4 * (n - 1);
      assert Bytes(k + 2) == 256 * Bytes(k + 1) == 0x1_0000 * Bytes(k);
      assert Bytes(k + 4) == 256 * Bytes(k + 3) == 0x1_0000 * Bytes(k + 2);
    }
  }

  lemma {:induction false} ModulusIs(n: BaseUint)
    requires n.pn.Length == 8
    ensures n.Modulus() == Bytes(WIDTH_BYTES)
  {
    LimbsAreBytes(n.pn.Length);
  }

  /** SetCompact. */
  method SetCompact(n: BaseUint, nCompact: uint32) returns (fNegative: bool, fOverflow: bool)
    requires n.pn.Length == 8
    modifies n.pn
    ensures Decoded(n.Val(), fNegative, fOverflow) == Decode(nCompact)
  {
    var nSize := nCompact / 0x100_0000;
    var nWord := nCompact % 0x80_0000;
    if nSize <= 3 {
      DropIsShr(nWord, 3 - nSize);
      nWord := Shr(nWord, 8 * (3 - nSize));
      DropSmaller(nCompact % 0x80_0000, 3 - nSize);
      n.Assign(nWord);
    } else {
      n.Assign(nWord);
      n.ShlAssign(8 * (nSize - 3));
      RaiseIs(nWord, nSize - 3);
      ModulusIs(n);
    }
    fNegative := nWord != 0 && (nCompact / 0x80_0000) % 2 == 1;
    fOverflow := nWord != 0 && (nSize > 34 || (nWord > 0xff && nSize > 33) || (nWord > 0xffff && nSize > 32));
  }

  lemma {:induction false} DropSmaller(x: nat, n: nat)
    ensures Drop(x, n) <= x
  {
    if n > 0 { DropSmaller(x / 256, n - 1); }
  }

  /** GetCompact: its assertions hold. */
  method GetCompact(n: BaseUint, fNegative: bool) returns (nCompact: uint32)
    requires n.pn.Length == 8
    ensures nCompact == Encode(n.Val(), fNegative)
  {
    var bits := n.Bits();
    var nSize := (bits + 7) / 8;
    SizeFromBits(n.Val(), bits);
    var word := RawMantissa(n, nSize);
    EncodedParts(n.Val());
    MantissaBounds(n.Val());
    SizeBelow(n);
    nCompact := word;
    if (nCompact / 0x80_0000) % 2 == 1 {
      nCompact := nCompact / 256;
      nSize := nSize + 1;
    }
    assert nCompact < 0x80_0000;
    assert nSize < 256;
    var sign := fNegative && nCompact != 0;
    nCompact := nCompact + 0x100_0000 * nSize;
    if sign {
      nCompact := nCompact + 0x80_0000;
    }
  }

  /** The three highest bytes. */
  method RawMantissa(n: BaseUint, nSize: nat) returns (nCompact: uint32)
    requires n.pn.Length == 8 && nSize == SizeOf(n.Val())
    ensures nCompact == Mantissa(n.Val(), nSize)
  {
    ghost var x := n.Val();
    MantissaBounds(x);
    if nSize <= 3 {
      var low := n.GetLow64();
      SmallIsLow(x, nSize);
      RaiseIs(low, 3 - nSize);
      SmallModulo(Raise(low, 3 - nSize));
      nCompact := (low * Pow2(8 * (3 - nSize))) % 0x1_0000_0000;
    } else {
      nCompact := HighBytes(n, nSize - 3);
    }
  }

  method HighBytes(n: BaseUint, skipped: nat) returns (nCompact: uint32)
    requires n.pn.Length == 8 && Drop(n.Val(), skipped) < 0x100_0000
    ensures nCompact == Drop(n.Val(), skipped)
  {
    var bn := new BaseUint.Copy(n);
    bn.ShrAssign(8 * skipped);
    DropIsShr(n.Val(), skipped);
    var low := bn.GetLow64();
    assert low == Drop(n.Val(), skipped);
    SmallModulo(low);
    nCompact := low % 0x1_0000_0000;
  }

  lemma {:induction false} SmallModulo(x: nat)
    requires x < 0x1_0000_0000
    ensures x % 0x1_0000_0000 == x
  {
  }

  lemma {:induction false} SizeBelow(n: BaseUint)
    requires n.pn.Length == 8
    ensures SizeOf(n.Val()) <= WIDTH_BYTES
  {
    NumBound(n.pn[..], 8);
    ModulusIs(n);
    SizeBounds(n.Val());
    if SizeOf(n.Val()) > WIDTH_BYTES { BytesMonotone(WIDTH_BYTES, SizeOf(n.Val()) - 1); }
  }

  lemma {:induction false} SmallIsLow(x: nat, s: nat)
    requires SizeOf(x) == s <= 3
    ensures x < 0x100_0000
  {
    SizeBounds(x);
    BytesMonotone(s, 3);
    assert Bytes(3) == 0x100_0000;
  }
}
