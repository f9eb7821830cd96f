/** base_uint: unsigned integers of a fixed number of 32-bit limbs, updated in place. */
module ArithUint {
  import opened LimbBits
  import opened Limbs
  import opened Powers

  class BaseUint {
    const pn: array<uint32>

    ghost function Val(): nat
      reads pn
    {
      Num(pn[..])
    }

    /** 2 to the number of bits. */
    ghost function Modulus(): nat {
      At(1, pn.Length)
    }

    constructor (width: nat)
      ensures fresh(pn) && pn.Length == width && forall i :: 0 <= i < width ==> pn[i] == 0
    {
      pn := new uint32[width](_ => 0);
    }

    constructor Copy(b: BaseUint)
      ensures fresh(pn) && pn[..] == b.pn[..]
    {
      pn := new uint32[b.pn.Length](i requires 0 <= i < b.pn.Length reads b.pn => b.pn[i]);
    }

    /** The assignment of a 64-bit number. */
    method Assign(b: nat)
      requires pn.Length >= 2 && b < 0x1_0000_0000_0000_0000
      modifies pn
      ensures Val() == b
    {
      pn[0] := b % B;
      pn[1] := b / B;
      for i := 2 to pn.Length
        invariant pn[0] == b % B && pn[1] == b / B && forall k :: 2 <= k < i ==> pn[k] == 0
      {
        pn[i] := 0;
      }
      ZeroAbove(pn[..], 2, pn.Length);
      LowTwo(pn[..]);
    }

    /** GetLow64. */
    method GetLow64() returns (low: nat)
      requires pn.Length >= 2
      ensures low == pn[0] as int + 0x1_0000_0000 * pn[1] as int
      ensures Val() < 0x1_0000_0000_0000_0000 ==> low == Val()
    {
      low := pn[0] as int + 0x1_0000_0000 * pn[1] as int;
      LowTwo(pn[..]);
      ghost var high := NumSplit(pn[..], 2, pn.Length);
      HighZero(high);
    }

    /** The operator +=; `b` may be this number. */
    method AddAssign(b: BaseUint)
      requires b.pn.Length == pn.Length
      modifies pn
      ensures Val() == (old(Val()) + old(b.Val())) % Modulus()
    {
      ghost var a0, b0 := pn[..], b.pn[..];
      var carry: nat := 0;
      for i := 0 to pn.Length
        invariant carry <= 1
        invariant forall k :: i <= k < pn.Length ==> pn[k] == a0[k] && b.pn[k] == b0[k]
        invariant Added(pn[..], a0, b0, i, carry)
      {
        ghost var before, carry0 := pn[..], carry;
        var n: nat := carry + pn[i] + b.pn[i];
        assert n < 0x1_0000_0000_0000_0000;
        pn[i] := n % B;
        carry := n / B;
        AddStep(before, pn[..], a0, b0, i, carry0, carry);
      }
      SumKept(pn[..], a0, b0, carry);
    }

    /** The operator ++. */
    method Increment()
      requires pn.Length > 0
      modifies pn
      ensures Val() == (old(Val()) + 1) % Modulus()
    {
      ghost var a0 := pn[..];
      var i := 0;
      var again := true;
      ghost var carry := 1;
      while again
        invariant 0 <= i < pn.Length
        invariant forall k :: i < k < pn.Length ==> pn[k] == a0[k]
        invariant again ==> pn[i] == a0[i] && OneMore(pn[..], a0, i, 1)
        invariant !again ==> OneMore(pn[..], a0, i + 1, carry) && (carry == 0 || i == pn.Length - 1)
        decreases again, pn.Length - i
      {
        ghost var before := pn[..];
        pn[i] := (pn[i] + 1) % B;
        carry := if pn[i] == 0 then 1 else 0;
        OneMoreStep(before, pn[..], a0, i, carry);
        if pn[i] == 0 && i < pn.Length - 1 {
          i := i + 1;
        } else {
          again := false;
        }
      }
      OneMoreAll(pn[..], a0, i + 1, carry);
    }

    /** The unary operator -. */
    method Negate() returns (ret: BaseUint)
      requires pn.Length > 0
      ensures fresh(ret.pn) && ret.pn.Length == pn.Length
      ensures ret.Val() == (Modulus() - Val()) % Modulus()
    {
      ret := new BaseUint(pn.Length);
      for i := 0 to pn.Length
        invariant forall k :: 0 <= k < i ==> ret.pn[k] == B - 1 - pn[k]
      {
        ret.pn[i] := B - 1 - pn[i];
      }
      Complement(ret.pn[..], pn[..], pn.Length);
      ret.Increment();
    }

    /** The operator -=; `b` may be this number. */
    method SubAssign(b: BaseUint)
      requires b.pn.Length == pn.Length > 0
      modifies pn
      ensures Val() == (old(Val()) - old(b.Val())) % Modulus()
    {
      ghost var y := b.Val();
      NumBound(b.pn[..], b.pn.Length);
      var neg := b.Negate();
      AddNegative(neg, y);
    }

    method AddNegative(neg: BaseUint, ghost y: nat)
      requires neg.pn.Length == pn.Length && y < Modulus() && neg.Val() == (Modulus() - y) % Modulus()
      modifies pn
      ensures Val() == (old(Val()) - y) % Modulus()
    {
      NumBound(pn[..], pn.Length);
      SubtractByAdding(Val(), y, Modulus());
      AddAssign(neg);
    }

    method Clear()
      modifies pn
      ensures forall k :: 0 <= k < pn.Length ==> pn[k] == 0
    {
      for i := 0 to pn.Length
        invariant forall k :: 0 <= k < i ==> pn[k] == 0
      {
        pn[i] := 0;
      }
    }

    /** The operator *= for a 32-bit factor. */
    method MulAssignWord(b32: uint32)
      modifies pn
      ensures Val() == (b32 * old(Val())) % Modulus()
    {
      ghost var a0 := pn[..];
      var carry: nat := 0;
      MulIs(b32, 0);
      for i := 0 to pn.Length
        invariant carry < B
        invariant forall k :: i <= k < pn.Length ==> pn[k] == a0[k]
        invariant Scaled(pn[..], a0, b32, i, carry)
      {
        ghost var before, carry0 := pn[..], carry;
        LimbProduct(b32, pn[i]);
        var n: nat := carry + b32 * pn[i];
        assert n < 0x1_0000_0000_0000_0000;
        pn[i] := n % B;
        carry := n / B;
        MulIs(b32, a0[i]);
        ScaleStep(before, pn[..], a0, b32, i, carry0, carry);
      }
      ScaledKept(pn[..], a0, b32, carry);
    }

    /** One row of the operator *=. Without aliasing the carry out is dropped; with it, everything stays 0. */
    method MulRow(x: uint32, b: BaseUint, j: nat) returns (ghost carryOut: nat)
      requires b.pn.Length == pn.Length && j < pn.Length
      requires b.pn == pn ==> forall k :: 0 <= k < pn.Length ==> pn[k] == 0
      modifies pn
      ensures b.pn != pn ==> b.pn[..] == old(b.pn[..])
      ensures b.pn != pn ==>
                Val() + At(carryOut, pn.Length) == old(Val()) + Mul(x, At(NumTo(b.pn[..], pn.Length - j), j))
      ensures b.pn == pn ==> forall k :: 0 <= k < pn.Length ==> pn[k] == 0
    {
      ghost var v0, b0 := Val(), b.pn[..];
      var carry: nat := 0;
      RowStart(pn[..], x, b0, j);
      for i := 0 to pn.Length - j
        invariant carry < B
        invariant b.pn != pn ==> b.pn[..] == b0 && RowDone(pn[..], v0, x, b0, j, i, carry)
        invariant b.pn == pn ==> carry == 0 && forall k :: 0 <= k < pn.Length ==> pn[k] == 0
      {
        ghost var before, carry0 := pn[..], carry;
        LimbProduct(x, b.pn[i]);
        var n: nat := carry + pn[i + j] + x * b.pn[i];
        assert n < 0x1_0000_0000_0000_0000;
        pn[i + j] := n % B;
        carry := n / B;
        MulIs(x, b0[i]);
        if b.pn != pn { RowStep(before, pn[..], v0, x, b0, j, i, i + j, carry0, carry); }
      }
      carryOut := carry;
    }

    /** The operator *=. If `b` is this number, it is cleared before it is read, and the result is 0. */
    method MulAssign(b: BaseUint)
      requires b.pn.Length == pn.Length
      modifies pn
      ensures Val() == if b.pn == pn then 0 else (old(Val()) * old(b.Val())) % Modulus()
    {
      var a := new BaseUint.Copy(this);
      ghost var a0, b0 := pn[..], b.pn[..];
      Clear();
      NumZero(pn[..], pn.Length);
      AtZero(pn.Length);
      ghost var dropped := 0;
      for j := 0 to pn.Length
        invariant a.pn[..] == a0 && a.pn != pn
        invariant b.pn != pn ==> b.pn[..] == b0 && RowsDone(Val(), a0, j, Num(b0), dropped, pn.Length)
        invariant b.pn == pn ==> forall k :: 0 <= k < pn.Length ==> pn[k] == 0
      {
        ghost var v0 := Val();
        ghost var carry := MulRow(a.pn[j], b, j);
        if b.pn != pn { dropped := RowsStep(v0, Val(), a0, b0, j, dropped, carry); }
      }
      if b.pn == pn {
        NumZero(pn[..], pn.Length);
      } else {
        NumBound(pn[..], pn.Length);
        MulIs(Num(a0), Num(b0));
        KeptLow(Val(), dropped, pn.Length, Mul(Num(a0), Num(b0)));
      }
    }

    /** CompareTo. */
    method CompareTo(b: BaseUint) returns (r: int)
      requires b.pn.Length == pn.Length
      ensures r == if Val() < b.Val() then -1 else if Val() > b.Val() then 1 else 0
    {
      var i := pn.Length;
      while i > 0
        invariant 0 <= i <= pn.Length && forall k :: i <= k < pn.Length ==> pn[k] == b.pn[k]
      {
        i := i - 1;
        if pn[i] < b.pn[i] {
          NumOrder(pn[..], b.pn[..], i, pn.Length);
          return -1;
        }
        if pn[i] > b.pn[i] {
          NumOrder(b.pn[..], pn[..], i, pn.Length);
          return 1;
        }
      }
      assert pn[..] == b.pn[..];
      return 0;
    }

    /** bits: the number of bits of the value. */
    method Bits() returns (n: nat)
      ensures IsBits(Val(), n) && n <= 32 * pn.Length
    {
      var pos := pn.Length;
      while pos > 0
        invariant 0 <= pos <= pn.Length && forall k :: pos <= k < pn.Length ==> pn[k] == 0
      {
        pos := pos - 1;
        if pn[pos] != 0 {
          var bits := 31;
          Pow2Word();
          while bits > 0
            invariant 0 <= bits <= 31 && pn[pos] < Pow2(bits + 1)
          {
            TopBit(pn[pos], bits);
            if BitAt(pn[pos], bits) {
              NumBits(pn[..], pos, bits);
              return 32 * pos + bits + 1;
            }
            bits := bits - 1;
          }
          NumBits(pn[..], pos, 0);
          return 32 * pos + 1;
        }
      }
      NumZero(pn[..], pn.Length);
      return 0;
    }

    /** The operator <<=. */
    method ShlAssign(shift: nat)
      modifies pn
      ensures Val() == (old(Val()) * Pow2(shift)) % Modulus()
    {
      var a := new BaseUint.Copy(this);
      ghost var a0 := pn[..];
      Clear();
      var k, e := shift / 32, shift % 32;
      for i := 0 to pn.Length
        invariant a.pn[..] == a0 && a.pn != pn && ShlPart(pn[..], a0, k, e, i)
      {
        ShlStep(a.pn[i], k, e, i, a0);
      }
      ShlValue(pn[..], a0, k, e);
    }

    method ShlStep(x: uint32, k: nat, e: nat, i: nat, ghost a0: seq<uint32>)
      requires i < pn.Length == |a0| && x == a0[i] && e < 32 && ShlPart(pn[..], a0, k, e, i)
      modifies pn
      ensures ShlPart(pn[..], a0, k, e, i + 1)
    {
      ShlFinds(pn[..], a0, k, e, i);
      ShlHighBound(x, e);
      if i + k + 1 < pn.Length && e != 0 {
        pn[i + k + 1] := BitOr(pn[i + k + 1], Shr(x, 32 - e));
      }
      if i + k < pn.Length {
        ShlCell(x, e, ShlCarry(a0, e, i));
        pn[i + k] := BitOr(pn[i + k], ShlLow(x, e));
      }
    }

    /** The operator >>=. */
    method ShrAssign(shift: nat)
      modifies pn
      ensures Val() == Shr(old(Val()), shift)
    {
      var a := new BaseUint.Copy(this);
      ghost var a0 := pn[..];
      Clear();
      var k, e := shift / 32, shift % 32;
      for i := 0 to pn.Length
        invariant a.pn[..] == a0 && a.pn != pn && ShrPart(pn[..], a0, k, e, i)
      {
        ShrStep(a.pn[i], k, e, i, a0);
      }
      ShrValue(pn[..], a0, k, e);
    }

    method ShrStep(x: uint32, k: nat, e: nat, i: nat, ghost a0: seq<uint32>)
      requires i < pn.Length == |a0| && x == a0[i] && e < 32 && ShrPart(pn[..], a0, k, e, i)
      modifies pn
      ensures ShrPart(pn[..], a0, k, e, i + 1)
    {
      ShrFinds(pn[..], a0, k, e, i);
      ShrBound(x, e);
      if i - k - 1 >= 0 && e != 0 {
        ShrCell(x, a0[i - 1], e);
        pn[i - k - 1] := BitOr(pn[i - k - 1], ShrHigh(x, e));
      }
      if i - k >= 0 {
        pn[i - k] := BitOr(pn[i - k], Shr(x, e));
      }
    }

    /** The operator /=; `b` may be this number. On division by zero, which throws, the number has been cleared. The
        local variable `num` ends as the remainder. */
    method DivAssign(b: BaseUint) returns (ok: bool, num: BaseUint)
      requires b.pn.Length == pn.Length > 0
      modifies pn
      ensures ok <==> old(b.Val()) != 0
      ensures fresh(num.pn) && num.pn.Length == pn.Length
      ensures !ok ==> Val() == 0
      ensures ok ==> Val() == old(Val()) / old(b.Val()) && num.Val() == old(Val()) % old(b.Val())
    {
      ghost var x, y := Val(), b.Val();
      var div := new BaseUint.Copy(b);
      num := new BaseUint.Copy(this);
      Clear();
      NumZero(pn[..], pn.Length);
      var num_bits := num.Bits();
      var div_bits := div.Bits();
      if div_bits == 0 {
        return false, num;
      }
      ok := true;
      if div_bits > num_bits {
        Pow2Monotone(num_bits, div_bits - 1);
        DivModUnique(x, y, 0, x);
        return;
      }
      DivAligned(num, div, num_bits - div_bits, x, y, num_bits);
      DivModUnique(x, y, Val(), num.Val());
    }

    /** The rest of the division: aligns the divisor, and subtracts it shifted back bit by bit. */
    method DivAligned(num: BaseUint, div: BaseUint, shift0: nat, ghost x: nat, ghost y: nat, ghost num_bits: nat)
      requires num.pn.Length == div.pn.Length == pn.Length && num.pn != div.pn && num.pn != pn && div.pn != pn
      requires num.Val() == x && div.Val() == y && forall k :: 0 <= k < pn.Length ==> pn[k] == 0
      requires shift0 < num_bits <= 32 * pn.Length && IsBits(x, num_bits) && IsBits(y, num_bits - shift0)
      modifies pn, num.pn, div.pn
      ensures x == Val() * y + num.Val() && num.Val() < y
    {
      var shift: int := shift0;
      NumZero(pn[..], pn.Length);
      AlignedFits(x, y, num_bits, num_bits - shift0, pn.Length);
      AllZeroLow(pn[..], shift + 1);
      div.ShlAssign(shift);
      while shift >= 0
        invariant -1 <= shift < 32 * pn.Length
        invariant shift >= 0 ==> div.Val() == y * Pow2(shift)
        invariant num.Val() < y * Pow2(shift + 1)
        invariant x == Val() * y + num.Val()
        invariant LowZero(pn[..], shift + 1)
      {
        shift := DivStep(num, div, shift, x, y);
      }
    }

    /** One step of the division. */
    method DivStep(num: BaseUint, div: BaseUint, shift0: nat, ghost x: nat, ghost y: nat) returns (shift: int)
      requires num.pn.Length == div.pn.Length == pn.Length && num.pn != div.pn && num.pn != pn && div.pn != pn
      requires shift0 < 32 * pn.Length && y > 0
      requires div.Val() == y * Pow2(shift0) && num.Val() < y * Pow2(shift0 + 1) && x == Val() * y + num.Val()
      requires LowZero(pn[..], shift0 + 1)
      modifies pn, num.pn, div.pn
      ensures shift == shift0 - 1
      ensures shift >= 0 ==> div.Val() == y * Pow2(shift)
      ensures num.Val() < y * Pow2(shift + 1) && x == Val() * y + num.Val()
      ensures LowZero(pn[..], shift + 1)
    {
      shift := shift0;
      ghost var p := Pow2(shift0);
      DoubleUp(y, shift0);
      var order := num.CompareTo(div);
      if order >= 0 {
        SubtractShifted(num, div, shift0, x, y, p);
      } else {
        LowZeroLess(pn[..], shift0);
      }
      div.ShrAssign(1);
      if shift > 0 { HalfShifted(y, shift0); }
      shift := shift - 1;
    }

    /** The divisor fits once more: it is subtracted, and its quotient bit is set. */
    method SubtractShifted(num: BaseUint, div: BaseUint, shift: nat, ghost x: nat, ghost y: nat, ghost p: nat)
      requires num.pn.Length == div.pn.Length == pn.Length && num.pn != div.pn && num.pn != pn && div.pn != pn
      requires shift < 32 * pn.Length && LowZero(pn[..], shift + 1) && p == Pow2(shift)
      requires div.Val() == y * p <= num.Val() && x == Val() * y + num.Val()
      modifies pn, num.pn
      ensures num.Val() == old(num.Val()) - y * p && x == Val() * y + num.Val() && LowZero(pn[..], shift)
    {
      NumBound(num.pn[..], num.pn.Length);
      ExactDifference(num.Val(), y * p, num.Modulus());
      TakeOut(x, y, Val(), num.Val(), p);
      num.SubAssign(div);
      SetQuotientBit(shift);
    }

    method SetQuotientBit(shift: nat)
      requires shift < 32 * pn.Length && LowZero(pn[..], shift + 1)
      modifies pn
      ensures LowZero(pn[..], shift) && Val() == old(Val()) + Pow2(shift)
    {
      ghost var before := pn[..];
      BitFits(pn[..], shift);
      pn[shift / 32] := BitOr(pn[shift / 32], Pow2(shift % 32));
      SetBit(before, pn[..], shift);
    }
  }

  /** 3 times itself, in place, is 0. */
  method ThreeTimesItself() returns (n: BaseUint)
    ensures fresh(n) && n.Val() == 0
  {
    n := new BaseUint(8);
    n.Assign(3);
    n.MulAssign(n);
  }
}
