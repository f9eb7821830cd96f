/** The serialized form of CCoins: version, header code, availability mask, outputs, height. */
module CoinsCodec {
  import opened Coins
  import opened VarInt
  import opened Compressor
  import Powers

  /** Whether output `i` is still there. */
  predicate Avail(vout: seq<TxOut>, i: nat) {
    i < |vout| && vout[i].Out?
  }

  // ---------------------------------------------------------------------------
  // Mask bytes
  // ---------------------------------------------------------------------------

  /** A byte from its bits, least significant first. */
  function PackBits(bits: seq<bool>): nat {
    if bits == [] then 0 else (if bits[0] then 1 else 0) + 2 * PackBits(bits[1..])
  }

  function UnpackBits(ch: nat, n: nat): (r: seq<bool>)
    ensures |r| == n
  {
    if n == 0 then [] else [ch % 2 == 1] + UnpackBits(ch / 2, n - 1)
  }

  lemma {:induction false} UnpackPack(bits: seq<bool>)
    ensures UnpackBits(PackBits(bits), |bits|) == bits
    ensures PackBits(bits) < Powers.Pow2(|bits|)
    ensures PackBits(bits) == 0 <==> forall i :: 0 <= i < |bits| ==> !bits[i]
  {
    if bits != [] {
      UnpackPack(bits[1..]);
      assert forall i :: 0 <= i < |bits| - 1 ==> bits[1..][i] == bits[i + 1];
    }
  }

  /** The availability of the eight outputs that byte `b` of the mask covers. */
  function MaskBits(vout: seq<TxOut>, b: nat): (r: seq<bool>)
    ensures |r| == 8
  {
    seq(8, i requires 0 <= i < 8 => Avail(vout, 2 + b * 8 + i))
  }

  function MaskByte(vout: seq<TxOut>, b: nat): uint8 {
    UnpackPack(MaskBits(vout, b));
    assert Powers.Pow2(8) == 256;
    PackBits(MaskBits(vout, b))
  }

  lemma {:induction false} MaskByteZero(vout: seq<TxOut>, b: nat)
    ensures MaskByte(vout, b) == 0 <==> forall i :: 2 + b * 8 <= i < 10 + b * 8 ==> !Avail(vout, i)
  {
    var bits := MaskBits(vout, b);
    UnpackPack(bits);
    assert forall i :: 0 <= i < 8 ==> bits[i] == Avail(vout, 2 + b * 8 + i);
    if MaskByte(vout, b) == 0 {
      forall i | 2 + b * 8 <= i < 10 + b * 8 ensures !Avail(vout, i) {
        assert !bits[i - 2 - b * 8];
      }
    }
  }

  /** The first `n` bytes of the mask. */
  function Mask(vout: seq<TxOut>, n: nat): (r: Bytes)
    ensures |r| == n
  {
    if n == 0 then [] else Mask(vout, n - 1) + [MaskByte(vout, n - 1)]
  }

  function CountNonzero(s: Bytes): nat {
    if s == [] then 0 else CountNonzero(s[..|s| - 1]) + if s[|s| - 1] != 0 then 1 else 0
  }

  lemma {:induction false} CountNonzeroCons(x: uint8, s: Bytes)
    ensures CountNonzero([x] + s) == (if x != 0 then 1 else 0) + CountNonzero(s)
  {
    var xs := [x] + s;
    if s == [] {
      assert xs[..0] == [];
    } else {
      assert xs[..|xs| - 1] == [x] + s[..|s| - 1];
      CountNonzeroCons(x, s[..|s| - 1]);
    }
  }

  /** The number of mask bytes that the outputs fill, even if the last ones are zero. */
  function MaskSpan(vout: seq<TxOut>): nat {
    if |vout| <= 2 then 0 else (|vout| - 2 + 7) / 8
  }

  /** The length up to the last non-zero byte. */
  function UsedSize(s: Bytes): (r: nat)
    ensures r <= |s|
    ensures r > 0 ==> s[r - 1] != 0
    ensures forall b :: r <= b < |s| ==> s[b] == 0
  {
    if s == [] then 0 else if s[|s| - 1] != 0 then |s| else UsedSize(s[..|s| - 1])
  }

  function MaskSize(vout: seq<TxOut>): nat { UsedSize(Mask(vout, MaskSpan(vout))) }

  function MaskCode(vout: seq<TxOut>): nat { CountNonzero(Mask(vout, MaskSpan(vout))) }

  lemma {:induction false} CountNonzeroSnoc(s: Bytes, x: uint8)
    ensures CountNonzero(s + [x]) == CountNonzero(s) + if x != 0 then 1 else 0
    ensures UsedSize(s + [x]) == if x != 0 then |s| + 1 else UsedSize(s)
  {
    assert (s + [x])[..|s|] == s;
  }

  /** The zero bytes at the end do not count. */
  lemma {:induction false} CountUsed(s: Bytes)
    ensures CountNonzero(s[..UsedSize(s)]) == CountNonzero(s)
  {
    if UsedSize(s) == |s| {
      assert s[..|s|] == s;
    } else {
      CountUsed(s[..|s| - 1]);
      assert s[..|s| - 1][..UsedSize(s)] == s[..UsedSize(s)];
    }
  }

  lemma {:induction false} MaskPrefix(vout: seq<TxOut>, n: nat, k: nat)
    requires k <= n
    ensures Mask(vout, n)[..k] == Mask(vout, k)
  {
    if k < n {
      MaskPrefix(vout, n - 1, k);
      assert Mask(vout, n)[..k] == Mask(vout, n - 1)[..k];
    } else {
      assert Mask(vout, n)[..n] == Mask(vout, n);
    }
  }

  lemma {:induction false} MaskAt(vout: seq<TxOut>, n: nat, b: nat)
    requires b < n
    ensures Mask(vout, n)[b] == MaskByte(vout, b)
  {
    if b < n - 1 {
      MaskAt(vout, n - 1, b);
    }
  }

  // ---------------------------------------------------------------------------
  // What the mask says
  // ---------------------------------------------------------------------------

  lemma {:induction false} PackedBit(bits: seq<bool>, i: nat)
    requires i < |bits|
    ensures PackBits(bits) / Powers.Pow2(i) % 2 == 1 <==> bits[i]
  {
    var p := PackBits(bits[1..]);
    assert PackBits(bits) == (if bits[0] then 1 else 0) + 2 * p;
    if i > 0 {
      PackedBit(bits[1..], i - 1);
      HalfFirst(PackBits(bits), p, Powers.Pow2(i - 1));
    }
  }

  lemma {:induction false} HalfFirst(n: nat, p: nat, d: nat)
    requires 2 * p <= n <= 2 * p + 1 && d > 0
    ensures n / (2 * d) == p / d
  {
    Powers.DivModUnique(n, 2 * d, p / d, n - p / d * (2 * d));
  }

  /** Bit i of mask byte b, counted from the lowest one, says whether output 2 + 8b + i is there. */
  lemma {:induction false} MaskByteBit(vout: seq<TxOut>, b: nat, i: nat)
    requires i < 8
    ensures MaskByte(vout, b) / Powers.Pow2(i) % 2 == 1 <==> 2 + 8 * b + i < |vout| && vout[2 + 8 * b + i].Out?
  {
    PackedBit(MaskBits(vout, b), i);
    assert MaskBits(vout, b)[i] == Avail(vout, 2 + b * 8 + i);
  }

  /** Whether mask byte `b` has an output to show. */
  predicate Shows(vout: seq<TxOut>, b: nat) {
    exists i :: 2 + 8 * b <= i < 10 + 8 * b && i < |vout| && vout[i].Out?
  }

  lemma {:induction false} ShowsNonzero(vout: seq<TxOut>, b: nat)
    ensures Shows(vout, b) <==> MaskByte(vout, b) != 0
  {
    MaskByteZero(vout, b);
    if MaskByte(vout, b) != 0 {
      var i :| 2 + b * 8 <= i < 10 + b * 8 && Avail(vout, i);
      assert vout[i].Out?;
    }
    if Shows(vout, b) {
      var i :| 2 + 8 * b <= i < 10 + 8 * b && i < |vout| && vout[i].Out?;
      assert Avail(vout, i);
    }
  }

  /** The mask ends with the last byte that has an output to show. */
  lemma {:induction false} MaskSizeIs(vout: seq<TxOut>)
    ensures MaskSize(vout) > 0 ==> Shows(vout, MaskSize(vout) - 1)
    ensures forall b :: b >= MaskSize(vout) ==> !Shows(vout, b)
  {
    var n := MaskSpan(vout);
    if MaskSize(vout) > 0 {
      MaskAt(vout, n, MaskSize(vout) - 1);
      ShowsNonzero(vout, MaskSize(vout) - 1);
    }
    forall b | b >= MaskSize(vout) ensures !Shows(vout, b) {
      if b < n {
        MaskAt(vout, n, b);
        ShowsNonzero(vout, b);
      }
    }
  }

  /** The bytes up to the n-th that have an output to show. */
  function Showing(vout: seq<TxOut>, n: nat): set<nat> {
    set b: nat | b < n && Shows(vout, b)
  }

  lemma {:induction false} ShowingNext(vout: seq<TxOut>, n: nat, next: nat, shows: bool)
    requires next == n + 1 && (shows <==> Shows(vout, n))
    ensures |Showing(vout, next)| == |Showing(vout, n)| + if shows then 1 else 0
  {
    if shows {
      assert Showing(vout, next) == Showing(vout, n) + {n};
    } else {
      assert Showing(vout, next) == Showing(vout, n);
    }
  }

  lemma {:induction false} CountShowing(vout: seq<TxOut>, n: nat)
    ensures CountNonzero(Mask(vout, n)) == |Showing(vout, n)|
  {
    if n > 0 {
      var b: nat := n - 1;
      CountShowing(vout, b);
      CountNonzeroSnoc(Mask(vout, b), MaskByte(vout, b));
      ShowsNonzero(vout, b);
      ShowingNext(vout, b, n, MaskByte(vout, b) != 0);
    }
  }

  /** The number in the header code is that of the bytes that have an output to show. */
  lemma {:induction false} MaskCodeIs(vout: seq<TxOut>)
    ensures MaskCode(vout) == |Showing(vout, MaskSize(vout))|
  {
    CountShowing(vout, MaskSpan(vout));
    MaskSizeIs(vout);
    assert Showing(vout, MaskSpan(vout)) == Showing(vout, MaskSize(vout));
  }

  /** The inner loop of CalcMaskSize: whether none of the outputs under mask byte `b` is left. */
  method ByteIsZero(vout: seq<TxOut>, b: nat) returns (fZero: bool)
    ensures fZero <==> MaskByte(vout, b) == 0
  {
    fZero := true;
    var i := 0;
    while i < 8 && 2 + b * 8 + i < |vout|
      invariant 0 <= i <= 8
      invariant fZero <==> forall k :: 2 + b * 8 <= k < 2 + b * 8 + i ==> !Avail(vout, k)
    {
      assert Avail(vout, 2 + b * 8 + i) == !vout[2 + b * 8 + i].Null?;
      if !vout[2 + b * 8 + i].Null? {
        fZero := false;
      }
      i := i + 1;
    }
    MaskByteZero(vout, b);
  }

  /** CalcMaskSize: how many mask bytes there are, and how many of them are not zero. */
  method CalcMaskSize(vout: seq<TxOut>) returns (nBytes: nat, nNonzeroBytes: nat)
    ensures nBytes == MaskSize(vout) && nNonzeroBytes == MaskCode(vout)
  {
    nBytes, nNonzeroBytes := 0, 0;
    var b := 0;
    while 2 + b * 8 < |vout|
      invariant b <= MaskSpan(vout)
      invariant nBytes == UsedSize(Mask(vout, b))
      invariant nNonzeroBytes == CountNonzero(Mask(vout, b))
    {
      var fZero := ByteIsZero(vout, b);
      CountNonzeroSnoc(Mask(vout, b), MaskByte(vout, b));
      if !fZero {
        nBytes := b + 1;
        nNonzeroBytes := nNonzeroBytes + 1;
      }
      b := b + 1;
    }
    assert b == MaskSpan(vout);
  }

  // ---------------------------------------------------------------------------
  // Writing
  // ---------------------------------------------------------------------------

  /** The header code. */
  function Code(c: Coins): nat {
    var first, second := Avail(c.vout, 0), Avail(c.vout, 1);
    var n := MaskCode(c.vout);
    16 * (if first || second || n == 0 then n else n - 1)
    + Bit(c.fCoinBase) + 2 * Bit(c.fCoinStake) + 4 * Bit(first) + 8 * Bit(second)
  }

  /** The outputs that are left, from index `i` on. */
  function WriteOutputs(curve: Curve, vout: seq<TxOut>, i: nat): Bytes
    requires i <= |vout|
    decreases |vout| - i
  {
    if i == |vout| then []
    else (if vout[i].Out? then WriteOutput(curve, vout[i].nValue, vout[i].scriptPubKey) else [])
         + WriteOutputs(curve, vout, i + 1)
  }

  /** Mask, outputs and height. */
  function Body(curve: Curve, c: Coins): Bytes {
    Mask(c.vout, MaskSize(c.vout)) + (WriteOutputs(curve, c.vout, 0) + Write(c.nHeight))
  }

  /** Only coins with an output left can be written. */
  function Serialize(curve: Curve, c: Coins): Bytes
    requires !c.IsPruned()
  {
    Write(Stored(c.nVersion)) + (Write(Code(c)) + Body(curve, c))
  }

  // ---------------------------------------------------------------------------
  // Reading
  // ---------------------------------------------------------------------------

  /** Reads mask bytes until `nMaskCode` of them were not zero. */
  function ReadMask(s: Bytes, nMaskCode: nat): Option<(seq<bool>, Bytes)> {
    if nMaskCode == 0 then Some(([], s))
    else if s == [] then None
    else
      match ReadMask(s[1..], if s[0] != 0 then nMaskCode - 1 else nMaskCode)
      case None => None
      case Some((avail, rest)) => Some((UnpackBits(s[0], 8) + avail, rest))
  }

  /** One output for every bit: read where it is set, null elsewhere. */
  function ReadOutputs(curve: Curve, s: Bytes, avail: seq<bool>): Option<(seq<TxOut>, Bytes)>
    decreases |avail|
  {
    if avail == [] then Some(([], s))
    else if !avail[0] then
      match ReadOutputs(curve, s, avail[1..])
      case None => None
      case Some((vout, rest)) => Some(([Null] + vout, rest))
    else
      match ReadOutput(curve, s)
      case None => None
      case Some((out, rest)) =>
        match ReadOutputs(curve, rest, avail[1..])
        case None => None
        case Some((vout, rest')) => Some(([out] + vout, rest'))
  }

  /** What follows the header code: mask, outputs and height. */
  function ReadBody(curve: Curve, s: Bytes, first: bool, second: bool, nMaskCode: nat)
    : Option<(seq<TxOut>, nat, Bytes)>
  {
    match ReadMask(s, nMaskCode)
    case None => None
    case Some((avail, s1)) =>
      match ReadOutputs(curve, s1, [first, second] + avail)
      case None => None
      case Some((vout, s2)) =>
        match Read(s2, 0)
        case None => None
        case Some((nHeight, s3)) => Some((TrimNulls(vout), nHeight, s3))
  }

  function Unserialize(curve: Curve, s: Bytes): Option<(Coins, Bytes)> {
    match Read(s, 0)
    case None => None
    case Some((nVersion, s1)) =>
      match Read(s1, 0)
      case None => None
      case Some((nCode, s2)) =>
        var first, second := nCode / 4 % 2 == 1, nCode / 8 % 2 == 1;
        match ReadBody(curve, s2, first, second, nCode / 16 + if first || second then 0 else 1)
        case None => None
        case Some((vout, nHeight, s3)) =>
          Some((Coins(nCode % 2 == 1, nCode / 2 % 2 == 1, vout, nHeight, nVersion), s3))
  }

  // ---------------------------------------------------------------------------
  // Reading back what was written
  // ---------------------------------------------------------------------------

  lemma {:induction false} Div2(q: nat, r: nat)
    requires r < 2
    ensures (2 * q + r) / 2 == q && (2 * q + r) % 2 == r
  {
  }

  lemma {:induction false} Div4(q: nat, r: nat)
    requires r < 4
    ensures (4 * q + r) / 4 == q
  {
  }

  lemma {:induction false} Div8(q: nat, r: nat)
    requires r < 8
    ensures (8 * q + r) / 8 == q
  {
  }

  lemma {:induction false} Div16(q: nat, r: nat)
    requires r < 16
    ensures (16 * q + r) / 16 == q
  {
  }

  lemma {:induction false} CodeBits(n: nat, a: nat, coinBase: nat, coinStake: nat, first: nat, second: nat)
    requires coinBase <= 1 && coinStake <= 1 && first <= 1 && second <= 1
    requires n == 16 * a + coinBase + 2 * coinStake + 4 * first + 8 * second
    ensures n % 2 == coinBase && n / 2 % 2 == coinStake && n / 4 % 2 == first && n / 8 % 2 == second && n / 16 == a
  {
    Div2(8 * a + coinStake + 2 * first + 4 * second, coinBase);
    Div4(4 * a + first + 2 * second, coinBase + 2 * coinStake);
    Div8(2 * a + second, coinBase + 2 * coinStake + 4 * first);
    Div16(a, coinBase + 2 * coinStake + 4 * first + 8 * second);
    Div2(4 * a + first + 2 * second, coinStake);
    Div2(2 * a + second, first);
    Div2(a, second);
  }

  function Bit(b: bool): nat { if b then 1 else 0 }

  lemma {:induction false} CodeFields(c: Coins)
    requires !c.IsPruned()
    ensures var n := Code(c);
            var first, second := Avail(c.vout, 0), Avail(c.vout, 1);
            n % 2 == Bit(c.fCoinBase) && n / 2 % 2 == Bit(c.fCoinStake)
            && n / 4 % 2 == Bit(first) && n / 8 % 2 == Bit(second)
            && n / 16 + (if first || second then 0 else 1) == MaskCode(c.vout)
  {
    var first, second := Avail(c.vout, 0), Avail(c.vout, 1);
    if !first && !second {
      SomethingMasked(c.vout);
    }
    CodeBits(Code(c), MaskCode(c.vout) - (if first || second then 0 else 1),
             Bit(c.fCoinBase), Bit(c.fCoinStake), Bit(first), Bit(second));
  }

  lemma {:induction false} ExampleMask(vout: seq<TxOut>)
    requires |vout| == 2
    ensures MaskSize(vout) == 0 && MaskCode(vout) == 0 && Mask(vout, 0) == []
  {
    assert MaskSpan(vout) == 0;
  }

  lemma {:induction false} ExampleOutput(curve: Curve, hash: Bytes, script: Bytes)
    requires |hash| == 20 && script == [0x76, 0xa9, 20] + hash + [0x88, 0xac]
    ensures WriteOutput(curve, 60_000_000_000, script) == [0x83, 0x58, 0x00] + hash
  {
    KeyIDForm(curve, hash);
    ExampleNumbers();
    assert [0x83, 0x58] + ([0x00] + hash) == [0x83, 0x58, 0x00] + hash;
  }

  lemma {:induction false} SecondOnly(curve: Curve, vout: seq<TxOut>)
    requires |vout| == 2 && vout[0].Null? && vout[1].Out?
    ensures WriteOutputs(curve, vout, 0) == WriteOutput(curve, vout[1].nValue, vout[1].scriptPubKey)
  {
    assert WriteOutputs(curve, vout, 2) == [];
    assert WriteOutputs(curve, vout, 0) == [] + WriteOutputs(curve, vout, 1);
  }

  lemma {:induction false} ExampleCode(c: Coins)
    requires |c.vout| == 2 && c.vout[0].Null? && c.vout[1].Out? && !c.fCoinBase && !c.fCoinStake
    ensures Code(c) == 8 && Write(8) == [0x08] && !c.IsPruned()
  {
    ExampleMask(c.vout);
  }

  lemma {:induction false} RecordParts(curve: Curve, c: Coins, version: Bytes, code: Bytes, outs: Bytes, height: Bytes)
    requires !c.IsPruned() && Mask(c.vout, MaskSize(c.vout)) == []
    requires Write(Stored(c.nVersion)) == version && Write(Code(c)) == code
    requires WriteOutputs(curve, c.vout, 0) == outs && Write(c.nHeight) == height
    ensures Serialize(curve, c) == version + code + outs + height
  {
    assert Body(curve, c) == outs + height;
  }

  /** A record from its start to its end: version, header code, one output's compact amount and script, height. */
  lemma {:induction false} RecordExample(curve: Curve, hash: Bytes, c: Coins, vout: seq<TxOut>)
    requires |hash| == 20 && vout == [Null, Out(60_000_000_000, [0x76, 0xa9, 20] + hash + [0x88, 0xac])]
    requires c == Coins(false, false, vout, 203_998, 1)
    ensures !c.IsPruned()
    ensures Serialize(curve, c) == [0x01] + [0x08] + ([0x83, 0x58, 0x00] + hash) + [0x8b, 0xb8, 0x5e]
  {
    ExampleMask(vout);
    ExampleCode(c);
    SecondOnly(curve, vout);
    ExampleOutput(curve, hash, vout[1].scriptPubKey);
    ExampleNumbers();
    RecordParts(curve, c, [0x01], [0x08], [0x83, 0x58, 0x00] + hash, [0x8b, 0xb8, 0x5e]);
  }

  lemma {:induction false} ExampleNumbers()
    ensures CompressAmount(60_000_000_000) == 600 && Write(600) == [0x83, 0x58]
    ensures Write(203_998) == [0x8b, 0xb8, 0x5e]
  {
    CompressedForm(60, 1, 0);
    assert High(3) == [0x83];
    assert High(11) == [0x8b] && High(1592) == High(11) + [0xb8];
  }

  /** When neither of the first two outputs is left, some mask byte is not zero: N - 1 does not wrap. */
  lemma {:induction false} SomethingMasked(vout: seq<TxOut>)
    requires !AllNull(vout) && !Avail(vout, 0) && !Avail(vout, 1)
    ensures MaskCode(vout) > 0
  {
    var i :| 0 <= i < |vout| && !vout[i].Null?;
    var b := (i - 2) / 8;
    assert Avail(vout, i) && 2 + b * 8 <= i < 10 + b * 8;
    MaskByteZero(vout, b);
    NonzeroCounted(vout, MaskSpan(vout), b);
  }

  lemma {:induction false} NonzeroCounted(vout: seq<TxOut>, n: nat, b: nat)
    requires b < n && MaskByte(vout, b) != 0
    ensures CountNonzero(Mask(vout, n)) > 0
  {
    CountNonzeroSnoc(Mask(vout, n - 1), MaskByte(vout, n - 1));
    if b < n - 1 {
      NonzeroCounted(vout, n - 1, b);
    }
  }

  /** The bits of a mask. */
  function Unpacked(mask: Bytes): (r: seq<bool>)
    ensures |r| == 8 * |mask|
  {
    if mask == [] then [] else UnpackBits(mask[0], 8) + Unpacked(mask[1..])
  }

  /** The reader's loop stops exactly where the writer's mask ends. */
  lemma {:induction false} ReadMaskStops(mask: Bytes, rest: Bytes)
    requires mask == [] || mask[|mask| - 1] != 0
    ensures ReadMask(mask + rest, CountNonzero(mask)) == Some((Unpacked(mask), rest))
  {
    if mask == [] {
      assert mask + rest == rest;
    } else {
      CountNonzeroCons(mask[0], mask[1..]);
      assert [mask[0]] + mask[1..] == mask;
      assert (mask + rest)[1..] == mask[1..] + rest;
      ReadMaskStops(mask[1..], rest);
    }
  }

  /** Bits say which outputs from a place on are there. */
  ghost predicate BitsAre(bits: seq<bool>, vout: seq<TxOut>, place: nat) {
    forall i :: 0 <= i < |bits| ==> bits[i] == Avail(vout, place + i)
  }

  lemma {:induction false} BitsJoined(head: seq<bool>, tail: seq<bool>, vout: seq<TxOut>, place: nat, next: nat)
    requires BitsAre(head, vout, place) && BitsAre(tail, vout, next) && next == place + |head|
    ensures BitsAre(head + tail, vout, place)
  {
    forall i | |head| <= i < |head + tail| ensures (head + tail)[i] == Avail(vout, place + i) {
      assert (head + tail)[i] == tail[i - |head|] == Avail(vout, next + (i - |head|));
    }
  }

  lemma {:induction false} ByteBits(vout: seq<TxOut>, b: nat)
    ensures UnpackBits(MaskByte(vout, b), 8) == MaskBits(vout, b)
  {
    UnpackPack(MaskBits(vout, b));
  }

  lemma {:induction false} BitsAhead(vout: seq<TxOut>, b: nat, place: nat)
    requires place == 2 + 8 * b
    ensures BitsAre(MaskBits(vout, b), vout, place)
  {
  }

  lemma {:induction false} UnpackedOne(m: Bytes, rest: Bytes, bits: seq<bool>)
    requires m != [] && m[1..] == rest && UnpackBits(m[0], 8) == bits
    ensures Unpacked(m) == bits + Unpacked(rest)
  {
  }

  /** Bit i of the mask says whether output i + 2 is there. */
  lemma {:induction false} UnpackedMask(vout: seq<TxOut>, n: nat, from: nat, place: nat)
    requires from <= n && place == 2 + 8 * from
    ensures BitsAre(Unpacked(Mask(vout, n)[from..]), vout, place)
    decreases n - from
  {
    if from < n {
      UnpackedMask(vout, n, from + 1, place + 8);
      MaskAt(vout, n, from);
      ByteBits(vout, from);
      var m, rest := Mask(vout, n)[from..], Mask(vout, n)[from + 1..];
      assert m[1..] == rest;
      UnpackedOne(m, rest, MaskBits(vout, from));
      BitsAhead(vout, from, place);
      BitsJoined(MaskBits(vout, from), Unpacked(rest), vout, place, place + 8);
    }
  }

  /** An output after the round trip. */
  function KeptOutput(vout: seq<TxOut>, i: nat): TxOut {
    if Avail(vout, i) then Out(vout[i].nValue, Kept(vout[i].scriptPubKey)) else Null
  }

  /** `avail` are the bits of the outputs from index `i` on, all of them that are left. */
  ghost predicate BitsFrom(vout: seq<TxOut>, i: nat, avail: seq<bool>) {
    && (forall k :: 0 <= k < |avail| ==> avail[k] == Avail(vout, i + k))
    && (forall k :: k >= i + |avail| ==> !Avail(vout, k))
  }

  /** `outs` are the outputs from index `i` on after the round trip. */
  ghost predicate KeptFrom(vout: seq<TxOut>, i: nat, outs: seq<TxOut>) {
    forall k :: 0 <= k < |outs| ==> outs[k] == KeptOutput(vout, i + k)
  }

  lemma {:induction false} KeptFromCons(vout: seq<TxOut>, i: nat, outs: seq<TxOut>)
    requires KeptFrom(vout, i + 1, outs)
    ensures KeptFrom(vout, i, [KeptOutput(vout, i)] + outs)
  {
    var all := [KeptOutput(vout, i)] + outs;
    forall k | 0 <= k < |all| ensures all[k] == KeptOutput(vout, i + k) {
      if k > 0 { assert outs[k - 1] == KeptOutput(vout, i + 1 + (k - 1)); }
    }
  }

  lemma {:induction false} BitsFromTail(vout: seq<TxOut>, i: nat, avail: seq<bool>)
    requires BitsFrom(vout, i, avail) && avail != []
    ensures avail[0] == Avail(vout, i) && BitsFrom(vout, i + 1, avail[1..])
  {
    forall k | 0 <= k < |avail| - 1 ensures avail[1..][k] == Avail(vout, i + 1 + k) {
      assert avail[k + 1] == Avail(vout, i + (k + 1));
    }
  }

  /** Reading one output per bit gives the outputs back, each at its index. */
  lemma {:induction false} ReadWriteOutputs(curve: Curve, vout: seq<TxOut>, i: nat, avail: seq<bool>, rest: Bytes)
    returns (outs: seq<TxOut>)
    requires curve.Sound() && i <= |vout| && BitsFrom(vout, i, avail)
    ensures ReadOutputs(curve, WriteOutputs(curve, vout, i) + rest, avail) == Some((outs, rest))
    ensures |outs| == |avail| && KeptFrom(vout, i, outs)
    decreases |avail|
  {
    if avail == [] {
      NothingLeft(curve, vout, i);
      assert WriteOutputs(curve, vout, i) + rest == rest;
      outs := [];
    } else if i == |vout| {
      assert WriteOutputs(curve, vout, i) + rest == rest;
      outs := ReadNulls(curve, rest, avail);
    } else {
      BitsFromTail(vout, i, avail);
      var more := ReadWriteOutputs(curve, vout, i + 1, avail[1..], rest);
      KeptFromCons(vout, i, more);
      outs := [KeptOutput(vout, i)] + more;
      ReadWriteOne(curve, vout, i, rest);
      ReadOutputsCons(curve, WriteOutputs(curve, vout, i) + rest, avail, WriteOutputs(curve, vout, i + 1) + rest,
                      KeptOutput(vout, i), more, rest);
    }
  }

  lemma {:induction false} SeqAssoc(a: Bytes, b: Bytes, c: Bytes)
    ensures (a + b) + c == a + (b + c)
  {
  }

  /** The first of the outputs left. */
  lemma {:induction false} ReadWriteOne(curve: Curve, vout: seq<TxOut>, i: nat, rest: Bytes)
    requires curve.Sound() && i < |vout|
    ensures var s, tail := WriteOutputs(curve, vout, i) + rest, WriteOutputs(curve, vout, i + 1) + rest;
            if vout[i].Out? then ReadOutput(curve, s) == Some((KeptOutput(vout, i), tail)) else s == tail
  {
    var more := WriteOutputs(curve, vout, i + 1);
    if vout[i].Out? {
      var out := vout[i];
      ReadWriteOutput(curve, out.nValue, out.scriptPubKey, more + rest);
      var first := WriteOutput(curve, out.nValue, out.scriptPubKey);
      SeqAssoc(first, more, rest);
      assert WriteOutputs(curve, vout, i) == first + more;
    } else {
      assert WriteOutputs(curve, vout, i) == [] + more == more;
    }
  }

  lemma {:induction false} ReadOutputsCons(curve: Curve, s: Bytes, avail: seq<bool>, tail: Bytes, out: TxOut,
                                           more: seq<TxOut>, rest: Bytes)
    requires avail != [] && ReadOutputs(curve, tail, avail[1..]) == Some((more, rest))
    requires if avail[0] then ReadOutput(curve, s) == Some((out, tail)) else s == tail && out == Null
    ensures ReadOutputs(curve, s, avail) == Some(([out] + more, rest))
  {
  }

  lemma {:induction false} NothingLeft(curve: Curve, vout: seq<TxOut>, i: nat)
    requires i <= |vout| && forall k :: k >= i ==> !Avail(vout, k)
    ensures WriteOutputs(curve, vout, i) == []
    decreases |vout| - i
  {
    if i < |vout| {
      assert !Avail(vout, i);
      NothingLeft(curve, vout, i + 1);
    }
  }

  lemma {:induction false} ReadNulls(curve: Curve, s: Bytes, avail: seq<bool>) returns (outs: seq<TxOut>)
    requires forall k :: 0 <= k < |avail| ==> !avail[k]
    ensures ReadOutputs(curve, s, avail) == Some((outs, s))
    ensures |outs| == |avail| && AllNull(outs)
    decreases |avail|
  {
    if avail == [] {
      outs := [];
    } else {
      var more := ReadNulls(curve, s, avail[1..]);
      outs := [Null] + more;
    }
  }

  /** Two lists of outputs that differ only in nulls at the end trim to the same list. */
  lemma {:induction false} TrimSame(a: seq<TxOut>, b: seq<TxOut>)
    requires |a| <= |b| && a <= b && AllNull(b[|a|..])
    ensures TrimNulls(a) == TrimNulls(b)
  {
    var t := TrimNulls(a);
    assert t <= b;
    forall i | 0 <= i < |b| - |t| ensures b[|t|..][i].Null? {
      if |t| + i < |a| {
        assert a[|t|..][i].Null?;
      } else {
        assert b[|a|..][|t| + i - |a|].Null?;
      }
    }
    TrimNullsUnique(b, t);
  }

  /** The outputs after the round trip, before and after trimming. */
  function KeptAll(vout: seq<TxOut>): (r: seq<TxOut>)
    ensures |r| == |vout| && forall i :: 0 <= i < |vout| ==> r[i] == KeptOutput(vout, i)
  {
    seq(|vout|, i requires 0 <= i < |vout| => KeptOutput(vout, i))
  }

  function KeptTrimmed(vout: seq<TxOut>): seq<TxOut> {
    TrimNulls(KeptAll(vout))
  }

  /** The coins after the round trip: the same, trimmed, with overly long scripts replaced. */
  function KeptCoins(c: Coins): Coins {
    c.(vout := KeptTrimmed(c.vout))
  }

  lemma {:induction false} KeptShort(c: Coins)
    requires forall i :: 0 <= i < |c.vout| && c.vout[i].Out? ==> |c.vout[i].scriptPubKey| <= MAX_SCRIPT_SIZE
    ensures KeptCoins(c) == c.Cleanup()
  {
    assert KeptAll(c.vout) == c.vout;
  }

  /** The bits that the reader assembles are the bits of all outputs. */
  lemma {:induction false} AllBits(vout: seq<TxOut>)
    ensures BitsFrom(vout, 0, [Avail(vout, 0), Avail(vout, 1)] + Unpacked(Mask(vout, MaskSize(vout))))
  {
    var n := MaskSize(vout);
    var m := Mask(vout, n);
    UnpackedMask(vout, n, 0, 2);
    assert m[0..] == m;
    forall k | k >= 2 + 8 * n ensures !Avail(vout, k) {
      var b := (k - 2) / 8;
      if b < MaskSpan(vout) {
        MaskAt(vout, MaskSpan(vout), b);
        MaskByteZero(vout, b);
      }
    }
  }

  /** The outputs as read and as trimmed differ only in nulls at the end. */
  lemma {:induction false} TrimKept(vout: seq<TxOut>, outs: seq<TxOut>)
    requires KeptFrom(vout, 0, outs) && forall k :: k >= |outs| ==> !Avail(vout, k)
    ensures TrimNulls(outs) == KeptTrimmed(vout)
  {
    var all := KeptAll(vout);
    assert forall k :: 0 <= k < |outs| ==> outs[k] == KeptOutput(vout, 0 + k);
    if |outs| <= |all| {
      TrimSame(outs, all);
    } else {
      TrimSame(all, outs);
    }
  }

  lemma {:induction false} MaskBack(vout: seq<TxOut>, s: Bytes)
    ensures ReadMask(Mask(vout, MaskSize(vout)) + s, MaskCode(vout)) == Some((Unpacked(Mask(vout, MaskSize(vout))), s))
  {
    var all := Mask(vout, MaskSpan(vout));
    MaskPrefix(vout, MaskSpan(vout), MaskSize(vout));
    CountUsed(all);
    ReadMaskStops(all[..UsedSize(all)], s);
  }

  lemma {:induction false} OutputsBack(curve: Curve, vout: seq<TxOut>, s: Bytes) returns (outs: seq<TxOut>)
    requires curve.Sound()
    ensures ReadOutputs(curve, WriteOutputs(curve, vout, 0) + s,
                        [Avail(vout, 0), Avail(vout, 1)] + Unpacked(Mask(vout, MaskSize(vout)))) == Some((outs, s))
    ensures TrimNulls(outs) == KeptTrimmed(vout)
  {
    AllBits(vout);
    var avail := [Avail(vout, 0), Avail(vout, 1)] + Unpacked(Mask(vout, MaskSize(vout)));
    outs := ReadWriteOutputs(curve, vout, 0, avail, s);
    TrimKept(vout, outs);
  }

  lemma {:induction false} ReadBodyBack(curve: Curve, c: Coins, rest: Bytes)
    requires curve.Sound()
    ensures ReadBody(curve, Body(curve, c) + rest, Avail(c.vout, 0), Avail(c.vout, 1), MaskCode(c.vout))
         == Some((KeptTrimmed(c.vout), c.nHeight, rest))
  {
    var mask, written, height := Mask(c.vout, MaskSize(c.vout)), WriteOutputs(curve, c.vout, 0), Write(c.nHeight);
    var s1 := written + (height + rest);
    assert Body(curve, c) + rest == mask + s1 by {
      SeqAssoc(mask, written + height, rest);
      SeqAssoc(written, height, rest);
    }
    MaskBack(c.vout, s1);
    var outs := OutputsBack(curve, c.vout, height + rest);
    ReadWrite(c.nHeight, rest);
    ReadBodySteps(curve, mask + s1, Avail(c.vout, 0), Avail(c.vout, 1),
                  MaskCode(c.vout), Unpacked(mask), s1, outs, height + rest, c.nHeight, rest);
  }

  /** The steps of the reader, put together. */
  lemma {:induction false} UnserializeSteps(curve: Curve, s: Bytes, nVersion: nat, s1: Bytes, nCode: nat, s2: Bytes,
                                            c: Coins, rest: Bytes)
    requires Read(s, 0) == Some((nVersion, s1)) && Read(s1, 0) == Some((nCode, s2))
    requires var first, second := nCode / 4 % 2 == 1, nCode / 8 % 2 == 1;
             ReadBody(curve, s2, first, second, nCode / 16 + if first || second then 0 else 1)
             == Some((c.vout, c.nHeight, rest))
    requires c.nVersion == nVersion && c.fCoinBase == (nCode % 2 == 1) && c.fCoinStake == (nCode / 2 % 2 == 1)
    ensures Unserialize(curve, s) == Some((c, rest))
  {
  }

  lemma {:induction false} ReadBodySteps(curve: Curve, s: Bytes, first: bool, second: bool, nMaskCode: nat,
                                         avail: seq<bool>, s1: Bytes, outs: seq<TxOut>, s2: Bytes, nHeight: nat,
                                         rest: Bytes)
    requires ReadMask(s, nMaskCode) == Some((avail, s1))
    requires ReadOutputs(curve, s1, [first, second] + avail) == Some((outs, s2))
    requires Read(s2, 0) == Some((nHeight, rest))
    ensures ReadBody(curve, s, first, second, nMaskCode) == Some((TrimNulls(outs), nHeight, rest))
  {
  }

  lemma {:induction false} HeaderBack(nVersion: nat, nCode: nat, body: Bytes, rest: Bytes)
    ensures Read((Write(nVersion) + (Write(nCode) + body)) + rest, 0) == Some((nVersion, Write(nCode) + (body + rest)))
    ensures Read(Write(nCode) + (body + rest), 0) == Some((nCode, body + rest))
  {
    SeqAssoc(Write(nVersion), Write(nCode) + body, rest);
    SeqAssoc(Write(nCode), body, rest);
    ReadWrite(nVersion, Write(nCode) + (body + rest));
    ReadWrite(nCode, body + rest);
  }

  /** Reading back serialized coins. */
  lemma {:induction false} UnserializeSerialize(curve: Curve, c: Coins, rest: Bytes)
    requires curve.Sound() && !c.IsPruned()
    ensures Unserialize(curve, Serialize(curve, c) + rest)
            == Some((KeptCoins(c).(nVersion := Stored(c.nVersion)), rest))
  {
    CodeFields(c);
    ReadBodyBack(curve, c, rest);
    UnserializeParts(curve, Stored(c.nVersion), Code(c), Body(curve, c), rest, Avail(c.vout, 0), Avail(c.vout, 1),
                     MaskCode(c.vout), KeptCoins(c).(nVersion := Stored(c.nVersion)));
  }

  /** The reader, on a header and a body. */
  lemma {:induction false} UnserializeParts(curve: Curve, nVersion: nat, nCode: nat, body: Bytes, rest: Bytes,
                                            first: bool, second: bool, nMaskCode: nat, c: Coins)
    requires ReadBody(curve, body + rest, first, second, nMaskCode) == Some((c.vout, c.nHeight, rest))
    requires nCode / 4 % 2 == Bit(first) && nCode / 8 % 2 == Bit(second)
    requires nMaskCode == nCode / 16 + if first || second then 0 else 1
    requires c.nVersion == nVersion && nCode % 2 == Bit(c.fCoinBase) && nCode / 2 % 2 == Bit(c.fCoinStake)
    ensures Unserialize(curve, (Write(nVersion) + (Write(nCode) + body)) + rest) == Some((c, rest))
  {
    HeaderBack(nVersion, nCode, body, rest);
    UnserializeSteps(curve, (Write(nVersion) + (Write(nCode) + body)) + rest, nVersion, Write(nCode) + (body + rest),
                     nCode, body + rest, c, rest);
  }

  /** With scripts that can exist in the set, reading back gives the cleaned-up coins, with the same version if and only
      if that is not negative. */
  lemma {:induction false} CodecRoundTrip(curve: Curve, c: Coins, rest: Bytes)
    requires curve.Sound() && !c.IsPruned()
    requires forall i :: 0 <= i < |c.vout| && c.vout[i].Out? ==> |c.vout[i].scriptPubKey| <= MAX_SCRIPT_SIZE
    ensures Unserialize(curve, Serialize(curve, c) + rest)
            == Some((c.Cleanup().(nVersion := Stored(c.nVersion)), rest))
    ensures Unserialize(curve, Serialize(curve, c) + rest) == Some((c.Cleanup(), rest)) <==> c.nVersion >= 0
  {
    UnserializeSerialize(curve, c, rest);
    KeptShort(c);
  }

  /** Version -1 comes back as 127. */
  lemma {:induction false} VersionLost(curve: Curve)
    requires curve.Sound()
    ensures var c := Coins(false, false, [Out(0, [])], 5, -1);
            !c.IsPruned() && Unserialize(curve, Serialize(curve, c) + []) == Some((c.(nVersion := 127), []))
  {
    var c := Coins(false, false, [Out(0, [])], 5, -1);
    OneOutput(c, Out(0, []));
    CodecRoundTrip(curve, c, []);
  }

  lemma {:induction false} OneOutput(c: Coins, out: TxOut)
    requires c.vout == [out] && out != Null
    ensures !c.IsPruned() && c.Cleanup() == c
  {
    assert c.vout[0] != Null;
  }

  // ---------------------------------------------------------------------------
  // The loops of Serialize and Unserialize
  // ---------------------------------------------------------------------------

  lemma {:induction false} PackBitsSnoc(bits: seq<bool>, x: bool)
    ensures PackBits(bits + [x]) == PackBits(bits) + if x then Powers.Pow2(|bits|) else 0
  {
    if bits == [] {
      assert bits + [x] == [x] && [x][1..] == [];
    } else {
      assert (bits + [x])[1..] == bits[1..] + [x];
      PackBitsSnoc(bits[1..], x);
    }
  }

  lemma {:induction false} PackOneMore(bits: seq<bool>, i: nat)
    requires i < |bits|
    ensures PackBits(bits[..i + 1]) == PackBits(bits[..i]) + if bits[i] then Powers.Pow2(i) else 0
  {
    PackBitsSnoc(bits[..i], bits[i]);
    assert bits[..i + 1] == bits[..i] + [bits[i]];
  }

  /** One mask byte, a bit at a time. */
  method PackByte(vout: seq<TxOut>, b: nat) returns (chAvail: uint8)
    ensures chAvail == MaskByte(vout, b)
  {
    ghost var bits := MaskBits(vout, b);
    assert forall k :: 0 <= k < 8 ==> bits[k] == Avail(vout, 2 + b * 8 + k);
    var ch, bit := 0, 1;
    assert bit == Powers.Pow2(0) && ch == PackBits(bits[..0]) by { PackNone(bits); }
    var i := 0;
    while i < 8 && 2 + b * 8 + i < |vout|
      invariant 0 <= i <= 8
      invariant ch == PackBits(bits[..i]) && bit == Powers.Pow2(i)
    {
      PackOneMore(bits, i);
      DoublePow2(i);
      if !vout[2 + b * 8 + i].Null? {
        ch := ch + bit;
      }
      bit := 2 * bit;
      i := i + 1;
    }
    PackBitsRest(bits, i);
    assert ch == MaskByte(vout, b);
    chAvail := ch;
  }

  lemma {:induction false} PackNone(bits: seq<bool>)
    ensures PackBits(bits[..0]) == 0 && Powers.Pow2(0) == 1
  {
  }

  lemma {:induction false} DoublePow2(i: nat)
    ensures Powers.Pow2(i + 1) == 2 * Powers.Pow2(i)
  {
  }

  lemma {:induction false} PackBitsRest(bits: seq<bool>, n: nat)
    requires n <= |bits| && forall i :: n <= i < |bits| ==> !bits[i]
    ensures PackBits(bits[..n]) == PackBits(bits)
    decreases |bits| - n
  {
    if n == |bits| {
      assert bits[..n] == bits;
    } else {
      PackOneMore(bits, n);
      PackBitsRest(bits, n + 1);
    }
  }

  method WriteMaskLoop(vout: seq<TxOut>, nMaskSize: nat) returns (mask: Bytes)
    ensures mask == Mask(vout, nMaskSize)
  {
    mask := [];
    for b := 0 to nMaskSize
      invariant mask == Mask(vout, b)
    {
      var chAvail := PackByte(vout, b);
      mask := mask + [chAvail];
    }
  }

  method WriteOutputsLoop(curve: Curve, vout: seq<TxOut>) returns (outs: Bytes)
    ensures outs == WriteOutputs(curve, vout, 0)
  {
    outs := [];
    for i := 0 to |vout|
      invariant outs + WriteOutputs(curve, vout, i) == WriteOutputs(curve, vout, 0)
    {
      var out := if vout[i].Out? then WriteOutput(curve, vout[i].nValue, vout[i].scriptPubKey) else [];
      SeqAssoc(outs, out, WriteOutputs(curve, vout, i + 1));
      outs := outs + out;
    }
  }

  method WriteCode(c: Coins) returns (nCode: nat, nMaskSize: nat)
    requires !c.IsPruned()
    ensures nCode == Code(c) && nMaskSize == MaskSize(c.vout)
  {
    var nMaskCode;
    nMaskSize, nMaskCode := CalcMaskSize(c.vout);
    var fFirst := |c.vout| > 0 && !c.vout[0].Null?;
    var fSecond := |c.vout| > 1 && !c.vout[1].Null?;
    if !fFirst && !fSecond { SomethingMasked(c.vout); }
    assert fFirst || fSecond || nMaskCode > 0;
    nCode := 16 * (nMaskCode - if fFirst || fSecond then 0 else 1) + (if c.fCoinBase then 1 else 0)
      + (if c.fCoinStake then 2 else 0) + (if fFirst then 4 else 0) + (if fSecond then 8 else 0);
  }

  /** The version and the height have 32 bits with a sign, the header code 32 bits without. */
  method SerializeLoop(curve: Curve, c: Coins) returns (s: Bytes)
    requires !c.IsPruned() && -0x8000_0000 <= c.nVersion < 0x8000_0000 && c.nHeight < 0x8000_0000
    requires Code(c) < 0x1_0000_0000
    ensures s == Serialize(curve, c)
  {
    var nCode, nMaskSize := WriteCode(c);
    var version := WriteVarInt(c.nVersion);
    var code := WriteVarInt(nCode);
    var mask := WriteMaskLoop(c.vout, nMaskSize);
    var outs := WriteOutputsLoop(curve, c.vout);
    var height := WriteVarInt(c.nHeight);
    s := version + (code + (mask + (outs + height)));
  }

  /** What was read before, in front of what is read next. */
  function After<T>(before: seq<T>, r: Option<(seq<T>, Bytes)>): Option<(seq<T>, Bytes)> {
    match r
    case None => None
    case Some((more, end)) => Some((before + more, end))
  }

  lemma {:induction false} AfterAfter<T>(a: seq<T>, b: seq<T>, r: Option<(seq<T>, Bytes)>)
    ensures After(a, After(b, r)) == After(a + b, r)
  {
    if r.Some? {
      assert a + (b + r.value.0) == (a + b) + r.value.0;
    }
  }

  lemma {:induction false} AfterNothing<T>(a: seq<T>, end: Bytes, r: Option<(seq<T>, Bytes)>)
    ensures After(a, Some(([], end))) == Some((a, end))
    ensures After([], r) == r
  {
    assert a + [] == a;
    if r.Some? { assert [] + r.value.0 == r.value.0; }
  }

  /** The mask loop of Unserialize. */
  method ReadMaskLoop(s: Bytes, nMaskCodeIn: nat) returns (r: Option<(seq<bool>, Bytes)>)
    ensures r == ReadMask(s, nMaskCodeIn)
  {
    var nMaskCode: nat, rest := nMaskCodeIn, s;
    var vAvail: seq<bool> := [];
    AfterNothing(vAvail, s, ReadMask(s, nMaskCode));
    while nMaskCode > 0
      invariant ReadMask(s, nMaskCodeIn) == After(vAvail, ReadMask(rest, nMaskCode))
      decreases |rest|
    {
      if rest == [] {
        return None;
      }
      var chAvail := rest[0];
      var bits := UnpackBits(chAvail, 8);
      AfterAfter(vAvail, bits, ReadMask(rest[1..], if chAvail != 0 then nMaskCode - 1 else nMaskCode));
      vAvail := vAvail + bits;
      rest := rest[1..];
      if chAvail != 0 {
        nMaskCode := nMaskCode - 1;
      }
    }
    AfterNothing(vAvail, rest, None);
    r := Some((vAvail, rest));
  }

  /** The output loop of Unserialize: a list of nulls, filled where a bit is set. */
  method ReadOutputsLoop(curve: Curve, s: Bytes, vAvail: seq<bool>) returns (r: Option<(seq<TxOut>, Bytes)>)
    ensures r == ReadOutputs(curve, s, vAvail)
  {
    var vout: seq<TxOut> := seq(|vAvail|, _ => Null);
    var rest := s;
    AfterNothing<TxOut>([], s, ReadOutputs(curve, s, vAvail));
    assert vAvail[0..] == vAvail;
    for i := 0 to |vAvail|
      invariant |vout| == |vAvail|
      invariant forall k :: i <= k < |vout| ==> vout[k].Null?
      invariant ReadOutputs(curve, s, vAvail) == After(vout[..i], ReadOutputs(curve, rest, vAvail[i..]))
    {
      assert vAvail[i..][1..] == vAvail[i + 1..];
      ghost var was, from := vout, rest;
      if vAvail[i] {
        var got := ReadOutput(curve, rest);
        if got.None? {
          return None;
        }
        vout, rest := vout[i := got.value.0], got.value.1;
      }
      assert vout[..i + 1] == was[..i] + [vout[i]];
      AfterAfter(was[..i], [vout[i]], ReadOutputs(curve, rest, vAvail[i + 1..]));
      assert ReadOutputs(curve, from, vAvail[i..]) == After([vout[i]], ReadOutputs(curve, rest, vAvail[i + 1..]));
    }
    AfterNothing(vout, rest, None);
    assert vout[..|vAvail|] == vout;
    r := Some((vout, rest));
  }

  method UnserializeLoop(curve: Curve, s: Bytes) returns (r: Option<(Coins, Bytes)>)
    ensures r == Unserialize(curve, s)
  {
    var version := Read(s, 0);
    if version.None? { return None; }
    var code := Read(version.value.1, 0);
    if code.None? { return None; }
    var nCode := code.value.0;
    var first, second := nCode / 4 % 2 == 1, nCode / 8 % 2 == 1;
    var mask := ReadMaskLoop(code.value.1, nCode / 16 + if first || second then 0 else 1);
    if mask.None? { return None; }
    var outs := ReadOutputsLoop(curve, mask.value.1, [first, second] + mask.value.0);
    if outs.None? { return None; }
    var height := Read(outs.value.1, 0);
    if height.None? { return None; }
    var vout := CleanupInPlace(outs.value.0);
    r := Some((Coins(nCode % 2 == 1, nCode / 2 % 2 == 1, vout, height.value.0, version.value.0), height.value.1));
  }
}
