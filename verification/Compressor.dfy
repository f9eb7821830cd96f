/** CTxOutCompressor and CScriptCompressor: the compact form of one output. */
module Compressor {
  import opened Coins
  import opened VarInt

  // ---------------------------------------------------------------------------
  // Amounts
  // ---------------------------------------------------------------------------

  /** 21,000,000 coins of 100,000,000 units. */
  const MAX_MONEY: nat := 2_100_000_000_000_000

  /** Divides by ten while it divides, at most nine times in all. */
  function StripTens(n: nat, e: nat): (r: (nat, nat))
    requires n > 0 && e <= 9
    ensures 0 < r.0 <= n && e <= r.1 <= 9
    ensures n * Pow10(e) == r.0 * Pow10(r.1)
    ensures r.1 < 9 ==> r.0 % 10 != 0
    decreases 9 - e
  {
    if n % 10 == 0 && e < 9 then
      assert n * Pow10(e) == (n / 10) * Pow10(e + 1) by {
        TimesTen(n / 10, Pow10(e));
      }
      StripTens(n / 10, e + 1)
    else (n, e)
  }

  function Pow10(e: nat): (r: nat)
    ensures r > 0
  {
    if e == 0 then 1 else 10 * Pow10(e - 1)
  }

  /** The number that stands for m * 10^e. */
  function Pack(m: nat, e: nat): nat
    requires m > 0 && (e < 9 ==> m % 10 != 0)
  {
    if e < 9 then 1 + (m / 10 * 9 + m % 10 - 1) * 10 + e else 1 + (m - 1) * 10 + 9
  }

  function Exponent(x: nat): nat
    requires x > 0
  {
    (x - 1) % 10
  }

  function Mantissa(x: nat): (m: nat)
    requires x > 0
    ensures m > 0 && (Exponent(x) < 9 ==> m % 10 != 0)
  {
    var y := (x - 1) / 10;
    if Exponent(x) < 9 then y / 9 * 10 + y % 9 + 1 else y + 1
  }

  function CompressAmount(n: nat): nat {
    if n == 0 then 0 else Pack(StripTens(n, 0).0, StripTens(n, 0).1)
  }

  function DecompressAmount(x: nat): nat {
    if x == 0 then 0 else Mantissa(x) * Pow10(Exponent(x))
  }

  lemma {:induction false} TenDigits(q: nat, r: nat)
    requires r <= 9
    ensures (q * 10 + r) / 10 == q && (q * 10 + r) % 10 == r
  {
  }

  lemma {:induction false} NineDigits(q: nat, r: nat)
    requires r <= 8
    ensures (q * 9 + r) / 9 == q && (q * 9 + r) % 9 == r
  {
  }

  lemma {:induction false} UnpackPack(m: nat, e: nat)
    requires m > 0 && e <= 9 && (e < 9 ==> m % 10 != 0)
    ensures Mantissa(Pack(m, e)) == m && Exponent(Pack(m, e)) == e
  {
    if e < 9 {
      NineDigits(m / 10, m % 10 - 1);
      TenDigits(m / 10 * 9 + (m % 10 - 1), e);
    } else {
      TenDigits(m - 1, 9);
    }
  }

  lemma {:induction false} PackUnpack(x: nat)
    requires x > 0
    ensures Pack(Mantissa(x), Exponent(x)) == x
  {
    PackDigits((x - 1) / 10, Exponent(x));
  }

  lemma {:induction false} PackDigits(y: nat, e: nat)
    requires e <= 9
    ensures e < 9 ==> (y / 9 * 10 + y % 9 + 1) % 10 != 0 && Pack(y / 9 * 10 + y % 9 + 1, e) == 1 + y * 10 + e
    ensures e == 9 ==> Pack(y + 1, e) == 1 + y * 10 + e
  {
    TenDigits(y / 9, y % 9 + 1);
  }

  lemma {:induction false} TimesTen(m: nat, p: nat)
    ensures m * (10 * p) == (m * p) * 10 == (m * 10) * p
  {
  }

  /** Stripping finds the only way to write a number as m * 10^e with e <= 9 and m not ending in 0 below 9. */
  lemma {:induction false} StripTensUnique(m: nat, e: nat, k: nat)
    requires m > 0 && k <= e <= 9 && (e < 9 ==> m % 10 != 0)
    ensures m * Pow10(e - k) > 0 && StripTens(m * Pow10(e - k), k) == (m, e)
    decreases e - k
  {
    if k == e {
      assert m * Pow10(0) == m;
    } else {
      StripTensUnique(m, e, k + 1);
      var q := m * Pow10(e - k - 1);
      TimesTen(m, Pow10(e - k - 1));
      assert m * Pow10(e - k) == q * 10;
      TenDigits(q, 0);
    }
  }

  lemma {:induction false} DecompressCompress(n: nat)
    ensures DecompressAmount(CompressAmount(n)) == n
  {
    if n > 0 {
      var (m, e) := StripTens(n, 0);
      UnpackPack(m, e);
      assert n * Pow10(0) == n;
    }
  }

  lemma {:induction false} CompressDecompress(x: nat)
    ensures CompressAmount(DecompressAmount(x)) == x
  {
    if x > 0 {
      StripTensUnique(Mantissa(x), Exponent(x), 0);
      PackUnpack(x);
    }
  }

  /** The compact amounts by their digits: an amount is its leading digits n, its last digit d that is not 0, and a
      power of ten; or, with nine zeros or more at the end, what remains without nine of them. */
  lemma {:induction false} CompressedForm(n: nat, d: nat, e: nat)
    requires 1 <= d <= 9 && e < 9
    ensures CompressAmount((10 * n + d) * Pow10(e)) == 1 + 10 * (9 * n + d - 1) + e
    ensures n > 0 ==> CompressAmount(n * 1_000_000_000) == 1 + 10 * (n - 1) + 9
  {
    StripTensUnique(10 * n + d, e, 0);
    TenDigits(n, d);
    if n > 0 {
      StripTensUnique(n, 9, 0);
      assert Pow10(9) == 1_000_000_000 by { assert Pow10(3) == 1000 && Pow10(6) == 1_000_000; }
    }
  }

  /** One hundredth of a coin, one coin, fifty coins, and all coins. */
  lemma {:induction false} CompressedExamples()
    ensures CompressAmount(0) == 0 && CompressAmount(1) == 0x1 && CompressAmount(1_000_000) == 0x7
    ensures CompressAmount(100_000_000) == 0x9 && CompressAmount(5_000_000_000) == 0x32
    ensures CompressAmount(MAX_MONEY) == 0x1406f40
  {
    assert Pow10(0) == 1 && Pow10(3) == 1000 && Pow10(6) == 1_000_000 && Pow10(8) == 100_000_000;
    CompressedForm(0, 1, 0);
    CompressedForm(0, 1, 6);
    CompressedForm(0, 1, 8);
    CompressedForm(5, 1, 0);
    CompressedForm(2_100_000, 1, 0);
  }

  /** The compact amount is at most nine times the amount and ten: no 64-bit overflow below the supply limit. */
  lemma {:induction false} CompressedSmall(n: nat)
    ensures CompressAmount(n) <= 9 * n + 10
    ensures n <= MAX_MONEY ==> CompressAmount(n) < TWO64
  {
    if n > 0 {
      var (m, e) := StripTens(n, 0);
      if e == 9 {
        assert n == m * Pow10(9);
        assert Pow10(9) >= 10 by { assert Pow10(9) == 10 * Pow10(8); }
        assert 10 * m <= m * Pow10(9);
      } else {
        assert 10 * (m / 10) <= m;
      }
    }
  }

  lemma {:induction false} SmallModulo(x: nat)
    requires x < TWO64
    ensures x % TWO64 == x
  {
  }

  /** The loop of CompressAmount, in 64 bits: nothing wraps around up to the supply limit. */
  method CompressAmountLoop(nIn: nat) returns (r: nat)
    requires nIn < TWO64
    ensures r == CompressAmount(nIn) % TWO64 && (nIn <= MAX_MONEY ==> r == CompressAmount(nIn))
  {
    if nIn == 0 {
      return 0;
    }
    var n, e := nIn, 0;
    while n % 10 == 0 && e < 9
      invariant 0 < n <= nIn && 0 <= e <= 9
      invariant StripTens(n, e) == StripTens(nIn, 0)
      decreases 9 - e
    {
      n := n / 10;
      e := e + 1;
    }
    CompressedSmall(nIn);
    if nIn <= MAX_MONEY { SmallModulo(CompressAmount(nIn)); }
    if e < 9 {
      var d := n % 10;
      assert 1 <= d <= 9;
      n := n / 10;
      assert n * 9 + d < TWO64;
      r := (1 + (n * 9 + d - 1) * 10 + e) % TWO64;
    } else {
      r := (1 + (n - 1) * 10 + 9) % TWO64;
    }
  }

  lemma {:induction false} TenModulo(a: nat)
    ensures (a % TWO64 * 10) % TWO64 == (a * 10) % TWO64
  {
    var q := a / TWO64;
    assert a * 10 == a % TWO64 * 10 + q * 10 * TWO64;
  }

  /** The loops of DecompressAmount, in 64 bits: above the supply limit the result wraps around. */
  method DecompressAmountLoop(xIn: nat) returns (r: nat)
    requires xIn < TWO64
    ensures r == DecompressAmount(xIn) % TWO64
  {
    if xIn == 0 {
      return 0;
    }
    var x := xIn - 1;
    var e := x % 10;
    x := x / 10;
    var n: nat;
    if e < 9 {
      var d := x % 9 + 1;
      x := x / 9;
      n := x * 10 + d;
    } else {
      n := x + 1;
    }
    ghost var exact: nat := n;
    SmallModulo(n);
    while e > 0
      invariant 0 <= e <= 9
      invariant exact * Pow10(e) == DecompressAmount(xIn) && n == exact % TWO64
    {
      TimesTen(exact, Pow10(e - 1));
      TenModulo(exact);
      n := (n * 10) % TWO64;
      exact := exact * 10;
      e := e - 1;
    }
    r := n;
  }

  // ---------------------------------------------------------------------------
  // Scripts
  // ---------------------------------------------------------------------------

  const OP_DUP: uint8 := 0x76
  const OP_EQUAL: uint8 := 0x87
  const OP_EQUALVERIFY: uint8 := 0x88
  const OP_HASH160: uint8 := 0xa9
  const OP_CHECKSIG: uint8 := 0xac
  const SPECIAL_SCRIPTS: nat := 6

  /** The curve arithmetic of CPubKey: validity of a full key, and the full key of a compressed one. */
  datatype Curve = Curve(fullyValid: Bytes -> bool, decompress: Bytes -> Option<Bytes>)
  {
    function Shorten(key: Bytes): Bytes
      requires |key| == 65
    {
      [2 + key[64] % 2] + key[1..33]
    }

    /** Decompressing undoes compressing on valid keys, and yields full keys. */
    ghost predicate Sound() {
      && (forall key :: |key| == 65 && key[0] == 4 && fullyValid(key) ==> decompress(Shorten(key)) == Some(key))
      && (forall key :: decompress(key).Some? ==> |decompress(key).value| == 65)
    }
  }

  predicate IsToKeyID(script: Bytes) {
    |script| == 25 && script[0] == OP_DUP && script[1] == OP_HASH160 && script[2] == 20
    && script[23] == OP_EQUALVERIFY && script[24] == OP_CHECKSIG
  }

  predicate IsToScriptID(script: Bytes) {
    |script| == 23 && script[0] == OP_HASH160 && script[1] == 20 && script[22] == OP_EQUAL
  }

  predicate IsToShortKey(script: Bytes) {
    |script| == 35 && script[0] == 33 && script[34] == OP_CHECKSIG && (script[1] == 2 || script[1] == 3)
  }

  predicate IsToFullKey(curve: Curve, script: Bytes) {
    |script| == 67 && script[0] == 65 && script[66] == OP_CHECKSIG && script[1] == 4
    && curve.fullyValid(script[1..66])
  }

  function Compress(curve: Curve, script: Bytes): Option<Bytes> {
    if IsToKeyID(script) then Some([0] + script[3..23])
    else if IsToScriptID(script) then Some([1] + script[2..22])
    else if IsToShortKey(script) then Some([script[1]] + script[2..34])
    else if IsToFullKey(curve, script) then Some([4 + script[65] % 2] + script[2..34])
    else None
  }

  /** Payments to a key hash and to a script hash compress to 21 bytes, payments to a key, short or full and valid,
      to 33: a type from 0 to 5 and the hash, or the key's first coordinate. */
  lemma {:induction false} SpecialForms(curve: Curve, hash: Bytes, x: Bytes, y: Bytes, sign: uint8)
    requires |hash| == 20 && |x| == 32 && |y| == 32 && (sign == 2 || sign == 3)
    ensures Compress(curve, [0x76, 0xa9, 20] + hash + [0x88, 0xac]) == Some([0] + hash)
    ensures Compress(curve, [0xa9, 20] + hash + [0x87]) == Some([1] + hash)
    ensures Compress(curve, [33, sign] + x + [0xac]) == Some([sign] + x)
    ensures Compress(curve, [65, 4] + x + y + [0xac])
            == if curve.fullyValid([4] + x + y) then Some([if y[31] % 2 == 0 then 4 else 5] + x) else None
  {
    KeyIDForm(curve, hash);
    ScriptIDForm(curve, hash);
    ShortKeyForm(curve, x, sign);
    FullKeyForm(curve, x, y);
  }

  lemma {:induction false} KeyIDForm(curve: Curve, hash: Bytes)
    requires |hash| == 20
    ensures Compress(curve, [0x76, 0xa9, 20] + hash + [0x88, 0xac]) == Some([0] + hash)
  {
    var script: Bytes := [0x76, 0xa9, 20] + hash + [0x88, 0xac];
    assert IsToKeyID(script) && script[3..23] == hash;
  }

  lemma {:induction false} ScriptIDForm(curve: Curve, hash: Bytes)
    requires |hash| == 20
    ensures Compress(curve, [0xa9, 20] + hash + [0x87]) == Some([1] + hash)
  {
    var script: Bytes := [0xa9, 20] + hash + [0x87];
    assert IsToScriptID(script) && script[2..22] == hash;
  }

  lemma {:induction false} ShortKeyForm(curve: Curve, x: Bytes, sign: uint8)
    requires |x| == 32 && (sign == 2 || sign == 3)
    ensures Compress(curve, [33, sign] + x + [0xac]) == Some([sign] + x)
  {
    var script: Bytes := [33, sign] + x + [0xac];
    assert IsToShortKey(script) && script[2..34] == x;
  }

  lemma {:induction false} FullKeyForm(curve: Curve, x: Bytes, y: Bytes)
    requires |x| == 32 && |y| == 32
    ensures Compress(curve, [65, 4] + x + y + [0xac])
            == if curve.fullyValid([4] + x + y) then Some([if y[31] % 2 == 0 then 4 else 5] + x) else None
  {
    var script: Bytes := [65, 4] + x + y + [0xac];
    assert script[1..66] == [4] + x + y && script[2..34] == x && script[65] == y[31];
  }

  function SpecialSize(nSize: nat): nat {
    if nSize <= 1 then 20 else if nSize <= 5 then 32 else 0
  }

  /** The script of a special form; None when the key does not decompress. */
  function Decompress(curve: Curve, nSize: nat, data: Bytes): Option<Bytes>
    requires nSize < SPECIAL_SCRIPTS && |data| == SpecialSize(nSize)
  {
    if nSize == 0 then Some([OP_DUP, OP_HASH160, 20] + data + [OP_EQUALVERIFY, OP_CHECKSIG])
    else if nSize == 1 then Some([OP_HASH160, 20] + data + [OP_EQUAL])
    else if nSize <= 3 then Some([33, nSize] + data + [OP_CHECKSIG])
    else
      match curve.decompress([nSize - 2] + data)
      case None => None
      case Some(key) => Some([65] + key + [OP_CHECKSIG])
  }

  lemma {:induction false} DecompressCompressScript(curve: Curve, script: Bytes)
    requires curve.Sound() && Compress(curve, script).Some?
    ensures var c := Compress(curve, script).value;
            c != [] && c[0] < SPECIAL_SCRIPTS && |c| == 1 + SpecialSize(c[0])
            && Decompress(curve, c[0], c[1..]) == Some(script)
  {
    var c := Compress(curve, script).value;
    if IsToKeyID(script) {
      assert c[1..] == script[3..23];
      assert script == [OP_DUP, OP_HASH160, 20] + script[3..23] + [OP_EQUALVERIFY, OP_CHECKSIG];
    } else if IsToScriptID(script) {
      assert c[1..] == script[2..22];
      assert script == [OP_HASH160, 20] + script[2..22] + [OP_EQUAL];
    } else if IsToShortKey(script) {
      assert c[1..] == script[2..34];
      assert script == [33, script[1]] + script[2..34] + [OP_CHECKSIG];
    } else {
      var key := script[1..66];
      assert c[1..] == script[2..34] == key[1..33];
      assert [c[0] - 2] + c[1..] == curve.Shorten(key);
      assert script == [65] + key + [OP_CHECKSIG];
    }
  }

  function WriteScript(curve: Curve, script: Bytes): Bytes {
    match Compress(curve, script)
    case Some(c) => c
    case None => Write(|script| + SPECIAL_SCRIPTS) + script
  }

  /** Takes `n` bytes off the stream. */
  function Take(s: Bytes, n: nat): Option<(Bytes, Bytes)> {
    if n <= |s| then Some((s[..n], s[n..])) else None
  }

  /** Reads a script into an empty one: a key that does not decompress leaves it empty,
      and an overly long script becomes a single OP_RETURN. */
  function ReadScript(curve: Curve, s: Bytes): Option<(Bytes, Bytes)> {
    match Read(s, 0)
    case None => None
    case Some((nSize, rest)) =>
      if nSize < SPECIAL_SCRIPTS then
        match Take(rest, SpecialSize(nSize))
        case None => None
        case Some((data, rest')) =>
          var d := Decompress(curve, nSize, data);
          Some((if d.Some? then d.value else [], rest'))
      else
        match Take(rest, nSize - SPECIAL_SCRIPTS)
        case None => None
        case Some((data, rest')) => Some((Kept(data), rest'))
  }

  /** What is left of a script after a round trip. */
  function Kept(script: Bytes): Bytes {
    if |script| > MAX_SCRIPT_SIZE then [OP_RETURN] else script
  }

  lemma {:induction false} ReadSpecialScript(curve: Curve, script: Bytes, rest: Bytes)
    requires curve.Sound() && Compress(curve, script).Some?
    ensures ReadScript(curve, Compress(curve, script).value + rest) == Some((script, rest))
  {
    var c := Compress(curve, script).value;
    DecompressCompressScript(curve, script);
    ReadWrite(c[0], c[1..] + rest);
    assert c + rest == Write(c[0]) + (c[1..] + rest);
    assert (c[1..] + rest)[..|c| - 1] == c[1..] && (c[1..] + rest)[|c| - 1..] == rest;
  }

  lemma {:induction false} ReadPlainScript(curve: Curve, script: Bytes, rest: Bytes)
    ensures ReadScript(curve, (Write(|script| + SPECIAL_SCRIPTS) + script) + rest) == Some((Kept(script), rest))
  {
    ReadWrite(|script| + SPECIAL_SCRIPTS, script + rest);
    assert (Write(|script| + SPECIAL_SCRIPTS) + script) + rest == Write(|script| + SPECIAL_SCRIPTS) + (script + rest);
    assert (script + rest)[..|script|] == script && (script + rest)[|script|..] == rest;
  }

  /** A script comes back as it was, except that an overly long one is replaced. */
  lemma {:induction false} ReadWriteScript(curve: Curve, script: Bytes, rest: Bytes)
    requires curve.Sound()
    ensures ReadScript(curve, WriteScript(curve, script) + rest) == Some((Kept(script), rest))
  {
    if Compress(curve, script).Some? {
      ReadSpecialScript(curve, script, rest);
    } else {
      ReadPlainScript(curve, script, rest);
    }
  }

  /** What is read for each type, whatever follows; a key that cannot be decompressed leaves the script empty. */
  lemma {:induction false} ReadSpecialForms(curve: Curve, hash: Bytes, x: Bytes, rest: Bytes)
    requires |hash| == 20 && |x| == 32
    ensures ReadScript(curve, [0] + hash + rest) == Some(([0x76, 0xa9, 20] + hash + [0x88, 0xac], rest))
    ensures ReadScript(curve, [1] + hash + rest) == Some(([0xa9, 20] + hash + [0x87], rest))
    ensures ReadScript(curve, [2] + x + rest) == Some(([33, 2] + x + [0xac], rest))
    ensures ReadScript(curve, [3] + x + rest) == Some(([33, 3] + x + [0xac], rest))
    ensures ReadScript(curve, [4] + x + rest) == Some((FullKeyScript(curve, [2] + x), rest))
    ensures ReadScript(curve, [5] + x + rest) == Some((FullKeyScript(curve, [3] + x), rest))
  {
    ReadSpecial(curve, 0, hash, rest);
    ReadSpecial(curve, 1, hash, rest);
    ReadSpecial(curve, 2, x, rest);
    ReadSpecial(curve, 3, x, rest);
    ReadSpecial(curve, 4, x, rest);
    ReadSpecial(curve, 5, x, rest);
  }

  /** The payment to the full key that a short key stands for, if there is one. */
  function FullKeyScript(curve: Curve, key: Bytes): Bytes {
    if curve.decompress(key).Some? then [65] + curve.decompress(key).value + [0xac] else []
  }

  lemma {:induction false} ReadSpecial(curve: Curve, nSize: uint8, data: Bytes, rest: Bytes)
    requires nSize < 6 && |data| == if nSize <= 1 then 20 else 32
    ensures var d := Decompress(curve, nSize, data);
            ReadScript(curve, [nSize] + data + rest) == Some((if d.Some? then d.value else [], rest))
  {
    var s := [nSize] + data + rest;
    assert s[1..] == data + rest;
    assert (data + rest)[..|data|] == data && (data + rest)[|data|..] == rest;
  }

  /** A plain script over 10000 bytes is read as a single OP_RETURN. */
  lemma {:induction false} ReadOverlong(curve: Curve, script: Bytes, rest: Bytes)
    requires |script| > 10_000
    ensures ReadScript(curve, Write(|script| + 6) + script + rest) == Some(([0x6a], rest))
  {
    ReadPlainScript(curve, script, rest);
  }

  // ---------------------------------------------------------------------------
  // Outputs
  // ---------------------------------------------------------------------------

  function WriteOutput(curve: Curve, nValue: nat, script: Bytes): Bytes {
    Write(CompressAmount(nValue)) + WriteScript(curve, script)
  }

  function ReadOutput(curve: Curve, s: Bytes): Option<(TxOut, Bytes)> {
    match Read(s, 0)
    case None => None
    case Some((nVal, rest)) =>
      match ReadScript(curve, rest)
      case None => None
      case Some((script, rest')) => Some((Out(DecompressAmount(nVal), script), rest'))
  }

  lemma {:induction false} ReadWriteOutput(curve: Curve, nValue: nat, script: Bytes, rest: Bytes)
    requires curve.Sound()
    ensures ReadOutput(curve, WriteOutput(curve, nValue, script) + rest) == Some((Out(nValue, Kept(script)), rest))
  {
    ReadWriteScript(curve, script, rest);
    DecompressCompress(nValue);
    ReadOutputParts(curve, CompressAmount(nValue), WriteScript(curve, script), rest, Kept(script));
  }

  /** The reader, on an amount and a script. */
  lemma {:induction false} ReadOutputParts(curve: Curve, nVal: nat, written: Bytes, rest: Bytes, script: Bytes)
    requires ReadScript(curve, written + rest) == Some((script, rest))
    ensures ReadOutput(curve, (Write(nVal) + written) + rest) == Some((Out(DecompressAmount(nVal), script), rest))
  {
    var head := Write(nVal);
    assert (head + written) + rest == head + (written + rest);
    ReadWrite(nVal, written + rest);
  }
}
