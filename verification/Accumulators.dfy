/** Zerocoin accumulator checkpoints: every mint is accumulated exactly once. */
module Accumulators {
  import opened Coins
  import opened Limbs
  import opened Powers

  /** The number of denominations. */
  const DENOMS: nat := 8

  // ---------------------------------------------------------------------------
  // Packing checksums
  // ---------------------------------------------------------------------------

  /** The first `n` checksums, one after the other. */
  function PackTo(c: seq<uint32>, n: nat): nat
    requires n <= |c|
  {
    if n == 0 then 0 else PackTo(c, n - 1) * 0x1_0000_0000 + c[n - 1]
  }

  function Pack(c: seq<uint32>): nat {
    PackTo(c, |c|)
  }

  lemma {:induction false} PackBound(c: seq<uint32>, n: nat)
    requires n <= |c|
    ensures PackTo(c, n) < At(1, n)
  {
    if n > 0 { PackBound(c, n - 1); }
  }

  /** ParseChecksum: the 32 bits of one denomination. */
  function ParseChecksum(nChecksum: nat, pos: nat): nat
    requires pos < DENOMS
  {
    Shr(nChecksum, 32 * (DENOMS - 1 - pos)) % 0x1_0000_0000
  }

  lemma {:induction false} ShrWord(x: nat, n: nat)
    ensures Shr(x, n + 32) == Shr(x / 0x1_0000_0000, n)
  {
    Pow2Word();
    Pow2Sum(32, n);
    ShrIs(x, n + 32);
    ShrIs(x / 0x1_0000_0000, n);
    DivDiv(x, 0x1_0000_0000, Pow2(n));
  }

  lemma {:induction false} PackedAt(c: seq<uint32>, n: nat, k: nat)
    requires k < n <= |c|
    ensures Shr(PackTo(c, n), 32 * k) % 0x1_0000_0000 == c[n - 1 - k]
  {
    if k > 0 {
      ShrWord(PackTo(c, n), 32 * (k - 1));
      assert 32 * (k - 1) + 32 == 32 * k;
      PackedAt(c, n - 1, k - 1);
    }
  }

  /** Each field that GetCheckpoint packs is parsed back. */
  lemma {:induction false} ParsePack(c: seq<uint32>, pos: nat)
    requires |c| == DENOMS && pos < DENOMS
    ensures ParseChecksum(Pack(c), pos) == c[pos]
  {
    PackedAt(c, DENOMS, DENOMS - 1 - pos);
  }

  /** The field of the first denomination is the highest, of the last the lowest. */
  lemma {:induction false} ParseIs(nChecksum: nat, pos: nat)
    requires pos < DENOMS
    ensures ParseChecksum(nChecksum, pos) == nChecksum / Pow2(224 - 32 * pos) % 0x1_0000_0000
  {
    ShrIs(nChecksum, 32 * (DENOMS - 1 - pos));
    assert 32 * (DENOMS - 1 - pos) == 224 - 32 * pos;
  }

  lemma {:induction false} ParseZero(pos: nat)
    requires pos < DENOMS
    ensures ParseChecksum(0, pos) == 0
  {
    ShrUnique(0, 32 * (DENOMS - 1 - pos), 0, 0);
  }

  // ---------------------------------------------------------------------------
  // Accumulators and blocks
  // ---------------------------------------------------------------------------

  /** The accumulator's initial value and increment, and the checksum, of which nothing is known. */
  datatype Scheme = Scheme(init: nat, increment: (nat, nat) -> nat, checksum: nat -> uint32)

  /** PublicCoin: a denomination, or -1 for none, and a value. */
  datatype Coin = Coin(denom: int, value: nat)

  /** A block of the chain: its mints, unless it cannot be read, and its checkpoint. */
  datatype Block = Block(mints: Option<seq<Coin>>, checkpoint: nat)

  type Values = seq<nat>

  function Init(a: Scheme): (v: Values)
    ensures |v| == DENOMS
  {
    seq(DENOMS, _ => a.init)
  }

  predicate Known(c: Coin) {
    0 <= c.denom < DENOMS
  }

  ghost predicate AllKnown(mints: seq<Coin>) {
    forall i :: 0 <= i < |mints| ==> Known(mints[i])
  }

  function AddCoin(a: Scheme, v: Values, c: Coin): (r: Values)
    requires |v| == DENOMS
    ensures |r| == DENOMS
  {
    if Known(c) then v[c.denom := a.increment(v[c.denom], c.value)] else v
  }

  /** The values after the first `n` mints. */
  function AddTo(a: Scheme, v: Values, mints: seq<Coin>, n: nat): (r: Values)
    requires |v| == DENOMS && n <= |mints|
    ensures |r| == DENOMS
  {
    if n == 0 then v else AddCoin(a, AddTo(a, v, mints, n - 1), mints[n - 1])
  }

  lemma {:induction false} AddPrefix(a: Scheme, v: Values, x: seq<Coin>, y: seq<Coin>, n: nat)
    requires |v| == DENOMS && n <= |x| && n <= |y| && forall i :: 0 <= i < n ==> x[i] == y[i]
    ensures AddTo(a, v, x, n) == AddTo(a, v, y, n)
  {
    if n > 0 { AddPrefix(a, v, x, y, n - 1); }
  }

  lemma {:induction false} AddMore(a: Scheme, v: Values, x: seq<Coin>, y: seq<Coin>, n: nat)
    requires |v| == DENOMS && n <= |y|
    ensures AddTo(a, v, x + y, |x| + n) == AddTo(a, AddTo(a, v, x, |x|), y, n)
  {
    if n == 0 {
      AddPrefix(a, v, x + y, x, |x|);
    } else {
      AddMore(a, v, x, y, n - 1);
      assert (x + y)[|x| + n - 1] == y[n - 1];
    }
  }

  /** The values of the mints of one denomination, in their order. */
  function ValuesOf(mints: seq<Coin>, d: nat): seq<nat> {
    if mints == [] then []
    else
      var last := mints[|mints| - 1];
      ValuesOf(mints[..|mints| - 1], d) + if last.denom == d then [last.value] else []
  }

  /** An accumulator after values have been added one after the other. */
  function Grown(increment: (nat, nat) -> nat, x: nat, xs: seq<nat>): nat {
    if xs == [] then x else increment(Grown(increment, x, xs[..|xs| - 1]), xs[|xs| - 1])
  }

  /** Adding mints grows each accumulator by the mints of its own denomination, in their order, and by no others. */
  lemma {:induction false} AddToEach(a: Scheme, v: Values, mints: seq<Coin>, n: nat, d: nat)
    requires |v| == DENOMS && n <= |mints| && d < DENOMS
    ensures AddTo(a, v, mints, n)[d] == Grown(a.increment, v[d], ValuesOf(mints[..n], d))
  {
    if n > 0 {
      AddToEach(a, v, mints, n - 1, d);
      var low, last := ValuesOf(mints[..n - 1], d), mints[n - 1];
      assert mints[..n][..n - 1] == mints[..n - 1];
      if last.denom == d {
        assert (low + [last.value])[..|low|] == low;
      } else {
        assert low + [] == low;
      }
    }
  }

  // ---------------------------------------------------------------------------
  // What the checkpoints should be
  // ---------------------------------------------------------------------------

  function MintsOf(b: Block): seq<Coin> {
    match b.mints case Some(mints) => mints case None => []
  }

  /** The mints of the blocks from height `lo` up to below `hi` that are not below the start height. */
  function MintsBetween(chain: seq<Block>, start: nat, lo: nat, hi: nat): seq<Coin>
    requires hi <= |chain|
    decreases hi
  {
    if hi <= lo then []
    else MintsBetween(chain, start, lo, hi - 1) + if hi - 1 >= start then MintsOf(chain[hi - 1]) else []
  }

  /** The accumulators that hold every eligible mint of the blocks below a height, exactly once. */
  function ValuesBelow(a: Scheme, chain: seq<Block>, start: nat, k: nat): (r: Values)
    requires k <= |chain|
    ensures |r| == DENOMS
  {
    var mints := MintsBetween(chain, start, 0, k);
    AddTo(a, Init(a), mints, |mints|)
  }

  function Checksums(a: Scheme, v: Values): (c: seq<uint32>)
    ensures |c| == |v| && forall i :: 0 <= i < |v| ==> c[i] == a.checksum(v[i])
  {
    seq(|v|, i requires 0 <= i < |v| => a.checksum(v[i]))
  }

  /** The checkpoint has the checksums of the values in its eight 32-bit fields. */
  ghost predicate Packs(a: Scheme, nCheckpoint: nat, v: Values) {
    |v| == DENOMS
    && forall d :: 0 <= d < DENOMS ==> nCheckpoint / Pow2(224 - 32 * d) % 0x1_0000_0000 == a.checksum(v[d])
  }

  lemma {:induction false} PacksAll(a: Scheme, v: Values)
    requires |v| == DENOMS
    ensures Packs(a, Pack(Checksums(a, v)), v)
  {
    var c := Checksums(a, v);
    forall d | 0 <= d < DENOMS ensures Pack(c) / Pow2(224 - 32 * d) % 0x1_0000_0000 == a.checksum(v[d]) {
      ParseIs(Pack(c), d);
      ParsePack(c, d);
    }
  }

  /** Every accumulator holds exactly the mints of its denomination in the blocks below a height, in chain order. */
  ghost predicate HoldsMintsBelow(a: Scheme, chain: seq<Block>, start: nat, k: nat, v: Values)
    requires k <= |chain|
  {
    |v| == DENOMS
    && forall d :: 0 <= d < DENOMS ==>
         v[d] == Grown(a.increment, a.init, ValuesOf(MintsBetween(chain, start, 0, k), d))
  }

  lemma {:induction false} HoldsAll(a: Scheme, chain: seq<Block>, start: nat, k: nat)
    requires k <= |chain|
    ensures HoldsMintsBelow(a, chain, start, k, ValuesBelow(a, chain, start, k))
  {
    forall d | 0 <= d < DENOMS
      ensures ValuesBelow(a, chain, start, k)[d]
              == Grown(a.increment, a.init, ValuesOf(MintsBetween(chain, start, 0, k), d))
    {
      EachBelow(a, chain, start, k, d);
    }
  }

  /** The checkpoint that a block at height `h` must carry. */
  function CheckpointAt(a: Scheme, chain: seq<Block>, start: nat, h: nat): nat
    requires start >= 20 && h <= |chain|
    decreases h
  {
    if h < start then 0
    else if h % 10 != 0 || MintsBetween(chain, start, h - 20, h - 10) == [] then CheckpointAt(a, chain, start, h - 1)
    else Pack(Checksums(a, ValuesBelow(a, chain, start, h - 10)))
  }

  /** The blocks below this height are accumulated at height `h`. */
  function Due(h: nat): nat {
    if h < 10 then 0 else h / 10 * 10 - 10
  }

  /** A checkpoint stands for accumulators: it packs their checksums, or is 0 for the initial ones. */
  ghost predicate StandsFor(a: Scheme, checkpoint: nat, v: Values) {
    |v| == DENOMS && (checkpoint == Pack(Checksums(a, v)) || (checkpoint == 0 && v == Init(a)))
  }

  lemma {:induction false} MintsSplit(chain: seq<Block>, start: nat, lo: nat, mid: nat, hi: nat)
    requires lo <= mid <= hi <= |chain|
    ensures MintsBetween(chain, start, lo, hi)
            == MintsBetween(chain, start, lo, mid) + MintsBetween(chain, start, mid, hi)
    decreases hi
  {
    if mid < hi {
      MintsSplit(chain, start, lo, mid, hi - 1);
    }
  }

  lemma {:induction false} NoMintsBefore(chain: seq<Block>, start: nat, lo: nat, hi: nat)
    requires hi <= start && hi <= |chain|
    ensures MintsBetween(chain, start, lo, hi) == []
    decreases hi
  {
    if hi > lo { NoMintsBefore(chain, start, lo, hi - 1); }
  }

  /** The values after the blocks of one more window. */
  lemma {:induction false} ValuesMore(a: Scheme, chain: seq<Block>, start: nat, mid: nat, hi: nat)
    requires mid <= hi <= |chain|
    ensures var window := MintsBetween(chain, start, mid, hi);
            ValuesBelow(a, chain, start, hi) == AddTo(a, ValuesBelow(a, chain, start, mid), window, |window|)
  {
    MintsSplit(chain, start, 0, mid, hi);
    var window := MintsBetween(chain, start, mid, hi);
    AddMore(a, Init(a), MintsBetween(chain, start, 0, mid), window, |window|);
  }

  /** The mints of one block, of a block too low to be eligible, and of consecutive ranges. */
  lemma {:induction false} MintsInOrder(chain: seq<Block>, start: nat, lo: nat, mid: nat, hi: nat)
    requires lo <= mid < hi <= |chain|
    ensures MintsBetween(chain, start, lo, hi)
            == MintsBetween(chain, start, lo, mid)
               + (if mid >= start && chain[mid].mints.Some? then chain[mid].mints.value else [])
               + MintsBetween(chain, start, mid + 1, hi)
  {
    MintsSplit(chain, start, lo, mid + 1, hi);
  }

  /** Below a height, each accumulator has grown from its initial value by exactly the mints of its denomination. */
  lemma {:induction false} EachBelow(a: Scheme, chain: seq<Block>, start: nat, k: nat, d: nat)
    requires k <= |chain| && d < DENOMS
    ensures ValuesBelow(a, chain, start, k)[d]
            == Grown(a.increment, a.init, ValuesOf(MintsBetween(chain, start, 0, k), d))
  {
    var mints := MintsBetween(chain, start, 0, k);
    AddToEach(a, Init(a), mints, |mints|, d);
    assert mints[..|mints|] == mints;
  }

  /** At every height the checkpoint stands for the accumulators that hold exactly the mints that are due. */
  lemma {:induction false} CheckpointStands(a: Scheme, chain: seq<Block>, start: nat, h: nat)
    requires start >= 20 && h <= |chain|
    ensures StandsFor(a, CheckpointAt(a, chain, start, h), ValuesBelow(a, chain, start, Due(h)))
    decreases h
  {
    if h < start {
      NoMintsBefore(chain, start, 0, Due(h));
    } else if h % 10 != 0 {
      CheckpointStands(a, chain, start, h - 1);
      assert Due(h) == Due(h - 1);
    } else {
      CheckpointStands(a, chain, start, h - 1);
      assert Due(h) == h - 10 && Due(h - 1) == h - 20;
      ValuesMore(a, chain, start, h - 20, h - 10);
    }
  }

  // ---------------------------------------------------------------------------
  // AccumulatorMap
  // ---------------------------------------------------------------------------

  class AccumulatorMap {
    const a: Scheme
    var values: Values

    constructor (a: Scheme)
      ensures this.a == a && values == Init(a)
    {
      this.a := a;
      values := Init(a);
    }

    method Reset()
      modifies this
      ensures values == Init(a)
    {
      values := Init(a);
    }

    /** Load: from the database of values by checksum; stops at the first that is missing. */
    method Load(nCheckpoint: nat, db: map<nat, nat>) returns (ok: bool)
      requires |values| == DENOMS
      modifies this
      ensures |values| == DENOMS
      ensures ok <==> forall pos :: 0 <= pos < DENOMS ==> ParseChecksum(nCheckpoint, pos) in db
      ensures ok ==> forall pos :: 0 <= pos < DENOMS ==> values[pos] == db[ParseChecksum(nCheckpoint, pos)]
    {
      for denom := 0 to DENOMS
        invariant |values| == DENOMS
        invariant forall pos :: 0 <= pos < denom ==>
                    ParseChecksum(nCheckpoint, pos) in db && values[pos] == db[ParseChecksum(nCheckpoint, pos)]
      {
        var nChecksum := ParseChecksum(nCheckpoint, denom);
        if nChecksum !in db {
          return false;
        }
        values := values[denom := db[nChecksum]];
      }
      return true;
    }

    method Accumulate(pubCoin: Coin) returns (ok: bool)
      requires |values| == DENOMS && -1 <= pubCoin.denom < DENOMS
      modifies this
      ensures |values| == DENOMS && (ok <==> pubCoin.denom != -1)
      ensures forall d :: 0 <= d < DENOMS ==>
                values[d] == if d == pubCoin.denom then a.increment(old(values)[d], pubCoin.value) else old(values)[d]
      ensures ok == Known(pubCoin) && values == AddCoin(a, old(values), pubCoin)
    {
      if pubCoin.denom == -1 {
        return false;
      }
      values := values[pubCoin.denom := a.increment(values[pubCoin.denom], pubCoin.value)];
      return true;
    }

    /** GetCheckpoint: no bit is shifted out of the 256. */
    method GetCheckpoint() returns (nCheckpoint: nat)
      requires |values| == DENOMS
      ensures nCheckpoint == Pack(Checksums(a, values)) && Packs(a, nCheckpoint, values)
    {
      PacksAll(a, values);
      nCheckpoint := 0;
      for denom := 0 to DENOMS
        invariant nCheckpoint == PackTo(Checksums(a, values), denom)
      {
        var nCheckSum := a.checksum(values[denom]);
        PackBound(Checksums(a, values), denom);
        assert nCheckpoint < At(1, DENOMS - 1) by { AtGrows(denom, DENOMS - 1); }
        nCheckpoint := nCheckpoint * 0x1_0000_0000 + nCheckSum;
      }
    }

    /** Accumulates the mints of one block. */
    method AccumulateAll(mints: seq<Coin>) returns (ok: bool)
      requires |values| == DENOMS && forall i :: 0 <= i < |mints| ==> -1 <= mints[i].denom < DENOMS
      modifies this
      ensures |values| == DENOMS && (ok <==> forall i :: 0 <= i < |mints| ==> mints[i].denom != -1)
      ensures ok <==> AllKnown(mints)
      ensures ok ==> values == AddTo(a, old(values), mints, |mints|)
    {
      for i := 0 to |mints|
        invariant values == AddTo(a, old(values), mints, i)
        invariant forall j :: 0 <= j < i ==> Known(mints[j])
      {
        ok := Accumulate(mints[i]);
        if !ok {
          return;
        }
      }
      ok := true;
    }
  }

  lemma {:induction false} AtGrows(m: nat, n: nat)
    requires m <= n
    ensures At(1, m) <= At(1, n)
  {
    if m < n { AtGrows(m, n - 1); }
  }

  // ---------------------------------------------------------------------------
  // CalculateAccumulatorCheckpoint
  // ---------------------------------------------------------------------------

  /** Every block below a height carries its checkpoint. */
  ghost predicate Checkpointed(a: Scheme, chain: seq<Block>, start: nat, h: nat)
    requires start >= 20 && h <= |chain|
  {
    forall i :: 0 <= i < h ==> chain[i].checkpoint == CheckpointAt(a, chain, start, i)
  }

  /** Stored checksums identify values: a checksum of a checkpoint in use that is in the database has its value there,
      checksum 0 is not stored, and the checkpoint 0 is only that of the initial values. */
  ghost predicate Identified(a: Scheme, chain: seq<Block>, start: nat, h: nat, db: map<nat, nat>)
    requires start >= 20 && h <= |chain|
  {
    && 0 !in db
    && (var v := ValuesBelow(a, chain, start, Due(h));
        if CheckpointAt(a, chain, start, h) == 0 then v == Init(a)
        else forall i :: 0 <= i < DENOMS && a.checksum(v[i]) in db ==> db[a.checksum(v[i])] == v[i])
  }

  /** The database has all values of a block's checkpoint, or the checkpoint is 0. */
  ghost predicate Stored(a: Scheme, chain: seq<Block>, start: nat, h: nat, db: map<nat, nat>)
    requires start >= 20 && h <= |chain|
  {
    var v := ValuesBelow(a, chain, start, Due(h));
    CheckpointAt(a, chain, start, h) == 0 || forall i :: 0 <= i < DENOMS ==> a.checksum(v[i]) in db
  }

  /** The blocks of a window can be read, and all their mints have a denomination. */
  ghost predicate Readable(chain: seq<Block>, start: nat, lo: nat, hi: nat)
    requires hi <= |chain|
  {
    forall i :: lo <= i < hi && i >= start ==> chain[i].mints.Some? && AllKnown(chain[i].mints.value)
  }

  /** Denominations are those of the list, or ZQ_ERROR. */
  ghost predicate DenomsOk(chain: seq<Block>) {
    forall i :: 0 <= i < |chain| && chain[i].mints.Some? ==>
      forall j :: 0 <= j < |chain[i].mints.value| ==> -1 <= chain[i].mints.value[j].denom < DENOMS
  }

  /** Sets the accumulators to the last checkpoint. */
  method LoadLast(chain: seq<Block>, start: nat, h: nat, db: map<nat, nat>, m: AccumulatorMap) returns (ok: bool)
    requires start >= 20 && h < |chain| && chain[h].checkpoint == CheckpointAt(m.a, chain, start, h)
    requires Identified(m.a, chain, start, h, db)
    modifies m
    ensures ok <==> Stored(m.a, chain, start, h, db)
    ensures |m.values| == DENOMS && (ok ==> m.values == ValuesBelow(m.a, chain, start, Due(h)))
  {
    m.Reset();
    CheckpointStands(m.a, chain, start, h);
    var nCheckpoint := chain[h].checkpoint;
    LoadReads(m.a, ValuesBelow(m.a, chain, start, Due(h)), db, nCheckpoint);
    var loaded := m.Load(nCheckpoint, db);
    if !loaded {
      if nCheckpoint == 0 {
        m.Reset();
      } else {
        return false;
      }
    }
    assert nCheckpoint != 0 ==> m.values == ValuesBelow(m.a, chain, start, Due(h));
    ok := true;
  }

  /** Loading looks up the checksums of the values of a checkpoint that is not 0, and finds nothing for 0. */
  lemma {:induction false} LoadReads(a: Scheme, v: Values, db: map<nat, nat>, nCheckpoint: nat)
    requires StandsFor(a, nCheckpoint, v) && 0 !in db
    ensures nCheckpoint == 0 ==> ParseChecksum(nCheckpoint, 0) !in db
    ensures nCheckpoint != 0 ==>
              forall pos :: 0 <= pos < DENOMS ==> ParseChecksum(nCheckpoint, pos) == a.checksum(v[pos])
  {
    if nCheckpoint == 0 {
      ParseZero(0);
    } else {
      forall pos | 0 <= pos < DENOMS ensures ParseChecksum(nCheckpoint, pos) == a.checksum(v[pos]) {
        ParsePack(Checksums(a, v), pos);
      }
    }
  }

  lemma {:induction false} CheckpointNow(a: Scheme, chain: seq<Block>, start: nat, h: nat, last: nat, lo: nat, hi: nat)
    requires 20 <= start <= h <= |chain| && h % 10 == 0 && last == h - 1 && lo == h - 20 && hi == h - 10
    ensures CheckpointAt(a, chain, start, h) == if MintsBetween(chain, start, lo, hi) == []
              then CheckpointAt(a, chain, start, last) else Pack(Checksums(a, ValuesBelow(a, chain, start, hi)))
  {
  }

  /** The part of CalculateAccumulatorCheckpoint for every tenth height. */
  method CheckpointDue(nHeight: nat, last: nat, lo: nat, hi: nat, chain: seq<Block>, start: nat, db: map<nat, nat>,
                       shutdown: bool, m: AccumulatorMap) returns (ok: bool, nCheckpoint: nat)
    requires 20 <= start <= nHeight <= |chain| && DenomsOk(chain) && nHeight % 10 == 0
    requires last == nHeight - 1 && lo == nHeight - 20 && hi == nHeight - 10 && Due(last) == lo
    requires chain[last].checkpoint == CheckpointAt(m.a, chain, start, last) && Identified(m.a, chain, start, last, db)
    modifies m
    ensures ok <==> Stored(m.a, chain, start, last, db) && !shutdown && Readable(chain, start, lo, hi)
    ensures ok ==> nCheckpoint == CheckpointAt(m.a, chain, start, nHeight)
    ensures ok ==> m.values == ValuesBelow(m.a, chain, start, hi)
    ensures ok ==> if MintsBetween(chain, start, lo, hi) == [] then nCheckpoint == chain[last].checkpoint
                   else Packs(m.a, nCheckpoint, m.values)
  {
    ok := LoadLast(chain, start, last, db, m);
    if !ok {
      return false, 0;
    }
    var nTotalMintsFound;
    ok, nTotalMintsFound := AccumulateWindow(chain, start, lo, hi, shutdown, m);
    if !ok {
      return false, 0;
    }
    ValuesMore(m.a, chain, start, lo, hi);
    CheckpointNow(m.a, chain, start, nHeight, last, lo, hi);
    if nTotalMintsFound == 0 {
      nCheckpoint := chain[last].checkpoint;
    } else {
      nCheckpoint := m.GetCheckpoint();
    }
  }

  /** CalculateAccumulatorCheckpoint; `shutdown` says whether a shutdown is requested. On a chain whose blocks carry
      their checkpoints it succeeds exactly when the last checkpoint is stored, the window can be read and all mints
      are known, and then the accumulators hold every eligible mint of the blocks up to height - 11, exactly once. */
  method CalculateAccumulatorCheckpoint(nHeight: nat, chain: seq<Block>, start: nat, db: map<nat, nat>, shutdown: bool,
                                        m: AccumulatorMap) returns (ok: bool, nCheckpoint: nat)
    requires start >= 20 && nHeight <= |chain| && DenomsOk(chain) && Checkpointed(m.a, chain, start, nHeight)
    requires nHeight > 0 ==> Identified(m.a, chain, start, nHeight - 1, db)
    modifies m
    ensures ok ==> nCheckpoint == CheckpointAt(m.a, chain, start, nHeight)
    ensures nHeight < start ==> nCheckpoint == 0
    ensures nHeight >= start && nHeight % 10 != 0 ==> nCheckpoint == chain[nHeight - 1].checkpoint
    ensures nHeight >= start && nHeight % 10 == 0 && ok ==>
              && HoldsMintsBelow(m.a, chain, start, nHeight - 10, m.values)
              && if MintsBetween(chain, start, nHeight - 20, nHeight - 10) == []
                 then nCheckpoint == chain[nHeight - 1].checkpoint else Packs(m.a, nCheckpoint, m.values)
    ensures nHeight >= start && nHeight % 10 == 0 ==>
              && (ok <==> Stored(m.a, chain, start, nHeight - 1, db) && !shutdown
                          && Readable(chain, start, nHeight - 20, nHeight - 10))
              && (ok ==> m.values == ValuesBelow(m.a, chain, start, nHeight - 10))
    ensures nHeight < start || nHeight % 10 != 0 ==> ok
  {
    if nHeight < start {
      return true, 0;
    }
    if nHeight % 10 != 0 {
      return true, chain[nHeight - 1].checkpoint;
    }
    assert Due(nHeight - 1) == nHeight - 20;
    HoldsAll(m.a, chain, start, nHeight - 10);
    ok, nCheckpoint :=
      CheckpointDue(nHeight, nHeight - 1, nHeight - 20, nHeight - 10, chain, start, db, shutdown, m);
  }

  lemma {:induction false} WindowGrows(a: Scheme, v: Values, chain: seq<Block>, start: nat, lo: nat, height: nat,
                                       next: nat, mints: seq<Coin>)
    requires lo <= height && next == height + 1 <= |chain| && start <= height && |v| == DENOMS
    requires chain[height].mints == Some(mints)
    ensures var before, after := MintsBetween(chain, start, lo, height), MintsBetween(chain, start, lo, next);
            && |after| == |before| + |mints|
            && AddTo(a, v, after, |after|) == AddTo(a, AddTo(a, v, before, |before|), mints, |mints|)
  {
    AddMore(a, v, MintsBetween(chain, start, lo, height), mints, |mints|);
    assert MintsBetween(chain, start, lo, next) == MintsBetween(chain, start, lo, height) + mints;
  }

  /** The blocks of a window below `height` have been accumulated on top of `v0`. */
  ghost predicate Accumulated(a: Scheme, v0: Values, v: Values, found: nat, chain: seq<Block>, start: nat, lo: nat,
                              height: nat)
    requires |v0| == DENOMS && height <= |chain|
  {
    var window := MintsBetween(chain, start, lo, height);
    found == |window| && v == AddTo(a, v0, window, |window|)
  }

  /** One block of a window. */
  method AccumulateBlock(chain: seq<Block>, start: nat, lo: nat, height: nat, next: nat, found0: nat,
                         m: AccumulatorMap, ghost v0: Values) returns (ok: bool, found: nat)
    requires lo <= height < |chain| && next == height + 1 && DenomsOk(chain) && |m.values| == DENOMS == |v0|
    requires Accumulated(m.a, v0, m.values, found0, chain, start, lo, height)
    modifies m
    ensures ok <==> Readable(chain, start, height, next)
    ensures ok ==> |m.values| == DENOMS && Accumulated(m.a, v0, m.values, found, chain, start, lo, next)
  {
    ok, found := true, found0;
    if height >= start {
      if chain[height].mints.None? {
        return false, found;
      }
      var listPubcoins := chain[height].mints.value;
      found := found + |listPubcoins|;
      ok := m.AccumulateAll(listPubcoins);
      WindowGrows(m.a, v0, chain, start, lo, height, next, listPubcoins);
    } else {
      assert MintsBetween(chain, start, lo, next) == MintsBetween(chain, start, lo, height);
    }
  }

  /** The loop over the blocks of a window. */
  method AccumulateWindow(chain: seq<Block>, start: nat, lo: nat, hi: nat, shutdown: bool, m: AccumulatorMap)
    returns (ok: bool, nTotalMintsFound: nat)
    requires lo < hi <= |chain| && DenomsOk(chain) && |m.values| == DENOMS
    modifies m
    ensures ok <==> !shutdown && Readable(chain, start, lo, hi)
    ensures ok ==> Accumulated(m.a, old(m.values), m.values, nTotalMintsFound, chain, start, lo, hi)
  {
    nTotalMintsFound := 0;
    ghost var v0 := m.values;
    var height := lo;
    while height < hi
      invariant lo <= height <= hi && Readable(chain, start, lo, height) && (height > lo ==> !shutdown)
      invariant |m.values| == DENOMS && Accumulated(m.a, v0, m.values, nTotalMintsFound, chain, start, lo, height)
    {
      if shutdown {
        return false, nTotalMintsFound;
      }
      ok, nTotalMintsFound := AccumulateBlock(chain, start, lo, height, height + 1, nTotalMintsFound, m, v0);
      if !ok {
        return false, nTotalMintsFound;
      }
      height := height + 1;
    }
    ok := true;
  }

  /** ValidateAccumulatorCheckpoint of a block on top of `chain`. */
  method ValidateAccumulatorCheckpoint(checkpoint: nat, chain: seq<Block>, start: nat, db: map<nat, nat>,
                                       shutdown: bool, m: AccumulatorMap) returns (ok: bool)
    requires start >= 20 && |chain| > 0 && DenomsOk(chain) && Checkpointed(m.a, chain, start, |chain|)
    requires Identified(m.a, chain, start, |chain| - 1, db)
    modifies m
    ensures ok <==> checkpoint == CheckpointAt(m.a, chain, start, |chain|)
                    && (|chain| % 10 != 0 || |chain| < start
                        || (Stored(m.a, chain, start, |chain| - 1, db) && !shutdown
                            && Readable(chain, start, |chain| - 20, |chain| - 10)))
  {
    if |chain| >= start && |chain| % 10 == 0 {
      var calculated, nCheckpointCalculated :=
        CalculateAccumulatorCheckpoint(|chain|, chain, start, db, shutdown, m);
      return calculated && nCheckpointCalculated == checkpoint;
    }
    SameBelowStart(m.a, chain, start, |chain|);
    return checkpoint == chain[|chain| - 1].checkpoint;
  }

  lemma {:induction false} SameBelowStart(a: Scheme, chain: seq<Block>, start: nat, h: nat)
    requires start >= 20 && 0 < h <= |chain| && (h < start || h % 10 != 0)
    ensures CheckpointAt(a, chain, start, h) == CheckpointAt(a, chain, start, h - 1)
  {
  }

  /** A block that is validated can be added: the chain stays checkpointed. */
  lemma {:induction false} ValidatedExtends(a: Scheme, chain: seq<Block>, start: nat, b: Block)
    requires start >= 20 && Checkpointed(a, chain, start, |chain|)
    requires b.checkpoint == CheckpointAt(a, chain, start, |chain|)
    ensures Checkpointed(a, chain + [b], start, |chain| + 1)
  {
    forall i | 0 <= i < |chain| + 1
      ensures (chain + [b])[i].checkpoint == CheckpointAt(a, chain + [b], start, i)
    {
      CheckpointOfPrefix(a, chain, chain + [b], start, i);
    }
  }

  /** A checkpoint depends on the blocks below it only. */
  lemma {:induction false} CheckpointOfPrefix(a: Scheme, chain: seq<Block>, longer: seq<Block>, start: nat, h: nat)
    requires start >= 20 && h <= |chain| <= |longer| && forall i :: 0 <= i < |chain| ==> longer[i] == chain[i]
    ensures CheckpointAt(a, chain, start, h) == CheckpointAt(a, longer, start, h)
    decreases h
  {
    if h >= start {
      MintsOfPrefix(chain, longer, start, h - 20, h - 10);
      MintsOfPrefix(chain, longer, start, 0, h - 10);
      CheckpointOfPrefix(a, chain, longer, start, h - 1);
    }
  }

  lemma {:induction false} MintsOfPrefix(chain: seq<Block>, longer: seq<Block>, start: nat, lo: nat, hi: nat)
    requires hi <= |chain| <= |longer| && forall i :: 0 <= i < |chain| ==> longer[i] == chain[i]
    ensures MintsBetween(chain, start, lo, hi) == MintsBetween(longer, start, lo, hi)
    decreases hi
  {
    if hi > lo { MintsOfPrefix(chain, longer, start, lo, hi - 1); }
  }
}
