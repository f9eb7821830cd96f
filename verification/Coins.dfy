/** Coins left unspent by one transaction: CCoins and CTxInUndo. */
module Coins {

  type uint8 = x: int | 0 <= x < 256

  datatype Option<+T> = None | Some(value: T)

  /** A transaction id (uint256); only equality matters. */
  type Txid = nat

  const OP_RETURN: uint8 := 0x6a
  const MAX_SCRIPT_SIZE: nat := 10000

  predicate IsUnspendable(script: seq<uint8>) {
    (|script| > 0 && script[0] == OP_RETURN) || |script| > MAX_SCRIPT_SIZE
  }

  /** CTxOut. `Null` is the output whose nValue is -1. */
  datatype TxOut = Null | Out(nValue: nat, scriptPubKey: seq<uint8>)

  predicate AllNull(vout: seq<TxOut>) {
    forall i :: 0 <= i < |vout| ==> vout[i].Null?
  }

  /** The outputs without the nulls at the end. */
  function TrimNulls(vout: seq<TxOut>): (r: seq<TxOut>)
    ensures r <= vout
    ensures AllNull(vout[|r|..])
    ensures r == [] || !r[|r| - 1].Null?
  {
    if |vout| > 0 && vout[|vout| - 1].Null? then TrimNulls(vout[..|vout| - 1]) else vout
  }

  /** CTxInUndo: the spent output and, for the last output of a transaction, its metadata. */
  datatype TxInUndo = TxInUndo(txout: TxOut, fCoinBase: bool, fCoinStake: bool, nHeight: nat, nVersion: int)

  datatype Coins = Coins(fCoinBase: bool, fCoinStake: bool, vout: seq<TxOut>, nHeight: nat, nVersion: int)
  {
    predicate IsPruned() { AllNull(vout) }

    /** No null output at the end. */
    predicate Clean() { vout == [] || !vout[|vout| - 1].Null? }

    function Cleanup(): Coins { this.(vout := TrimNulls(vout)) }

    /** What a view says about these coins: pruned coins and missing coins are the same thing. */
    function Norm(): Option<Coins> { if IsPruned() then None else Some(Cleanup()) }

    /** operator==: pruned coins are all equal. */
    predicate SameCoins(that: Coins) {
      (IsPruned() && that.IsPruned()) || this == that
    }

    /** CCoins::Spend: the new coins and the undo record, or None when the output is not there. */
    function Spend(n: nat): Option<(Coins, TxInUndo)> {
      if n >= |vout| || vout[n].Null? then None
      else
        var rest := this.(vout := TrimNulls(vout[n := Null]));
        Some((rest,
              if rest.vout == []
              then TxInUndo(vout[n], fCoinBase, fCoinStake, nHeight, nVersion)
              else TxInUndo(vout[n], false, false, 0, 0)))
    }

    /** What disconnecting a block does to restore one spent output. */
    function Restore(n: nat, undo: TxInUndo): Coins {
      var c := if undo.nHeight != 0
               then Cleared.(fCoinBase := undo.fCoinBase, nHeight := undo.nHeight, nVersion := undo.nVersion)
               else this;
      c.(vout := PadNulls(c.vout, n + 1)[n := undo.txout])
    }
  }

  const Cleared := Coins(false, false, [], 0, 0)

  function PadNulls(vout: seq<TxOut>, n: nat): (r: seq<TxOut>)
    ensures |r| >= n && vout <= r
    ensures AllNull(r[|vout|..])
    ensures |vout| >= n ==> r == vout
    ensures |vout| < n ==> |r| == n
  {
    if |vout| >= n then vout else vout + seq(n - |vout|, _ => Null)
  }

  /** CCoins::Cleanup pops null outputs off the end one at a time. */
  method CleanupInPlace(voutIn: seq<TxOut>) returns (vout: seq<TxOut>)
    ensures vout == TrimNulls(voutIn)
  {
    vout := voutIn;
    while |vout| > 0 && vout[|vout| - 1].Null?
      invariant TrimNulls(vout) == TrimNulls(voutIn)
      decreases |vout|
    {
      vout := vout[..|vout| - 1];
    }
  }

  /** ClearUnspendable, before its Cleanup: unspendable outputs become null. */
  function ClearUnspendable(vout: seq<TxOut>): (r: seq<TxOut>)
    ensures |r| == |vout|
  {
    seq(|vout|, i requires 0 <= i < |vout| =>
      if vout[i].Out? && IsUnspendable(vout[i].scriptPubKey) then Null else vout[i])
  }

  /** Trimming keeps exactly the outputs that are not null, at their own indices, and nothing shorter does. */
  lemma {:induction false} TrimNullsUnique(vout: seq<TxOut>, r: seq<TxOut>)
    requires r <= vout && AllNull(vout[|r|..]) && (r == [] || !r[|r| - 1].Null?)
    ensures r == TrimNulls(vout)
  {
  }

  lemma {:induction false} PrunedIffTrimmedEmpty(vout: seq<TxOut>)
    ensures AllNull(vout) <==> TrimNulls(vout) == []
  {
    var t := TrimNulls(vout);
    if t == [] {
      assert vout[|t|..] == vout;
    } else {
      assert vout[|t| - 1] == t[|t| - 1];
    }
  }

  lemma {:induction false} CleanIffFixed(c: Coins)
    ensures c.Clean() <==> c.Cleanup() == c
    ensures c.Cleanup().Clean() && c.Cleanup().Norm() == c.Norm()
    ensures c.Clean() ==> (c.IsPruned() <==> c.vout == [])
  {
    PrunedIffTrimmedEmpty(c.vout);
    PrunedIffTrimmedEmpty(c.Cleanup().vout);
    var t := TrimNulls(c.vout);
    assert TrimNulls(t) == t;
  }

  // ---------------------------------------------------------------------------
  // Spending an output and restoring it
  // ---------------------------------------------------------------------------

  lemma {:induction false} PadTrim(vout: seq<TxOut>, n: nat, out: TxOut)
    requires n < |vout| && vout[n] == out && !out.Null?
    requires !vout[|vout| - 1].Null?
    ensures PadNulls(TrimNulls(vout[n := Null]), n + 1)[n := out] == vout
  {
    var spent := vout[n := Null];
    var t := TrimNulls(spent);
    var p := PadNulls(t, n + 1);
    if n < |vout| - 1 {
      TrimNullsUnique(spent, spent);
      assert p == spent;
    } else {
      assert spent[n].Null?;
      forall i | 0 <= i < n ensures p[i] == vout[i] {
        if i < |t| {
          assert p[i] == t[i] == spent[i];
        } else {
          assert spent[|t|..][i - |t|] == spent[i];
          assert p[|t|..][i - |t|] == p[i];
        }
      }
    }
  }

  /** Spending output n of clean coins and restoring it gives the coins back, whatever pruned coins stand
      in for coins that spending removed; only the coinstake mark of a transaction spent to the last output is lost. */
  lemma {:induction false} SpendThenRestore(c: Coins, n: nat, found: Coins)
    requires c.Clean() && c.nHeight != 0 && c.Spend(n).Some?
    requires c.Spend(n).value.0.SameCoins(found)
    ensures found.Restore(n, c.Spend(n).value.1)
         == (if c.Spend(n).value.0.IsPruned() then c.(fCoinStake := false) else c)
  {
    var (rest, undo) := c.Spend(n).value;
    PrunedIffTrimmedEmpty(rest.vout);
    assert rest.Clean();
    CleanIffFixed(rest);
    PadTrim(c.vout, n, c.vout[n]);
    if rest.vout == [] {
      assert undo.nHeight != 0;
    } else {
      assert found == rest;
    }
  }

  /** The same when some other coinstake mark is already gone from what is left. */
  lemma {:induction false} SpendThenRestoreUnmarked(c: Coins, n: nat)
    requires c.Clean() && c.nHeight != 0 && c.Spend(n).Some? && c.Spend(n).value.0.vout != []
    ensures c.Spend(n).value.0.(fCoinStake := false).Restore(n, c.Spend(n).value.1) == c.(fCoinStake := false)
  {
    PrunedIffTrimmedEmpty(c.Spend(n).value.0.vout);
    SpendThenRestore(c, n, c.Spend(n).value.0);
  }

  /** Restoring what was spent gives the same coins exactly when the transaction was not a coinstake
      that lost its last output. */
  lemma {:induction false} SpendThenRestoreExact(c: Coins, n: nat)
    requires c.Clean() && c.nHeight != 0 && c.Spend(n).Some?
    ensures c.Spend(n).value.0.Restore(n, c.Spend(n).value.1) == c
       <==> !(c.fCoinStake && c.Spend(n).value.0.IsPruned())
  {
    SpendThenRestore(c, n, c.Spend(n).value.0);
  }

  /** A coinstake with one output comes back without its coinstake mark. */
  lemma {:induction false} CoinStakeMarkLost()
    ensures var c := Coins(false, true, [Out(0, [])], 7, 1);
            c.Spend(0).Some? && c.Spend(0).value.0.Restore(0, c.Spend(0).value.1) == c.(fCoinStake := false) != c
  {
    var c := Coins(false, true, [Out(0, [])], 7, 1);
    assert c.vout[0 := Null] == [Null];
    SpendThenRestore(c, 0, c.Spend(0).value.0);
    PrunedIffTrimmedEmpty([Null]);
  }
}
