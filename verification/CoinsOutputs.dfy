/** What connecting and disconnecting a transaction do, output by output. */
module CoinsOutputs {
  import opened Coins
  import opened CoinsCache
  import opened CoinsUndo

  /** The unspent output at a place; `Null` if there is none. */
  function OutputAt(v: Utxo, out: OutPoint): TxOut {
    if out.hash in v && out.n < |v[out.hash].vout| then v[out.hash].vout[out.n] else Null
  }

  /** Flags, height and version of coins are the same. */
  predicate SameMeta(c: Coins, d: Coins) {
    c.fCoinBase == d.fCoinBase && c.fCoinStake == d.fCoinStake && c.nHeight == d.nHeight && c.nVersion == d.nVersion
  }

  ghost predicate HasOutputs(v: Utxo, t: Txid) {
    exists n: nat :: OutputAt(v, OutPoint(t, n)).Out?
  }

  // ---------------------------------------------------------------------------
  // Connecting
  // ---------------------------------------------------------------------------

  /** Every output of `t` is among those spent. */
  ghost predicate Emptied(v: Utxo, vin: seq<OutPoint>, t: Txid) {
    forall n: nat :: OutputAt(v, OutPoint(t, n)).Out? ==> OutPoint(t, n) in vin
  }

  /** The inputs are unspent outputs, each named once. */
  predicate Spendable(v: Utxo, vin: seq<OutPoint>) {
    && (forall i :: 0 <= i < |vin| ==> OutputAt(v, vin[i]).Out?)
    && (forall i, j :: 0 <= i < j < |vin| ==> vin[i] != vin[j])
  }

  /** The record of the `i`-th input: its output, and the metadata of the transaction if nothing is left of it. */
  ghost predicate RecordIs(v: Utxo, vin: seq<OutPoint>, i: nat, undo: TxInUndo)
    requires i < |vin| && vin[i].hash in v
  {
    var c := v[vin[i].hash];
    undo == if Emptied(v, vin[..i + 1], vin[i].hash)
            then TxInUndo(OutputAt(v, vin[i]), c.fCoinBase, c.fCoinStake, c.nHeight, c.nVersion)
            else TxInUndo(OutputAt(v, vin[i]), false, false, 0, 0)
  }

  ghost predicate RecordsAre(v: Utxo, vin: seq<OutPoint>, undos: seq<TxInUndo>) {
    |undos| == |vin| && forall i :: 0 <= i < |vin| ==> vin[i].hash in v && RecordIs(v, vin, i, undos[i])
  }

  /** A transaction whose outputs are not spent is untouched, one with all outputs spent is gone, and any other keeps
      its flags, height and version. */
  ghost predicate EntryAfter(v0: Utxo, vin: seq<OutPoint>, v1: Utxo, t: Txid) {
    if forall i :: 0 <= i < |vin| ==> vin[i].hash != t then Look(v1, t) == Look(v0, t)
    else if Emptied(v0, vin, t) then t !in v1
    else t in v0 && t in v1 && v1[t].Clean() && SameMeta(v1[t], v0[t])
  }

  /** `v1` is `v0` with exactly the inputs spent, and the records say what they were. */
  ghost predicate InputsSpent(v0: Utxo, vin: seq<OutPoint>, v1: Utxo, undos: seq<TxInUndo>) {
    && Spendable(v0, vin)
    && RecordsAre(v0, vin, undos)
    && (forall out :: OutputAt(v1, out) == if out in vin then Null else OutputAt(v0, out))
    && (forall t :: EntryAfter(v0, vin, v1, t))
  }

  /** What a transaction adds to the view at one of its places: outputs that can never be spent are left out. */
  function OutputOf(tx: Tx, j: nat): TxOut {
    if j < |tx.vout| && tx.vout[j].Out? && |tx.vout[j].scriptPubKey| <= MAX_SCRIPT_SIZE
       && (tx.vout[j].scriptPubKey == [] || tx.vout[j].scriptPubKey[0] != OP_RETURN)
    then tx.vout[j] else Null
  }

  /** The inputs that connecting a transaction spends: none of a coinbase or a zerocoin spend. */
  function Inputs(tx: Tx): seq<OutPoint> {
    if tx.isCoinBase || tx.hasZerocoinSpend then [] else tx.vin
  }

  /** The transaction's own entry: its outputs, if it has any that can be spent, under its own metadata. */
  ghost predicate OutputsAdded(tx: Tx, nHeight: nat, v1: Utxo) {
    && (forall j: nat :: OutputAt(v1, OutPoint(tx.hash, j)) == OutputOf(tx, j))
    && (tx.hash in v1 <==> exists j: nat :: OutputOf(tx, j).Out?)
    && (tx.hash in v1 ==>
          v1[tx.hash].Clean() && SameMeta(v1[tx.hash], Coins(tx.isCoinBase, tx.isCoinStake, [], nHeight, tx.nVersion)))
  }

  /** `v1` is `v0` with the transaction connected: its inputs are spent, its outputs are there, and nothing else has
      changed. */
  ghost predicate Connected(v0: Utxo, tx: Tx, nHeight: nat, v1: Utxo, undos: seq<TxInUndo>) {
    && Spendable(v0, Inputs(tx))
    && RecordsAre(v0, Inputs(tx), undos)
    && (forall out: OutPoint :: out.hash != tx.hash ==>
          OutputAt(v1, out) == if out in Inputs(tx) then Null else OutputAt(v0, out))
    && (forall t :: t != tx.hash ==> EntryAfter(v0, Inputs(tx), v1, t))
    && OutputsAdded(tx, nHeight, v1)
  }

  // ---------------------------------------------------------------------------
  // One input
  // ---------------------------------------------------------------------------

  /** Trimming changes no output. */
  lemma {:induction false} PutOutputs(v: Utxo, t: Txid, c: Coins)
    ensures forall out: OutPoint :: OutputAt(Put(v, t, c), out)
              == if out.hash != t then OutputAt(v, out) else if out.n < |c.vout| then c.vout[out.n] else Null
  {
    var r := TrimNulls(c.vout);
    forall n: nat | |r| <= n < |c.vout| ensures c.vout[n].Null? {
      assert c.vout[|r|..][n - |r|] == c.vout[n];
    }
  }

  lemma {:induction false} PutEntry(v: Utxo, t: Txid, c: Coins)
    ensures forall u :: u != t ==> Look(Put(v, t, c), u) == Look(v, u)
    ensures t in Put(v, t, c) <==> exists n :: 0 <= n < |c.vout| && c.vout[n].Out?
    ensures t in Put(v, t, c) ==> Put(v, t, c)[t].Clean() && SameMeta(Put(v, t, c)[t], c)
  {
    CleanIffFixed(c);
    if !c.IsPruned() {
      var n :| 0 <= n < |c.vout| && !c.vout[n].Null?;
      assert c.vout[n].Out?;
    }
  }

  lemma {:induction false} PutTrimmed(v: Utxo, t: Txid, c: Coins)
    ensures Put(v, t, c.Cleanup()) == Put(v, t, c)
  {
    CleanIffFixed(c);
    CleanIffFixed(c.Cleanup());
  }

  /** Whether an output can be spent is whether it is there. */
  lemma {:induction false} SpendIs(v: Utxo, out: OutPoint)
    ensures Found(v, out.hash).Spend(out.n).Some? <==> OutputAt(v, out).Out?
  {
  }

  /** No other output of the transaction is there. */
  ghost predicate Alone(v: Utxo, out: OutPoint) {
    forall n: nat :: n != out.n ==> OutputAt(v, OutPoint(out.hash, n)).Null?
  }

  lemma {:induction false} AloneIff(v: Utxo, out: OutPoint, left: seq<TxOut>)
    requires out.hash in v && out.n < |v[out.hash].vout| && left == v[out.hash].vout[out.n := Null]
    ensures Alone(v, out) <==> AllNull(left)
  {
    if Alone(v, out) {
      forall n | 0 <= n < |left| ensures left[n].Null? {
        assert n != out.n ==> OutputAt(v, OutPoint(out.hash, n)).Null?;
      }
    } else {
      var n: nat :| n != out.n && !OutputAt(v, OutPoint(out.hash, n)).Null?;
      assert !left[n].Null?;
    }
  }

  lemma {:induction false} SpendParts(v: Utxo, out: OutPoint, rest: Coins, undo: TxInUndo) returns (left: Coins)
    requires Found(v, out.hash).Spend(out.n) == Some((rest, undo))
    ensures out.hash in v && out.n < |v[out.hash].vout| && v[out.hash].vout[out.n].Out?
    ensures left == v[out.hash].(vout := v[out.hash].vout[out.n := Null]) && rest == left.Cleanup()
    ensures Put(v, out.hash, rest) == Put(v, out.hash, left)
    ensures AllNull(left.vout) <==> rest.vout == []
  {
    left := v[out.hash].(vout := v[out.hash].vout[out.n := Null]);
    PrunedIffTrimmedEmpty(left.vout);
    PutTrimmed(v, out.hash, left);
  }

  /** Spending one output: the outputs after it. */
  lemma {:induction false} SpendOutputs(v: Utxo, out: OutPoint, rest: Coins, undo: TxInUndo)
    requires Found(v, out.hash).Spend(out.n) == Some((rest, undo))
    ensures OutputAt(v, out).Out?
    ensures forall o :: OutputAt(Put(v, out.hash, rest), o) == if o == out then Null else OutputAt(v, o)
  {
    var left := SpendParts(v, out, rest, undo);
    PutOutputs(v, out.hash, left);
  }

  /** Spending one output: the entries after it. */
  lemma {:induction false} SpendEntry(v: Utxo, out: OutPoint, rest: Coins, undo: TxInUndo)
    requires Found(v, out.hash).Spend(out.n) == Some((rest, undo))
    ensures var v1 := Put(v, out.hash, rest);
            && (forall u :: u != out.hash ==> Look(v1, u) == Look(v, u))
            && out.hash in v && (out.hash in v1 <==> !Alone(v, out))
            && (out.hash in v1 ==> v1[out.hash].Clean() && SameMeta(v1[out.hash], v[out.hash]))
  {
    var left := SpendParts(v, out, rest, undo);
    AloneIff(v, out, left.vout);
    PutEntry(v, out.hash, left);
  }

  /** Spending one output: the record. */
  lemma {:induction false} SpendRecord(v: Utxo, out: OutPoint, rest: Coins, undo: TxInUndo)
    requires Found(v, out.hash).Spend(out.n) == Some((rest, undo))
    ensures out.hash in v
    ensures var c := v[out.hash];
            undo == if Alone(v, out)
                    then TxInUndo(OutputAt(v, out), c.fCoinBase, c.fCoinStake, c.nHeight, c.nVersion)
                    else TxInUndo(OutputAt(v, out), false, false, 0, 0)
  {
    var left := SpendParts(v, out, rest, undo);
    AloneIff(v, out, left.vout);
  }

  // ---------------------------------------------------------------------------
  // All inputs
  // ---------------------------------------------------------------------------

  /** One more input. */
  lemma {:induction false} SpentOutputs(v0: Utxo, low: seq<OutPoint>, v1: Utxo, out: OutPoint, v2: Utxo)
    requires forall o :: OutputAt(v1, o) == if o in low then Null else OutputAt(v0, o)
    requires forall o :: OutputAt(v2, o) == if o == out then Null else OutputAt(v1, o)
    ensures forall o :: OutputAt(v2, o) == if o in low + [out] then Null else OutputAt(v0, o)
  {
  }

  lemma {:induction false} SpentAlone(v0: Utxo, low: seq<OutPoint>, v1: Utxo, out: OutPoint)
    requires forall o :: OutputAt(v1, o) == if o in low then Null else OutputAt(v0, o)
    ensures Alone(v1, out) <==> Emptied(v0, low + [out], out.hash)
  {
    var vin := low + [out];
    if Alone(v1, out) {
      forall n: nat | OutputAt(v0, OutPoint(out.hash, n)).Out? ensures OutPoint(out.hash, n) in vin {
        assert n != out.n ==> OutputAt(v1, OutPoint(out.hash, n)).Null?;
        assert vin[|low|] == out;
        assert OutPoint(out.hash, n) in low ==> OutPoint(out.hash, n) in vin;
      }
    }
    if Emptied(v0, vin, out.hash) {
      forall n: nat | n != out.n ensures OutputAt(v1, OutPoint(out.hash, n)).Null? {
        assert OutputAt(v0, OutPoint(out.hash, n)).Out? ==> OutPoint(out.hash, n) in vin;
      }
    }
  }

  lemma {:induction false} EntryNext(v0: Utxo, low: seq<OutPoint>, v1: Utxo, out: OutPoint, v2: Utxo, t: Txid)
    requires EntryAfter(v0, low, v1, t)
    requires if t != out.hash then Look(v2, t) == Look(v1, t)
             else t in v1 && (t in v2 <==> !Emptied(v0, low + [out], t))
                  && (t in v2 ==> v2[t].Clean() && SameMeta(v2[t], v1[t]))
    ensures EntryAfter(v0, low + [out], v2, t)
  {
    var vin := low + [out];
    if t == out.hash {
      assert vin[|low|].hash == t;
    } else {
      assert forall i :: 0 <= i < |low| ==> vin[i] == low[i];
      assert Emptied(v0, vin, t) <==> Emptied(v0, low, t) by {
        forall n: nat ensures OutPoint(t, n) in vin <==> OutPoint(t, n) in low {
        }
      }
    }
  }

  lemma {:induction false} RecordNext(v0: Utxo, low: seq<OutPoint>, undos: seq<TxInUndo>, out: OutPoint, undo: TxInUndo)
    requires RecordsAre(v0, low, undos) && out.hash in v0 && RecordIs(v0, low + [out], |low|, undo)
    ensures RecordsAre(v0, low + [out], undos + [undo])
  {
    var vin := low + [out];
    forall i | 0 <= i < |vin| ensures vin[i].hash in v0 && RecordIs(v0, vin, i, (undos + [undo])[i]) {
      if i < |low| {
        assert vin[..i + 1] == low[..i + 1] && RecordIs(v0, low, i, undos[i]);
      }
    }
  }

  lemma {:induction false} SpentNext(v0: Utxo, low: seq<OutPoint>, v1: Utxo, undos: seq<TxInUndo>, out: OutPoint,
                                     rest: Coins, undo: TxInUndo)
    requires InputsSpent(v0, low, v1, undos) && Found(v1, out.hash).Spend(out.n) == Some((rest, undo))
    ensures InputsSpent(v0, low + [out], Put(v1, out.hash, rest), undos + [undo])
  {
    var v2, vin := Put(v1, out.hash, rest), low + [out];
    SpendOutputs(v1, out, rest, undo);
    SpendEntry(v1, out, rest, undo);
    SpendRecord(v1, out, rest, undo);
    SpentOutputs(v0, low, v1, out, v2);
    SpentAlone(v0, low, v1, out);
    assert EntryAfter(v0, low, v1, out.hash);
    assert vin[..|low| + 1] == vin;
    RecordNext(v0, low, undos, out, undo);
    forall t ensures EntryAfter(v0, vin, v2, t) {
      EntryNext(v0, low, v1, out, v2, t);
    }
    SpendableNext(v0, low, out);
  }

  /** Spending a list of inputs spends exactly these. */
  lemma {:induction false} SpendAllIs(v: Utxo, vin: seq<OutPoint>)
    ensures SpendAll(v, vin).Some? <==> Spendable(v, vin)
    ensures SpendAll(v, vin).Some? ==> InputsSpent(v, vin, SpendAll(v, vin).value.0, SpendAll(v, vin).value.1)
  {
    if vin != [] {
      var low, out := vin[..|vin| - 1], vin[|vin| - 1];
      assert vin == low + [out];
      SpendAllIs(v, low);
      assert Spendable(v, vin) ==> Spendable(v, low);
      if SpendAll(v, low).Some? {
        var v1, undos := SpendAll(v, low).value.0, SpendAll(v, low).value.1;
        SpendIs(v1, out);
        SpendableNext(v, low, out);
        if OutputAt(v1, out).Out? {
          var rest, undo := Found(v1, out.hash).Spend(out.n).value.0, Found(v1, out.hash).Spend(out.n).value.1;
          SpentNext(v, low, v1, undos, out, rest, undo);
        }
      }
    }
  }

  lemma {:induction false} SpendableNext(v: Utxo, low: seq<OutPoint>, out: OutPoint)
    requires Spendable(v, low)
    ensures Spendable(v, low + [out]) <==> OutputAt(v, out).Out? && out !in low
  {
    var vin := low + [out];
    assert vin[|low|] == out;
    assert forall i :: 0 <= i < |low| ==> vin[i] == low[i];
  }

  // ---------------------------------------------------------------------------
  // The whole transaction
  // ---------------------------------------------------------------------------

  lemma {:induction false} CreatedIs(tx: Tx, nHeight: nat, v: Utxo)
    ensures OutputsAdded(tx, nHeight, Put(v, tx.hash, tx.Created(nHeight)))
  {
    var cleared := ClearUnspendable(tx.vout);
    var c := Coins(tx.isCoinBase, tx.isCoinStake, cleared, nHeight, tx.nVersion);
    PutTrimmed(v, tx.hash, c);
    PutOutputs(v, tx.hash, c);
    PutEntry(v, tx.hash, c);
    forall j: nat ensures OutputAt(Put(v, tx.hash, c), OutPoint(tx.hash, j)) == OutputOf(tx, j) {
    }
    if n :| 0 <= n < |cleared| && cleared[n].Out? {
      assert OutputOf(tx, n).Out?;
    } else {
      forall j: nat ensures OutputOf(tx, j).Null? {
        assert j < |cleared| ==> !cleared[j].Out?;
      }
    }
  }

  /** Connecting a transaction is possible exactly when its inputs can be spent, and then does just that. */
  lemma {:induction false} ConnectIs(v: Utxo, tx: Tx, nHeight: nat)
    ensures Connect(v, tx, nHeight).Some? <==> Spendable(v, Inputs(tx))
    ensures Connect(v, tx, nHeight).Some? ==>
              Connected(v, tx, nHeight, Connect(v, tx, nHeight).value.0, Connect(v, tx, nHeight).value.1)
  {
    SpendAllIs(v, Inputs(tx));
    if Connect(v, tx, nHeight).Some? {
      var v1, undos := SpendInputs(v, tx).value.0, SpendInputs(v, tx).value.1;
      assert SpendAll(v, Inputs(tx)) == Some((v1, undos));
      OutputsConnected(v, tx, nHeight, v1, undos);
    }
  }

  lemma {:induction false} OutputsConnected(v0: Utxo, tx: Tx, nHeight: nat, v1: Utxo, undos: seq<TxInUndo>)
    requires InputsSpent(v0, Inputs(tx), v1, undos)
    ensures Connected(v0, tx, nHeight, Put(v1, tx.hash, tx.Created(nHeight)), undos)
  {
    var v2 := Put(v1, tx.hash, tx.Created(nHeight));
    CreatedIs(tx, nHeight, v1);
    PutOutputs(v1, tx.hash, tx.Created(nHeight));
    PutLook(v1, tx.hash, tx.Created(nHeight));
    forall t | t != tx.hash ensures EntryAfter(v0, Inputs(tx), v2, t) {
      assert EntryAfter(v0, Inputs(tx), v1, t) && Look(v2, t) == Look(v1, t);
    }
  }

  /** The description leaves nothing open: the map and the records are the only ones it fits. */
  lemma {:induction false} ConnectedUnique(v0: Utxo, tx: Tx, nHeight: nat, v1: Utxo, undos: seq<TxInUndo>)
    requires Connected(v0, tx, nHeight, v1, undos)
    ensures Connect(v0, tx, nHeight) == Some((v1, undos))
  {
    ConnectIs(v0, tx, nHeight);
    var w, records := Connect(v0, tx, nHeight).value.0, Connect(v0, tx, nHeight).value.1;
    forall t ensures Look(v1, t) == Look(w, t) {
      SameEntry(v0, tx, nHeight, v1, undos, w, records, t);
    }
    ViewsEqual(v1, w);
    forall i | 0 <= i < |undos| ensures undos[i] == records[i] {
      assert RecordIs(v0, Inputs(tx), i, undos[i]) && RecordIs(v0, Inputs(tx), i, records[i]);
    }
    assert undos == records;
  }

  lemma {:induction false} SameEntry(v0: Utxo, tx: Tx, nHeight: nat, v: Utxo, undos: seq<TxInUndo>, w: Utxo,
                                     records: seq<TxInUndo>, t: Txid)
    requires Connected(v0, tx, nHeight, v, undos) && Connected(v0, tx, nHeight, w, records)
    ensures Look(v, t) == Look(w, t)
  {
    forall n: nat ensures OutputAt(v, OutPoint(t, n)) == OutputAt(w, OutPoint(t, n)) {
      if t == tx.hash { assert OutputAt(v, OutPoint(t, n)) == OutputOf(tx, n); }
    }
    if t != tx.hash { assert EntryAfter(v0, Inputs(tx), v, t) && EntryAfter(v0, Inputs(tx), w, t); }
    if t in v && t in w && v[t].Clean() && w[t].Clean() { SameOutputs(v, w, t); }
  }

  lemma {:induction false} SameOutputs(v: Utxo, w: Utxo, t: Txid)
    requires t in v && t in w && v[t].Clean() && w[t].Clean()
    requires forall n: nat :: OutputAt(v, OutPoint(t, n)) == OutputAt(w, OutPoint(t, n))
    ensures v[t].vout == w[t].vout
  {
    NotLonger(v, w, t);
    NotLonger(w, v, t);
    forall n | 0 <= n < |v[t].vout| ensures v[t].vout[n] == w[t].vout[n] {
      assert OutputAt(v, OutPoint(t, n)) == OutputAt(w, OutPoint(t, n));
    }
  }

  lemma {:induction false} NotLonger(v: Utxo, w: Utxo, t: Txid)
    requires t in v && t in w && v[t].Clean()
    requires forall n: nat :: OutputAt(v, OutPoint(t, n)) == OutputAt(w, OutPoint(t, n))
    ensures |v[t].vout| <= |w[t].vout|
  {
    var n := |v[t].vout|;
    if n > 0 { assert OutputAt(v, OutPoint(t, n - 1)) == OutputAt(w, OutPoint(t, n - 1)); }
  }

  // ---------------------------------------------------------------------------
  // Disconnecting: when the undo data is found clean
  // ---------------------------------------------------------------------------

  /** A place counts as free when nothing is there, or a zerocoin mint. */
  predicate Free(o: TxOut) {
    o.Null? || (o.scriptPubKey != [] && o.scriptPubKey[0] == OP_ZEROCOINMINT)
  }

  /** A record fits if it carries metadata exactly when it is the first to be restored of a transaction without outputs,
      and its place is free, also of what has been restored before it. */
  ghost predicate RecordFits(v: Utxo, vin: seq<OutPoint>, undos: seq<TxInUndo>, i: nat)
    requires i < |vin| == |undos|
  {
    && (undos[i].nHeight != 0 <==>
          !HasOutputs(v, vin[i].hash) && forall j :: i < j < |vin| ==> vin[j].hash != vin[i].hash)
    && Free(OutputAt(v, vin[i]))
    && forall j :: i < j < |vin| && vin[j] == vin[i] ==> Free(undos[j].txout)
  }

  ghost predicate RecordsFit(v: Utxo, vin: seq<OutPoint>, undos: seq<TxInUndo>)
    requires |vin| == |undos|
  {
    forall i :: 0 <= i < |vin| ==> RecordFits(v, vin, undos, i)
  }

  /** Undo records hold the outputs that were spent. */
  predicate HoldOutputs(undos: seq<TxInUndo>) {
    forall i :: 0 <= i < |undos| ==> undos[i].txout.Out?
  }

  lemma {:induction false} PrunedIs(v: Utxo, t: Txid)
    ensures Found(v, t).IsPruned() <==> !HasOutputs(v, t)
  {
    var c := Found(v, t);
    if !c.IsPruned() {
      var n :| 0 <= n < |c.vout| && !c.vout[n].Null?;
      assert OutputAt(v, OutPoint(t, n)).Out?;
    }
  }

  lemma {:induction false} LastFits(v: Utxo, vin: seq<OutPoint>, undos: seq<TxInUndo>, i: nat)
    requires |vin| == |undos| == i + 1
    ensures UndoFits(Found(v, vin[i].hash), vin[i].n, undos[i]) <==> RecordFits(v, vin, undos, i)
  {
    PrunedIs(v, vin[i].hash);
    if UndoFits(Found(v, vin[i].hash), vin[i].n, undos[i]) && undos[i].nHeight != 0 {
      assert OutputAt(v, vin[i]).Null?;
    }
  }

  /** The outputs after one is restored. */
  lemma {:induction false} RestoreOutputs(v: Utxo, out: OutPoint, undo: TxInUndo)
    requires UndoFits(Found(v, out.hash), out.n, undo) && undo.txout.Out?
    ensures var v1 := Put(v, out.hash, Found(v, out.hash).Restore(out.n, undo));
            && (forall o :: OutputAt(v1, o) == if o == out then undo.txout else OutputAt(v, o))
            && HasOutputs(v1, out.hash)
  {
    var v1 := Put(v, out.hash, Found(v, out.hash).Restore(out.n, undo));
    forall o ensures OutputAt(v1, o) == if o == out then undo.txout else OutputAt(v, o) {
      RestoreAt(v, out, undo, v1, o);
    }
    assert OutputAt(v1, OutPoint(out.hash, out.n)).Out?;
  }

  lemma {:induction false} RestoreAt(v: Utxo, out: OutPoint, undo: TxInUndo, v1: Utxo, o: OutPoint)
    requires UndoFits(Found(v, out.hash), out.n, undo) && undo.txout.Out?
    requires v1 == Put(v, out.hash, Found(v, out.hash).Restore(out.n, undo))
    ensures OutputAt(v1, o) == if o == out then undo.txout else OutputAt(v, o)
  {
    var c := Found(v, out.hash);
    PutOutputs(v, out.hash, c.Restore(out.n, undo));
    if o.hash == out.hash { RestoredPlace(c, out.n, undo, o.n); }
  }

  lemma {:induction false} RestoredPlace(c: Coins, n: nat, undo: TxInUndo, m: nat)
    requires undo.nHeight != 0 ==> c.IsPruned()
    ensures var vout := c.Restore(n, undo).vout;
            (if m < |vout| then vout[m] else Null)
            == if m == n then undo.txout else if m < |c.vout| then c.vout[m] else Null
  {
    var low := if undo.nHeight != 0 then [] else c.vout;
    var p := PadNulls(low, n + 1);
    assert c.Restore(n, undo).vout == p[n := undo.txout];
    if |low| <= m < |p| {
      assert p[|low|..][m - |low|] == p[m];
    }
  }

  /** The other records fit before exactly when they do after the last one is restored. */
  lemma {:induction false} OthersFit(v: Utxo, v1: Utxo, vin: seq<OutPoint>, undos: seq<TxInUndo>, j: nat, i: nat)
    requires i < j && |vin| == |undos| == j + 1 && HoldOutputs(undos) && RecordFits(v, vin, undos, j)
    requires forall o :: OutputAt(v1, o) == if o == vin[j] then undos[j].txout else OutputAt(v, o)
    ensures RecordFits(v1, vin[..j], undos[..j], i) <==> RecordFits(v, vin, undos, i)
  {
    var t := vin[i].hash;
    if t == vin[j].hash {
      assert OutputAt(v1, OutPoint(t, vin[j].n)).Out?;
    } else {
      forall n: nat ensures OutputAt(v1, OutPoint(t, n)) == OutputAt(v, OutPoint(t, n)) {
      }
      assert HasOutputs(v1, t) <==> HasOutputs(v, t);
    }
    assert forall k :: 0 <= k < j ==> vin[..j][k] == vin[k] && undos[..j][k] == undos[k];
  }

  /** The undo loop finds its data clean exactly when every record fits. */
  lemma {:induction false} UndoAllClean(v: Utxo, vin: seq<OutPoint>, undos: seq<TxInUndo>)
    requires |vin| == |undos| && HoldOutputs(undos)
    ensures UndoAll(v, vin, undos).1 <==> RecordsFit(v, vin, undos)
    decreases |vin|
  {
    if vin != [] {
      var j := |vin| - 1;
      var v1 := Put(v, vin[j].hash, Found(v, vin[j].hash).Restore(vin[j].n, undos[j]));
      FirstUndone(v, v1, vin, undos, j);
      UndoAllClean(v1, vin[..j], undos[..j]);
      if RecordFits(v, vin, undos, j) { FirstFit(v, v1, vin, undos, j); }
    }
  }

  lemma {:induction false} FirstUndone(v: Utxo, v1: Utxo, vin: seq<OutPoint>, undos: seq<TxInUndo>, j: nat)
    requires |vin| == |undos| == j + 1 && HoldOutputs(undos)
    requires v1 == Put(v, vin[j].hash, Found(v, vin[j].hash).Restore(vin[j].n, undos[j]))
    ensures UndoAll(v, vin, undos).1 <==> RecordFits(v, vin, undos, j) && UndoAll(v1, vin[..j], undos[..j]).1
    ensures HoldOutputs(undos[..j])
  {
    LastFits(v, vin, undos, j);
  }

  lemma {:induction false} AllButLastFit(v: Utxo, v1: Utxo, vin: seq<OutPoint>, undos: seq<TxInUndo>, j: nat)
    requires |vin| == |undos| == j + 1 && HoldOutputs(undos) && RecordFits(v, vin, undos, j)
    requires forall o :: OutputAt(v1, o) == if o == vin[j] then undos[j].txout else OutputAt(v, o)
    ensures RecordsFit(v1, vin[..j], undos[..j]) <==> RecordsFit(v, vin, undos)
  {
    forall i | 0 <= i < j ensures RecordFits(v1, vin[..j], undos[..j], i) <==> RecordFits(v, vin, undos, i) {
      OthersFit(v, v1, vin, undos, j, i);
    }
  }

  lemma {:induction false} FirstFit(v: Utxo, v1: Utxo, vin: seq<OutPoint>, undos: seq<TxInUndo>, j: nat)
    requires |vin| == |undos| == j + 1 && HoldOutputs(undos) && RecordFits(v, vin, undos, j)
    requires v1 == Put(v, vin[j].hash, Found(v, vin[j].hash).Restore(vin[j].n, undos[j]))
    ensures RecordsFit(v1, vin[..j], undos[..j]) <==> RecordsFit(v, vin, undos)
  {
    LastFits(v, vin, undos, j);
    RestoreOutputs(v, vin[j], undos[j]);
    AllButLastFit(v, v1, vin, undos, j);
  }

  /** `w` is `v` with the outputs of the records in their places. */
  ghost predicate OutputsBack(v: Utxo, vin: seq<OutPoint>, undos: seq<TxInUndo>, w: Utxo)
    requires |vin| == |undos|
  {
    && (forall o :: o !in vin ==> OutputAt(w, o) == OutputAt(v, o))
    && (forall i :: 0 <= i < |vin| && vin[i] !in vin[..i] ==> OutputAt(w, vin[i]) == undos[i].txout)
  }

  lemma {:induction false} OutputsBackFirst(v: Utxo, v1: Utxo, vin: seq<OutPoint>, undos: seq<TxInUndo>, j: nat,
                                            w: Utxo)
    requires |vin| == |undos| == j + 1 && OutputsBack(v1, vin[..j], undos[..j], w)
    requires forall o :: OutputAt(v1, o) == if o == vin[j] then undos[j].txout else OutputAt(v, o)
    ensures OutputsBack(v, vin, undos, w)
  {
    forall i | 0 <= i < |vin| && vin[i] !in vin[..i] ensures OutputAt(w, vin[i]) == undos[i].txout {
      if i < j {
        assert vin[..j][i] == vin[i] && vin[..j][..i] == vin[..i] && undos[..j][i] == undos[i];
      }
    }
    forall o | o !in vin ensures OutputAt(w, o) == OutputAt(v, o) {
      assert o !in vin[..j] && o != vin[j];
    }
  }

  /** Clean undo data puts back the outputs it holds, and nothing else. */
  lemma {:induction false} UndoAllOutputs(v: Utxo, vin: seq<OutPoint>, undos: seq<TxInUndo>)
    requires |vin| == |undos| && HoldOutputs(undos) && RecordsFit(v, vin, undos)
    ensures OutputsBack(v, vin, undos, UndoAll(v, vin, undos).0)
    decreases |vin|
  {
    if vin != [] {
      var j := |vin| - 1;
      var v1 := Put(v, vin[j].hash, Found(v, vin[j].hash).Restore(vin[j].n, undos[j]));
      var w := UndoAll(v1, vin[..j], undos[..j]).0;
      assert UndoAll(v, vin, undos).0 == w;
      FirstFit(v, v1, vin, undos, j);
      RestoredFirst(v, v1, vin, undos, j);
      UndoAllOutputs(v1, vin[..j], undos[..j]);
      OutputsBackFirst(v, v1, vin, undos, j, w);
    }
  }

  lemma {:induction false} RestoredFirst(v: Utxo, v1: Utxo, vin: seq<OutPoint>, undos: seq<TxInUndo>, j: nat)
    requires |vin| == |undos| == j + 1 && HoldOutputs(undos) && RecordFits(v, vin, undos, j)
    requires v1 == Put(v, vin[j].hash, Found(v, vin[j].hash).Restore(vin[j].n, undos[j]))
    ensures forall o :: OutputAt(v1, o) == if o == vin[j] then undos[j].txout else OutputAt(v, o)
  {
    LastFits(v, vin, undos, j);
    RestoreOutputs(v, vin[j], undos[j]);
  }

  /** What is found of a transaction is what it added: the same outputs, leaving out those that can never be spent, and
      if there are any, the same flags and height, and version unless that is negative. */
  ghost predicate FoundAsAdded(found: Coins, tx: Tx, nHeight: nat) {
    && (forall j: nat :: OutputOf(tx.(vout := found.vout), j) == OutputOf(tx, j))
    && ((exists j: nat :: OutputOf(tx, j).Out?) ==>
          && found.fCoinBase == tx.isCoinBase && found.fCoinStake == tx.isCoinStake && found.nHeight == nHeight
          && (tx.nVersion < 0 || found.nVersion == tx.nVersion))
  }

  lemma {:induction false} OutputsMatchIs(found: Coins, tx: Tx, nHeight: nat)
    ensures OutputsMatch(found, tx.Created(nHeight)) <==> FoundAsAdded(found, tx, nHeight)
  {
    var a, b := TrimNulls(ClearUnspendable(found.vout)), TrimNulls(ClearUnspendable(tx.vout));
    AddedAre(found.vout, tx);
    AddedAre(tx.vout, tx);
    assert tx.(vout := tx.vout) == tx;
    PlacesEqual(a, b);
    PrunedIffTrimmedEmpty(ClearUnspendable(found.vout));
    PrunedIffTrimmedEmpty(ClearUnspendable(tx.vout));
    CleanIffFixed(tx.Created(nHeight));
    CleanIffFixed(found.(vout := a));
    if b != [] { assert Place(b, |b| - 1).Out?; }
  }

  function Place(vout: seq<TxOut>, j: nat): TxOut {
    if j < |vout| then vout[j] else Null
  }

  lemma {:induction false} AddedAre(vout: seq<TxOut>, tx: Tx)
    ensures forall j: nat :: Place(TrimNulls(ClearUnspendable(vout)), j) == OutputOf(tx.(vout := vout), j)
  {
    var cleared := ClearUnspendable(vout);
    var r := TrimNulls(cleared);
    forall j: nat ensures Place(r, j) == OutputOf(tx.(vout := vout), j) {
      if |r| <= j < |cleared| { assert cleared[|r|..][j - |r|] == cleared[j]; }
    }
  }

  /** Lists without nulls at the end are equal if they agree at every place. */
  lemma {:induction false} PlacesEqual(a: seq<TxOut>, b: seq<TxOut>)
    requires (a == [] || !a[|a| - 1].Null?) && (b == [] || !b[|b| - 1].Null?)
    ensures a == b <==> forall j: nat :: Place(a, j) == Place(b, j)
  {
    if forall j: nat :: Place(a, j) == Place(b, j) {
      if a != [] { assert Place(a, |a| - 1) == Place(b, |a| - 1); }
      if b != [] { assert Place(a, |b| - 1) == Place(b, |b| - 1); }
      forall j | 0 <= j < |a| ensures a[j] == b[j] {
        assert Place(a, j) == Place(b, j);
      }
    }
  }

  /** A transaction comes off cleanly exactly when its outputs are found as added, and its undo records fit. */
  ghost predicate FoundClean(v: Utxo, tx: Tx, nHeight: nat, undos: seq<TxInUndo>)
    requires tx.isCoinBase || tx.hasZerocoinSpend || |undos| == |tx.vin|
  {
    && FoundAsAdded(Found(v, tx.hash), tx, nHeight)
    && (!tx.isCoinBase && !tx.hasZerocoinSpend ==> RecordsFit(v - {tx.hash}, tx.vin, undos))
  }

  lemma {:induction false} DisconnectIs(v: Utxo, tx: Tx, nHeight: nat, undos: seq<TxInUndo>)
    ensures Disconnect(v, tx, nHeight, undos).Some?
            <==> (!tx.isCoinBase && !tx.hasZerocoinSpend ==> |undos| == |tx.vin|)
    ensures Disconnect(v, tx, nHeight, undos).Some? && HoldOutputs(undos) ==>
              (Disconnect(v, tx, nHeight, undos).value.1 <==> FoundClean(v, tx, nHeight, undos))
  {
    OutputsMatchIs(Found(v, tx.hash), tx, nHeight);
    if !tx.isCoinBase && !tx.hasZerocoinSpend && |undos| == |tx.vin| && HoldOutputs(undos) {
      UndoAllClean(v - {tx.hash}, tx.vin, undos);
    }
  }

  /** A transaction that comes off cleanly leaves its own outputs removed, its inputs back in place, and nothing else
      changed. */
  ghost predicate Disconnected(v: Utxo, tx: Tx, undos: seq<TxInUndo>, w: Utxo)
    requires tx.isCoinBase || tx.hasZerocoinSpend || |undos| == |tx.vin|
  {
    if tx.isCoinBase || tx.hasZerocoinSpend then w == v - {tx.hash} else OutputsBack(v - {tx.hash}, tx.vin, undos, w)
  }

  lemma {:induction false} DisconnectOutputs(v: Utxo, tx: Tx, nHeight: nat, undos: seq<TxInUndo>)
    requires HoldOutputs(undos) && Disconnect(v, tx, nHeight, undos).Some? && Disconnect(v, tx, nHeight, undos).value.1
    ensures tx.isCoinBase || tx.hasZerocoinSpend || |undos| == |tx.vin|
    ensures Disconnected(v, tx, undos, Disconnect(v, tx, nHeight, undos).value.0)
  {
    DisconnectIs(v, tx, nHeight, undos);
    if !tx.isCoinBase && !tx.hasZerocoinSpend { UndoAllOutputs(v - {tx.hash}, tx.vin, undos); }
  }
}
