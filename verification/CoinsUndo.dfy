/** Connecting transactions to a view and disconnecting them again. */
module CoinsUndo {
  import opened Coins
  import opened CoinsCache

  const OP_ZEROCOINMINT: uint8 := 0xc1

  predicate IsZerocoinMint(script: seq<uint8>) {
    |script| > 0 && script[0] == OP_ZEROCOINMINT
  }

  predicate IsAvailable(c: Coins, n: nat) {
    n < |c.vout| && c.vout[n].Out? && !IsZerocoinMint(c.vout[n].scriptPubKey)
  }

  datatype OutPoint = OutPoint(hash: Txid, n: nat)

  datatype Tx = Tx(hash: Txid, vin: seq<OutPoint>, vout: seq<TxOut>, isCoinBase: bool, isCoinStake: bool,
                   hasZerocoinSpend: bool, nVersion: int)
  {
    predicate SpendsInputs() { !isCoinBase && !hasZerocoinSpend }

    /** CCoins::FromTx. */
    function Created(nHeight: nat): Coins {
      Coins(isCoinBase, isCoinStake, TrimNulls(ClearUnspendable(vout)), nHeight, nVersion)
    }
  }

  function Found(v: Utxo, t: Txid): Coins {
    if t in v then v[t] else Cleared
  }

  // ---------------------------------------------------------------------------
  // What connecting and disconnecting mean on a flat map
  // ---------------------------------------------------------------------------

  /** Spends the inputs in order; None when one of them is not there. */
  function SpendAll(v: Utxo, vin: seq<OutPoint>): (r: Option<(Utxo, seq<TxInUndo>)>)
    ensures r.Some? ==> |r.value.1| == |vin|
  {
    if vin == [] then Some((v, []))
    else
      var out := vin[|vin| - 1];
      match SpendAll(v, vin[..|vin| - 1])
      case None => None
      case Some((v1, undos)) =>
        match Found(v1, out.hash).Spend(out.n)
        case None => None
        case Some((rest, undo)) => Some((Put(v1, out.hash, rest), undos + [undo]))
  }

  /** The inputs of a transaction that has any. */
  function SpendInputs(v: Utxo, tx: Tx): Option<(Utxo, seq<TxInUndo>)> {
    if tx.SpendsInputs() then SpendAll(v, tx.vin) else Some((v, []))
  }

  /** UpdateCoins. */
  function Connect(v: Utxo, tx: Tx, nHeight: nat): Option<(Utxo, seq<TxInUndo>)> {
    match SpendInputs(v, tx)
    case None => None
    case Some((v1, undos)) => Some((Put(v1, tx.hash, tx.Created(nHeight)), undos))
  }

  /** Whether the undo record fits the coins found. */
  predicate UndoFits(c: Coins, n: nat, undo: TxInUndo) {
    (if undo.nHeight != 0 then c.IsPruned() else !c.IsPruned())
    && !IsAvailable(if undo.nHeight != 0 then Cleared else c, n)
  }

  /** Restores the inputs, last one first; also says whether every record fitted. */
  function UndoAll(v: Utxo, vin: seq<OutPoint>, undos: seq<TxInUndo>): (Utxo, bool)
    requires |vin| == |undos|
    decreases |vin|
  {
    if vin == [] then (v, true)
    else
      var j := |vin| - 1;
      var c := Found(v, vin[j].hash);
      var (v', clean) := UndoAll(Put(v, vin[j].hash, c.Restore(vin[j].n, undos[j])), vin[..j], undos[..j]);
      (v', UndoFits(c, vin[j].n, undos[j]) && clean)
  }

  /** No output is restored into a pruned entry with its metadata missing from the record: only then does the flat map
      not determine the outcome. */
  predicate Determined(v: Utxo, vin: seq<OutPoint>, undos: seq<TxInUndo>)
    requires |vin| == |undos|
    decreases |vin|
  {
    if vin == [] then true
    else
      var j := |vin| - 1;
      var c := Found(v, vin[j].hash);
      (undos[j].nHeight != 0 || !c.IsPruned())
      && Determined(Put(v, vin[j].hash, c.Restore(vin[j].n, undos[j])), vin[..j], undos[..j])
  }

  /** Records that fit determine it. */
  lemma {:induction false} CleanDetermined(v: Utxo, vin: seq<OutPoint>, undos: seq<TxInUndo>)
    requires |vin| == |undos| && UndoAll(v, vin, undos).1
    ensures Determined(v, vin, undos)
    decreases |vin|
  {
    if vin != [] {
      var j := |vin| - 1;
      CleanDetermined(Put(v, vin[j].hash, Found(v, vin[j].hash).Restore(vin[j].n, undos[j])), vin[..j], undos[..j]);
    }
  }

  /** The outputs found for a transaction are those it created. */
  predicate OutputsMatch(found: Coins, created: Coins) {
    var c := found.(vout := TrimNulls(ClearUnspendable(found.vout)));
    (if created.nVersion < 0 then c.(nVersion := created.nVersion) else c).SameCoins(created)
  }

  /** Restores the inputs of a transaction that has any; None is the error return on undo data of the wrong length. */
  function UndoInputs(v: Utxo, tx: Tx, undos: seq<TxInUndo>): Option<(Utxo, bool)> {
    if !tx.SpendsInputs() then Some((v, true))
    else if |undos| != |tx.vin| then None
    else Some(UndoAll(v, tx.vin, undos))
  }

  /** What DisconnectBlock does for one transaction, and whether it found what it expected. */
  function Disconnect(v: Utxo, tx: Tx, nHeight: nat, undos: seq<TxInUndo>): Option<(Utxo, bool)> {
    match UndoInputs(v - {tx.hash}, tx, undos)
    case None => None
    case Some((v', clean)) => Some((v', OutputsMatch(Found(v, tx.hash), tx.Created(nHeight)) && clean))
  }

  /** Views that consensus can reach: clean unpruned coins of blocks above genesis. */
  ghost predicate GoodView(v: Utxo) {
    forall t :: t in v ==> v[t].Clean() && !v[t].IsPruned() && v[t].nHeight != 0
  }

  /** `w` is `v`, except that the transactions in `lost` have lost their coinstake mark. */
  ghost predicate SameBut(w: Utxo, v: Utxo, lost: set<Txid>) {
    && w.Keys == v.Keys
    && forall t :: t in v ==> w[t] == if t in lost then v[t].(fCoinStake := false) else v[t]
  }

  lemma {:induction false} SameButEqual(w: Utxo, v: Utxo, lost: set<Txid>)
    requires SameBut(w, v, lost)
    ensures w == v <==> forall t :: t in v && v[t].fCoinStake ==> t !in lost
  {
    if t :| t in v && v[t].fCoinStake && t in lost {
      assert w[t] != v[t];
    } else {
      assert forall t :: t in v ==> w[t] == v[t];
    }
  }

  // ---------------------------------------------------------------------------
  // Disconnecting undoes connecting
  // ---------------------------------------------------------------------------

  lemma {:induction false} SpendAllKeeps(v: Utxo, vin: seq<OutPoint>)
    requires GoodView(v) && SpendAll(v, vin).Some?
    ensures GoodView(SpendAll(v, vin).value.0) && SpendAll(v, vin).value.0.Keys <= v.Keys
  {
    if vin != [] {
      SpendAllKeeps(v, vin[..|vin| - 1]);
      var v1 := SpendAll(v, vin[..|vin| - 1]).value.0;
      var rest := Found(v1, vin[|vin| - 1].hash).Spend(vin[|vin| - 1].n).value.0;
      CleanIffFixed(rest);
    }
  }

  lemma {:induction false} PutClean(v: Utxo, t: Txid, c: Coins)
    requires c.Clean()
    ensures Put(v, t, c) == if c.vout == [] then v - {t} else v[t := c]
  {
    CleanIffFixed(c);
  }

  lemma {:induction false} RestoreOneCoins(c: Coins, n: nat, unmarked: bool, found: Coins)
    requires c.Clean() && c.nHeight != 0 && c.Spend(n).Some?
    requires var rest := c.Spend(n).value.0;
             found == if rest.vout == [] then Cleared else if unmarked then rest.(fCoinStake := false) else rest
    ensures UndoFits(found, n, c.Spend(n).value.1)
    ensures found.Restore(n, c.Spend(n).value.1)
         == if unmarked || c.Spend(n).value.0.vout == [] then c.(fCoinStake := false) else c
  {
    var (rest, undo) := c.Spend(n).value;
    PrunedIffTrimmedEmpty(rest.vout);
    CleanIffFixed(rest);
    SpendThenRestore(c, n, if rest.vout == [] then found else rest);
    if rest.vout != [] {
      SpendThenRestoreUnmarked(c, n);
      assert !IsAvailable(found, n) by {
        if n < |rest.vout| { assert rest.vout[n] == c.vout[n := Null][n]; }
      }
    }
  }

  /** `v0` without the spent output of `t`. */
  function Spent(v0: Utxo, t: Txid, rest: Coins): Utxo {
    if rest.vout == [] then v0 - {t} else v0[t := rest]
  }

  lemma {:induction false} PutBack(v0: Utxo, t: Txid, rest: Coins, w: Utxo, lost: set<Txid>, lost': set<Txid>)
    requires t in v0 && SameBut(w, Spent(v0, t, rest), lost)
    requires lost' == if rest.vout == [] then lost + {t} else lost
    ensures SameBut(w[t := if t in lost' then v0[t].(fCoinStake := false) else v0[t]], v0, lost')
  {
  }

  /** Restoring one input, when some coinstake marks are already gone. */
  lemma {:induction false} UndoOne(v0: Utxo, out: OutPoint, rest: Coins, undo: TxInUndo, w: Utxo, lost: set<Txid>)
    requires out.hash in v0 && v0[out.hash].Clean() && v0[out.hash].nHeight != 0
    requires v0[out.hash].Spend(out.n) == Some((rest, undo))
    requires SameBut(w, Spent(v0, out.hash, rest), lost)
    ensures UndoFits(Found(w, out.hash), out.n, undo)
    ensures SameBut(Put(w, out.hash, Found(w, out.hash).Restore(out.n, undo)), v0,
                    if rest.vout == [] then lost + {out.hash} else lost)
  {
    var c := v0[out.hash];
    var lost' := if rest.vout == [] then lost + {out.hash} else lost;
    PutBack(v0, out.hash, rest, w, lost, lost');
    RestoreOneCoins(c, out.n, out.hash in lost, Found(w, out.hash));
    var c' := Found(w, out.hash).Restore(out.n, undo);
    assert c' == if out.hash in lost' then c.(fCoinStake := false) else c;
    assert c'.vout == c.vout != [];
    PutClean(w, out.hash, c');
  }

  lemma {:induction false} LostKeys(keys: set<Txid>, v0: Utxo, t: Txid, rest: Coins, lost: set<Txid>)
    requires t in v0 && v0.Keys <= keys
    ensures (if rest.vout == [] then lost + {t} else lost) + (keys - v0.Keys)
         == lost + (keys - Spent(v0, t, rest).Keys)
  {
  }

  /** The last input of a spend. */
  lemma {:induction false} SpendAllLast(v: Utxo, vin: seq<OutPoint>)
    returns (v0: Utxo, before: seq<TxInUndo>, rest: Coins, undo: TxInUndo)
    requires GoodView(v) && vin != [] && SpendAll(v, vin).Some?
    ensures SpendAll(v, vin[..|vin| - 1]) == Some((v0, before))
    ensures var out := vin[|vin| - 1];
            v0.Keys <= v.Keys && out.hash in v0 && v0[out.hash].Clean() && v0[out.hash].nHeight != 0
            && v0[out.hash].Spend(out.n) == Some((rest, undo))
            && SpendAll(v, vin) == Some((Spent(v0, out.hash, rest), before + [undo]))
  {
    var out := vin[|vin| - 1];
    SpendAllKeeps(v, vin[..|vin| - 1]);
    v0, before := SpendAll(v, vin[..|vin| - 1]).value.0, SpendAll(v, vin[..|vin| - 1]).value.1;
    rest, undo := v0[out.hash].Spend(out.n).value.0, v0[out.hash].Spend(out.n).value.1;
    PutClean(v0, out.hash, rest);
  }

  lemma {:induction false} UndoAllLast(w: Utxo, vin: seq<OutPoint>, before: seq<TxInUndo>, undo: TxInUndo)
    requires |vin| == |before| + 1
    ensures var out := vin[|vin| - 1];
            var c := Found(w, out.hash);
            var back := UndoAll(Put(w, out.hash, c.Restore(out.n, undo)), vin[..|vin| - 1], before);
            UndoAll(w, vin, before + [undo]) == (back.0, UndoFits(c, out.n, undo) && back.1)
  {
    assert (before + [undo])[..|vin| - 1] == before;
  }

  /** Restoring all inputs gives the view back, except that the transactions spent to the last output
      lose their coinstake mark. */
  lemma {:induction false} UndoAllInverts(v: Utxo, vin: seq<OutPoint>, v1: Utxo, undos: seq<TxInUndo>, w: Utxo,
                                          lost: set<Txid>)
    requires GoodView(v) && SpendAll(v, vin) == Some((v1, undos))
    requires SameBut(w, v1, lost)
    ensures UndoAll(w, vin, undos).1
    ensures SameBut(UndoAll(w, vin, undos).0, v, lost + (v.Keys - v1.Keys))
    decreases |vin|
  {
    if vin != [] {
      var out := vin[|vin| - 1];
      var v0, before, rest, undo := SpendAllLast(v, vin);
      UndoOne(v0, out, rest, undo, w, lost);
      UndoAllLast(w, vin, before, undo);
      UndoAllInverts(v, vin[..|vin| - 1], v0, before, Put(w, out.hash, Found(w, out.hash).Restore(out.n, undo)),
                     if rest.vout == [] then lost + {out.hash} else lost);
      LostKeys(v.Keys, v0, out.hash, rest, lost);
    }
  }

  lemma {:induction false} UndoInputsInvert(v: Utxo, tx: Tx, w: Utxo, lost: set<Txid>)
    requires GoodView(v) && SpendInputs(v, tx).Some?
    requires SameBut(w, SpendInputs(v, tx).value.0, lost)
    ensures var (v1, undos) := SpendInputs(v, tx).value;
            var back := UndoInputs(w, tx, undos);
            v1.Keys <= v.Keys
            && back.Some? && back.value.1 && SameBut(back.value.0, v, lost + (v.Keys - v1.Keys))
  {
    if tx.SpendsInputs() {
      SpendAllKeeps(v, tx.vin);
      UndoAllInverts(v, tx.vin, SpendAll(v, tx.vin).value.0, SpendAll(v, tx.vin).value.1, w, lost);
    }
  }

  lemma {:induction false} ClearedOnce(vout: seq<TxOut>)
    ensures ClearUnspendable(TrimNulls(ClearUnspendable(vout))) == TrimNulls(ClearUnspendable(vout))
  {
    var cleared := ClearUnspendable(vout);
    var t := TrimNulls(cleared);
    forall i | 0 <= i < |t| ensures ClearUnspendable(t)[i] == t[i] {
      assert t[i] == cleared[i];
    }
  }

  lemma {:induction false} CreatedCoins(tx: Tx, nHeight: nat)
    ensures tx.Created(nHeight).Clean()
    ensures OutputsMatch(tx.Created(nHeight), tx.Created(nHeight))
    ensures tx.Created(nHeight).vout == [] ==> OutputsMatch(Cleared, tx.Created(nHeight))
  {
    ClearedOnce(tx.vout);
    CleanIffFixed(tx.Created(nHeight));
  }

  lemma {:induction false} TakeOutputs(v1: Utxo, t: Txid, created: Coins, w: Utxo, lost: set<Txid>)
    requires t !in v1 && SameBut(w, Spent(v1, t, created), lost)
    ensures SameBut(w - {t}, v1, lost)
  {
  }

  /** The two halves of a connection. */
  lemma {:induction false} ConnectParts(v: Utxo, tx: Tx, nHeight: nat) returns (v1: Utxo, undos: seq<TxInUndo>)
    requires GoodView(v) && Connect(v, tx, nHeight).Some?
    ensures SpendInputs(v, tx) == Some((v1, undos)) && GoodView(v1) && v1.Keys <= v.Keys
    ensures tx.Created(nHeight).Clean()
    ensures Connect(v, tx, nHeight) == Some((Spent(v1, tx.hash, tx.Created(nHeight)), undos))
  {
    v1, undos := SpendInputs(v, tx).value.0, SpendInputs(v, tx).value.1;
    if tx.SpendsInputs() { SpendAllKeeps(v, tx.vin); }
    CreatedCoins(tx, nHeight);
    PutClean(v1, tx.hash, tx.Created(nHeight));
  }

  /** Disconnecting a transaction right after connecting it: exactly which view comes back. */
  lemma {:induction false} DisconnectAfterConnect(v: Utxo, tx: Tx, nHeight: nat, w: Utxo, lost: set<Txid>)
    requires GoodView(v) && tx.hash !in v && Connect(v, tx, nHeight).Some?
    requires SameBut(w, Connect(v, tx, nHeight).value.0, lost)
    ensures var (v', undos) := Connect(v, tx, nHeight).value;
            var back := Disconnect(w, tx, nHeight, undos);
            back.Some?
            && SameBut(back.value.0, v, lost + (v.Keys - v'.Keys))
            && (back.value.1 <==> OutputsMatch(Found(w, tx.hash), tx.Created(nHeight)))
  {
    var v1, undos := ConnectParts(v, tx, nHeight);
    var created := tx.Created(nHeight);
    TakeOutputs(v1, tx.hash, created, w, lost);
    UndoInputsInvert(v, tx, w - {tx.hash}, lost);
    assert v.Keys - v1.Keys == v.Keys - Spent(v1, tx.hash, created).Keys;
  }

  lemma {:induction false} OutputsFound(v1: Utxo, tx: Tx, nHeight: nat)
    ensures OutputsMatch(Found(Put(v1, tx.hash, tx.Created(nHeight)), tx.hash), tx.Created(nHeight))
  {
    CreatedCoins(tx, nHeight);
    PutClean(v1, tx.hash, tx.Created(nHeight));
  }

  /** A transaction comes off cleanly exactly when it emptied no coinstake; the flag that DisconnectBlock
      computes does not notice the difference. */
  lemma {:induction false} DisconnectRestoresExactly(v: Utxo, tx: Tx, nHeight: nat)
    requires GoodView(v) && tx.hash !in v && Connect(v, tx, nHeight).Some?
    ensures var (v', undos) := Connect(v, tx, nHeight).value;
            var back := Disconnect(v', tx, nHeight, undos);
            back.Some? && back.value.1
            && (back.value.0 == v <==> forall t :: t in v && v[t].fCoinStake ==> t in v')
  {
    var (v', undos) := Connect(v, tx, nHeight).value;
    DisconnectAfterConnect(v, tx, nHeight, v', {});
    OutputsFound(SpendInputs(v, tx).value.0, tx, nHeight);
    SameButEqual(Disconnect(v', tx, nHeight, undos).value.0, v, {} + (v.Keys - v'.Keys));
  }

  // ---------------------------------------------------------------------------
  // Whole blocks
  // ---------------------------------------------------------------------------

  function ConnectBlock(v: Utxo, txs: seq<Tx>, nHeight: nat): (r: Option<(Utxo, seq<seq<TxInUndo>>)>)
    ensures r.Some? ==> |r.value.1| == |txs|
  {
    if txs == [] then Some((v, []))
    else
      match ConnectBlock(v, txs[..|txs| - 1], nHeight)
      case None => None
      case Some((v1, undos)) =>
        match Connect(v1, txs[|txs| - 1], nHeight)
        case None => None
        case Some((v2, undo)) => Some((v2, undos + [undo]))
  }

  /** The transactions of the block, last one first. */
  function DisconnectBlock(v: Utxo, txs: seq<Tx>, nHeight: nat, undos: seq<seq<TxInUndo>>): Option<Utxo>
    decreases |txs|
  {
    if |undos| != |txs| then None
    else if txs == [] then Some(v)
    else
      var i := |txs| - 1;
      match Disconnect(v, txs[i], nHeight, undos[i])
      case None => None
      case Some((v', clean)) => DisconnectBlock(v', txs[..i], nHeight, undos[..i])
  }

  /** The block's ids are new to the view and to each other. */
  ghost predicate NewIds(v: Utxo, txs: seq<Tx>) {
    && (forall i :: 0 <= i < |txs| ==> txs[i].hash !in v)
    && (forall i, j :: 0 <= i < j < |txs| ==> txs[i].hash != txs[j].hash)
  }

  lemma {:induction false} ConnectKeeps(v: Utxo, tx: Tx, nHeight: nat)
    requires GoodView(v) && nHeight != 0 && Connect(v, tx, nHeight).Some?
    ensures var v' := Connect(v, tx, nHeight).value.0;
            GoodView(v') && v'.Keys <= v.Keys + {tx.hash}
  {
    var v1, undos := ConnectParts(v, tx, nHeight);
    CleanIffFixed(tx.Created(nHeight));
  }

  lemma {:induction false} ConnectBlockKeeps(v: Utxo, txs: seq<Tx>, nHeight: nat)
    requires GoodView(v) && nHeight != 0 && ConnectBlock(v, txs, nHeight).Some?
    ensures GoodView(ConnectBlock(v, txs, nHeight).value.0)
    ensures ConnectBlock(v, txs, nHeight).value.0.Keys <= v.Keys + set i | 0 <= i < |txs| :: txs[i].hash
  {
    if txs != [] {
      var k := |txs| - 1;
      ConnectBlockKeeps(v, txs[..k], nHeight);
      ConnectKeeps(ConnectBlock(v, txs[..k], nHeight).value.0, txs[k], nHeight);
    }
  }

  /** Disconnecting the last transaction of a connected block. */
  lemma {:induction false} DisconnectBlockInverts(v: Utxo, txs: seq<Tx>, nHeight: nat, w: Utxo, lost: set<Txid>)
    requires GoodView(v) && nHeight != 0 && NewIds(v, txs) && ConnectBlock(v, txs, nHeight).Some?
    requires SameBut(w, ConnectBlock(v, txs, nHeight).value.0, lost)
    ensures var (v', undos) := ConnectBlock(v, txs, nHeight).value;
            DisconnectBlock(w, txs, nHeight, undos).Some?
            && SameBut(DisconnectBlock(w, txs, nHeight, undos).value, v, lost + (v.Keys - v'.Keys))
  {
    if txs != [] {
      var (v', undos) := ConnectBlock(v, txs, nHeight).value;
      var k := |txs| - 1;
      var (v1, before) := ConnectBlock(v, txs[..k], nHeight).value;
      ConnectBlockKeeps(v, txs[..k], nHeight);
      ConnectKeeps(v1, txs[k], nHeight);
      DisconnectAfterConnect(v1, txs[k], nHeight, w, lost);
      assert undos[..k] == before;
      DisconnectBlockInverts(v, txs[..k], nHeight,
                             Disconnect(w, txs[k], nHeight, undos[k]).value.0, lost + (v1.Keys - v'.Keys));
    }
  }

  /** Disconnecting a block right after connecting it gives the view back exactly when the block emptied
      no coinstake that was there before it. */
  lemma {:induction false} DisconnectBlockRestoresExactly(v: Utxo, txs: seq<Tx>, nHeight: nat)
    requires GoodView(v) && nHeight != 0 && NewIds(v, txs) && ConnectBlock(v, txs, nHeight).Some?
    ensures var (v', undos) := ConnectBlock(v, txs, nHeight).value;
            DisconnectBlock(v', txs, nHeight, undos) == Some(v)
            <==> forall t :: t in v && v[t].fCoinStake ==> t in v'
  {
    var (v', undos) := ConnectBlock(v, txs, nHeight).value;
    DisconnectBlockInverts(v, txs, nHeight, v', {});
    SameButEqual(DisconnectBlock(v', txs, nHeight, undos).value, v, {} + (v.Keys - v'.Keys));
  }

  /** The block of one transaction that spends the only output of a coinstake does not come off exactly. */
  lemma {:induction false} BlockLosesMark(v: Utxo, tx: Tx)
    requires v == map[7 := Coins(false, true, [Out(0, [])], 5, 1)]
    requires tx == Tx(8, [OutPoint(7, 0)], [Out(0, [])], false, false, false, 1)
    ensures ConnectBlock(v, [tx], 6).Some?
    ensures DisconnectBlock(ConnectBlock(v, [tx], 6).value.0, [tx], 6, ConnectBlock(v, [tx], 6).value.1) != Some(v)
  {
    var vin := [OutPoint(7, 0)];
    assert vin[..0] == [] && [tx][..0] == [];
    SpentToNothing(v[7]);
    assert SpendAll(v, vin).Some? && 7 !in SpendAll(v, vin).value.0;
    assert ConnectBlock(v, [], 6) == Some((v, []));
    DisconnectBlockRestoresExactly(v, [tx], 6);
  }

  lemma {:induction false} SpentToNothing(c: Coins)
    requires c == Coins(false, true, [Out(0, [])], 5, 1)
    ensures c.Clean() && !c.IsPruned() && c.Spend(0).Some? && c.Spend(0).value.0.vout == []
  {
    assert c.vout[0 := Null] == [Null];
    TrimNullsUnique([Null], []);
    TrimNullsUnique(c.vout, c.vout);
    CleanIffFixed(c);
  }
}
