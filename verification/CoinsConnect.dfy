/** UpdateCoins and the coins part of DisconnectBlock, on a cache. */
module CoinsConnect {
  import opened Coins
  import opened CoinsCache
  import opened CoinsUndo
  import opened CoinsOutputs

  lemma {:induction false} NormFound(c: Coins, v: Utxo, t: Txid)
    requires c.Clean() && c.Norm() == Look(v, t)
    ensures t in v ==> c == v[t]
    ensures t !in v ==> c.IsPruned() && c.vout == []
    ensures forall n :: c.Spend(n).Some? ==> c == Found(v, t)
    ensures forall n :: Found(v, t).Spend(n).Some? ==> c == Found(v, t)
  {
    CleanIffFixed(c);
  }

  /** inputs.ModifyCoins(out.hash)->Spend(out, undo) */
  method SpendOne(cache: CoinsViewCache, out: OutPoint) returns (undo: TxInUndo)
    requires cache.Valid() && !cache.hasModifier
    requires Found(cache.Flat, out.hash).Spend(out.n).Some?
    modifies cache.Caches
    ensures cache.Valid() && !cache.hasModifier
    ensures var (rest, u) := Found(old(cache.Flat), out.hash).Spend(out.n).value;
            undo == u && cache.Flat == Put(old(cache.Flat), out.hash, rest)
  {
    var it := cache.ModifyCoins(out.hash);
    var c := it.Read();
    NormFound(c, cache.Flat, out.hash);
    var spent := c.Spend(out.n);
    undo := spent.value.1;
    it.Write(spent.value.0);
    it.Close();
  }

  /** The first half of UpdateCoins: marks the inputs spent. */
  method SpendInOrder(inputs: CoinsViewCache, vin: seq<OutPoint>) returns (undos: seq<TxInUndo>)
    requires inputs.Valid() && !inputs.hasModifier
    requires SpendAll(inputs.Flat, vin).Some?
    modifies inputs.Caches
    ensures inputs.Valid() && !inputs.hasModifier
    ensures Some((inputs.Flat, undos)) == SpendAll(old(inputs.Flat), vin)
  {
    undos := [];
    ghost var v := inputs.Flat;
    for i := 0 to |vin|
      invariant inputs.Valid() && !inputs.hasModifier
      invariant SpendAll(v, vin[..i]) == Some((inputs.Flat, undos))
    {
      SpendAllPrefix(v, vin, i + 1);
      SpendAllNext(v, vin, i);
      var undo := SpendOne(inputs, vin[i]);
      undos := undos + [undo];
    }
    assert vin[..|vin|] == vin;
  }

  method WriteCoins(cache: CoinsViewCache, t: Txid, c: Coins)
    requires cache.Valid() && !cache.hasModifier
    modifies cache.Caches
    ensures cache.Valid() && !cache.hasModifier
    ensures cache.Flat == Put(old(cache.Flat), t, c)
  {
    var it := cache.ModifyCoins(t);
    it.Write(c);
    it.Close();
  }

  /** The inputs are spent, the outputs are there, nothing else has changed, and the undo records say what was spent:
      the cache then means the connected map. The source asserts that the inputs can be spent. */
  method UpdateCoins(inputs: CoinsViewCache, tx: Tx, nHeight: nat) returns (undos: seq<TxInUndo>)
    requires inputs.Valid() && !inputs.hasModifier
    requires Spendable(inputs.Flat, Inputs(tx))
    modifies inputs.Caches
    ensures inputs.Valid() && !inputs.hasModifier
    ensures Connected(old(inputs.Flat), tx, nHeight, inputs.Flat, undos)
    ensures Some((inputs.Flat, undos)) == Connect(old(inputs.Flat), tx, nHeight)
  {
    ConnectIs(inputs.Flat, tx, nHeight);
    undos := [];
    if tx.SpendsInputs() {
      undos := SpendInOrder(inputs, tx.vin);
    }
    WriteCoins(inputs, tx.hash, tx.Created(nHeight));
  }

  lemma {:induction false} SpendAllNext(v: Utxo, vin: seq<OutPoint>, i: nat)
    requires i < |vin| && SpendAll(v, vin[..i + 1]).Some?
    ensures SpendAll(v, vin[..i]).Some?
    ensures var (v1, undos) := SpendAll(v, vin[..i]).value;
            var next := Found(v1, vin[i].hash).Spend(vin[i].n);
            next.Some?
            && SpendAll(v, vin[..i + 1]) == Some((Put(v1, vin[i].hash, next.value.0), undos + [next.value.1]))
  {
    assert vin[..i + 1][..i] == vin[..i];
  }

  /** If all inputs can be spent, so can the first ones. */
  lemma {:induction false} SpendAllPrefix(v: Utxo, vin: seq<OutPoint>, i: nat)
    requires i <= |vin| && SpendAll(v, vin).Some?
    ensures SpendAll(v, vin[..i]).Some?
    decreases |vin| - i
  {
    if i == |vin| {
      assert vin[..i] == vin;
    } else {
      SpendAllPrefix(v, vin, i + 1);
      assert vin[..i + 1][..i] == vin[..i];
    }
  }

  /** What restoring makes of the coins in the cache and of those of the flat map. */
  lemma {:induction false} RestoreFound(c: Coins, v: Utxo, out: OutPoint, undo: TxInUndo)
    requires c.Clean() && c.Norm() == Look(v, out.hash)
    ensures UndoFits(c, out.n, undo) <==> UndoFits(Found(v, out.hash), out.n, undo)
    ensures undo.nHeight != 0 || !Found(v, out.hash).IsPruned() ==>
              c.Restore(out.n, undo) == Found(v, out.hash).Restore(out.n, undo)
  {
    NormFound(c, v, out.hash);
    CleanIffFixed(c);
  }

  /** `v'` is `v` with an output restored, as far as the record and the flat map determine it; `clean` says whether the
      record fits. */
  ghost predicate Restored(v: Utxo, v': Utxo, out: OutPoint, undo: TxInUndo, clean: bool) {
    && (clean <==> UndoFits(Found(v, out.hash), out.n, undo))
    && (undo.nHeight != 0 || !Found(v, out.hash).IsPruned() ==>
          v' == Put(v, out.hash, Found(v, out.hash).Restore(out.n, undo)))
  }

  /** Restores one output; `clean` is what the checks on the undo record say. */
  method RestoreOne(cache: CoinsViewCache, out: OutPoint, undo: TxInUndo) returns (clean: bool)
    requires cache.Valid() && !cache.hasModifier
    modifies cache.Caches
    ensures cache.Valid() && !cache.hasModifier
    ensures Restored(old(cache.Flat), cache.Flat, out, undo, clean)
  {
    var it := cache.ModifyCoins(out.hash);
    var c := it.Read();
    RestoreFound(c, cache.Flat, out, undo);
    clean := UndoFits(c, out.n, undo);
    it.Write(c.Restore(out.n, undo));
    it.Close();
  }

  /** What is left to undo of `v` after the inputs from the `j`-th on. */
  ghost predicate Undoing(v0: Utxo, v: Utxo, vin: seq<OutPoint>, undos: seq<TxInUndo>, j: nat, fClean: bool)
    requires j <= |vin| == |undos|
  {
    && (Determined(v0, vin, undos) ==>
          Determined(v, vin[..j], undos[..j]) && UndoAll(v, vin[..j], undos[..j]).0 == UndoAll(v0, vin, undos).0)
    && (fClean ==> UndoAll(v, vin[..j], undos[..j]) == UndoAll(v0, vin, undos))
    && (!fClean ==> !UndoAll(v0, vin, undos).1)
  }

  lemma {:induction false} UndoingOne(v0: Utxo, v: Utxo, v': Utxo, vin: seq<OutPoint>, undos: seq<TxInUndo>, j: nat,
                                      next: nat, fClean: bool, fits: bool)
    requires next == j + 1 <= |vin| == |undos| && Undoing(v0, v, vin, undos, next, fClean)
    requires Restored(v, v', vin[j], undos[j], fits)
    ensures Undoing(v0, v', vin, undos, j, fClean && fits)
  {
    assert vin[..j + 1][..j] == vin[..j] && undos[..j + 1][..j] == undos[..j];
    assert vin[..j + 1][j] == vin[j] && undos[..j + 1][j] == undos[j];
  }

  lemma {:induction false} UndoingStart(v: Utxo, vin: seq<OutPoint>, undos: seq<TxInUndo>)
    requires |vin| == |undos|
    ensures Undoing(v, v, vin, undos, |vin|, true)
  {
    assert vin[..|vin|] == vin && undos[..|vin|] == undos;
  }

  lemma {:induction false} UndoingEnd(v0: Utxo, v: Utxo, vin: seq<OutPoint>, undos: seq<TxInUndo>, fClean: bool)
    requires |vin| == |undos| && Undoing(v0, v, vin, undos, 0, fClean)
    ensures Determined(v0, vin, undos) ==> v == UndoAll(v0, vin, undos).0
    ensures fClean == UndoAll(v0, vin, undos).1
  {
  }

  /** Restores the inputs, last one first. */
  method RestoreInputs(view: CoinsViewCache, vin: seq<OutPoint>, undos: seq<TxInUndo>) returns (fClean: bool)
    requires view.Valid() && !view.hasModifier
    requires |vin| == |undos|
    modifies view.Caches
    ensures view.Valid() && !view.hasModifier
    ensures Determined(old(view.Flat), vin, undos) ==> view.Flat == UndoAll(old(view.Flat), vin, undos).0
    ensures fClean == UndoAll(old(view.Flat), vin, undos).1
  {
    fClean := true;
    var j := |vin|;
    UndoingStart(view.Flat, vin, undos);
    while j > 0
      invariant 0 <= j <= |vin|
      invariant view.Valid() && !view.hasModifier
      invariant Undoing(old(view.Flat), view.Flat, vin, undos, j, fClean)
    {
      ghost var v := view.Flat;
      var fits := RestoreOne(view, vin[j - 1], undos[j - 1]);
      UndoingOne(old(view.Flat), v, view.Flat, vin, undos, j - 1, j, fClean, fits);
      fClean := fClean && fits;
      j := j - 1;
    }
    UndoingEnd(old(view.Flat), view.Flat, vin, undos, fClean);
  }

  /** Checks the outputs of the transaction and takes them off. */
  method RemoveOutputs(view: CoinsViewCache, tx: Tx, nHeight: nat) returns (fClean: bool)
    requires view.Valid() && !view.hasModifier
    modifies view.Caches
    ensures view.Valid() && !view.hasModifier
    ensures view.Flat == old(view.Flat) - {tx.hash}
    ensures fClean == OutputsMatch(Found(old(view.Flat), tx.hash), tx.Created(nHeight))
  {
    var outs := view.ModifyCoins(tx.hash);
    var found := outs.Read();
    NormFound(found, view.Flat, tx.hash);
    NoOutputsMatch(found, tx.Created(nHeight));
    fClean := OutputsMatch(found, tx.Created(nHeight));
    outs.Write(Cleared);
    outs.Close();
  }

  /** Without outputs, the metadata left behind does not matter. */
  lemma {:induction false} NoOutputsMatch(found: Coins, created: Coins)
    ensures found.vout == [] ==> OutputsMatch(found, created) == OutputsMatch(Cleared, created) == created.IsPruned()
  {
    if found.vout == [] {
      assert ClearUnspendable(found.vout) == [];
    }
  }

  /** The undo data of a transaction determines the outcome; it does when it fits. */
  predicate UndoDetermined(v: Utxo, tx: Tx, undos: seq<TxInUndo>) {
    tx.SpendsInputs() && |undos| == |tx.vin| ==> Determined(v - {tx.hash}, tx.vin, undos)
  }

  /** DisconnectBlock for one transaction; false is its error return. When the undo data determines the outcome, which
      it does whenever a clean undo is reported, the cache means the disconnected map. */
  method DisconnectTransaction(view: CoinsViewCache, tx: Tx, nHeight: nat, undos: seq<TxInUndo>)
    returns (ok: bool, fClean: bool)
    requires view.Valid() && !view.hasModifier
    modifies view.Caches
    ensures view.Valid() && !view.hasModifier
    ensures ok <==> (!tx.isCoinBase && !tx.hasZerocoinSpend ==> |undos| == |tx.vin|)
    ensures ok && HoldOutputs(undos) ==> (fClean <==> FoundClean(old(view.Flat), tx, nHeight, undos))
    ensures ok && HoldOutputs(undos) && fClean ==> Disconnected(old(view.Flat), tx, undos, view.Flat)
    ensures ok == Disconnect(old(view.Flat), tx, nHeight, undos).Some?
    ensures ok ==> fClean == Disconnect(old(view.Flat), tx, nHeight, undos).value.1
    ensures ok && fClean ==> UndoDetermined(old(view.Flat), tx, undos)
    ensures ok && UndoDetermined(old(view.Flat), tx, undos) ==>
      view.Flat == Disconnect(old(view.Flat), tx, nHeight, undos).value.0
  {
    DisconnectIs(view.Flat, tx, nHeight, undos);
    ghost var d := Disconnect(view.Flat, tx, nHeight, undos);
    if d.Some? && d.value.1 && HoldOutputs(undos) { DisconnectOutputs(view.Flat, tx, nHeight, undos); }
    ok := true;
    fClean := RemoveOutputs(view, tx, nHeight);
    if tx.SpendsInputs() {
      if |undos| != |tx.vin| {
        return false, fClean;
      }
      ghost var v := view.Flat;
      var restored := RestoreInputs(view, tx.vin, undos);
      if restored { CleanDetermined(v, tx.vin, undos); }
      fClean := fClean && restored;
    }
  }
}
