/** Runs over a stack of caches, against the same runs over plain maps. */
module CoinsRuns {
  import opened Coins
  import opened CoinsCache

  /** What a caller can do to the top of a stack of views. `Modify` reads the entry and writes it back. */
  datatype Op =
    | Get(t: Txid)
    | Have(t: Txid)
    | Modify(t: Txid, f: Option<Coins> -> Coins)
    | GetBest
    | SetBest(h: Hash)
    | Flush
    | Push
    | Drop

  datatype Answer = Unspent(coins: Option<Coins>) | Known(b: bool) | BestIs(h: Hash) | Done

  /** A stack, top first: the flat map that each layer means, and the best block that each layer knows. */
  datatype Stack = Stack(views: seq<Utxo>, hashes: seq<Hash>)
  {
    predicate Tall() {
      |views| == |hashes| >= 2
    }
  }

  /** One step over the flat maps: layers, flags and copies do not appear. */
  function FlatStep(s: Stack, op: Op): (r: (Stack, Answer))
    requires s.Tall()
    ensures r.0.Tall()
  {
    var vs, hs := s.views, s.hashes;
    match op
    case Get(t) => (s, Unspent(Look(vs[0], t)))
    case Have(t) => (s, Known(t in vs[0]))
    case Modify(t, f) => (s.(views := [Put(vs[0], t, f(Look(vs[0], t)))] + vs[1..]), Done)
    case GetBest => (s.(hashes := ReadHashes(hs)), BestIs(Best(hs)))
    case SetBest(h) => (s.(hashes := [h] + hs[1..]), Done)
    case Flush => (Stack([vs[0], vs[0]] + vs[2..], FlushHashes(hs)), Done)
    case Push => (Stack([vs[0]] + vs, [0] + hs), Done)
    case Drop => (if |vs| > 2 then Stack(vs[1..], hs[1..]) else s, Done)
  }

  function FlatRun(s: Stack, ops: seq<Op>): (r: (Stack, seq<Answer>))
    requires s.Tall()
    ensures r.0.Tall() && |r.1| == |ops|
  {
    if ops == [] then (s, [])
    else
      var (before, answers) := FlatRun(s, ops[..|ops| - 1]);
      var (after, answer) := FlatStep(before, ops[|ops| - 1]);
      (after, answers + [answer])
  }

  lemma {:induction false} FlatRunOn(s: Stack, ops: seq<Op>, i: nat, next: nat)
    requires s.Tall() && next == i + 1 <= |ops|
    ensures var (before, answers), (after, answer) := FlatRun(s, ops[..i]), FlatStep(FlatRun(s, ops[..i]).0, ops[i]);
            FlatRun(s, ops[..next]) == (after, answers + [answer])
  {
    assert ops[..next][..i] == ops[..i];
  }

  // ---------------------------------------------------------------------------
  // The caches
  // ---------------------------------------------------------------------------

  ghost function StackOf(c: CoinsViewCache): (s: Stack)
    requires c.Shape()
    reads c.Caches, c.store
    ensures s.Tall()
  {
    SameHeight(c);
    Stack(c.Views(), c.Hashes())
  }

  lemma {:induction false} SameHeight(c: CoinsViewCache)
    requires c.Shape()
    ensures |c.Views()| == |c.Hashes()|
    decreases c.Caches
  {
    c.HashesHere();
    if c.base.Layer? { SameHeight(c.base.cache); }
  }

  method LookUp(top: CoinsViewCache, t: Txid) returns (answer: Answer)
    requires top.Valid() && !top.hasModifier
    modifies top.Caches`cacheCoins
    ensures top.Valid() && !top.hasModifier && StackOf(top) == old(StackOf(top))
    ensures answer == Unspent(Look(top.Views()[0], t))
  {
    var r := top.GetCoins(t);
    answer := Unspent(if r.None? then None else r.value.Norm());
  }

  method ModifyTop(top: CoinsViewCache, t: Txid, f: Option<Coins> -> Coins)
    requires top.Valid() && !top.hasModifier
    modifies top.Caches
    ensures top.Valid() && !top.hasModifier
    ensures (StackOf(top), Done) == FlatStep(old(StackOf(top)), Modify(t, f))
  {
    ghost var s := StackOf(top);
    var it := top.ModifyCoins(t);
    assert StackOf(top) == s;
    Rewrite(it, f);
    CloseTop(it);
  }

  method Rewrite(it: CoinsModifier, f: Option<Coins> -> Coins)
    requires it.Valid() && it.cache.Valid()
    modifies it.cache`cacheCoins, it.cache`Flat
    ensures it.Valid() && it.cache.Valid()
    ensures var c := f(old(it.cache.cacheCoins)[it.txid].coins.Norm());
            && it.cache.Views() == [Put(old(it.cache.Flat), it.txid, c)] + old(it.cache.Views())[1..]
            && it.cache.Hashes() == old(it.cache.Hashes())
  {
    var c := it.Read();
    it.Write(f(c.Norm()));
  }

  method CloseTop(it: CoinsModifier)
    requires it.Valid() && it.cache.Valid()
    modifies it.cache`cacheCoins, it.cache`hasModifier
    ensures it.cache.Valid() && !it.cache.hasModifier && StackOf(it.cache) == old(StackOf(it.cache))
  {
    it.Close();
  }

  method FlushTop(top: CoinsViewCache)
    requires top.Valid() && !top.hasModifier
    modifies top.Caches, top.store
    ensures top.Valid() && !top.hasModifier
    ensures (StackOf(top), Done) == FlatStep(old(StackOf(top)), Flush)
  {
    FlushViews(top);
  }

  method FlushViews(top: CoinsViewCache)
    requires top.Valid() && !top.hasModifier
    modifies top.Caches, top.store
    ensures top.Valid() && !top.hasModifier && top.Hashes() == FlushHashes(old(top.Hashes()))
    ensures top.Views() == [old(top.Flat), old(top.Flat)] + old(top.Views())[2..]
  {
    var ok := top.Flush();
  }

  method SetTop(top: CoinsViewCache, h: Hash)
    requires top.Valid() && !top.hasModifier
    modifies top`hashBlock
    ensures top.Valid() && !top.hasModifier && (StackOf(top), Done) == FlatStep(old(StackOf(top)), SetBest(h))
  {
    top.HashesHere();
    top.SetBestBlock(h);
    top.HashesHere();
  }

  method PushOn(top: CoinsViewCache) returns (cur: CoinsViewCache)
    requires top.Valid() && !top.hasModifier
    ensures cur.Valid() && !cur.hasModifier && cur.store == top.store && cur.Caches == {cur} + top.Caches && fresh(cur)
    ensures (StackOf(cur), Done) == FlatStep(StackOf(top), Push)
  {
    cur := new CoinsViewCache(Layer(top));
    cur.HashesHere();
  }

  method DropTop(top: CoinsViewCache) returns (cur: CoinsViewCache)
    requires top.Valid() && !top.hasModifier
    ensures cur.Valid() && !cur.hasModifier && cur.store == top.store && cur.Caches <= top.Caches
    ensures (StackOf(cur), Done) == FlatStep(StackOf(top), Drop)
  {
    top.HashesHere();
    cur := top;
    if top.base.Layer? {
      cur := top.base.cache;
      assert top.Views()[1..] == cur.Views() && top.Hashes()[1..] == cur.Hashes();
    }
  }

  /** The steps that only look. */
  method Ask(top: CoinsViewCache, op: Op) returns (answer: Answer)
    requires top.Valid() && !top.hasModifier && (op.Get? || op.Have? || op.GetBest?)
    modifies top.Caches
    ensures top.Valid() && !top.hasModifier
    ensures (StackOf(top), answer) == FlatStep(old(StackOf(top)), op)
  {
    match op {
      case Get(t) => answer := LookUp(top, t);
      case Have(t) =>
        var b := top.HaveCoins(t);
        answer := Known(b);
      case GetBest =>
        var h := top.GetBestBlock();
        answer := BestIs(h);
    }
  }

  /** One step over the caches. */
  method Step(top: CoinsViewCache, op: Op) returns (cur: CoinsViewCache, answer: Answer)
    requires top.Valid() && !top.hasModifier
    modifies top.Caches, top.store
    ensures cur.Valid() && !cur.hasModifier
    ensures cur.store == top.store && fresh(cur.Caches - top.Caches)
    ensures (StackOf(cur), answer) == FlatStep(old(StackOf(top)), op)
  {
    cur, answer := top, Done;
    match op {
      case Modify(t, f) => ModifyTop(top, t, f);
      case SetBest(h) => SetTop(top, h);
      case Flush => FlushTop(top);
      case Push => cur := PushOn(top);
      case Drop => cur := DropTop(top);
      case _ => answer := Ask(top, op);
    }
  }

  /** Over any stack and any run, every answer and every layer's meaning and best block are those of the flat maps. */
  method Run(top: CoinsViewCache, ops: seq<Op>) returns (cur: CoinsViewCache, answers: seq<Answer>)
    requires top.Valid() && !top.hasModifier
    modifies top.Caches, top.store
    ensures cur.Valid() && !cur.hasModifier
    ensures (StackOf(cur), answers) == FlatRun(old(StackOf(top)), ops)
  {
    cur, answers := top, [];
    for i := 0 to |ops|
      invariant cur.Valid() && !cur.hasModifier
      invariant cur.store == top.store && fresh(cur.Caches - top.Caches)
      invariant (StackOf(cur), answers) == FlatRun(old(StackOf(top)), ops[..i])
    {
      var answer;
      cur, answer := Step(cur, ops[i]);
      answers := answers + [answer];
      FlatRunOn(old(StackOf(top)), ops, i, i + 1);
    }
    assert ops[..|ops|] == ops;
  }

  // ---------------------------------------------------------------------------
  // Best blocks as callers expect them
  // ---------------------------------------------------------------------------

  /** One step where every layer simply has a best block, and Flush hands it down with the coins. Setting 0 unsets. */
  function BestStep(bests: seq<Hash>, op: Op): (r: seq<Hash>)
    requires |bests| >= 2
    ensures |r| >= 2
  {
    match op
    case SetBest(h) => [if h != 0 then h else bests[1]] + bests[1..]
    case Flush => [bests[0], bests[0]] + bests[2..]
    case Push => [bests[0]] + bests
    case Drop => if |bests| > 2 then bests[1..] else bests
    case _ => bests
  }

  function BestRun(bests: seq<Hash>, ops: seq<Op>): (r: seq<Hash>)
    requires |bests| >= 2
    ensures |r| >= 2
  {
    if ops == [] then bests else BestStep(BestRun(bests, ops[..|ops| - 1]), ops[|ops| - 1])
  }

  /** A step does to the best blocks what callers expect, if and only if it is not a flush that forgets one. */
  lemma {:induction false} BestStepExact(s: Stack, op: Op)
    requires s.Tall()
    ensures Bests(FlatStep(s, op).0.hashes) == BestStep(Bests(s.hashes), op) <==> (op.Flush? ==> KeepsBest(s.hashes))
  {
    var hs := s.hashes;
    assert hs == [hs[0]] + hs[1..];
    BestPush(hs[0], hs[1..]);
    match op
    case GetBest => ReadKeepsBests(hs);
    case SetBest(h) => BestPush(h, hs[1..]);
    case Flush => FlushKeepsBest(hs);
    case Push => BestPush(0, hs);
    case _ =>
  }

  /** Every flush of a run is of a top that knows its best block, or keeps it anyway. */
  ghost predicate FlushesKeep(s: Stack, ops: seq<Op>)
    requires s.Tall()
  {
    forall i :: 0 <= i < |ops| && ops[i].Flush? ==> KeepsBest(FlatRun(s, ops[..i]).0.hashes)
  }

  /** In such a run, at every moment, every layer answers the best block that callers expect. */
  lemma {:induction false} BestRunAgrees(s: Stack, ops: seq<Op>)
    requires s.Tall() && FlushesKeep(s, ops)
    ensures Bests(FlatRun(s, ops).0.hashes) == BestRun(Bests(s.hashes), ops)
  {
    if ops != [] {
      var before := ops[..|ops| - 1];
      assert forall i :: 0 <= i < |before| ==> before[i] == ops[i] && before[..i] == ops[..i];
      BestRunAgrees(s, before);
      BestStepExact(FlatRun(s, before).0, ops[|ops| - 1]);
    }
  }

  /** A cache over an empty store knows best block 7, and has forgotten it after a flush of a new cache over it. */
  lemma {:induction false} ForgottenBest(s: Stack)
    requires s.Tall() && s.hashes == [0, 0]
    ensures var known := FlatStep(s, SetBest(7)).0;
            var flushed := FlatStep(FlatStep(known, Push).0, Flush).0;
            && FlatStep(known, GetBest).1 == BestIs(7)
            && FlatStep(FlatStep(flushed, Drop).0, GetBest).1 == BestIs(0)
  {
    var known := FlatStep(s, SetBest(7)).0;
    assert known.hashes == [7, 0];
    var flushed := FlatStep(FlatStep(known, Push).0, Flush).0;
    assert flushed.hashes == [0, 0, 0];
    assert FlatStep(flushed, Drop).0.hashes == [0, 0];
  }
}
