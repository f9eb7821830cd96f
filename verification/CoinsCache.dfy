/** The layered cache of unspent coins: CCoinsViewDB, CCoinsViewCache and CCoinsModifier. */
module CoinsCache {
  import opened Coins

  /** A block hash; 0 is "not read yet". */
  type Hash = nat

  datatype Entry = Entry(coins: Coins, DIRTY: bool, FRESH: bool)
  type CoinsMap = map<Txid, Entry>

  /** The flat meaning of a view: the unspent coins by transaction, none of them pruned. */
  type Utxo = map<Txid, Coins>

  function Look(v: Utxo, t: Txid): Option<Coins> {
    if t in v then Some(v[t]) else None
  }

  /** `v` with `t` bound to what `c` says. */
  function Put(v: Utxo, t: Txid, c: Coins): Utxo {
    if c.IsPruned() then v - {t} else v[t := c.Cleanup()]
  }

  lemma {:induction false} PutLook(v: Utxo, t: Txid, c: Coins)
    ensures forall u :: Look(Put(v, t, c), u) == if u == t then c.Norm() else Look(v, u)
  {
  }

  /** What a cache holding `m` over a base that means `v` says about `t`. */
  function Says(v: Utxo, m: CoinsMap, t: Txid): Option<Coins> {
    if t in m then m[t].coins.Norm() else Look(v, t)
  }

  /** The flags of an entry are right about a base that means `v`. */
  predicate FlagsRight(v: Utxo, t: Txid, e: Entry) {
    && (e.FRESH ==> t !in v)
    && (!e.DIRTY ==> e.coins.Norm() == Look(v, t))
  }

  /** A cache holding `m` over a base that means `v` means `flat`, and its flags are right. */
  ghost predicate Meaning(v: Utxo, m: CoinsMap, flat: Utxo) {
    && (forall t :: t in m ==> FlagsRight(v, t, m[t]))
    && (forall t :: Look(flat, t) == Says(v, m, t))
  }

  /** Writing the dirty entries of `m` to a view that means `v` is safe, and makes it mean `flat`. */
  ghost predicate Writable(v: Utxo, m: CoinsMap, flat: Utxo) {
    && (forall t :: t in m ==> m[t].coins.Clean())
    && Meaning(v, m, flat)
  }

  /** One entry of the batch has been written, or skipped because it is not dirty. */
  lemma {:induction false} WritableStep(v: Utxo, m: CoinsMap, flat: Utxo, t: Txid)
    requires Writable(v, m, flat) && t in m
    ensures Writable(if m[t].DIRTY then Put(v, t, m[t].coins) else v, m - {t}, flat)
  {
    var v' := if m[t].DIRTY then Put(v, t, m[t].coins) else v;
    assert FlagsRight(v, t, m[t]);
    PutLook(v, t, m[t].coins);
    forall u ensures Look(v', u) == if u == t then m[t].coins.Norm() else Look(v, u) {
    }
    forall u | u in m - {t} ensures m[u].coins.Clean() && FlagsRight(v', u, m[u]) {
      assert FlagsRight(v, u, m[u]);
      assert Look(v', u) == Look(v, u);
    }
    forall u ensures Look(flat, u) == Says(v', m - {t}, u) {
      assert Look(flat, u) == Says(v, m, u);
    }
  }

  /** Caching what the base says changes nothing. */
  lemma {:induction false} MeaningRead(v: Utxo, m: CoinsMap, flat: Utxo, t: Txid, e: Entry)
    requires Meaning(v, m, flat) && FlagsRight(v, t, e) && e.coins.Norm() == Says(v, m, t)
    ensures Meaning(v, m[t := e], flat)
  {
    forall u ensures Look(flat, u) == Says(v, m[t := e], u) {
      assert Look(flat, u) == Says(v, m, u);
    }
  }

  lemma {:induction false} MeaningPlace(v: Utxo, m: CoinsMap, flat: Utxo, t: Txid, e: Entry)
    requires Meaning(v, m, flat) && FlagsRight(v, t, e)
    ensures Meaning(v, m[t := e], Put(flat, t, e.coins))
  {
    PutLook(flat, t, e.coins);
    forall u ensures Look(Put(flat, t, e.coins), u) == Says(v, m[t := e], u) {
      assert Look(flat, u) == Says(v, m, u);
    }
  }

  lemma {:induction false} MeaningErase(v: Utxo, m: CoinsMap, flat: Utxo, t: Txid)
    requires Meaning(v, m, flat) && t !in v
    ensures Meaning(v, m - {t}, flat - {t})
  {
    forall u ensures Look(flat - {t}, u) == Says(v, m - {t}, u) {
      assert Look(flat, u) == Says(v, m, u);
    }
  }

  /** Forgetting a pruned entry that the base does not have changes nothing. */
  lemma {:induction false} MeaningForget(v: Utxo, m: CoinsMap, flat: Utxo, t: Txid)
    requires Meaning(v, m, flat) && t !in v && (t in m ==> m[t].coins.IsPruned())
    ensures Meaning(v, m - {t}, flat)
  {
    forall u ensures Look(flat, u) == Says(v, m - {t}, u) {
      assert Look(flat, u) == Says(v, m, u);
    }
  }

  lemma {:induction false} WritableDone(v: Utxo, flat: Utxo)
    requires Writable(v, map[], flat)
    ensures v == flat
  {
    forall t ensures Look(v, t) == Look(flat, t) {
      assert Look(flat, t) == Says(v, map[], t);
    }
    ViewsEqual(v, flat);
  }

  lemma {:induction false} ViewsEqual(a: Utxo, b: Utxo)
    requires forall t :: Look(a, t) == Look(b, t)
    ensures a == b
  {
    forall t ensures t in a <==> t in b {
      assert Look(a, t) == Look(b, t);
    }
    forall t | t in a ensures a[t] == b[t] {
      assert Look(a, t) == Look(b, t);
    }
  }

  // ---------------------------------------------------------------------------
  // Best blocks
  // ---------------------------------------------------------------------------

  /** The best block of the top of a stack: the first that is known. The last of `hs` is the store's. */
  function Best(hs: seq<Hash>): Hash
    requires hs != []
  {
    if |hs| == 1 || hs[0] != 0 then hs[0] else Best(hs[1..])
  }

  /** What every layer of a stack answers. */
  function Bests(hs: seq<Hash>): (r: seq<Hash>)
    requires hs != []
    ensures |r| == |hs| && r[0] == Best(hs)
  {
    [Best(hs)] + if |hs| == 1 then [] else Bests(hs[1..])
  }

  /** GetBestBlock keeps the answer in every layer that had to ask its base. */
  function ReadHashes(hs: seq<Hash>): (r: seq<Hash>)
    requires hs != []
    ensures |r| == |hs| && r[0] == Best(hs)
  {
    if |hs| == 1 || hs[0] != 0 then hs else var below := ReadHashes(hs[1..]); [below[0]] + below
  }

  /** A store keeps its best block when none is given; a cache does not. */
  function FlushHashes(hs: seq<Hash>): (r: seq<Hash>)
    requires |hs| >= 2
    ensures |r| == |hs|
  {
    if |hs| == 2 then [hs[0], if hs[0] != 0 then hs[0] else hs[1]] else [hs[0], hs[0]] + hs[2..]
  }

  /** The top knows its best block, or the base has none of its own to lose, or none that matters. */
  predicate KeepsBest(hs: seq<Hash>)
    requires |hs| >= 2
  {
    hs[0] != 0 || |hs| == 2 || hs[1] == 0 || hs[1] == Best(hs[2..])
  }

  lemma {:induction false} BestPush(a: Hash, hs: seq<Hash>)
    requires hs != []
    ensures Best([a] + hs) == if a != 0 then a else Best(hs)
    ensures Bests([a] + hs) == [if a != 0 then a else Best(hs)] + Bests(hs)
  {
    assert ([a] + hs)[1..] == hs;
  }

  /** After a flush both layers answer what the top answered, and the layers below what they did, if and only if
      KeepsBest holds before it. */
  lemma {:induction false} FlushKeepsBest(hs: seq<Hash>)
    requires |hs| >= 2
    ensures Bests(FlushHashes(hs)) == [Best(hs), Best(hs)] + Bests(hs)[2..] <==> KeepsBest(hs)
    ensures Best(FlushHashes(hs)[1..]) == Best(hs) <==> KeepsBest(hs)
  {
    if |hs| == 2 {
      FlushToStore(hs[0], hs[1]);
      assert hs == [hs[0], hs[1]];
    } else {
      FlushToCache(hs[0], hs[1], hs[2..]);
      assert hs == [hs[0]] + ([hs[1]] + hs[2..]);
    }
  }

  lemma {:induction false} FlushToStore(a: Hash, b: Hash)
    ensures Bests(FlushHashes([a, b])) == [Best([a, b]), Best([a, b])] + Bests([a, b])[2..]
    ensures Best(FlushHashes([a, b])[1..]) == Best([a, b])
  {
    var best := if a != 0 then a else b;
    assert [a, b] == [a] + [b] && FlushHashes([a, b]) == [a] + [best];
    BestPush(a, [b]);
    BestPush(a, [best]);
  }

  lemma {:induction false} FlushToCache(a: Hash, b: Hash, low: seq<Hash>)
    requires low != []
    ensures var hs := [a] + ([b] + low);
            && (Bests(FlushHashes(hs)) == [Best(hs), Best(hs)] + Bests(hs)[2..] <==> KeepsBest(hs))
            && (Best(FlushHashes(hs)[1..]) == Best(hs) <==> KeepsBest(hs))
  {
    var hs := [a] + ([b] + low);
    var x, y := if b != 0 then b else Best(low), if a != 0 then a else Best(low);
    BestPush(b, low);
    BestPush(a, [b] + low);
    BestPush(a, low);
    BestPush(a, [a] + low);
    assert hs[2..] == low && FlushHashes(hs) == [a] + ([a] + low) && FlushHashes(hs)[1..] == [a] + low;
    assert Bests(hs) == [if a != 0 then a else x] + ([x] + Bests(low));
    assert Bests(FlushHashes(hs)) == [y] + ([y] + Bests(low));
    SamePairs(if a != 0 then a else x, x, y, Bests(low));
  }

  lemma {:induction false} SamePairs(top: Hash, x: Hash, y: Hash, low: seq<Hash>)
    ensures [y] + ([y] + low) == [top, top] + ([top] + ([x] + low))[2..] <==> y == top
  {
    assert ([top] + ([x] + low))[2..] == low;
    assert ([y] + ([y] + low))[0] == y && ([top, top] + low)[0] == top;
  }

  /** A cache that knows no best block, over one that does: flushing forgets it. */
  lemma {:induction false} FlushForgets()
    ensures Best([0, 7, 5]) == 7 && Bests(FlushHashes([0, 7, 5])) == [5, 5, 5]
  {
    assert [0, 7, 5] == [0] + ([7] + [5]) && [0, 0, 5] == [0] + ([0] + [5]);
    BestPush(7, [5]);
    BestPush(0, [7] + [5]);
    BestPush(0, [5]);
    BestPush(0, [0] + [5]);
  }

  /** Reading changes no answer. */
  lemma {:induction false} ReadKeepsBests(hs: seq<Hash>)
    requires hs != []
    ensures Bests(ReadHashes(hs)) == Bests(hs)
  {
    if |hs| > 1 && hs[0] == 0 {
      var low := hs[1..];
      assert hs == [0] + low;
      ReadKeepsBests(low);
      ReadPush(low);
      BestPush(0, low);
      BestPush(Best(low), ReadHashes(low));
    }
  }

  lemma {:induction false} ReadPush(hs: seq<Hash>)
    requires hs != []
    ensures ReadHashes([0] + hs) == [Best(hs)] + ReadHashes(hs) && Best([0] + hs) == Best(hs)
  {
    assert ([0] + hs)[1..] == hs;
  }

  /** CCoinsViewDB: the coins on disk. */
  class CoinsViewDB {
    var db: Utxo
    var hashBlock: Hash

    /** Serialization writes clean coins, and pruned coins are erased. */
    ghost predicate Valid()
      reads this
    {
      forall t :: t in db ==> db[t].Clean() && !db[t].IsPruned()
    }

    constructor ()
      ensures Valid() && db == map[] && hashBlock == 0
    {
      db, hashBlock := map[], 0;
    }

    method GetCoins(txid: Txid) returns (r: Option<Coins>)
      ensures r == Look(db, txid)
    {
      r := Look(db, txid);
    }

    /** Writes the dirty entries: after it, the store means what the cache of these entries meant. */
    method BatchWrite(mapCoins: CoinsMap, hashBlockIn: Hash, ghost flat: Utxo) returns (ok: bool)
      requires Valid() && Writable(db, mapCoins, flat)
      modifies this
      ensures Valid() && ok
      ensures db == flat
      ensures hashBlock == (if hashBlockIn != 0 then hashBlockIn else old(hashBlock))
    {
      var rest := mapCoins;
      while rest != map[]
        invariant Valid() && Writable(db, rest, flat)
        invariant hashBlock == old(hashBlock)
        decreases |rest|
      {
        var t :| t in rest;
        var c := rest[t].coins;
        WritableStep(db, rest, flat, t);
        CleanIffFixed(c);
        if rest[t].DIRTY {
          db := if c.IsPruned() then db - {t} else db[t := c];
        }
        rest := rest - {t};
      }
      WritableDone(db, flat);
      if hashBlockIn != 0 {
        hashBlock := hashBlockIn;
      }
      ok := true;
    }
  }

  datatype Backend = Store(db: CoinsViewDB) | Layer(cache: CoinsViewCache)

  /** CCoinsViewCache: a copy-on-read cache over a base view. */
  class CoinsViewCache {
    const base: Backend
    var cacheCoins: CoinsMap
    var hashBlock: Hash
    var hasModifier: bool
    /** The entry that the live modifier refers to. */
    ghost var modified: Txid
    /** The flat map that this view means. */
    ghost var Flat: Utxo
    /** This layer and the caches below it. */
    ghost const Caches: set<CoinsViewCache>
    /** The store at the bottom. */
    ghost const store: CoinsViewDB

    /** The layers below are separate objects down to the store. */
    ghost predicate Shape()
      decreases Caches
    {
      match base
      case Store(db) => Caches == {this} && store == db
      case Layer(c) =>
        c in c.Caches && this !in c.Caches && Caches == {this} + c.Caches && store == c.store && c.Shape()
    }

    /** The flat map that the base means. */
    ghost function BaseFlat(): Utxo
      reads if base.Store? then {base.db as object} else {base.cache as object}
    {
      if base.Store? then base.db.db else base.cache.Flat
    }

    /** A base that is a cache has its own entry for `t`. */
    ghost predicate BaseHas(t: Txid)
      reads if base.Store? then {} else {base.cache as object}
    {
      base.Layer? ==> t in base.cache.cacheCoins
    }

    /** The invariant of every reachable cache. */
    ghost predicate Valid()
      reads Caches, store
      decreases Caches
    {
      && Shape()
      && (match base
          case Store(db) => db.Valid()
          case Layer(c) => c.Valid() && !c.hasModifier)
      && Meaning(BaseFlat(), cacheCoins, Flat)
      && (forall t :: t in cacheCoins && !cacheCoins[t].FRESH ==> BaseHas(t))
      && (forall t :: t in cacheCoins && !(hasModifier && t == modified) ==> cacheCoins[t].coins.Clean())
      && (hasModifier ==> modified in cacheCoins && cacheCoins[modified].DIRTY)
    }

    /** What every layer means, from this one down to the store. */
    ghost function Views(): (r: seq<Utxo>)
      requires Shape()
      reads Caches`Flat, store`db
      ensures |r| >= 2 && r[0] == Flat && r[1] == BaseFlat()
      decreases Caches
    {
      [Flat] + match base
               case Store(db) => [db.db]
               case Layer(c) => c.Views()
    }

    /** The best block that every layer knows, 0 for none, from this one down to the store. */
    ghost function Hashes(): (r: seq<Hash>)
      requires Shape()
      reads Caches`hashBlock, store`hashBlock
      ensures |r| >= 2
      decreases Caches, 1
    {
      [hashBlock] + BaseHashes()
    }

    ghost function BaseHashes(): (r: seq<Hash>)
      requires Shape()
      reads (Caches - {this})`hashBlock, store`hashBlock
      ensures |r| >= 1
      decreases Caches, 0
    {
      match base
      case Store(db) => [db.hashBlock]
      case Layer(c) => c.Hashes()
    }

    lemma {:induction false} HashesHere()
      requires Shape()
      ensures Hashes() == [hashBlock] + BaseHashes()
      ensures BaseHashes() == match base case Store(db) => [db.hashBlock] case Layer(c) => c.Hashes()
    {
    }

    constructor (baseIn: Backend)
      requires baseIn.Store? ==> baseIn.db.Valid()
      requires baseIn.Layer? ==> baseIn.cache.Valid() && !baseIn.cache.hasModifier
      ensures Valid() && base == baseIn && !hasModifier && hashBlock == 0
      ensures Caches == {this} + (if baseIn.Store? then {} else baseIn.cache.Caches)
      ensures Flat == BaseFlat() && cacheCoins == map[]
    {
      base := baseIn;
      cacheCoins := map[];
      hashBlock := 0;
      hasModifier := false;
      modified := 0;
      Flat := if baseIn.Store? then baseIn.db.db else baseIn.cache.Flat;
      Caches := {this} + (if baseIn.Store? then {} else baseIn.cache.Caches);
      store := if baseIn.Store? then baseIn.db else baseIn.cache.store;
    }

    /** base->GetCoins. */
    method BaseGetCoins(txid: Txid) returns (r: Option<Coins>)
      requires Valid()
      modifies (Caches - {this})`cacheCoins
      ensures Valid()
      ensures r.None? ==> txid !in BaseFlat()
      ensures r.Some? ==> r.value.Clean() && r.value.Norm() == Look(BaseFlat(), txid) && BaseHas(txid)
      decreases Caches, 0
    {
      match base
      case Store(db) =>
        r := db.GetCoins(txid);
        if r.Some? { CleanIffFixed(r.value); }
      case Layer(c) =>
        r := c.GetCoins(txid);
    }

    /** Keeps a copy of what the base returned, marked FRESH when the base only has a pruned entry. */
    method Insert(txid: Txid, coins: Coins)
      requires Valid() && txid !in cacheCoins
      requires coins.Clean() && coins.Norm() == Look(BaseFlat(), txid) && BaseHas(txid)
      modifies this`cacheCoins
      ensures Valid()
      ensures cacheCoins == old(cacheCoins)[txid := Entry(coins, false, coins.IsPruned())]
    {
      var e := Entry(coins, false, coins.IsPruned());
      MeaningRead(BaseFlat(), cacheCoins, Flat, txid, e);
      cacheCoins := cacheCoins[txid := e];
    }

    /** FetchCoins: reading copies the base's entry into this layer, and marks it FRESH when it is pruned. */
    method FetchCoins(txid: Txid) returns (found: bool)
      requires Valid()
      modifies Caches`cacheCoins
      ensures Valid()
      ensures found <==> txid in cacheCoins
      ensures !found ==> txid !in Flat
      ensures forall t :: t in old(cacheCoins) ==> t in cacheCoins && cacheCoins[t] == old(cacheCoins)[t]
      decreases Caches, 1
    {
      if txid in cacheCoins {
        return true;
      }
      var tmp := BaseGetCoins(txid);
      if tmp.None? {
        assert Look(Flat, txid) == Look(BaseFlat(), txid);
        return false;
      }
      Insert(txid, tmp.value);
      found := true;
    }

    method GetCoins(txid: Txid) returns (r: Option<Coins>)
      requires Valid()
      modifies Caches`cacheCoins
      ensures Valid()
      ensures r.None? ==> txid !in Flat
      ensures r.Some? ==> txid in cacheCoins && r.value.Norm() == Look(Flat, txid)
      ensures r.Some? && !(hasModifier && modified == txid) ==> r.value.Clean()
      ensures forall t :: t in old(cacheCoins) ==> t in cacheCoins && cacheCoins[t] == old(cacheCoins)[t]
      decreases Caches, 2
    {
      var found := FetchCoins(txid);
      r := if found then Some(cacheCoins[txid].coins) else None;
    }

    /** HaveCoins looks only at vout.empty(), which is right because entries are kept clean. */
    method HaveCoins(txid: Txid) returns (b: bool)
      requires Valid()
      modifies Caches`cacheCoins
      ensures Valid()
      ensures !(hasModifier && modified == txid) ==> (b <==> txid in Flat)
    {
      var found := FetchCoins(txid);
      b := found && cacheCoins[txid].coins.vout != [];
      if found { CleanIffFixed(cacheCoins[txid].coins); }
      assert Look(Flat, txid) == Says(BaseFlat(), cacheCoins, txid);
    }

    /** The best block of this view, read through to the base until one is set. */
    ghost function BestBlock(): Hash
      requires Shape()
      reads Caches`hashBlock, store`hashBlock
    {
      Best(Hashes())
    }

    method GetBestBlock() returns (h: Hash)
      requires Valid()
      modifies Caches`hashBlock
      ensures Valid()
      ensures h == hashBlock == old(BestBlock())
      ensures Hashes() == ReadHashes(old(Hashes()))
      decreases Caches
    {
      HashesHere();
      assert Hashes()[1..] == BaseHashes();
      if hashBlock == 0 {
        ReadPush(BaseHashes());
        match base
        case Store(db) => hashBlock := db.hashBlock;
        case Layer(c) =>
          var b := c.GetBestBlock();
          hashBlock := b;
        HashesHere();
      }
      h := hashBlock;
    }

    method SetBestBlock(h: Hash)
      requires Valid()
      modifies this`hashBlock
      ensures Valid() && hashBlock == h
    {
      hashBlock := h;
    }

    /** Makes room for a modification: the entry is there, DIRTY, and says what the view says. */
    method Touch(txid: Txid)
      requires Valid() && !hasModifier
      modifies Caches`cacheCoins
      ensures Valid()
      ensures txid in cacheCoins && cacheCoins[txid].DIRTY && cacheCoins[txid].coins.Clean()
      ensures cacheCoins[txid].coins.Norm() == Look(Flat, txid)
    {
      if txid !in cacheCoins {
        var got := BaseGetCoins(txid);
        match got {
          case None => InsertCleared(txid);
          case Some(c) => Insert(txid, c);
        }
      }
      MarkDirty(txid);
      assert Look(Flat, txid) == Says(BaseFlat(), cacheCoins, txid);
    }

    /** The base does not have this entry: an empty one, FRESH. */
    method InsertCleared(txid: Txid)
      requires Valid() && txid !in cacheCoins && txid !in BaseFlat()
      modifies this`cacheCoins
      ensures Valid()
      ensures cacheCoins == old(cacheCoins)[txid := Entry(Cleared, false, true)]
    {
      var e := Entry(Cleared, false, true);
      MeaningRead(BaseFlat(), cacheCoins, Flat, txid, e);
      cacheCoins := cacheCoins[txid := e];
    }

    method MarkDirty(txid: Txid)
      requires Valid() && txid in cacheCoins
      modifies this`cacheCoins
      ensures Valid()
      ensures cacheCoins == old(cacheCoins)[txid := old(cacheCoins)[txid].(DIRTY := true)]
    {
      var e := cacheCoins[txid].(DIRTY := true);
      MeaningRead(BaseFlat(), cacheCoins, Flat, txid, e);
      cacheCoins := cacheCoins[txid := e];
    }

    /** Changes the coins of the entry being modified. */
    method Rewrite(t: Txid, c: Coins)
      requires Valid() && hasModifier && t == modified
      modifies this`cacheCoins, this`Flat
      ensures Valid() && Flat == Put(old(Flat), t, c)
      ensures cacheCoins == old(cacheCoins)[t := old(cacheCoins)[t].(coins := c)]
    {
      var e := cacheCoins[t].(coins := c);
      MeaningPlace(BaseFlat(), cacheCoins, Flat, t, e);
      cacheCoins := cacheCoins[t := e];
      Flat := Put(Flat, t, c);
    }

    /** The clean-up at the end of a modification. */
    method Tidy(t: Txid)
      requires Valid() && t in cacheCoins && cacheCoins[t].DIRTY
      modifies this`cacheCoins
      ensures Valid()
      ensures cacheCoins == old(cacheCoins)[t := old(cacheCoins)[t].(coins := old(cacheCoins)[t].coins.Cleanup())]
      ensures cacheCoins[t].coins.Clean()
    {
      var e := cacheCoins[t].(coins := cacheCoins[t].coins.Cleanup());
      CleanIffFixed(cacheCoins[t].coins);
      MeaningRead(BaseFlat(), cacheCoins, Flat, t, e);
      cacheCoins := cacheCoins[t := e];
    }

    /** Drops a FRESH entry that was pruned. */
    method Forget(t: Txid)
      requires Valid() && !hasModifier && t in cacheCoins && cacheCoins[t].FRESH && cacheCoins[t].coins.IsPruned()
      modifies this`cacheCoins
      ensures Valid()
    {
      MeaningForget(BaseFlat(), cacheCoins, Flat, t);
      cacheCoins := cacheCoins - {t};
    }

    method ModifyCoins(txid: Txid) returns (it: CoinsModifier)
      requires Valid() && !hasModifier
      modifies Caches`cacheCoins, this`hasModifier, this`modified
      ensures Valid()
      ensures fresh(it) && it.Valid() && it.cache == this && it.txid == txid
      ensures cacheCoins[txid].coins.Clean() && cacheCoins[txid].coins.Norm() == Look(Flat, txid)
    {
      Touch(txid);
      it := new CoinsModifier(this, txid);
    }

    /** Binds `t` to a clean dirty entry. */
    method Place(t: Txid, e: Entry)
      requires Valid() && e.DIRTY && e.coins.Clean()
      requires FlagsRight(BaseFlat(), t, e) && (!e.FRESH ==> BaseHas(t))
      modifies this`cacheCoins, this`Flat
      ensures Valid()
      ensures Flat == Put(old(Flat), t, e.coins) && cacheCoins == old(cacheCoins)[t := e]
    {
      MeaningPlace(BaseFlat(), cacheCoins, Flat, t, e);
      Flat := Put(Flat, t, e.coins);
      cacheCoins := cacheCoins[t := e];
    }

    /** Forgets `t`, which the base does not have. */
    method Erase(t: Txid)
      requires Valid() && !hasModifier && t !in BaseFlat()
      modifies this`cacheCoins, this`Flat
      ensures Valid()
      ensures Flat == old(Flat) - {t} && cacheCoins == old(cacheCoins) - {t}
    {
      MeaningErase(BaseFlat(), cacheCoins, Flat, t);
      Flat := Flat - {t};
      cacheCoins := cacheCoins - {t};
    }

    /** One dirty entry of a child's batch. */
    method WriteEntry(t: Txid, e: Entry)
      requires Valid() && !hasModifier
      requires e.DIRTY && e.coins.Clean() && FlagsRight(Flat, t, e) && (!e.FRESH ==> t in cacheCoins)
      modifies this`cacheCoins, this`Flat
      ensures Valid()
      ensures Flat == Put(old(Flat), t, e.coins)
      ensures forall u :: u != t ==> (u in cacheCoins <==> u in old(cacheCoins))
    {
      assert Look(Flat, t) == Says(BaseFlat(), cacheCoins, t);
      if t !in cacheCoins {
        if !e.coins.IsPruned() {
          assert e.FRESH;
          Place(t, Entry(e.coins, true, true));
        }
      } else if cacheCoins[t].FRESH && e.coins.IsPruned() {
        Erase(t);
      } else {
        Place(t, Entry(e.coins, true, cacheCoins[t].FRESH));
      }
    }

    /** A child's entries can be written here, and then this view means `flat`. */
    ghost predicate CanWrite(m: CoinsMap, flat: Utxo)
      reads this
    {
      Writable(Flat, m, flat) && forall t :: t in m && !m[t].FRESH ==> t in cacheCoins
    }

    method WriteNext(m: CoinsMap, t: Txid, ghost flat: Utxo)
      requires Valid() && !hasModifier && CanWrite(m, flat) && t in m
      modifies this`cacheCoins, this`Flat
      ensures Valid() && CanWrite(m - {t}, flat)
    {
      WritableStep(Flat, m, flat, t);
      if m[t].DIRTY {
        WriteEntry(t, m[t]);
      }
    }

    /** BatchWrite: after it, this view means what the child over it meant. */
    method BatchWrite(mapCoins: CoinsMap, hashBlockIn: Hash, ghost flat: Utxo) returns (ok: bool)
      requires Valid() && !hasModifier && CanWrite(mapCoins, flat)
      modifies this`cacheCoins, this`Flat, this`hashBlock
      ensures Valid() && ok
      ensures Flat == flat && hashBlock == hashBlockIn
    {
      var rest := mapCoins;
      while rest != map[]
        invariant Valid() && CanWrite(rest, flat)
        decreases |rest|
      {
        var t :| t in rest;
        WriteNext(rest, t, flat);
        rest := rest - {t};
      }
      WritableDone(Flat, flat);
      hashBlock := hashBlockIn;
      ok := true;
    }

    /** Flush: the base now means what this view meant, and this view means it still. The best block that this view
        answered survives in the base if and only if KeepsBest holds before. */
    method Flush() returns (ok: bool)
      requires Valid() && !hasModifier
      modifies this`cacheCoins
      modifies if base.Store? then {base.db as object} else {base.cache as object}
      ensures Valid() && ok && cacheCoins == map[]
      ensures BaseFlat() == Flat
      ensures Hashes() == FlushHashes(old(Hashes()))
      ensures Best(Hashes()[1..]) == old(BestBlock()) <==> KeepsBest(old(Hashes()))
    {
      FlushKeepsBest(Hashes());
      WriteToBase();
      cacheCoins, ok := map[], true;
    }

    /** base->BatchWrite. */
    method WriteToBase()
      requires Valid() && !hasModifier
      modifies if base.Store? then {base.db as object} else {base.cache as object}
      ensures Shape() && BaseFlat() == Flat == old(Flat) && Hashes() == FlushHashes(old(Hashes()))
      ensures base.Store? ==> base.db.Valid()
      ensures base.Layer? ==> base.cache.Valid() && !base.cache.hasModifier
    {
      HashesHere();
      match base {
        case Store(db) => var ok := db.BatchWrite(cacheCoins, hashBlock, Flat);
        case Layer(c) => WriteToCache(c);
      }
      HashesHere();
    }

    method WriteToCache(c: CoinsViewCache)
      requires Valid() && !hasModifier && base == Layer(c)
      modifies c
      ensures Shape() && c.Valid() && !c.hasModifier && c.Flat == Flat
      ensures c.Hashes() == [hashBlock] + old(c.Hashes())[1..]
    {
      c.HashesHere();
      var ok := c.BatchWrite(cacheCoins, hashBlock, Flat);
      c.HashesHere();
    }
  }

  /** CCoinsModifier: write access to one entry, cleaned up when it goes out of scope. */
  class CoinsModifier {
    const cache: CoinsViewCache
    const txid: Txid

    ghost predicate Valid()
      reads cache
    {
      cache.hasModifier && cache.modified == txid && txid in cache.cacheCoins
    }

    constructor (cacheIn: CoinsViewCache, txidIn: Txid)
      requires cacheIn.Valid() && !cacheIn.hasModifier
      requires txidIn in cacheIn.cacheCoins && cacheIn.cacheCoins[txidIn].DIRTY
      modifies cacheIn`hasModifier, cacheIn`modified
      ensures cache == cacheIn && txid == txidIn && Valid() && cache.Valid()
    {
      cache, txid := cacheIn, txidIn;
      new;
      cache.hasModifier, cache.modified := true, txid;
    }

    method Read() returns (c: Coins)
      requires Valid()
      ensures c == cache.cacheCoins[txid].coins
    {
      c := cache.cacheCoins[txid].coins;
    }

    method Write(c: Coins)
      requires Valid() && cache.Valid()
      modifies cache`cacheCoins, cache`Flat
      ensures Valid() && cache.Valid()
      ensures cache.Views() == [Put(old(cache.Flat), txid, c)] + old(cache.Views())[1..]
      ensures cache.cacheCoins[txid].coins == c
    {
      cache.Rewrite(txid, c);
    }

    /** ~CCoinsModifier: the view means the same before and after the clean-up. */
    method Close()
      requires Valid() && cache.Valid()
      modifies cache`cacheCoins, cache`hasModifier
      ensures cache.Valid() && !cache.hasModifier
    {
      cache.Tidy(txid);
      cache.hasModifier := false;
      if cache.cacheCoins[txid].FRESH && cache.cacheCoins[txid].coins.IsPruned() {
        cache.Forget(txid);
      }
    }
  }
}
