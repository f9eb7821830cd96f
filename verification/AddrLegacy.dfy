/** Reading a stream of the address manager whose new table cannot be used: of another version, or with another number
    of buckets. Every entry is tried at its default place only. */
module AddrLegacy {
  import opened AddrBook
  import opened AddrCodec
  import opened Coins
  import N = AddrMeaning
  import M = AddrMan

  /** The stream's first six tokens: version 1, a key of 32 bytes, the counts, and the flipped number of buckets. */
  lemma {:induction false} HeaderIs(key: nat, am: Manager)
    ensures |Stream(key, am)| >= 6
    ensures Stream(key, am)[..6] == [Num(1), Num(32), Key(key), Num(am.nNew), Num(am.nTried), Num(0x4000_0400)]
  {
    assert Flip(1024) == 0x4000_0400;
  }

  // ---------------------------------------------------------------------------
  // The entries of the new table
  // ---------------------------------------------------------------------------

  ghost predicate AllEntries(s: seq<Token>, pos: nat, n: nat) {
    pos + n <= |s| && forall i :: pos <= i < pos + n ==> s[i].Entry?
  }

  /** The default place of the i-th entry: its new slot under its own source. */
  function PlaceOf(h: Hasher, s: seq<Token>, pos: nat, i: nat): Slot
    requires pos + i < |s| && s[pos + i].Entry?
  {
    N.NewSlotOf(h, s[pos + i].addr.service, s[pos + i].source)
  }

  /** No entry before has the same default place. */
  ghost predicate First(h: Hasher, s: seq<Token>, pos: nat, i: nat)
    requires AllEntries(s, pos, i + 1)
  {
    forall j :: 0 <= j < i ==> PlaceOf(h, s, pos, j) != PlaceOf(h, s, pos, i)
  }

  /** The i-th entry as it is read, with a number of references. */
  function ReadEntry(s: seq<Token>, pos: nat, i: nat, nRefCount: int): AddrInfo
    requires pos + i < |s| && s[pos + i].Entry?
  {
    var t := s[pos + i];
    AddrInfo(t.addr, t.source, 0, t.nLastSuccess, t.nAttempts, nRefCount, false)
  }

  /** The first of the entries with the same default place holds it, and the others hold nothing. */
  ghost predicate EntriesPlaced(h: Hasher, s: seq<Token>, pos: nat, n: nat, b: Book)
    requires AllEntries(s, pos, n)
  {
    && (forall i :: 0 <= i < n ==> Placed(h, s, pos, i, b))
    && (forall id :: id in b.info ==> 0 <= id < n)
    && (forall k :: k in b.newTab ==> 0 <= b.newTab[k] < n && PlaceOf(h, s, pos, b.newTab[k]) == k)
  }

  ghost predicate Placed(h: Hasher, s: seq<Token>, pos: nat, i: nat, b: Book)
    requires AllEntries(s, pos, i + 1)
  {
    && N.Entry(b, i) == Some(ReadEntry(s, pos, i, if First(h, s, pos, i) then 1 else 0))
    && PlaceOf(h, s, pos, i) in b.newTab && (b.newTab[PlaceOf(h, s, pos, i)] == i <==> First(h, s, pos, i))
  }

  lemma {:induction false} NextPlaced(h: Hasher, st: Manager, s: seq<Token>, pos: nat, n: nat, r: Manager)
    requires AllEntries(s, pos, n + 1) && EntriesPlaced(h, s, pos, n, st.book)
    requires r == Replace(h, Enter(st, n, FromDisk(s[pos + n])), n)
    ensures EntriesPlaced(h, s, pos, n + 1, r.book)
  {
    var k := PlaceOf(h, s, pos, n);
    assert k == NewPlace(h, FromDisk(s[pos + n]));
    assert First(h, s, pos, n) <==> k !in st.book.newTab by {
      if k !in st.book.newTab {
        forall j | 0 <= j < n ensures PlaceOf(h, s, pos, j) != k {
          assert Placed(h, s, pos, j, st.book);
        }
      }
    }
    forall i | 0 <= i < n + 1 ensures Placed(h, s, pos, i, r.book) {
      if i < n { assert Placed(h, s, pos, i, st.book); }
    }
  }

  // ---------------------------------------------------------------------------
  // The random order
  // ---------------------------------------------------------------------------

  /** vRandom and nRandomPos are inverse, over the ids of all entries. */
  ghost predicate Ordered(st: Manager) {
    M.RandomOk(st.nRandomPos, st.vRandom) && M.SameIds(st.book.info, st.nRandomPos)
  }

  lemma {:induction false} EnterOrdered(st: Manager, id: int, info: AddrInfo)
    requires Ordered(st) && id !in st.book.info
    ensures Ordered(Enter(st, id, info))
  {
  }

  lemma {:induction false} ReplaceOrdered(h: Hasher, st: Manager, id: int)
    requires Ordered(st) && id in st.book.info
    ensures Ordered(Replace(h, st, id))
  {
  }

  /** The last entry read. */
  lemma {:induction false} LoadNewLast(h: Hasher, st: Manager, s: seq<Token>, pos: nat, n: nat, next: nat, r: Manager)
    returns (r1: Manager)
    requires next == n + 1 && LoadNew(h, st, s, pos, next, false) == Some(r)
    ensures LoadNew(h, st, s, pos, n, false) == Some(r1)
    ensures pos + n < |s| && s[pos + n].Entry?
    ensures r == Replace(h, Enter(r1, n, FromDisk(s[pos + n])), n)
  {
    r1 := LoadNew(h, st, s, pos, n, false).value;
  }

  /** The first `n` entries are read, placed and ordered. */
  ghost predicate Loaded(h: Hasher, s: seq<Token>, pos: nat, n: nat, st: Manager) {
    AllEntries(s, pos, n) && EntriesPlaced(h, s, pos, n, st.book) && Ordered(st)
  }

  lemma {:induction false} NextLoaded(h: Hasher, st: Manager, s: seq<Token>, pos: nat, n: nat, next: nat,
                                      r: Manager)
    requires Loaded(h, s, pos, n, st) && pos + n < |s| && s[pos + n].Entry?
    requires next == n + 1 && r == Replace(h, Enter(st, n, FromDisk(s[pos + n])), n)
    ensures Loaded(h, s, pos, next, r)
  {
    var info := FromDisk(s[pos + n]);
    NextPlaced(h, st, s, pos, n, r);
    EnterOrdered(st, n, info);
    ReplaceOrdered(h, Enter(st, n, info), n);
  }

  lemma {:induction false} NoneLoaded(h: Hasher, s: seq<Token>, pos: nat, st: Manager)
    requires pos <= |s| && st == ClearedWith(st.nNew, st.nTried)
    ensures Loaded(h, s, pos, 0, st)
  {
  }

  lemma {:induction false} LegacyLoaded(h: Hasher, st: Manager, s: seq<Token>, pos: nat, n: nat, r: Manager)
    requires pos <= |s| && st == ClearedWith(st.nNew, st.nTried) && LoadNew(h, st, s, pos, n, false) == Some(r)
    ensures Loaded(h, s, pos, n, r)
  {
    if n == 0 {
      NoneLoaded(h, s, pos, st);
    } else {
      var before: nat := n - 1;
      var r1 := LoadNewLast(h, st, s, pos, before, n, r);
      LegacyLoaded(h, st, s, pos, before, r1);
      NextLoaded(h, r1, s, pos, before, n, r);
    }
  }

  // ---------------------------------------------------------------------------
  // The tried entries and the buckets
  // ---------------------------------------------------------------------------

  /** Entries from `from` on are tried ones, with ids in use. */
  ghost predicate TriedFrom(st: Manager, from: int) {
    forall id :: id in st.book.info ==> id < st.nIdCount && (id >= from ==> st.book.info[id].fInTried)
  }

  /** Reading tried entries leaves the new ones and their table alone. */
  lemma {:induction false} TriedApart(h: Hasher, st: Manager, s: seq<Token>, pos: nat, n: nat, r: Manager)
    requires Ordered(st) && TriedFrom(st, st.nIdCount) && LoadTried(h, st, s, pos, n) == Some(r)
    ensures Ordered(r) && r.nIdCount >= st.nIdCount && TriedFrom(r, st.nIdCount)
    ensures r.book.newTab == st.book.newTab
    ensures forall id :: id < st.nIdCount ==> N.Entry(r.book, id) == N.Entry(st.book, id)
  {
    if n > 0 {
      var r1 := LoadTried(h, st, s, pos, n - 1).value;
      TriedApart(h, st, s, pos, n - 1, r1);
      var info := FromDisk(s[pos + n - 1]);
      EnterOrdered(r1, r1.nIdCount, info.(fInTried := true));
    }
  }

  function TriedPlaceOf(h: Hasher, s: seq<Token>, pos: nat, i: nat): Slot
    requires pos + i < |s| && s[pos + i].Entry?
  {
    N.TriedSlotOf(h, s[pos + i].addr.service)
  }

  /** Which of the first `n` tried entries have a tried slot that no entry before them has. */
  ghost function TriedFirsts(h: Hasher, s: seq<Token>, pos: nat, n: nat): set<nat>
    requires AllEntries(s, pos, n)
  {
    set i: nat | i < n && forall j :: 0 <= j < i ==> TriedPlaceOf(h, s, pos, j) != TriedPlaceOf(h, s, pos, i)
  }

  /** The i-th tried entry holds its slot, under the next free id, if it is the first with that slot. */
  ghost predicate TriedPlaced(h: Hasher, s: seq<Token>, pos: nat, i: nat, from: int, b: Book)
    requires AllEntries(s, pos, i + 1)
  {
    var k := TriedPlaceOf(h, s, pos, i);
    var id := from + |TriedFirsts(h, s, pos, i)|;
    && k in b.triedTab
    && (i in TriedFirsts(h, s, pos, i + 1) ==>
          && b.triedTab[k] == id
          && N.Entry(b, id) == Some(ReadEntry(s, pos, i, 0).(fInTried := true)))
  }

  /** Only slots of the first `n` tried entries are taken. */
  ghost predicate SlotsFrom(h: Hasher, s: seq<Token>, pos: nat, n: nat, t: Table)
    requires AllEntries(s, pos, n)
  {
    forall k :: k in t ==> t[k] >= 0 && exists i :: 0 <= i < n && TriedPlaceOf(h, s, pos, i) == k
  }

  /** The first `n` tried entries are placed; those lost are not counted. */
  ghost predicate TriedPlacedTo(h: Hasher, s: seq<Token>, pos: nat, n: nat, st: Manager, r: Manager) {
    && AllEntries(s, pos, n)
    && (forall i :: 0 <= i < n ==> TriedPlaced(h, s, pos, i, st.nIdCount, r.book))
    && SlotsFrom(h, s, pos, n, r.book.triedTab)
    && r.nIdCount == st.nIdCount + |TriedFirsts(h, s, pos, n)|
    && r.nTried == st.nTried - (n - |TriedFirsts(h, s, pos, n)|)
  }

  lemma {:induction false} NextFirsts(h: Hasher, s: seq<Token>, pos: nat, n: nat, next: nat)
    requires next == n + 1 && AllEntries(s, pos, next)
    ensures TriedFirsts(h, s, pos, next)
            == TriedFirsts(h, s, pos, n) + if n in TriedFirsts(h, s, pos, next) then {n} else {}
    ensures n in TriedFirsts(h, s, pos, next)
       <==> forall j :: 0 <= j < n ==> TriedPlaceOf(h, s, pos, j) != TriedPlaceOf(h, s, pos, n)
  {
  }

  lemma {:induction false} FewerFirsts(h: Hasher, s: seq<Token>, pos: nat, i: nat, n: nat)
    requires i < n && AllEntries(s, pos, n) && i in TriedFirsts(h, s, pos, i + 1)
    ensures |TriedFirsts(h, s, pos, i)| < |TriedFirsts(h, s, pos, n)|
  {
    var low := TriedFirsts(h, s, pos, i) + {i};
    assert low <= TriedFirsts(h, s, pos, n);
    Fewer(low, TriedFirsts(h, s, pos, n));
  }

  lemma {:induction false} Fewer(x: set<nat>, y: set<nat>)
    requires x <= y
    ensures |x| <= |y|
  {
    assert |x + (y - x)| == |x| + |y - x| && x + (y - x) == y;
  }

  /** Whether the next tried entry finds its slot free. */
  lemma {:induction false} FreeIfFirst(h: Hasher, st: Manager, s: seq<Token>, pos: nat, n: nat, next: nat, r1: Manager)
    requires TriedPlacedTo(h, s, pos, n, st, r1) && next == n + 1 && AllEntries(s, pos, next)
    ensures n in TriedFirsts(h, s, pos, next) <==> TriedPlaceOf(h, s, pos, n) !in r1.book.triedTab
  {
    var k := TriedPlaceOf(h, s, pos, n);
    NextFirsts(h, s, pos, n, next);
    if k !in r1.book.triedTab {
      forall j | 0 <= j < n ensures TriedPlaceOf(h, s, pos, j) != k {
        assert TriedPlaced(h, s, pos, j, st.nIdCount, r1.book);
      }
    }
  }

  /** An entry placed before stays where it is. */
  lemma {:induction false} StillTried(h: Hasher, s: seq<Token>, pos: nat, i: nat, n: nat, from: int, r1: Manager,
                                      info: AddrInfo)
    requires i < n && AllEntries(s, pos, n) && TriedPlaced(h, s, pos, i, from, r1.book)
    requires r1.nIdCount == from + |TriedFirsts(h, s, pos, n)|
    requires forall k :: k in r1.book.triedTab ==> r1.book.triedTab[k] >= 0
    ensures TriedPlaced(h, s, pos, i, from, PutTried(h, r1, info).book)
  {
    if i in TriedFirsts(h, s, pos, i + 1) { FewerFirsts(h, s, pos, i, n); }
  }

  /** The next one. */
  lemma {:induction false} NowTried(h: Hasher, s: seq<Token>, pos: nat, n: nat, next: nat, from: int, r1: Manager)
    requires next == n + 1 && AllEntries(s, pos, next)
    requires n in TriedFirsts(h, s, pos, next) <==> TriedPlaceOf(h, s, pos, n) !in r1.book.triedTab
    requires r1.nIdCount == from + |TriedFirsts(h, s, pos, n)|
    requires forall k :: k in r1.book.triedTab ==> r1.book.triedTab[k] >= 0
    ensures var r := PutTried(h, r1, FromDisk(s[pos + n]));
            && TriedPlaced(h, s, pos, n, from, r.book)
            && r.nIdCount == from + |TriedFirsts(h, s, pos, next)|
            && r.nTried == r1.nTried - if n in TriedFirsts(h, s, pos, next) then 0 else 1
  {
    NextFirsts(h, s, pos, n, next);
    assert TriedPlaceOf(h, s, pos, n) == h.TriedSlot(FromDisk(s[pos + n]).addr.service);
  }

  lemma {:induction false} NextTried(h: Hasher, st: Manager, s: seq<Token>, pos: nat, n: nat, next: nat, r1: Manager,
                                     r: Manager)
    requires st.nIdCount >= 0 && TriedPlacedTo(h, s, pos, n, st, r1)
    requires next == n + 1 && AllEntries(s, pos, next) && r == PutTried(h, r1, FromDisk(s[pos + n]))
    ensures TriedPlacedTo(h, s, pos, next, st, r)
  {
    FreeIfFirst(h, st, s, pos, n, next, r1);
    NowTried(h, s, pos, n, next, st.nIdCount, r1);
    NextFirsts(h, s, pos, n, next);
    forall i | 0 <= i < n ensures TriedPlaced(h, s, pos, i, st.nIdCount, r.book) {
      StillTried(h, s, pos, i, n, st.nIdCount, r1, FromDisk(s[pos + n]));
    }
    NextSlots(h, s, pos, n, next, r1);
  }

  lemma {:induction false} NextSlots(h: Hasher, s: seq<Token>, pos: nat, n: nat, next: nat, r1: Manager)
    requires next == n + 1 && AllEntries(s, pos, next) && r1.nIdCount >= 0 && SlotsFrom(h, s, pos, n, r1.book.triedTab)
    ensures SlotsFrom(h, s, pos, next, PutTried(h, r1, FromDisk(s[pos + n])).book.triedTab)
  {
    var t := PutTried(h, r1, FromDisk(s[pos + n])).book.triedTab;
    forall k | k in t ensures t[k] >= 0 && exists i :: 0 <= i < next && TriedPlaceOf(h, s, pos, i) == k {
      if k in r1.book.triedTab {
        var i :| 0 <= i < n && TriedPlaceOf(h, s, pos, i) == k;
      } else {
        assert TriedPlaceOf(h, s, pos, n) == k;
      }
    }
  }

  /** Reading tried entries into an empty table: the first with each slot is kept there, the others are lost and no
      longer counted. */
  lemma {:induction false} TriedRead(h: Hasher, st: Manager, s: seq<Token>, pos: nat, n: nat, r: Manager)
    requires pos <= |s| && st.nIdCount >= 0 && st.book.triedTab == map[] && LoadTried(h, st, s, pos, n) == Some(r)
    ensures TriedPlacedTo(h, s, pos, n, st, r)
  {
    if n == 0 {
      assert TriedFirsts(h, s, pos, 0) == {};
    } else {
      var before: nat := n - 1;
      var r1 := LoadTried(h, st, s, pos, before).value;
      TriedRead(h, st, s, pos, before, r1);
      NextTried(h, st, s, pos, before, n, r1, r);
    }
  }

  /** The indices in the buckets are read and ignored. */
  lemma {:induction false} IndicesIgnored(h: Hasher, st: Manager, s: seq<Token>, pos: nat, n: nat, bucket: nat)
    ensures LoadIndices(h, st, s, pos, n, bucket, false) in {None, Some(st)}
  {
    if n > 0 { IndicesIgnored(h, st, s, pos, n - 1, bucket); }
  }

  lemma {:induction false} BucketsIgnored(h: Hasher, st: Manager, s: seq<Token>, pos: nat, n: nat)
    ensures LoadBuckets(h, st, s, pos, n, false).Some? ==> LoadBuckets(h, st, s, pos, n, false).value.0 == st
  {
    if n > 0 {
      BucketsIgnored(h, st, s, pos, n - 1);
      var before := LoadBuckets(h, st, s, pos, n - 1, false);
      if before.Some? && before.value.1 < |s| && s[before.value.1].Num? && s[before.value.1].n > 0 {
        IndicesIgnored(h, st, s, before.value.1 + 1, s[before.value.1].n, n - 1);
      }
    }
  }

  // ---------------------------------------------------------------------------
  // Pruning
  // ---------------------------------------------------------------------------

  predicate Unreferenced(e: Option<AddrInfo>) {
    e.Some? && !e.value.fInTried && e.value.nRefCount == 0
  }

  lemma {:induction false} DeleteIs(st: Manager, id: int)
    requires Ordered(st) && id in st.book.info
    ensures var r := DeleteFrom(st, id);
            && Ordered(r) && r.book.newTab == st.book.newTab && r.book.triedTab == st.book.triedTab
            && forall i :: N.Entry(r.book, i) == if i == id then None else N.Entry(st.book, i)
  {
    var r, st1 := DeleteFrom(st, id), SwapEnd(st, st.nRandomPos[id]);
    assert id in st.nRandomPos;
    assert M.RandomOk(st1.nRandomPos, st1.vRandom);
    assert st1.vRandom[|st1.vRandom| - 1] == id;
  }

  /** `r` is `st` without the untried entries below `n` that have no references. */
  ghost predicate Pruned(st: Manager, n: nat, r: Manager) {
    && Ordered(r) && r.book.newTab == st.book.newTab && r.book.triedTab == st.book.triedTab
    && forall i :: N.Entry(r.book, i)
         == if 0 <= i < n && Unreferenced(N.Entry(st.book, i)) then None else N.Entry(st.book, i)
  }

  lemma {:induction false} PruneOne(st: Manager, n: nat, r: Manager)
    requires Pruned(st, n, r)
    ensures Pruned(st, n + 1, if Unreferenced(N.Entry(r.book, n)) then DeleteFrom(r, n) else r)
  {
    if Unreferenced(N.Entry(r.book, n)) { DeleteIs(r, n); }
  }

  /** Pruning erases exactly the untried entries without references. */
  lemma {:induction false} PruneIs(st: Manager, n: nat)
    requires Ordered(st)
    ensures Pruned(st, n, Prune(st, n))
  {
    if n > 0 {
      PruneIs(st, n - 1);
      PruneOne(st, n - 1, Prune(st, n - 1));
    }
  }

  // ---------------------------------------------------------------------------
  // The whole stream
  // ---------------------------------------------------------------------------

  /** The i-th new entry after reading: kept, with one reference at its default place, if it is the first with that
      place; otherwise lost. */
  ghost predicate EntryKept(h: Hasher, s: seq<Token>, i: nat, b: Book)
    requires AllEntries(s, 6, i + 1)
  {
    && N.Entry(b, i) == (if First(h, s, 6, i) then Some(ReadEntry(s, 6, i, 1)) else None)
    && PlaceOf(h, s, 6, i) in b.newTab && (b.newTab[PlaceOf(h, s, 6, i)] == i <==> First(h, s, 6, i))
  }

  lemma {:induction false} BodyKept(h: Hasher, st: Manager, s: seq<Token>, nUBuckets: int, m: Manager)
    requires |s| >= 6 && st == ClearedWith(st.nNew, st.nTried) && st.nNew >= 0
    requires ParseBody(h, st, s, nUBuckets, false) == Some(m)
    ensures AllEntries(s, 6, st.nNew)
    ensures forall i :: 0 <= i < st.nNew ==> EntryKept(h, s, i, m.book)
    ensures forall k :: k in m.book.newTab ==>
              0 <= m.book.newTab[k] < st.nNew && PlaceOf(h, s, 6, m.book.newTab[k]) == k
  {
    var st1, st2 := BodyParts(h, st, s, nUBuckets, m);
    PruneIs(st2, st2.nIdCount);
    forall i | 0 <= i < st.nNew ensures EntryKept(h, s, i, m.book) {
      KeptAfterPruning(h, s, i, st1.book, st2.book, m.book);
    }
  }

  lemma {:induction false} KeptAfterPruning(h: Hasher, s: seq<Token>, i: nat, b1: Book, b2: Book, b: Book)
    requires AllEntries(s, 6, i + 1) && Placed(h, s, 6, i, b1) && N.Entry(b2, i) == N.Entry(b1, i)
    requires b.newTab == b1.newTab
    requires N.Entry(b, i) == if Unreferenced(N.Entry(b2, i)) then None else N.Entry(b2, i)
    ensures EntryKept(h, s, i, b)
  {
  }

  /** The states after the new entries and before pruning. */
  lemma {:induction false} BodyParts(h: Hasher, st: Manager, s: seq<Token>, nUBuckets: int, m: Manager)
    returns (st1: Manager, st2: Manager)
    requires |s| >= 6 && st == ClearedWith(st.nNew, st.nTried) && st.nNew >= 0
    requires ParseBody(h, st, s, nUBuckets, false) == Some(m)
    ensures Loaded(h, s, 6, st.nNew, st1)
    ensures Ordered(st2) && st2.nIdCount >= st.nNew && m == Prune(st2, st2.nIdCount)
    ensures st2.book.newTab == st1.book.newTab
    ensures forall id :: id < st.nNew ==> N.Entry(st2.book, id) == N.Entry(st1.book, id)
  {
    st1 := LoadNew(h, st, s, 6, st.nNew, false).value;
    LegacyLoaded(h, st, s, 6, st.nNew, st1);
    var ready := st1.(nIdCount := st.nNew);
    var tried := 6 + st.nNew;
    st2 := LoadTried(h, ready, s, tried, st.nTried).value;
    TriedLoaded(h, ready, s, tried, st.nTried, st2);
    TableIgnored(h, st2, s, tried + Natural(st.nTried), nUBuckets, m);
  }

  lemma {:induction false} TableIgnored(h: Hasher, st: Manager, s: seq<Token>, pos: nat, nUBuckets: int, m: Manager)
    requires st.nIdCount >= 0 && ParseTable(h, st, s, pos, nUBuckets, false) == Some(m)
    ensures m == Prune(st, st.nIdCount)
  {
    if nUBuckets > 0 { BucketsIgnored(h, st, s, pos, nUBuckets); }
  }

  /** The same for a count of tried entries that may be negative. */
  lemma {:induction false} TriedLoaded(h: Hasher, st: Manager, s: seq<Token>, pos: nat, n: int, r: Manager)
    requires Ordered(st) && TriedFrom(st, st.nIdCount) && LoadTried(h, st, s, pos, n) == Some(r)
    ensures Ordered(r) && r.nIdCount >= st.nIdCount && r.book.newTab == st.book.newTab
    ensures forall id :: id < st.nIdCount ==> N.Entry(r.book, id) == N.Entry(st.book, id)
  {
    if n > 0 { TriedApart(h, st, s, pos, n, r); }
  }

  /** Reading such a stream keeps exactly those new entries whose default place no entry before them has, each with one
      reference there. */
  lemma {:induction false} LegacyRead(keyed: nat -> Hasher, s: seq<Token>, key: nat, m: Manager)
    requires Parse(keyed, s) == Some((key, m)) && s[3].n >= 0
    requires s[0].n != 1 || s[5].n != 0x4000_0400
    ensures AllEntries(s, 6, s[3].n)
    ensures forall i :: 0 <= i < s[3].n ==> EntryKept(keyed(key), s, i, m.book)
    ensures forall k :: k in m.book.newTab ==>
              0 <= m.book.newTab[k] < s[3].n && PlaceOf(keyed(key), s, 6, m.book.newTab[k]) == k
  {
    var nUBuckets := if s[0].n != 0 then Flip(s[5].n) else s[5].n;
    BodyKept(keyed(s[2].k), ClearedWith(s[3].n, s[4].n), s, nUBuckets, m);
  }
}
