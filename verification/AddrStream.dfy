/** CAddrMan::Serialize and Unserialize as loops. */
module AddrStream {
  import opened AddrBook
  import opened AddrCodec
  import opened Coins
  import M = AddrMan
  import R = AddrRoundTrip

  // ---------------------------------------------------------------------------
  // Serialize
  // ---------------------------------------------------------------------------

  ghost function Value(am: M.AddrMan): Manager
    reads am
  {
    Manager(am.TheBook(), am.mapAddr, am.vRandom, am.nRandomPos, am.nNew, am.nTried, am.nIdCount)
  }

  lemma {:induction false} ValidConsistent(am: M.AddrMan)
    requires am.Valid()
    ensures Consistent(am.h, Value(am))
  {
  }

  /** A counter that is not reached while an entry is left. */
  predicate Fits(m: InfoMap, tried: bool, counter: int) {
    forall id :: id in m && Listed(m, tried, id) ==> Rank(m, tried, id) < counter
  }

  lemma {:induction false} CountersFit(h: Hasher, am: Manager)
    requires Consistent(h, am)
    ensures Fits(am.book.info, false, am.nNew) && Fits(am.book.info, true, am.nTried)
  {
    R.CountsWritten(h, am);
    forall id, tried | id in am.book.info && Listed(am.book.info, tried, id)
      ensures Rank(am.book.info, tried, id) < if tried then am.nTried else am.nNew
    {
      R.IdAtRank(am.book.info, tried, id, am.nIdCount);
    }
  }

  ghost predicate RanksKnown(m: InfoMap, tried: bool, mapUnkIds: map<int, int>, n: int) {
    forall id :: id in m && id < n ==> id in mapUnkIds && mapUnkIds[id] == Rank(m, tried, id)
  }

  /** The walk over mapInfo, in ascending order, that writes the entries with references, or the tried ones. */
  method WriteEntries(m: InfoMap, tried: bool, nIdCount: nat, counter: int) returns (s: seq<Token>,
                                                                                       mapUnkIds: map<int, int>)
    requires (forall id :: id in m ==> 0 <= id < nIdCount) && Fits(m, tried, counter)
    ensures s == Entries(m, tried, nIdCount) && RanksKnown(m, tried, mapUnkIds, nIdCount)
  {
    s, mapUnkIds := [], map[];
    var nIds := 0;
    for id := 0 to nIdCount
      invariant s == Entries(m, tried, id) && nIds == Rank(m, tried, id)
      invariant RanksKnown(m, tried, mapUnkIds, id)
    {
      if id in m {
        mapUnkIds := mapUnkIds[id := nIds];
        var info := m[id];
        if if tried then info.fInTried else info.nRefCount != 0 {
          assert nIds != counter;
          s := s + [Disk(info)];
          nIds := nIds + 1;
        }
      }
    }
  }

  /** What a cell of the new table says. */
  ghost predicate CellOk(am: M.AddrMan, bucket: nat, i: nat)
    requires bucket < am.vvNew.Length0 && i < am.vvNew.Length1
    reads am, am.vvNew
  {
    var id := am.vvNew[bucket, i];
    && (id != -1 <==> Slot(bucket, i) in am.newTab)
    && (id != -1 ==> am.newTab[Slot(bucket, i)] == id && 0 <= id < am.nIdCount && id in am.mapInfo)
  }

  lemma {:induction false} CellIs(am: M.AddrMan, bucket: nat, i: nat)
    requires am.Valid() && bucket < NEW_BUCKET_COUNT && i < BUCKET_SIZE
    ensures CellOk(am, bucket, i)
  {
  }

  method CountBucket(am: M.AddrMan, bucket: nat) returns (nSize: nat)
    requires am.Valid() && bucket < NEW_BUCKET_COUNT
    ensures nSize == |Indices(am.mapInfo, am.newTab, bucket, BUCKET_SIZE)|
  {
    nSize := 0;
    forall i | 0 <= i < BUCKET_SIZE ensures CellOk(am, bucket, i) {
      CellIs(am, bucket, i);
    }
    for i := 0 to BUCKET_SIZE
      invariant nSize == |Indices(am.mapInfo, am.newTab, bucket, i)|
    {
      assert CellOk(am, bucket, i);
      if am.vvNew[bucket, i] != -1 {
        nSize := nSize + 1;
      }
    }
  }

  method WriteIndices(am: M.AddrMan, mapUnkIds: map<int, int>, bucket: nat) returns (s: seq<Token>)
    requires am.Valid() && bucket < NEW_BUCKET_COUNT
    requires RanksKnown(am.mapInfo, false, mapUnkIds, am.nIdCount)
    ensures s == Indices(am.mapInfo, am.newTab, bucket, BUCKET_SIZE)
  {
    s := [];
    forall i | 0 <= i < BUCKET_SIZE ensures CellOk(am, bucket, i) {
      CellIs(am, bucket, i);
    }
    for i := 0 to BUCKET_SIZE
      invariant s == Indices(am.mapInfo, am.newTab, bucket, i)
    {
      assert CellOk(am, bucket, i);
      var id := am.vvNew[bucket, i];
      if id != -1 {
        assert mapUnkIds[id] == Rank(am.mapInfo, false, id);
        s := s + [Num(mapUnkIds[id])];
      }
    }
  }

  method WriteBuckets(am: M.AddrMan, mapUnkIds: map<int, int>, count: nat) returns (s: seq<Token>)
    requires am.Valid() && count <= NEW_BUCKET_COUNT && RanksKnown(am.mapInfo, false, mapUnkIds, am.nIdCount)
    ensures s == Buckets(am.mapInfo, am.newTab, count)
  {
    s := [];
    for bucket := 0 to count
      invariant s == Buckets(am.mapInfo, am.newTab, bucket)
    {
      var nSize := CountBucket(am, bucket);
      var indices := WriteIndices(am, mapUnkIds, bucket);
      s := s + ([Num(nSize)] + indices);
    }
  }

  /** Serialize: neither of its two asserts fires, and it writes the stream. */
  method Serialize(am: M.AddrMan, key: nat) returns (s: seq<Token>)
    requires am.Valid()
    ensures s == Stream(key, Value(am))
  {
    s := [Num(VERSION), Num(KEY_SIZE), Key(key), Num(am.nNew), Num(am.nTried), Num(Flip(NEW_BUCKET_COUNT))];
    CountersFit(am.h, Value(am));
    var newEntries, mapUnkIds := WriteEntries(am.mapInfo, false, am.nIdCount, am.nNew);
    var triedEntries, _ := WriteEntries(am.mapInfo, true, am.nIdCount, am.nTried);
    var buckets := WriteBuckets(am, mapUnkIds, NEW_BUCKET_COUNT);
    s := s + newEntries + triedEntries + buckets;
  }

  // ---------------------------------------------------------------------------
  // Unserialize
  // ---------------------------------------------------------------------------

  /** A loop that has failed stays failed. */
  lemma {:induction false} NewFailed(h: Hasher, st: Manager, s: seq<Token>, pos: nat, n: int, m: int, usable: bool)
    requires n <= m && LoadNew(h, st, s, pos, n, usable) == None
    ensures LoadNew(h, st, s, pos, m, usable) == None
    decreases m - n
  {
    if n < m { NewFailed(h, st, s, pos, n, m - 1, usable); }
  }

  lemma {:induction false} TriedFailed(h: Hasher, st: Manager, s: seq<Token>, pos: nat, n: int, m: int)
    requires n <= m && LoadTried(h, st, s, pos, n) == None
    ensures LoadTried(h, st, s, pos, m) == None
    decreases m - n
  {
    if n < m { TriedFailed(h, st, s, pos, n, m - 1); }
  }

  lemma {:induction false} IndicesFailed(h: Hasher, st: Manager, s: seq<Token>, pos: nat, n: int, m: int, bucket: nat,
                                         usable: bool)
    requires n <= m && LoadIndices(h, st, s, pos, n, bucket, usable) == None
    ensures LoadIndices(h, st, s, pos, m, bucket, usable) == None
    decreases m - n
  {
    if n < m { IndicesFailed(h, st, s, pos, n, m - 1, bucket, usable); }
  }

  lemma {:induction false} BucketsFailed(h: Hasher, st: Manager, s: seq<Token>, pos: nat, n: int, m: int, usable: bool)
    requires n <= m && LoadBuckets(h, st, s, pos, n, usable) == None
    ensures LoadBuckets(h, st, s, pos, m, usable) == None
    decreases m - n
  {
    if n < m { BucketsFailed(h, st, s, pos, n, m - 1, usable); }
  }

  /** One iteration of the loop over the new entries. */
  method ReadNewOne(h: Hasher, ghost st0: Manager, s: seq<Token>, pos: nat, n: nat, ghost next: nat, usable: bool,
                    st: Manager) returns (r: Option<Manager>)
    requires next == n + 1 && LoadNew(h, st0, s, pos, n, usable) == Some(st)
    ensures r == LoadNew(h, st0, s, pos, next, usable)
  {
    if pos + n >= |s| || !s[pos + n].Entry? {
      return None;
    }
    var entered := Enter(st, n, FromDisk(s[pos + n]));
    if !usable {
      entered := Replace(h, entered, n);
    }
    return Some(entered);
  }

  method ReadNew(h: Hasher, st0: Manager, s: seq<Token>, pos: nat, nNew: int, usable: bool) returns (r: Option<Manager>)
    ensures r == LoadNew(h, st0, s, pos, nNew, usable)
  {
    r := Some(st0);
    var n := 0;
    while n < nNew
      invariant 0 <= n && (n <= nNew || n == 0) && r.Some? && r == LoadNew(h, st0, s, pos, n, usable)
    {
      r := ReadNewOne(h, st0, s, pos, n, n + 1, usable, r.value);
      if r.None? {
        NewFailed(h, st0, s, pos, n + 1, nNew, usable);
        return;
      }
      n := n + 1;
    }
  }

  method ReadTried(h: Hasher, st0: Manager, s: seq<Token>, pos: nat, nTried: int) returns (r: Option<Manager>)
    ensures r == LoadTried(h, st0, s, pos, nTried)
  {
    var st, n := st0, 0;
    while n < nTried
      invariant 0 <= n && (n <= nTried || n == 0) && LoadTried(h, st0, s, pos, n) == Some(st)
    {
      if pos + n >= |s| || !s[pos + n].Entry? {
        assert LoadTried(h, st0, s, pos, n + 1) == None;
        TriedFailed(h, st0, s, pos, n + 1, nTried);
        return None;
      }
      st := PutTried(h, st, FromDisk(s[pos + n]));
      n := n + 1;
    }
    return Some(st);
  }

  method ReadIndices(h: Hasher, st0: Manager, s: seq<Token>, pos: nat, nSize: int, bucket: nat, usable: bool)
    returns (r: Option<Manager>)
    ensures r == LoadIndices(h, st0, s, pos, nSize, bucket, usable)
  {
    var st, n := st0, 0;
    while n < nSize
      invariant 0 <= n && (n <= nSize || n == 0) && LoadIndices(h, st0, s, pos, n, bucket, usable) == Some(st)
    {
      if pos + n >= |s| || !s[pos + n].Num? {
        assert LoadIndices(h, st0, s, pos, n + 1, bucket, usable) == None;
        IndicesFailed(h, st0, s, pos, n + 1, nSize, bucket, usable);
        return None;
      }
      st := PutIndex(h, st, s[pos + n].n, bucket, usable);
      n := n + 1;
    }
    return Some(st);
  }

  method ReadBuckets(h: Hasher, st0: Manager, s: seq<Token>, pos: nat, nUBuckets: int, usable: bool)
    returns (r: Option<(Manager, nat)>)
    ensures r == LoadBuckets(h, st0, s, pos, nUBuckets, usable)
  {
    var st, at, bucket := st0, pos, 0;
    while bucket < nUBuckets
      invariant 0 <= bucket && (bucket <= nUBuckets || bucket == 0)
      invariant LoadBuckets(h, st0, s, pos, bucket, usable) == Some((st, at))
    {
      ghost var whole := LoadBuckets(h, st0, s, pos, bucket + 1, usable);
      assert whole == LoadBucket(h, st, s, at, bucket, usable);
      if at >= |s| || !s[at].Num? {
        BucketsFailed(h, st0, s, pos, bucket + 1, nUBuckets, usable);
        return None;
      }
      var nSize := s[at].n;
      var next := ReadIndices(h, st, s, at + 1, nSize, bucket, usable);
      if next == None {
        BucketsFailed(h, st0, s, pos, bucket + 1, nUBuckets, usable);
        return None;
      }
      st, at := next.value, at + 1 + Natural(nSize);
      bucket := bucket + 1;
    }
    return Some((st, at));
  }

  /** The walk that deletes new entries without references. */
  method PruneAll(st0: Manager, n: nat) returns (st: Manager)
    ensures st == Prune(st0, n)
  {
    st := st0;
    for id := 0 to n
      invariant st == Prune(st0, id)
    {
      if id in st.book.info && !st.book.info[id].fInTried && st.book.info[id].nRefCount == 0 {
        st := DeleteFrom(st, id);
      }
    }
  }

  /** Everything after the header. */
  method ReadTable(h: Hasher, st: Manager, s: seq<Token>, pos: nat, nUBuckets: int, usable: bool)
    returns (r: Option<Manager>)
    ensures r == ParseTable(h, st, s, pos, nUBuckets, usable)
  {
    var st1 := ReadBuckets(h, st, s, pos, nUBuckets, usable);
    if st1 == None {
      return None;
    }
    var pruned := PruneAll(st1.value.0, Natural(st1.value.0.nIdCount));
    return Some(pruned);
  }

  method ReadBody(h: Hasher, st: Manager, s: seq<Token>, nUBuckets: int, usable: bool) returns (r: Option<Manager>)
    ensures r == ParseBody(h, st, s, nUBuckets, usable)
  {
    var st1 := ReadNew(h, st, s, 6, st.nNew, usable);
    if st1 == None {
      return None;
    }
    var tried := 6 + Natural(st.nNew);
    var st2 := ReadTried(h, st1.value.(nIdCount := st.nNew), s, tried, st.nTried);
    if st2 == None {
      return None;
    }
    r := ReadTable(h, st2.value, s, tried + Natural(st.nTried), nUBuckets, usable);
  }

  /** Unserialize into a fresh manager. */
  method Unserialize(keyed: nat -> Hasher, s: seq<Token>) returns (r: Option<(nat, Manager)>)
    ensures r == Parse(keyed, s)
  {
    if |s| < 6 || !s[0].Num? || !s[1].Num? || !s[2].Key? || !s[3].Num? || !s[4].Num? || !s[5].Num? {
      return None;
    }
    if s[1].n != KEY_SIZE {
      return None;
    }
    var nUBuckets := s[5].n;
    if s[0].n != 0 {
      nUBuckets := Flip(nUBuckets);
    }
    var usable := s[0].n == VERSION && nUBuckets == NEW_BUCKET_COUNT;
    var st := ReadBody(keyed(s[2].k), ClearedWith(s[3].n, s[4].n), s, nUBuckets, usable);
    if st == None {
      return None;
    }
    return Some((s[2].k, st.value));
  }

  /** Writing and reading back, by the two methods. */
  method WriteAndRead(am: M.AddrMan, keyed: nat -> Hasher, key: nat) returns (r: Option<(nat, Manager)>)
    requires am.Valid() && am.h == keyed(key)
    ensures r == Some((key, R.Renumbered(Value(am)))) && Consistent(am.h, r.value.1)
  {
    var s := Serialize(am, key);
    ValidConsistent(am);
    R.RoundTrip(keyed, key, Value(am));
    R.RenumberedConsistent(am.h, Value(am));
    r := Unserialize(keyed, s);
  }
}
