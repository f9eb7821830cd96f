/** CAddrMan: the bucket arrays and the indexes over the entries. */
module AddrMan {
  import opened AddrBook
  import AddrMeaning
  import Powers

  const GETADDR_MAX_PCT: nat := 23
  const GETADDR_MAX: nat := 2500

  // ---------------------------------------------------------------------------
  // The indexes
  // ---------------------------------------------------------------------------

  /** vRandom and nRandomPos are inverse to each other. */
  ghost predicate RandomOk(pos: map<int, int>, r: seq<int>) {
    && (forall i :: 0 <= i < |r| ==> r[i] in pos && pos[r[i]] == i)
    && (forall id :: id in pos ==> 0 <= pos[id] < |r| && r[pos[id]] == id)
  }

  ghost predicate SameIds(m: InfoMap, pos: map<int, int>) {
    forall id :: id in m <==> id in pos
  }

  ghost predicate IdsOk(m: InfoMap, nIdCount: int) {
    nIdCount >= 0 && forall id :: id in m ==> 0 <= id < nIdCount
  }

  ghost function IdsWith(m: InfoMap, tried: bool): set<int> {
    set id | id in m && m[id].fInTried == tried
  }

  ghost predicate CountsOk(m: InfoMap, nNew: int, nTried: int) {
    nNew == |IdsWith(m, false)| && nTried == |IdsWith(m, true)|
  }

  lemma {:induction false} CardAfter(s: set<int>, x: int, s': set<int>, add: bool)
    requires forall i :: i in s' <==> (i in s && i != x) || (add && i == x)
    ensures |s'| == |s| + (if add then 1 else 0) - (if x in s then 1 else 0)
  {
    var rest := s - {x};
    assert |rest| == |s| - (if x in s then 1 else 0);
    if add {
      assert forall i :: i in s' <==> i in rest + {x};
      assert s' == rest + {x};
    } else {
      assert forall i :: i in s' <==> i in rest;
      assert s' == rest;
    }
  }

  /** Counting entries again after one is put in, changed or taken out. */
  lemma {:induction false} CountsAfterPut(m: InfoMap, id: int, info: AddrInfo, nNew: int, nTried: int)
    requires CountsOk(m, nNew, nTried)
    ensures CountsOk(m[id := info],
                     nNew + (if info.fInTried then 0 else 1) - (if id in m && !m[id].fInTried then 1 else 0),
                     nTried + (if info.fInTried then 1 else 0) - (if id in m && m[id].fInTried then 1 else 0))
  {
    CardAfter(IdsWith(m, false), id, IdsWith(m[id := info], false), !info.fInTried);
    CardAfter(IdsWith(m, true), id, IdsWith(m[id := info], true), info.fInTried);
  }

  lemma {:induction false} CountsAfterErase(m: InfoMap, id: int, nNew: int, nTried: int)
    requires CountsOk(m, nNew, nTried) && id in m && !m[id].fInTried
    ensures CountsOk(m - {id}, nNew - 1, nTried)
  {
    CardAfter(IdsWith(m, false), id, IdsWith(m - {id}, false), false);
    CardAfter(IdsWith(m, true), id, IdsWith(m - {id}, true), false);
  }

  lemma {:induction false} AddrAfterErase(m: InfoMap, a: map<NetAddr, int>, id: int)
    requires AddrOk(m, a) && id in m
    ensures AddrOk(m - {id}, a - {m[id].addr.service.ip})
  {
  }

  lemma {:induction false} SameRef(m: InfoMap, id: int, n: int)
    requires id in m && m[id].nRefCount == n
    ensures SetRef(m, id, n) == m
  {
  }

  /** The array says what the table says, with -1 for an empty slot. */
  ghost predicate TableIs(v: array2<int>, t: Table)
    reads v
  {
    && (forall b, p :: 0 <= b < v.Length0 && 0 <= p < v.Length1 ==>
          v[b, p] == if Slot(b, p) in t then t[Slot(b, p)] else -1)
    && (forall k :: k in t ==> k.bucket < v.Length0 && k.pos < v.Length1 && t[k] >= 0)
  }

  class AddrMan {
    const h: Hasher
    var nIdCount: int
    var mapInfo: InfoMap
    var mapAddr: map<NetAddr, int>
    var vRandom: seq<int>
    var nRandomPos: map<int, int>
    var nTried: int
    var nNew: int
    const vvNew: array2<int>
    const vvTried: array2<int>
    /** The tables that the arrays hold. */
    ghost var newTab: Table
    ghost var triedTab: Table

    ghost function TheBook(): Book
      reads this`mapInfo, this`newTab, this`triedTab
    {
      Book(mapInfo, newTab, triedTab)
    }

    ghost predicate Tables()
      reads this`newTab, this`triedTab, vvNew, vvTried
    {
      && vvNew.Length0 == NEW_BUCKET_COUNT && vvNew.Length1 == BUCKET_SIZE
      && vvTried.Length0 == TRIED_BUCKET_COUNT && vvTried.Length1 == BUCKET_SIZE
      && vvNew != vvTried
      && TableIs(vvNew, newTab) && TableIs(vvTried, triedTab)
    }

    ghost predicate Listed()
      reads this`mapInfo, this`nRandomPos, this`vRandom
    {
      RandomOk(nRandomPos, vRandom) && SameIds(mapInfo, nRandomPos)
    }

    /** The indexes fit the entries, while `off` untried ids are not counted. */
    ghost predicate Indexes(off: int)
      reads this`mapInfo, this`nRandomPos, this`vRandom, this`mapAddr, this`nIdCount, this`nNew, this`nTried
    {
      && Listed()
      && AddrOk(mapInfo, mapAddr)
      && IdsOk(mapInfo, nIdCount)
      && CountsOk(mapInfo, nNew + off, nTried)
    }

    /** The invariant between operations. */
    ghost predicate Valid()
      reads this, vvNew, vvTried
    {
      Tables() && Indexes(0) && BookOk(h, TheBook(), {})
    }

    /** Clear, on fresh arrays. */
    constructor (h: Hasher)
      ensures Valid() && this.h == h && mapInfo == map[] && fresh(vvNew) && fresh(vvTried)
    {
      this.h := h;
      nIdCount, nTried, nNew := 0, 0, 0;
      mapInfo, mapAddr, vRandom, nRandomPos := map[], map[], [], map[];
      newTab, triedTab := map[], map[];
      vvNew := new int[NEW_BUCKET_COUNT, BUCKET_SIZE]((b, p) => -1);
      vvTried := new int[TRIED_BUCKET_COUNT, BUCKET_SIZE]((b, p) => -1);
      new;
      assert IdsWith(mapInfo, false) == {} && IdsWith(mapInfo, true) == {};
    }

    method SwapRandom(nRndPos1: nat, nRndPos2: nat)
      requires Listed() && nRndPos1 < |vRandom| && nRndPos2 < |vRandom|
      modifies this`vRandom, this`nRandomPos
      ensures Listed()
      ensures vRandom == old(vRandom)[nRndPos1 := old(vRandom)[nRndPos2]][nRndPos2 := old(vRandom)[nRndPos1]]
    {
      if nRndPos1 == nRndPos2 {
        return;
      }
      var nId1, nId2 := vRandom[nRndPos1], vRandom[nRndPos2];
      assert nId1 in mapInfo && nId2 in mapInfo;
      nRandomPos := nRandomPos[nId1 := nRndPos2];
      nRandomPos := nRandomPos[nId2 := nRndPos1];
      vRandom := vRandom[nRndPos1 := nId2];
      vRandom := vRandom[nRndPos2 := nId1];
    }

    /** Swaps an id to the end of vRandom and takes it out. */
    method Unlist(nId: int)
      requires Listed() && nId in mapInfo
      modifies this`vRandom, this`nRandomPos
      ensures RandomOk(nRandomPos, vRandom) && SameIds(mapInfo - {nId}, nRandomPos)
    {
      SwapRandom(nRandomPos[nId], |vRandom| - 1);
      vRandom := vRandom[..|vRandom| - 1];
      nRandomPos := nRandomPos - {nId};
    }

    /** Takes an untried id out of everything but vRandom and its positions. */
    method Forget(nId: int, ghost off: int)
      requires AddrOk(mapInfo, mapAddr) && IdsOk(mapInfo, nIdCount) && CountsOk(mapInfo, nNew + off, nTried)
      requires nId in mapInfo && !mapInfo[nId].fInTried
      modifies this`mapAddr, this`mapInfo, this`nNew
      ensures AddrOk(mapInfo, mapAddr) && IdsOk(mapInfo, nIdCount) && CountsOk(mapInfo, nNew + off, nTried)
      ensures mapInfo == old(mapInfo) - {nId}
    {
      CountsAfterErase(mapInfo, nId, nNew + off, nTried);
      AddrAfterErase(mapInfo, mapAddr, nId);
      mapAddr := mapAddr - {mapInfo[nId].addr.service.ip};
      mapInfo := mapInfo - {nId};
      nNew := nNew - 1;
    }

    method Delete(nId: int, ghost off: int)
      requires Indexes(off)
      requires nId in mapInfo && !mapInfo[nId].fInTried && mapInfo[nId].nRefCount == 0
      modifies this`vRandom, this`nRandomPos, this`mapAddr, this`mapInfo, this`nNew
      ensures Indexes(off)
      ensures TheBook() == Erase(old(TheBook()), nId)
    {
      Unlist(nId);
      Forget(nId, off);
    }

    /** Changes an entry's statistics or reference count. */
    method SetInfo(nId: int, info: AddrInfo, ghost off: int)
      requires Indexes(off) && nId in mapInfo
      requires info.addr.service == mapInfo[nId].addr.service && info.fInTried == mapInfo[nId].fInTried
      modifies this`mapInfo
      ensures Indexes(off)
      ensures TheBook() == old(TheBook()).(info := old(mapInfo)[nId := info])
    {
      CountsAfterPut(mapInfo, nId, info, nNew + off, nTried);
      mapInfo := mapInfo[nId := info];
    }

    /** Writes one cell of the new table. */
    method SetNew(k: Slot, nId: int)
      requires Tables() && k.bucket < NEW_BUCKET_COUNT && k.pos < BUCKET_SIZE && nId >= -1
      modifies this`newTab, vvNew
      ensures Tables()
      ensures newTab == if nId == -1 then old(newTab) - {k} else old(newTab)[k := nId]
    {
      vvNew[k.bucket, k.pos] := nId;
      newTab := if nId == -1 then newTab - {k} else newTab[k := nId];
    }

    method SetTried(k: Slot, nId: int)
      requires Tables() && k.bucket < TRIED_BUCKET_COUNT && k.pos < BUCKET_SIZE && nId >= -1
      modifies this`triedTab, vvTried
      ensures Tables()
      ensures triedTab == if nId == -1 then old(triedTab) - {k} else old(triedTab)[k := nId]
    {
      vvTried[k.bucket, k.pos] := nId;
      triedTab := if nId == -1 then triedTab - {k} else triedTab[k := nId];
    }

    method ClearNew(nUBucket: nat, nUBucketPos: nat, ghost off: int)
      requires Tables() && Indexes(off)
      requires nUBucket < NEW_BUCKET_COUNT && nUBucketPos < BUCKET_SIZE
      requires HolderOk(TheBook(), Slot(nUBucket, nUBucketPos))
      modifies this`vRandom, this`nRandomPos, this`mapAddr, this`mapInfo, this`nNew, this`newTab, vvNew
      ensures Tables() && Indexes(off)
      ensures TheBook() == AddrBook.ClearNew(old(TheBook()), Slot(nUBucket, nUBucketPos))
    {
      if vvNew[nUBucket, nUBucketPos] != -1 {
        var nIdDelete := vvNew[nUBucket, nUBucketPos];
        var info := mapInfo[nIdDelete];
        assert info.nRefCount > 0;
        SetInfo(nIdDelete, info.(nRefCount := info.nRefCount - 1), off);
        SetNew(Slot(nUBucket, nUBucketPos), -1);
        if mapInfo[nIdDelete].nRefCount == 0 {
          Delete(nIdDelete, off);
        }
      }
    }

    /** Moves an entry between tried and untried; the caller settles nNew. */
    method SetInTried(nId: int, fInTried: bool, ghost off: int)
      requires Indexes(off) && nId in mapInfo && mapInfo[nId].fInTried == !fInTried
      modifies this`mapInfo, this`nTried
      ensures Indexes(if fInTried then off - 1 else off + 1)
      ensures TheBook() == old(TheBook()).(info := old(mapInfo)[nId := old(mapInfo)[nId].(fInTried := fInTried)])
    {
      var info := mapInfo[nId].(fInTried := fInTried);
      CountsAfterPut(mapInfo, nId, info, nNew + off, nTried);
      mapInfo := mapInfo[nId := info];
      nTried := if fInTried then nTried + 1 else nTried - 1;
    }

    /** Takes an entry out of one new bucket, if it is there. */
    method LeaveBucket(nId: int, bucket: nat, ghost off: int)
      requires Tables() && Indexes(off) && bucket < NEW_BUCKET_COUNT
      requires nId in mapInfo && mapInfo[nId].nRefCount == |Holders(newTab, nId)|
      modifies this`mapInfo, this`newTab, vvNew
      ensures Tables() && Indexes(off)
      ensures mapInfo == SetRef(old(mapInfo), nId, |Holders(newTab, nId)|)
      ensures var k := h.NewSlot(old(mapInfo)[nId].addr.service, bucket);
              newTab == if k in old(newTab) && old(newTab)[k] == nId then old(newTab) - {k} else old(newTab)
    {
      var pos := h.Position(true, bucket, mapInfo[nId].addr.service);
      if vvNew[bucket, pos] == nId {
        HoldersRemoved(newTab, Slot(bucket, pos), nId);
        SetNew(Slot(bucket, pos), -1);
        SetInfo(nId, mapInfo[nId].(nRefCount := mapInfo[nId].nRefCount - 1), off);
      } else {
        SameRef(mapInfo, nId, |Holders(newTab, nId)|);
      }
    }

    /** The first loop of MakeTried: takes an entry out of every new bucket. */
    method LeaveNewBuckets(nId: int, count: nat, ghost off: int)
      requires Tables() && Indexes(off) && NewOk(h, mapInfo, newTab) && count == NEW_BUCKET_COUNT
      requires nId in mapInfo && mapInfo[nId].nRefCount == |Holders(newTab, nId)|
      modifies this`mapInfo, this`newTab, vvNew
      ensures Tables() && Indexes(off)
      ensures TheBook() == LeaveNew(old(TheBook()), nId)
    {
      ghost var book := TheBook();
      LeavingStart(book, nId);
      for bucket := 0 to count
        invariant Tables() && Indexes(off)
        invariant Leaving(book, TheBook(), nId, bucket)
      {
        ghost var before := TheBook();
        LeaveBucket(nId, bucket, off);
        LeavingStep(h, book, before, TheBook(), nId, bucket, bucket + 1);
      }
      LeavingEnd(h, book, TheBook(), nId, count);
    }

    /** Moves the id in a tried slot back to the new table, and settles the counts. */
    method EvictFrom(nKBucket: nat, nKBucketPos: nat, ghost off: int)
      requires Tables() && Indexes(off) && nKBucket < TRIED_BUCKET_COUNT && nKBucketPos < BUCKET_SIZE
      requires CanEvict(h, TheBook(), Slot(nKBucket, nKBucketPos))
      modifies this, vvNew, vvTried
      ensures Tables() && Indexes(off) && nIdCount == old(nIdCount)
      ensures TheBook() == Evict(h, old(TheBook()), Slot(nKBucket, nKBucketPos))
    {
      var nIdEvict := vvTried[nKBucket, nKBucketPos];
      SetInTried(nIdEvict, false, off);
      SetTried(Slot(nKBucket, nKBucketPos), -1);
      assert TheBook() == LeaveTried(old(TheBook()), Slot(nKBucket, nKBucketPos));
      Reenter(nIdEvict, off + 1);
    }

    /** Enters an entry without references into the new set again. */
    method Reenter(nIdEvict: int, ghost off: int)
      requires Tables() && Indexes(off) && nIdEvict >= 0
      requires nIdEvict in mapInfo && mapInfo[nIdEvict].nRefCount == 0
      requires var place := NewPlace(h, mapInfo[nIdEvict]);
               HolderOk(TheBook(), place) && (place in newTab ==> newTab[place] != nIdEvict)
      modifies this, vvNew
      ensures Tables() && Indexes(off - 1) && nIdCount == old(nIdCount)
      ensures var place := NewPlace(h, old(mapInfo)[nIdEvict]);
              TheBook() == AddRef(AddrBook.ClearNew(old(TheBook()), place), place, nIdEvict)
    {
      var infoOld := mapInfo[nIdEvict];
      var nUBucket := h.NewBucket(infoOld.addr.service, infoOld.source);
      var nUBucketPos := h.Position(true, nUBucket, infoOld.addr.service);
      ClearedPlace(TheBook(), Slot(nUBucket, nUBucketPos), nIdEvict);
      ClearNew(nUBucket, nUBucketPos, off);
      assert vvNew[nUBucket, nUBucketPos] == -1;
      EnterAgain(Slot(nUBucket, nUBucketPos), nIdEvict, off);
    }

    method EnterAgain(k: Slot, nId: int, ghost off: int)
      requires Tables() && Indexes(off) && nId in mapInfo && mapInfo[nId].nRefCount == 0
      requires k.bucket < NEW_BUCKET_COUNT && k.pos < BUCKET_SIZE && nId >= 0
      modifies this`mapInfo, this`newTab, this`nNew, vvNew
      ensures Tables() && Indexes(off - 1)
      ensures TheBook() == AddRef(old(TheBook()), k, nId)
    {
      EnterNew(k, nId, 1, off);
      nNew := nNew + 1;
    }

    /** Puts an entry into an empty new slot. */
    method EnterNew(k: Slot, nId: int, nRefCount: int, ghost off: int)
      requires Tables() && Indexes(off) && nId in mapInfo && nRefCount == mapInfo[nId].nRefCount + 1
      requires k.bucket < NEW_BUCKET_COUNT && k.pos < BUCKET_SIZE && nId >= 0
      modifies this`mapInfo, this`newTab, vvNew
      ensures Tables() && Indexes(off)
      ensures TheBook() == AddRef(old(TheBook()), k, nId)
    {
      SetInfo(nId, mapInfo[nId].(nRefCount := nRefCount), off);
      SetNew(k, nId);
    }

    method MakeTried(nId: int)
      requires Tables() && Indexes(0) && NewOk(h, mapInfo, newTab) && CanMakeTried(h, TheBook(), nId)
      requires mapInfo[nId].nRefCount == |Holders(newTab, nId)|
      modifies this, vvNew, vvTried
      ensures Tables() && Indexes(0) && nIdCount == old(nIdCount)
      ensures TheBook() == AddrBook.MakeTried(h, old(TheBook()), nId)
    {
      ghost var book := TheBook();
      LeaveNewBuckets(nId, NEW_BUCKET_COUNT, 0);
      nNew := nNew - 1;
      assert mapInfo[nId].nRefCount == 0;
      EnterTriedSlot(book, nId);
    }

    /** The rest of MakeTried: which tried bucket, whom to evict. */
    method EnterTriedSlot(ghost book: Book, nId: int)
      requires CanMakeTried(h, book, nId) && nId >= 0
      requires Tables() && Indexes(1) && TheBook() == LeaveNew(book, nId)
      modifies this, vvNew, vvTried
      ensures Tables() && Indexes(0) && nIdCount == old(nIdCount)
      ensures TheBook() == AddrBook.MakeTried(h, book, nId)
    {
      var nKBucket := h.TriedBucket(mapInfo[nId].addr.service);
      var nKBucketPos := h.Position(false, nKBucket, mapInfo[nId].addr.service);
      if vvTried[nKBucket, nKBucketPos] != -1 {
        EvictFrom(nKBucket, nKBucketPos, 1);
      }
      RoomMade(h, book, nId, TheBook());
      FillTriedSlot(nKBucket, nKBucketPos, nId);
    }

    method FillTriedSlot(nKBucket: nat, nKBucketPos: nat, nId: int)
      requires Tables() && Indexes(1) && nId in mapInfo && !mapInfo[nId].fInTried && nId >= 0
      requires Slot(nKBucket, nKBucketPos) == h.TriedSlot(mapInfo[nId].addr.service)
      requires nKBucket < TRIED_BUCKET_COUNT && nKBucketPos < BUCKET_SIZE
      requires Slot(nKBucket, nKBucketPos) !in triedTab
      modifies this`mapInfo, this`triedTab, this`nTried, vvTried
      ensures Tables() && Indexes(0)
      ensures TheBook() == EnterTried(h, old(TheBook()), nId)
    {
      assert vvTried[nKBucket, nKBucketPos] == -1;
      SetTried(Slot(nKBucket, nKBucketPos), nId);
      SetInTried(nId, true, 1);
    }

    /** Find: the id of the entry with this address. */
    method Find(ip: NetAddr) returns (found: bool, nId: int)
      requires AddrOk(mapInfo, mapAddr)
      ensures found <==> ip in mapAddr
      ensures found ==> nId == mapAddr[ip] && nId in mapInfo && mapInfo[nId].addr.service.ip == ip
    {
      if ip !in mapAddr {
        return false, 0;
      }
      return true, mapAddr[ip];
    }

    /** Find, for exactly this address and port. */
    method FindExact(addr: Service) returns (found: bool, nId: int)
      requires AddrOk(mapInfo, mapAddr)
      ensures found <==> Matches(TheBook(), mapAddr, addr)
      ensures found ==> nId == mapAddr[addr.ip] && nId in mapInfo && mapInfo[nId].addr.service == addr
    {
      found, nId := Find(addr.ip);
      found := found && mapInfo[nId].addr.service == addr;
    }

    /** The search loop of Good_: a new bucket that holds the entry, from a random one on. */
    method FindNewBucket(nId: int, nRnd: nat) returns (nUBucket: int)
      requires Tables() && NewOk(h, mapInfo, newTab) && nId in mapInfo && nRnd < NEW_BUCKET_COUNT && nId >= 0
      ensures nUBucket == -1 ==> forall k :: k in newTab ==> newTab[k] != nId
    {
      var n := 0;
      while n < NEW_BUCKET_COUNT
        invariant n <= NEW_BUCKET_COUNT
        invariant forall i: nat :: i < n ==> NotIn(newTab, nId, BucketAt(i, nRnd))
      {
        var nB := BucketAt(n, nRnd);
        var nBpos := h.Position(true, nB, mapInfo[nId].addr.service);
        if vvNew[nB, nBpos] == nId {
          return nB;
        }
        n := n + 1;
      }
      SearchedAll(newTab, nId, nRnd);
      return -1;
    }

    /** Good_: keeps the invariant exactly when the time of success is positive, and never takes the bail-out after
        the search. */
    method Good_(addr: Service, nTime: int, nRnd: nat)
      requires Valid() && nRnd < NEW_BUCKET_COUNT
      modifies this, vvNew, vvTried
      ensures Tables() && Indexes(0)
      ensures AddrMeaning.Marked(h, old(TheBook()), old(mapAddr), addr, nTime, TheBook())
      ensures TheBook() == Good(h, old(TheBook()), old(mapAddr), addr, nTime)
      ensures Valid() <==> (old(Matches(TheBook(), mapAddr, addr)) ==> nTime > 0)
    {
      GoodKeepsExactly(h, TheBook(), mapAddr, addr, nTime);
      AddrMeaning.GoodIs(h, TheBook(), mapAddr, addr, nTime);
      GoodMarks(addr, nTime, nRnd);
    }

    method GoodMarks(addr: Service, nTime: int, nRnd: nat)
      requires Valid() && nRnd < NEW_BUCKET_COUNT
      modifies this, vvNew, vvTried
      ensures Tables() && Indexes(0)
      ensures TheBook() == Good(h, old(TheBook()), old(mapAddr), addr, nTime)
    {
      var found, nId := FindExact(addr);
      if !found {
        return;
      }
      GoodSteps(h, TheBook(), mapAddr, addr, nTime);
      SetInfo(nId, Succeeded(mapInfo[nId], nTime), 0);
      if mapInfo[nId].fInTried {
        return;
      }
      GoodMoves(nId, nRnd);
    }

    method UpdateStats(nId: int, info: AddrInfo)
      requires Valid() && nId in mapInfo && StatsOnly(mapInfo[nId], info)
      modifies this`mapInfo
      ensures Valid() && mapInfo == old(mapInfo)[nId := info]
    {
      StatsKeep(h, TheBook(), nId, info, {});
      SetInfo(nId, info, 0);
    }

    /** Attempt_: counts an attempt to connect to exactly this address and port, and changes nothing else. The invariant
        holds afterwards unless its time is negative. */
    method Attempt_(addr: Service, nTime: int)
      requires Valid()
      modifies this`mapInfo
      ensures Valid() <==> (old(Matches(TheBook(), mapAddr, addr)) ==> nTime >= 0)
      ensures if old(Matches(TheBook(), mapAddr, addr)) then
                var info := old(mapInfo)[mapAddr[addr.ip]];
                mapInfo == old(mapInfo)[mapAddr[addr.ip] := info.(nLastTry := nTime, nAttempts := info.nAttempts + 1)]
              else mapInfo == old(mapInfo)
    {
      AttemptKeepsExactly(h, TheBook(), mapAddr, addr, nTime);
      AttemptMarks(addr, nTime);
    }

    method AttemptMarks(addr: Service, nTime: int)
      requires Valid()
      modifies this`mapInfo
      ensures Tables() && Indexes(0)
      ensures TheBook() == Attempt(old(TheBook()), old(mapAddr), addr, nTime)
    {
      var found, nId := FindExact(addr);
      if !found {
        return;
      }
      SetInfo(nId, Attempted(mapInfo[nId], nTime), 0);
    }

    /** Connected_: refreshes the time last seen of exactly this address and port, at most every 20 minutes. */
    method Connected_(addr: Service, nTime: int)
      requires Valid()
      modifies this`mapInfo
      ensures Valid()
      ensures if old(Matches(TheBook(), mapAddr, addr)) && nTime - old(mapInfo)[mapAddr[addr.ip]].addr.nTime > 20 * 60
              then var info := old(mapInfo)[mapAddr[addr.ip]];
                   mapInfo == old(mapInfo)[mapAddr[addr.ip] :=
                                             info.(addr := info.addr.(nTime := nTime % 0x1_0000_0000))]
              else mapInfo == old(mapInfo)
    {
      var found, nId := FindExact(addr);
      if !found {
        return;
      }
      var nUpdateInterval := 20 * 60;
      if nTime - mapInfo[nId].addr.nTime > nUpdateInterval {
        UpdateStats(nId, Seen(mapInfo[nId], nTime));
      }
    }

    /** The second half of Good_. */
    method GoodMoves(nId: int, nRnd: nat)
      requires Tables() && Indexes(0) && nRnd < NEW_BUCKET_COUNT
      requires NewOk(h, mapInfo, newTab) && RefsOk(mapInfo, newTab, {}) && CanMakeTried(h, TheBook(), nId)
      modifies this, vvNew, vvTried
      ensures Tables() && Indexes(0)
      ensures TheBook() == AddrBook.MakeTried(h, old(TheBook()), nId)
    {
      HeldIffReferenced(mapInfo, newTab, {}, nId);
      var nUBucket := FindNewBucket(nId, nRnd);
      assert nUBucket != -1;
      MakeTried(nId);
    }

    /** Puts a new id at the end of vRandom. */
    method Enlist(nId: int)
      requires RandomOk(nRandomPos, vRandom) && nId !in nRandomPos
      modifies this`nRandomPos, this`vRandom
      ensures RandomOk(nRandomPos, vRandom)
      ensures forall id :: id in nRandomPos <==> id in old(nRandomPos) || id == nId
    {
      nRandomPos := nRandomPos[nId := |vRandom|];
      vRandom := vRandom + [nId];
    }

    /** Enters an address under a new id everywhere but in vRandom and its positions. */
    method Record(info: AddrInfo) returns (nId: int)
      requires AddrOk(mapInfo, mapAddr) && IdsOk(mapInfo, nIdCount) && CountsOk(mapInfo, nNew, nTried)
      requires info.addr.service.ip !in mapAddr && !info.fInTried
      modifies this`nIdCount, this`mapInfo, this`mapAddr
      ensures AddrOk(mapInfo, mapAddr) && IdsOk(mapInfo, nIdCount) && CountsOk(mapInfo, nNew + 1, nTried)
      ensures nId == old(nIdCount) && nId >= 0 && nId !in old(mapInfo) && mapInfo == old(mapInfo)[nId := info]
    {
      nId := nIdCount;
      CountsAfterPut(mapInfo, nId, info, nNew, nTried);
      nIdCount := nIdCount + 1;
      mapInfo := mapInfo[nId := info];
      mapAddr := mapAddr[info.addr.service.ip := nId];
    }

    /** Create: enters an address under a new id; the caller settles nNew. */
    method Create(addr: Address, addrSource: NetAddr) returns (nId: int)
      requires Indexes(0) && addr.service.ip !in mapAddr
      modifies this`nIdCount, this`mapInfo, this`mapAddr, this`nRandomPos, this`vRandom
      ensures nId == old(nIdCount) && nId >= 0 && nId !in old(mapInfo)
      ensures Indexes(1)
      ensures TheBook() == old(TheBook()).(info := old(mapInfo)[nId := AddrInfo(addr, addrSource, 0, 0, 0, 0, false)])
    {
      nId := Record(AddrInfo(addr, addrSource, 0, 0, 0, 0, false));
      Enlist(nId);
    }

    /** The branch of Add_ for an unknown address. */
    method AddUnknown(addr: Address, source: NetAddr, nTimePenalty: int) returns (nId: int)
      requires Indexes(0) && addr.service.ip !in mapAddr
      modifies this`nIdCount, this`mapInfo, this`mapAddr, this`nRandomPos, this`vRandom, this`nNew
      ensures nId == old(nIdCount) && nId >= 0
      ensures Indexes(0)
      ensures TheBook() == old(TheBook()).(info := old(mapInfo)[nId := Created(addr, source, nTimePenalty)])
    {
      nId := Create(addr, source);
      var info := mapInfo[nId];
      SetInfo(nId, info.(addr := info.addr.(nTime := Powers.Max(0, info.addr.nTime - nTimePenalty))), 1);
      nNew := nNew + 1;
    }

    /** The branch of Add_ for a known address: updates it, and says whether it may get another reference. */
    method AddKnown(nId: int, addr: Address, nTimePenalty: int, nNow: int, draw: nat) returns (goOn: bool)
      requires Indexes(0) && nId in mapInfo && mapInfo[nId].nRefCount >= 0
      modifies this`mapInfo
      ensures Indexes(0)
      ensures var info := Refreshed(old(mapInfo)[nId], addr, nTimePenalty, nNow);
              && TheBook() == old(TheBook()).(info := old(mapInfo)[nId := info])
              && goOn == MayAddRef(info, addr, draw)
      ensures nId in mapInfo
              && AddrMeaning.Announced(old(mapInfo)[nId], mapInfo[nId], addr, nTimePenalty, nNow)
              && goOn == AddrMeaning.MayGrow(mapInfo[nId], addr, draw)
    {
      ghost var refreshed := Refreshed(mapInfo[nId], addr, nTimePenalty, nNow);
      AddrMeaning.RefreshedIs(mapInfo[nId], refreshed, addr, nTimePenalty, nNow);
      var info := mapInfo[nId];
      var fCurrentlyOnline := nNow - addr.nTime < 24 * 60 * 60;
      var nUpdateInterval := if fCurrentlyOnline then 60 * 60 else 24 * 60 * 60;
      if addr.nTime != 0
         && (info.addr.nTime == 0 || info.addr.nTime < addr.nTime - nUpdateInterval - nTimePenalty) {
        info := info.(addr := info.addr.(nTime := Powers.Max(0, addr.nTime - nTimePenalty)));
      }
      info := info.(addr := info.addr.(nServices := info.addr.nServices + addr.nServices));
      SetInfo(nId, info, 0);
      if addr.nTime == 0 || (info.addr.nTime != 0 && addr.nTime <= info.addr.nTime) {
        return false;
      }
      if info.fInTried {
        return false;
      }
      if info.nRefCount == NEW_BUCKETS_PER_ADDRESS {
        return false;
      }
      var nFactor := PowerOfTwo(info.nRefCount);
      if nFactor > 1 && draw % nFactor != 0 {
        return false;
      }
      return true;
    }

    /** The end of Add_. */
    method PlaceNew(nId: int, source: NetAddr, nNow: int)
      requires Tables() && Indexes(0) && nId in mapInfo && !mapInfo[nId].fInTried && nId >= 0
      requires HolderOk(TheBook(), SlotUnder(h, mapInfo[nId], source))
      modifies this, vvNew
      ensures Tables() && Indexes(0)
      ensures TheBook() == Place(h, old(TheBook()), nId, source, nNow)
    {
      var info := mapInfo[nId];
      var nUBucket := h.NewBucket(info.addr.service, source);
      var nUBucketPos := h.Position(true, nUBucket, info.addr.service);
      if vvNew[nUBucket, nUBucketPos] != nId {
        var fInsert := vvNew[nUBucket, nUBucketPos] == -1;
        if !fInsert {
          var infoExisting := mapInfo[vvNew[nUBucket, nUBucketPos]];
          if infoExisting.IsTerrible(nNow) || (infoExisting.nRefCount > 1 && info.nRefCount == 0) {
            fInsert := true;
          }
        }
        if fInsert {
          Insert(Slot(nUBucket, nUBucketPos), nId);
        } else if info.nRefCount == 0 {
          Delete(nId, 0);
        }
      }
    }

    /** Takes a new slot for an entry, from whatever holds it. */
    method Insert(k: Slot, nId: int)
      requires Tables() && Indexes(0) && nId in mapInfo && nId >= 0
      requires k.bucket < NEW_BUCKET_COUNT && k.pos < BUCKET_SIZE
      requires HolderOk(TheBook(), k) && (k in newTab ==> newTab[k] != nId)
      modifies this, vvNew
      ensures Tables() && Indexes(0) && nIdCount == old(nIdCount)
      ensures TheBook() == AddRef(AddrBook.ClearNew(old(TheBook()), k), k, nId)
    {
      ClearedPlace(TheBook(), k, nId);
      ClearNew(k.bucket, k.pos, 0);
      EnterNew(k, nId, mapInfo[nId].nRefCount + 1, 0);
    }

    /** Add_: `nNow` is the adjusted time, `draw` the random number. */
    method Add_(addr: Address, source: NetAddr, nTimePenalty: int, nNow: int, draw: nat) returns (fNew: bool)
      requires Valid()
      modifies this, vvNew
      ensures Valid()
      ensures AddrMeaning.Added(h, old(TheBook()), old(mapAddr), old(nIdCount), addr, source, nTimePenalty, nNow, draw,
                                TheBook(), fNew)
      ensures (TheBook(), fNew) == Add(h, old(TheBook()), old(mapAddr), old(nIdCount),
                                       addr, source, nTimePenalty, nNow, draw)
    {
      AddrMeaning.AddIs(h, TheBook(), mapAddr, nIdCount, addr, source, nTimePenalty, nNow, draw);
      AddKeeps(h, TheBook(), mapAddr, nIdCount, addr, source, nTimePenalty, nNow, draw);
      if !h.routable(addr.service.ip) {
        return false;
      }
      ghost var book, a, next := TheBook(), mapAddr, nIdCount;
      var found, nId := Find(addr.service.ip);
      if found {
        assert nId >= 0;
        var goOn := AddKnown(nId, addr, nTimePenalty, nNow, draw);
        PlaceAfterAdd(h, book, a, next, addr, source, nTimePenalty, nNow, draw, TheBook(), nId);
        if !goOn {
          return false;
        }
      } else {
        nId := AddUnknown(addr, source, nTimePenalty);
        PlaceAfterAdd(h, book, a, next, addr, source, nTimePenalty, nNow, draw, TheBook(), nId);
      }
      PlaceNew(nId, source, nNow);
      return !found;
    }

    /** GetAddr_: as many different entries that are not terrible as are wanted, or all of them; `draw` is the random
        number of each step. */
    method GetAddr_(nNow: int, draw: nat -> nat) returns (vAddr: seq<Address>)
      requires Valid()
      modifies this`vRandom, this`nRandomPos
      ensures Valid()
      ensures |vAddr| == Min(Min(23 * |vRandom| / 100, 2500), |WorthyIds(mapInfo, nNow)|)
      ensures forall i :: 0 <= i < |vAddr| ==>
                vAddr[i].service.ip in mapAddr && mapAddr[vAddr[i].service.ip] in WorthyIds(mapInfo, nNow)
                && vAddr[i] == mapInfo[mapAddr[vAddr[i].service.ip]].addr
      ensures forall i, j :: 0 <= i < j < |vAddr| ==> vAddr[i].service.ip != vAddr[j].service.ip
    {
      var nNodes := GETADDR_MAX_PCT * |vRandom| / 100;
      if nNodes > GETADDR_MAX {
        nNodes := GETADDR_MAX;
      }
      vAddr := [];
      var n := 0;
      while n < |vRandom| && |vAddr| < nNodes
        invariant n <= |vRandom| == old(|vRandom|) && Listed()
        invariant PickedOk(vAddr, mapInfo, mapAddr, vRandom[..n], nNow) && |vAddr| <= nNodes
        decreases |vRandom| - n
      {
        vAddr := DrawOne(nNow, n, draw(n), vAddr);
        n := n + 1;
      }
      PickedBound(vAddr, mapInfo, mapAddr, nRandomPos, vRandom, n, nNow);
      WorthyDecent(mapInfo, nNow);
    }

    /** One step of GetAddr_: swaps a random later id to position `n`, and takes its address if it is not terrible. */
    method DrawOne(nNow: int, n: nat, draw: nat, vAddr: seq<Address>) returns (r: seq<Address>)
      requires Listed() && AddrOk(mapInfo, mapAddr) && n < |vRandom|
      requires PickedOk(vAddr, mapInfo, mapAddr, vRandom[..n], nNow)
      modifies this`vRandom, this`nRandomPos
      ensures Listed() && |vRandom| == old(|vRandom|)
      ensures PickedOk(r, mapInfo, mapAddr, vRandom[..n + 1], nNow) && |vAddr| <= |r| <= |vAddr| + 1
    {
      var nRndPos := draw % (|vRandom| - n) + n;
      ghost var before := vRandom[..n];
      SwapRandom(n, nRndPos);
      assert vRandom[..n] == before;
      assert vRandom[..n + 1] == before + [vRandom[n]];
      assert vRandom[n] !in before;
      var nId := vRandom[n];
      assert nId in nRandomPos;
      var ai := mapInfo[nId];
      r := if ai.IsTerrible(nNow) then vAddr else vAddr + [ai.addr];
      PickedNext(vAddr, mapInfo, mapAddr, before, nId, nNow);
    }
  }

  /** All steps of Good_ together. */
  lemma {:induction false} GoodSteps(h: Hasher, b: Book, a: map<NetAddr, int>, service: Service, nTime: int)
    requires BookOk(h, b, {}) && Matches(b, a, service)
    ensures var id := a[service.ip];
            var b1 := b.(info := b.info[id := Succeeded(b.info[id], nTime)]);
            if b.info[id].fInTried then Good(h, b, a, service, nTime) == b1
            else NewOk(h, b1.info, b1.newTab) && RefsOk(b1.info, b1.newTab, {}) && CanMakeTried(h, b1, id)
                 && Good(h, b, a, service, nTime) == AddrBook.MakeTried(h, b1, id)
  {
    var id := a[service.ip];
    if !b.info[id].fInTried {
      MakeTriedKeeps(h, b, id);
      StatsIrrelevant(h, b, id, Succeeded(b.info[id], nTime));
    }
  }

  // ---------------------------------------------------------------------------
  // Choosing addresses
  // ---------------------------------------------------------------------------

  function Min(x: int, y: int): int { if x < y then x else y }

  /** The ids that are not terrible. */
  ghost function Decent(m: InfoMap, nNow: int): set<int> {
    set id | id in m && !m[id].IsTerrible(nNow)
  }

  /** An address of an entry that is not terrible. */
  /** The ids of entries worth keeping. */
  ghost function WorthyIds(m: InfoMap, nNow: int): set<int> {
    set id | id in m && AddrMeaning.Worthy(m[id], nNow)
  }

  lemma {:induction false} WorthyDecent(m: InfoMap, nNow: int)
    ensures WorthyIds(m, nNow) == Decent(m, nNow)
  {
    forall id | id in m ensures id in WorthyIds(m, nNow) <==> id in Decent(m, nNow) {
      AddrMeaning.WorthyIs(m[id], nNow);
    }
  }

  ghost predicate IsDecent(m: InfoMap, a: map<NetAddr, int>, nNow: int, addr: Address) {
    addr.service.ip in a && a[addr.service.ip] in Decent(m, nNow) && addr == m[a[addr.service.ip]].addr
  }

  ghost function DecentIn(m: InfoMap, r: seq<int>, nNow: int): set<int> {
    set id | id in r && id in Decent(m, nNow)
  }

  /** The picked addresses are those of the ids in `r` that are not terrible, each once. */
  ghost predicate PickedOk(p: seq<Address>, m: InfoMap, a: map<NetAddr, int>, r: seq<int>, nNow: int) {
    && |p| == |DecentIn(m, r, nNow)|
    && (forall i :: 0 <= i < |p| ==> IsDecent(m, a, nNow, p[i]) && a[p[i].service.ip] in r)
    && (forall i, j :: 0 <= i < j < |p| ==> p[i].service.ip != p[j].service.ip)
  }

  lemma {:induction false} PickedNext(p: seq<Address>, m: InfoMap, a: map<NetAddr, int>, r: seq<int>, id: int,
                                      nNow: int)
    requires AddrOk(m, a) && PickedOk(p, m, a, r, nNow) && id in m && id !in r
    ensures PickedOk(if m[id].IsTerrible(nNow) then p else p + [m[id].addr], m, a, r + [id], nNow)
  {
    CardAfter(DecentIn(m, r, nNow), id, DecentIn(m, r + [id], nNow), !m[id].IsTerrible(nNow));
  }

  lemma {:induction false} SubsetCard<T>(s: set<T>, t: set<T>)
    requires s <= t
    ensures |s| <= |t|
  {
    assert t == s + (t - s);
  }

  lemma {:induction false} PickedBound(p: seq<Address>, m: InfoMap, a: map<NetAddr, int>, pos: map<int, int>,
                                       r: seq<int>, n: nat, nNow: int)
    requires n <= |r| && RandomOk(pos, r) && SameIds(m, pos) && PickedOk(p, m, a, r[..n], nNow)
    ensures |p| <= |Decent(m, nNow)| && (n == |r| ==> |p| == |Decent(m, nNow)|)
  {
    SubsetCard(DecentIn(m, r[..n], nNow), Decent(m, nNow));
    if n == |r| {
      assert r[..n] == r;
      forall id | id in Decent(m, nNow) ensures id in r {
        assert r[pos[id]] == id;
      }
      assert DecentIn(m, r, nNow) == Decent(m, nNow);
    }
  }

  // ---------------------------------------------------------------------------
  // Steps of Add_ and MakeTried
  // ---------------------------------------------------------------------------

  /** What Add_ has done before it looks for a slot. */
  lemma {:induction false} PlaceAfterAdd(h: Hasher, b: Book, a: map<NetAddr, int>, next: int, addr: Address,
                                         source: NetAddr, nTimePenalty: int, nNow: int, draw: nat, b1: Book, id: int)
    requires BookOk(h, b, {}) && AddrOk(b.info, a) && next !in b.info && h.routable(addr.service.ip)
    requires if addr.service.ip in a then
               id == a[addr.service.ip]
               && b1 == b.(info := b.info[id := Refreshed(b.info[id], addr, nTimePenalty, nNow)])
             else id == next && b1 == b.(info := b.info[id := Created(addr, source, nTimePenalty)])
    ensures id in b1.info && HolderOk(b1, SlotUnder(h, b1.info[id], source))
    ensures var known := addr.service.ip in a;
            var r := Add(h, b, a, next, addr, source, nTimePenalty, nNow, draw);
            if known && !MayAddRef(b1.info[id], addr, draw) then r == (b1, false)
            else !b1.info[id].fInTried && r == (Place(h, b1, id, source, nNow), !known)
  {
    if addr.service.ip in a {
      StatsKeep(h, b, id, b1.info[id], {});
      HoldersOk(h, b1, {}, SlotUnder(h, b1.info[id], source));
    } else {
      CreateKeeps(h, b, id, b1.info[id]);
      HoldersOk(h, b1, {id}, SlotUnder(h, b1.info[id], source));
    }
  }

  /** The factor of Add_'s stochastic test. */
  method PowerOfTwo(n: nat) returns (nFactor: nat)
    ensures nFactor == Powers.Pow2(n) && (nFactor > 1 <==> n > 0)
  {
    nFactor := 1;
    for i := 0 to n
      invariant nFactor == Powers.Pow2(i) && (nFactor > 1 <==> i > 0)
    {
      nFactor := nFactor * 2;
    }
  }

  lemma {:induction false} ClearedPlace(b: Book, k: Slot, id: int)
    requires HolderOk(b, k) && (k in b.newTab ==> b.newTab[k] != id) && id in b.info
    ensures var b' := AddrBook.ClearNew(b, k); id in b'.info && b'.info[id] == b.info[id] && k !in b'.newTab
  {
  }

  /** After the eviction, the tried slot is free and the entry is as it was, without references. */
  lemma {:induction false} RoomMade(h: Hasher, b: Book, id: int, b2: Book)
    requires CanMakeTried(h, b, id)
    requires var k := h.TriedSlot(b.info[id].addr.service);
             b2 == if k in b.triedTab then Evict(h, LeaveNew(b, id), k) else LeaveNew(b, id)
    ensures id in b2.info && b2.info[id] == b.info[id].(nRefCount := 0)
    ensures h.TriedSlot(b.info[id].addr.service) !in b2.triedTab
  {
  }

  /** The table without the slots of an id in the first `n` buckets. */
  ghost function WithoutBelow(t: Table, id: int, n: nat): Table {
    map k | k in t && !(t[k] == id && k.bucket < n) :: t[k]
  }

  /** `b` is `b0` after an id left its first `n` buckets. */
  ghost predicate Leaving(b0: Book, b: Book, id: int, n: nat) {
    && id in b0.info && id in b.info
    && b == Book(SetRef(b0.info, id, |Holders(b.newTab, id)|), WithoutBelow(b0.newTab, id, n), b0.triedTab)
  }

  lemma {:induction false} LeavingStart(b: Book, id: int)
    requires id in b.info && b.info[id].nRefCount == |Holders(b.newTab, id)|
    ensures Leaving(b, b, id, 0)
  {
    assert WithoutBelow(b.newTab, id, 0) == b.newTab;
  }

  lemma {:induction false} LeaveOneBucket(h: Hasher, b: Book, id: int, bucket: nat)
    requires NewOk(h, b.info, b.newTab) && id in b.info
    ensures var k := h.NewSlot(b.info[id].addr.service, bucket);
            WithoutBelow(b.newTab, id, bucket + 1)
            == (var t := WithoutBelow(b.newTab, id, bucket); if k in t && t[k] == id then t - {k} else t)
  {
  }

  lemma {:induction false} LeavingStep(h: Hasher, b0: Book, b1: Book, b2: Book, id: int, bucket: nat, next: nat)
    requires NewOk(h, b0.info, b0.newTab) && Leaving(b0, b1, id, bucket) && next == bucket + 1
    requires var k := h.NewSlot(b1.info[id].addr.service, bucket);
             b2.newTab == if k in b1.newTab && b1.newTab[k] == id then b1.newTab - {k} else b1.newTab
    requires b2.info == SetRef(b1.info, id, |Holders(b2.newTab, id)|) && b2.triedTab == b1.triedTab
    ensures Leaving(b0, b2, id, next)
  {
    LeaveOneBucket(h, b0, id, bucket);
  }

  lemma {:induction false} LeavingEnd(h: Hasher, b0: Book, b: Book, id: int, n: nat)
    requires NewOk(h, b0.info, b0.newTab) && Leaving(b0, b, id, n) && n == NEW_BUCKET_COUNT
    ensures b == LeaveNew(b0, id)
  {
    assert WithoutBelow(b0.newTab, id, n) == Without(b0.newTab, id);
    assert Holders(Without(b0.newTab, id), id) == {};
  }

  /** The bucket that the search of Good_ looks at in step `i`. */
  function BucketAt(i: nat, nRnd: nat): nat {
    (i + nRnd) % NEW_BUCKET_COUNT
  }

  ghost predicate NotIn(t: Table, id: int, bucket: nat) {
    forall k :: k in t && k.bucket == bucket ==> t[k] != id
  }

  /** Starting anywhere, the search looks at every bucket. */
  lemma {:induction false} EveryBucket(nRnd: nat, bucket: nat) returns (i: nat)
    requires nRnd < NEW_BUCKET_COUNT && bucket < NEW_BUCKET_COUNT
    ensures i < NEW_BUCKET_COUNT && BucketAt(i, nRnd) == bucket
  {
    i := if bucket >= nRnd then bucket - nRnd else bucket + NEW_BUCKET_COUNT - nRnd;
  }

  lemma {:induction false} SearchedAll(t: Table, id: int, nRnd: nat)
    requires nRnd < NEW_BUCKET_COUNT && forall k :: k in t ==> k.bucket < NEW_BUCKET_COUNT
    requires forall i: nat :: i < NEW_BUCKET_COUNT ==> NotIn(t, id, BucketAt(i, nRnd))
    ensures forall k :: k in t ==> t[k] != id
  {
    forall k | k in t ensures t[k] != id {
      var i := EveryBucket(nRnd, k.bucket);
    }
  }
}
