/** CAddrMan::Check_: the source's own consistency check, and whole runs of the manager. */
module AddrManCheck {
  import opened AddrBook
  import M = AddrMan

  // ---------------------------------------------------------------------------
  // What Check_ accepts
  // ---------------------------------------------------------------------------

  /** mapAddr[ip], where a missing key reads as 0. */
  function Looked(a: map<NetAddr, int>, ip: NetAddr): int {
    if ip in a then a[ip] else 0
  }

  ghost predicate EntryOk(info: AddrInfo, a: map<NetAddr, int>, pos: map<int, int>, r: seq<int>, id: int) {
    && (if info.fInTried then info.nLastSuccess != 0 && info.nRefCount == 0
        else 1 <= info.nRefCount <= NEW_BUCKETS_PER_ADDRESS)
    && Looked(a, info.addr.service.ip) == id
    && (id in pos && 0 <= pos[id] < |r| && r[pos[id]] == id)
    && info.nLastTry >= 0 && info.nLastSuccess >= 0
  }

  ghost predicate EntriesOk(m: InfoMap, a: map<NetAddr, int>, pos: map<int, int>, r: seq<int>) {
    forall id :: id in m ==> EntryOk(m[id], a, pos, r, id)
  }

  ghost predicate RefsMatch(m: InfoMap, t: Table) {
    forall id :: id in m && !m[id].fInTried ==> m[id].nRefCount == |Holders(t, id)|
  }

  /** The new table, and the counts of references into it, are in order. */
  ghost predicate NewRefsOk(h: Hasher, m: InfoMap, t: Table) {
    NewOk(h, m, t) && RefsMatch(m, t)
  }

  /** The states that Check_ accepts. */
  ghost predicate Accepted(am: M.AddrMan)
    reads am
  {
    && |am.vRandom| == am.nTried + am.nNew
    && EntriesOk(am.mapInfo, am.mapAddr, am.nRandomPos, am.vRandom)
    && M.CountsOk(am.mapInfo, am.nNew, am.nTried)
    && TriedOk(am.h, am.mapInfo, am.triedTab)
    && NewRefsOk(am.h, am.mapInfo, am.newTab)
  }

  // ---------------------------------------------------------------------------
  // The scan of a table
  // ---------------------------------------------------------------------------

  predicate Before(k: Slot, n: nat, i: nat) {
    k.bucket < n || (k.bucket == n && k.pos < i)
  }

  /** The part of a table before a cell. */
  function Part(t: Table, n: nat, i: nat): Table {
    map k | k in t && Before(k, n, i) :: t[k]
  }

  lemma {:induction false} PartStep(t: Table, n: nat, i: nat)
    ensures var k := Slot(n, i);
            k !in Part(t, n, i) && Part(t, n, i + 1) == if k in t then Part(t, n, i)[k := t[k]] else Part(t, n, i)
  {
    var k := Slot(n, i);
    forall l ensures l in Part(t, n, i + 1) <==> l in Part(t, n, i) || (l == k && k in t) {
      assert Before(l, n, i + 1) <==> Before(l, n, i) || l == k;
    }
  }

  lemma {:induction false} PartNone(t: Table)
    ensures Part(t, 0, 0) == map[]
  {
  }

  lemma {:induction false} PartRow(t: Table, n: nat)
    requires forall k :: k in t ==> k.pos < BUCKET_SIZE
    ensures Part(t, n, BUCKET_SIZE) == Part(t, n + 1, 0)
  {
  }

  lemma {:induction false} PartAll(t: Table, n: nat)
    requires forall k :: k in t ==> k.bucket < n
    ensures Part(t, n, 0) == t
  {
  }

  // ---------------------------------------------------------------------------
  // The tried table
  // ---------------------------------------------------------------------------

  ghost predicate TriedPlaced(h: Hasher, m: InfoMap, t: Table) {
    forall k :: k in t ==> t[k] in m && m[t[k]].fInTried && k == h.TriedSlot(m[t[k]].addr.service)
  }

  predicate SeenTried(h: Hasher, m: InfoMap, t: Table, id: int) {
    id in m && m[id].fInTried
    && h.TriedSlot(m[id].addr.service) in t && t[h.TriedSlot(m[id].addr.service)] == id
  }

  /** `left` are the tried ids not seen in the scanned part. */
  ghost predicate TriedScanned(h: Hasher, m: InfoMap, part: Table, left: set<int>) {
    && TriedPlaced(h, m, part)
    && forall id :: id in left <==> id in m && m[id].fInTried && !SeenTried(h, m, part, id)
  }

  method CheckTriedCell(am: M.AddrMan, n: nat, i: nat, setTried: set<int>) returns (err: int, left: set<int>)
    requires am.Tables() && n < TRIED_BUCKET_COUNT && i < BUCKET_SIZE
    requires TriedScanned(am.h, am.mapInfo, Part(am.triedTab, n, i), setTried)
    ensures err != 0 ==> !TriedOk(am.h, am.mapInfo, am.triedTab)
    ensures err == 0 ==> TriedScanned(am.h, am.mapInfo, Part(am.triedTab, n, i + 1), left)
  {
    PartStep(am.triedTab, n, i);
    left := setTried;
    var v := am.vvTried[n, i];
    if v != -1 {
      assert Slot(n, i) in am.triedTab && am.triedTab[Slot(n, i)] == v;
      if v !in setTried {
        return -11, left;
      }
      var service := am.mapInfo[v].addr.service;
      if am.h.TriedBucket(service) != n {
        return -17, left;
      }
      if am.h.Position(false, n, service) != i {
        return -18, left;
      }
      left := setTried - {v};
      TriedSeen(am.h, am.mapInfo, Part(am.triedTab, n, i), Slot(n, i), v, setTried);
    }
    err := 0;
  }

  lemma {:induction false} TriedSeen(h: Hasher, m: InfoMap, part: Table, k: Slot, id: int, left: set<int>)
    requires TriedScanned(h, m, part, left) && k !in part && id in left && k == h.TriedSlot(m[id].addr.service)
    ensures TriedScanned(h, m, part[k := id], left - {id})
  {
    forall j | j in m && m[j].fInTried
      ensures SeenTried(h, m, part[k := id], j) <==> SeenTried(h, m, part, j) || j == id
    {
    }
  }

  method CheckTriedBucket(am: M.AddrMan, n: nat, setTried: set<int>) returns (err: int, left: set<int>)
    requires am.Tables() && n < TRIED_BUCKET_COUNT
    requires TriedScanned(am.h, am.mapInfo, Part(am.triedTab, n, 0), setTried)
    ensures err != 0 ==> !TriedOk(am.h, am.mapInfo, am.triedTab)
    ensures err == 0 ==> TriedScanned(am.h, am.mapInfo, Part(am.triedTab, n + 1, 0), left)
  {
    err, left := 0, setTried;
    for i := 0 to BUCKET_SIZE
      invariant err == 0 && TriedScanned(am.h, am.mapInfo, Part(am.triedTab, n, i), left)
    {
      err, left := CheckTriedCell(am, n, i, left);
      if err != 0 {
        return;
      }
    }
    PartRow(am.triedTab, n);
  }

  method CheckTried(am: M.AddrMan, setTried: set<int>) returns (err: int)
    requires am.Tables() && setTried == M.IdsWith(am.mapInfo, true)
    ensures err == 0 <==> TriedOk(am.h, am.mapInfo, am.triedTab)
  {
    var left := setTried;
    for n := 0 to TRIED_BUCKET_COUNT
      invariant TriedScanned(am.h, am.mapInfo, Part(am.triedTab, n, 0), left)
    {
      err, left := CheckTriedBucket(am, n, left);
      if err != 0 {
        return;
      }
    }
    PartAll(am.triedTab, TRIED_BUCKET_COUNT);
    if left != {} {
      TriedLeft(am.h, am.mapInfo, am.triedTab, left);
      return -13;
    }
    TriedNoneLeft(am.h, am.mapInfo, am.triedTab);
    err := 0;
  }

  lemma {:induction false} TriedNoneLeft(h: Hasher, m: InfoMap, t: Table)
    requires TriedScanned(h, m, t, {})
    ensures TriedOk(h, m, t)
  {
    forall id | id in m && m[id].fInTried ensures SeenTried(h, m, t, id) {
      assert id !in {};
    }
  }

  lemma {:induction false} TriedLeft(h: Hasher, m: InfoMap, t: Table, left: set<int>)
    requires TriedScanned(h, m, t, left) && left != {}
    ensures !TriedOk(h, m, t)
  {
    var id := Member(left);
    assert !SeenTried(h, m, t, id);
  }

  // ---------------------------------------------------------------------------
  // The new table
  // ---------------------------------------------------------------------------

  /** What is left of the references to an id: those not seen in the scanned part, where there are any. */
  ghost predicate RefsLeft(m: InfoMap, part: Table, left: map<int, int>, id: int) {
    if id !in m || m[id].fInTried then id !in left
    else
      var seen := |Holders(part, id)|;
      && seen <= m[id].nRefCount
      && (id in left <==> seen < m[id].nRefCount)
      && (id in left ==> left[id] == m[id].nRefCount - seen)
  }

  /** A slot in order, on its own. */
  ghost predicate SlotOk(h: Hasher, m: InfoMap, part: Table, k: Slot) {
    k in part ==>
      && k.bucket < NEW_BUCKET_COUNT && part[k] in m && !m[part[k]].fInTried
      && k == h.NewSlot(m[part[k]].addr.service, k.bucket)
  }

  /** `left` maps the untried ids to the references not seen in the scanned part, where there are any. */
  ghost predicate NewScanned(h: Hasher, m: InfoMap, part: Table, left: map<int, int>) {
    (forall k :: SlotOk(h, m, part, k)) && forall id :: RefsLeft(m, part, left, id)
  }

  /** The table has been scanned up to a cell. */
  ghost predicate ScannedTo(h: Hasher, m: InfoMap, t: Table, n: nat, i: nat, left: map<int, int>) {
    NewScanned(h, m, Part(t, n, i), left)
  }

  ghost predicate NewReady(am: M.AddrMan)
    reads am, am.vvNew
  {
    am.vvNew.Length0 == NEW_BUCKET_COUNT && am.vvNew.Length1 == BUCKET_SIZE && M.TableIs(am.vvNew, am.newTab)
  }

  method CheckNewCell(am: M.AddrMan, n: nat, i: nat, mapNew: map<int, int>) returns (err: int, left: map<int, int>)
    requires NewReady(am) && n < NEW_BUCKET_COUNT && i < BUCKET_SIZE
    requires ScannedTo(am.h, am.mapInfo, am.newTab, n, i, mapNew)
    ensures err != 0 ==> !NewRefsOk(am.h, am.mapInfo, am.newTab)
    ensures err == 0 ==> ScannedTo(am.h, am.mapInfo, am.newTab, n, i + 1, left)
  {
    PartStep(am.newTab, n, i);
    left := mapNew;
    var v := am.vvNew[n, i];
    if v != -1 {
      assert Slot(n, i) in am.newTab && am.newTab[Slot(n, i)] == v;
      if v !in mapNew {
        NotExpected(am.h, am.mapInfo, am.newTab, Part(am.newTab, n, i), Slot(n, i), mapNew);
        return -12, left;
      }
      assert RefsLeft(am.mapInfo, Part(am.newTab, n, i), mapNew, v);
      if am.h.Position(true, n, am.mapInfo[v].addr.service) != i {
        return -19, left;
      }
      left := if mapNew[v] == 1 then mapNew - {v} else mapNew[v := mapNew[v] - 1];
      NewSeen(am.h, am.mapInfo, Part(am.newTab, n, i), Slot(n, i), v, mapNew);
    }
    err := 0;
  }

  /** An id in a slot that is not expected there any more is not untried, or sits in more slots than it counts. */
  lemma {:induction false} NotExpected(h: Hasher, m: InfoMap, t: Table, part: Table, k: Slot, left: map<int, int>)
    requires NewScanned(h, m, part, left) && k !in part && k in t && t[k] !in left
    requires forall l :: l in part ==> l in t && t[l] == part[l]
    ensures !NewRefsOk(h, m, t)
  {
    var id := t[k];
    assert RefsLeft(m, part, left, id);
    if id in m && !m[id].fInTried {
      assert k !in Holders(part, id);
      assert Holders(part, id) + {k} <= Holders(t, id);
      M.SubsetCard(Holders(part, id) + {k}, Holders(t, id));
    }
  }

  lemma {:induction false} Member<T>(s: set<T>) returns (x: T)
    requires s != {}
    ensures x in s
  {
    x :| x in s;
  }

  lemma {:induction false} NewSeen(h: Hasher, m: InfoMap, part: Table, k: Slot, id: int, left: map<int, int>)
    requires NewScanned(h, m, part, left) && k !in part && id in left && id in m
    requires k.bucket < NEW_BUCKET_COUNT && k == h.NewSlot(m[id].addr.service, k.bucket)
    ensures NewScanned(h, m, part[k := id], if left[id] == 1 then left - {id} else left[id := left[id] - 1])
  {
    var more, rest := part[k := id], if left[id] == 1 then left - {id} else left[id := left[id] - 1];
    assert RefsLeft(m, part, left, id);
    forall l ensures SlotOk(h, m, more, l) {
      assert SlotOk(h, m, part, l);
    }
    forall j ensures RefsLeft(m, more, rest, j) {
      assert RefsLeft(m, part, left, j);
      HoldersAdded(part, k, id, j);
    }
  }

  method CheckNewBucket(am: M.AddrMan, n: nat, mapNew: map<int, int>) returns (err: int, left: map<int, int>)
    requires NewReady(am) && n < NEW_BUCKET_COUNT
    requires ScannedTo(am.h, am.mapInfo, am.newTab, n, 0, mapNew)
    ensures err != 0 ==> !NewRefsOk(am.h, am.mapInfo, am.newTab)
    ensures err == 0 ==> ScannedTo(am.h, am.mapInfo, am.newTab, n + 1, 0, left)
  {
    err, left := 0, mapNew;
    for i := 0 to BUCKET_SIZE
      invariant err == 0 && ScannedTo(am.h, am.mapInfo, am.newTab, n, i, left)
    {
      err, left := CheckNewCell(am, n, i, left);
      if err != 0 {
        return;
      }
    }
    PartRow(am.newTab, n);
  }

  method CheckNewBuckets(am: M.AddrMan, mapNew: map<int, int>, count: nat) returns (err: int, left: map<int, int>)
    requires NewReady(am) && ScannedTo(am.h, am.mapInfo, am.newTab, 0, 0, mapNew) && count <= NEW_BUCKET_COUNT
    ensures err != 0 ==> !NewRefsOk(am.h, am.mapInfo, am.newTab)
    ensures err == 0 ==> ScannedTo(am.h, am.mapInfo, am.newTab, count, 0, left)
  {
    err, left := 0, mapNew;
    for n := 0 to count
      invariant err == 0 && ScannedTo(am.h, am.mapInfo, am.newTab, n, 0, left)
    {
      err, left := CheckNewBucket(am, n, left);
      if err != 0 {
        return;
      }
    }
  }

  method CheckNew(am: M.AddrMan, mapNew: map<int, int>) returns (err: int)
    requires am.Tables() && NewScanned(am.h, am.mapInfo, map[], mapNew)
    ensures err == 0 <==> NewRefsOk(am.h, am.mapInfo, am.newTab)
  {
    var left;
    PartNone(am.newTab);
    PartAll(am.newTab, NEW_BUCKET_COUNT);
    err, left := CheckNewBuckets(am, mapNew, NEW_BUCKET_COUNT);
    if err == 0 {
      NewAllSeen(am.h, am.mapInfo, am.newTab, left);
      err := if left == map[] then 0 else -15;
    }
  }

  lemma {:induction false} NewAllSeen(h: Hasher, m: InfoMap, t: Table, left: map<int, int>)
    requires NewScanned(h, m, t, left)
    ensures left == map[] <==> NewRefsOk(h, m, t)
  {
    forall k | k in t ensures SlotOk(h, m, t, k) {
    }
    if left != map[] {
      var id := Member(left.Keys);
      assert RefsLeft(m, t, left, id);
      assert m[id].nRefCount != |Holders(t, id)|;
    } else {
      forall id | id in m && !m[id].fInTried ensures m[id].nRefCount == |Holders(t, id)| {
        assert id !in left && RefsLeft(m, t, left, id);
      }
    }
  }

  // ---------------------------------------------------------------------------
  // The entries
  // ---------------------------------------------------------------------------

  method CheckEntry(am: M.AddrMan, n: int) returns (err: int)
    requires n in am.mapInfo
    ensures err == 0 <==> EntryOk(am.mapInfo[n], am.mapAddr, am.nRandomPos, am.vRandom, n)
  {
    var info := am.mapInfo[n];
    if info.fInTried {
      if info.nLastSuccess == 0 {
        return -1;
      }
      if info.nRefCount != 0 {
        return -2;
      }
    } else {
      if info.nRefCount < 0 || info.nRefCount > NEW_BUCKETS_PER_ADDRESS {
        return -3;
      }
      if info.nRefCount == 0 {
        return -4;
      }
    }
    if Looked(am.mapAddr, info.addr.service.ip) != n {
      return -5;
    }
    var nRandomPos := if n in am.nRandomPos then am.nRandomPos[n] else -1;
    if nRandomPos < 0 || nRandomPos >= |am.vRandom| || am.vRandom[nRandomPos] != n {
      return -14;
    }
    if info.nLastTry < 0 {
      return -6;
    }
    if info.nLastSuccess < 0 {
      return -8;
    }
    return 0;
  }

  ghost predicate Collected(m: InfoMap, done: set<int>, setTried: set<int>, mapNew: map<int, int>) {
    && (forall id :: id in setTried <==> id in done && id in m && m[id].fInTried)
    && (forall id :: id in mapNew <==> id in done && id in m && !m[id].fInTried)
    && (forall id :: id in mapNew ==> mapNew[id] == m[id].nRefCount)
  }

  /** The loop over mapInfo. The order of the entries decides only which of several errors is found. */
  method CheckEntries(am: M.AddrMan) returns (err: int, setTried: set<int>, mapNew: map<int, int>)
    ensures err == 0 <==> EntriesOk(am.mapInfo, am.mapAddr, am.nRandomPos, am.vRandom)
    ensures err == 0 ==> Collected(am.mapInfo, am.mapInfo.Keys, setTried, mapNew)
  {
    setTried, mapNew := {}, map[];
    var left := am.mapInfo.Keys;
    while left != {}
      invariant left <= am.mapInfo.Keys
      invariant forall id :: id in am.mapInfo && id !in left ==>
                  EntryOk(am.mapInfo[id], am.mapAddr, am.nRandomPos, am.vRandom, id)
      invariant Collected(am.mapInfo, am.mapInfo.Keys - left, setTried, mapNew)
    {
      ghost var some := Member(left);
      var n :| n in left;
      err := CheckEntry(am, n);
      if err != 0 {
        return;
      }
      if am.mapInfo[n].fInTried {
        setTried := setTried + {n};
      } else {
        mapNew := mapNew[n := am.mapInfo[n].nRefCount];
      }
      left := left - {n};
    }
    assert am.mapInfo.Keys - left == am.mapInfo.Keys;
    err := 0;
  }

  lemma {:induction false} CollectedCounts(m: InfoMap, setTried: set<int>, mapNew: map<int, int>)
    requires Collected(m, m.Keys, setTried, mapNew)
    ensures setTried == M.IdsWith(m, true) && mapNew.Keys == M.IdsWith(m, false) && |mapNew| == |mapNew.Keys|
  {
    assert forall id :: id in setTried <==> id in M.IdsWith(m, true);
    assert forall id :: id in mapNew.Keys <==> id in M.IdsWith(m, false);
  }

  lemma {:induction false} NothingScanned(h: Hasher, m: InfoMap, a: map<NetAddr, int>, pos: map<int, int>, r: seq<int>,
                                          setTried: set<int>, mapNew: map<int, int>)
    requires EntriesOk(m, a, pos, r) && Collected(m, m.Keys, setTried, mapNew)
    ensures NewScanned(h, m, map[], mapNew)
  {
    forall id ensures Holders(map[], id) == {} {
    }
    forall id ensures RefsLeft(m, map[], mapNew, id) {
      assert id in m ==> EntryOk(m[id], a, pos, r, id);
    }
  }

  /** Check_ answers 0 exactly in the accepted states with a key that is not null. */
  method Check_(am: M.AddrMan, nKey: nat) returns (err: int)
    requires am.Tables()
    ensures err == 0 <==> Accepted(am) && nKey != 0
  {
    if |am.vRandom| != am.nTried + am.nNew {
      return -7;
    }
    var setTried, mapNew;
    err, setTried, mapNew := CheckEntries(am);
    if err != 0 {
      return;
    }
    CollectedCounts(am.mapInfo, setTried, mapNew);
    if |setTried| != am.nTried {
      return -9;
    }
    if |mapNew| != am.nNew {
      return -10;
    }
    err := CheckTried(am, setTried);
    if err != 0 {
      return;
    }
    NothingScanned(am.h, am.mapInfo, am.mapAddr, am.nRandomPos, am.vRandom, setTried, mapNew);
    err := CheckNew(am, mapNew);
    if err == 0 && nKey == 0 {
      err := -16;
    }
  }

  // ---------------------------------------------------------------------------
  // The invariant and Check_, and whole runs
  // ---------------------------------------------------------------------------

  lemma {:induction false} AllCounted(m: InfoMap, pos: map<int, int>, r: seq<int>, nNew: int, nTried: int)
    requires M.RandomOk(pos, r) && M.SameIds(m, pos) && M.CountsOk(m, nNew, nTried)
    ensures |r| == nTried + nNew
  {
    var ids := Elements(r, |r|);
    forall id ensures id in ids <==> id in m {
      AreElements(r, |r|, id);
      assert r[..|r|] == r;
      assert id in m ==> r[pos[id]] == id;
    }
    DistinctSize(r, |r|);
    assert ids == M.IdsWith(m, true) + M.IdsWith(m, false);
    assert M.IdsWith(m, true) !! M.IdsWith(m, false);
  }

  function Elements(r: seq<int>, n: nat): set<int>
    requires n <= |r|
  {
    if n == 0 then {} else Elements(r, n - 1) + {r[n - 1]}
  }

  lemma {:induction false} AreElements(r: seq<int>, n: nat, id: int)
    requires n <= |r|
    ensures id in Elements(r, n) <==> id in r[..n]
  {
    if n > 0 {
      AreElements(r, n - 1, id);
      assert r[..n] == r[..n - 1] + [r[n - 1]];
    }
  }

  lemma {:induction false} DistinctSize(r: seq<int>, n: nat)
    requires n <= |r| && forall i, j :: 0 <= i < j < |r| ==> r[i] != r[j]
    ensures |Elements(r, n)| == n
  {
    if n > 0 {
      DistinctSize(r, n - 1);
      AreElements(r, n - 1, r[n - 1]);
    }
  }

  /** The invariant is accepted by Check_. */
  lemma {:induction false} ValidAccepted(am: M.AddrMan)
    requires am.Valid()
    ensures Accepted(am)
  {
    AllCounted(am.mapInfo, am.nRandomPos, am.vRandom, am.nNew, am.nTried);
  }

  /** Positions of all ids, as many as there are places, fill every place. */
  lemma {:induction false} PlacesFilled(ids: set<int>, pos: map<int, int>, r: seq<int>)
    requires |ids| == |r|
    requires forall id :: id in ids ==> id in pos && 0 <= pos[id] < |r| && r[pos[id]] == id
    ensures forall i :: 0 <= i < |r| ==> r[i] in ids && r[i] in pos && pos[r[i]] == i
  {
    var places := set id | id in ids :: pos[id];
    var all := Below(|r|);
    PlacesSize(ids, pos, r);
    assert places <= all;
    assert |all - places| == 0;
    forall i | 0 <= i < |r| ensures r[i] in ids && r[i] in pos && pos[r[i]] == i {
      assert i in all && i !in all - places;
    }
  }

  lemma {:induction false} PlacesSize(ids: set<int>, pos: map<int, int>, r: seq<int>)
    requires forall id :: id in ids ==> id in pos && 0 <= pos[id] < |r| && r[pos[id]] == id
    ensures |set id | id in ids :: pos[id]| == |ids|
  {
    var places := set id | id in ids :: pos[id];
    if ids == {} {
      assert places == {};
    } else {
      var id := Member(ids);
      PlacesSize(ids - {id}, pos, r);
      assert places == (set j | j in ids - {id} :: pos[j]) + {pos[id]};
    }
  }

  ghost function Below(n: nat): (s: set<int>)
    ensures |s| == n && forall i :: i in s <==> 0 <= i < n
  {
    if n == 0 then {} else Below(n - 1) + {n - 1}
  }

  lemma {:induction false} CountsTotal(m: InfoMap, nNew: int, nTried: int)
    requires M.CountsOk(m, nNew, nTried)
    ensures |m.Keys| == nNew + nTried
  {
    assert m.Keys == M.IdsWith(m, true) + M.IdsWith(m, false);
    assert M.IdsWith(m, true) !! M.IdsWith(m, false);
  }

  lemma {:induction false} RefsAccepted(h: Hasher, m: InfoMap, t: Table, a: map<NetAddr, int>, pos: map<int, int>,
                                        r: seq<int>)
    requires EntriesOk(m, a, pos, r) && NewOk(h, m, t) && RefsMatch(m, t)
    ensures RefsOk(m, t, {})
  {
    forall id | id in m ensures EntryOk(m[id], a, pos, r, id) && m[id].nRefCount == |Holders(t, id)| {
      assert EntryOk(m[id], a, pos, r, id);
      if m[id].fInTried {
        assert Holders(t, id) == {};
      }
    }
  }

  /** No key of an index is missing or left over, and ids are below nIdCount: what Check_ does not look at. */
  ghost predicate NoStaleKeys(am: M.AddrMan)
    reads am
  {
    && M.IdsOk(am.mapInfo, am.nIdCount)
    && am.nRandomPos.Keys <= am.mapInfo.Keys
    && (forall id :: id in am.mapInfo ==> am.mapInfo[id].addr.service.ip in am.mapAddr)
    && (forall ip :: ip in am.mapAddr ==>
          am.mapAddr[ip] in am.mapInfo && am.mapInfo[am.mapAddr[ip]].addr.service.ip == ip)
  }

  /** The states that satisfy the invariant are the accepted ones in which no index has stale keys. */
  lemma {:induction false} AcceptedIffValid(am: M.AddrMan)
    requires am.Tables()
    ensures am.Valid() <==> Accepted(am) && NoStaleKeys(am)
  {
    if Accepted(am) && NoStaleKeys(am) {
      AcceptedValid(am);
    }
    if am.Valid() {
      ValidAccepted(am);
      forall id | id in am.nRandomPos.Keys ensures id in am.mapInfo.Keys {
        assert id in am.nRandomPos && id in am.mapInfo;
      }
    }
  }

  /** A state that Check_ accepts and that does not satisfy the invariant: mapAddr has a key without an entry. By Run,
      no run leads to it. */
  method AcceptedInvalid(h: Hasher) returns (am: M.AddrMan)
    ensures fresh(am) && am.Tables() && Accepted(am) && !am.Valid()
  {
    am := new M.AddrMan(h);
    ValidAccepted(am);
    am.mapAddr := map[0 := 0];
    assert 0 in am.mapAddr && am.mapAddr[0] !in am.mapInfo;
  }

  lemma {:induction false} AcceptedValid(am: M.AddrMan)
    requires am.Tables() && NoStaleKeys(am) && Accepted(am)
    ensures am.Valid()
  {
    var m, a, pos, r := am.mapInfo, am.mapAddr, am.nRandomPos, am.vRandom;
    CountsTotal(m, am.nNew, am.nTried);
    forall id | id in m ensures EntryOk(m[id], a, pos, r, id) {
    }
    PlacesFilled(m.Keys, pos, r);
    RefsAccepted(am.h, m, am.newTab, a, pos, r);
    forall id ensures id in m <==> id in pos {
      assert id in pos ==> id in pos.Keys;
      assert id in m.Keys <==> id in m;
    }
    assert am.Listed();
    assert AddrOk(m, a);
  }

  /** A call of the manager, with its clock and its random draws. */
  datatype Op =
    | Add(addr: Address, source: NetAddr, nTimePenalty: int, nNow: int, draw: nat)
    | Good(service: Service, nTime: int, nRnd: nat)
    | Attempt(service: Service, nTime: int)
    | Connected(service: Service, nTime: int)
    | GetAddr(nNow: int, draws: nat -> nat)
  {
    predicate Proper() {
      (Good? ==> nTime > 0) && (Attempt? ==> nTime >= 0)
    }
  }

  /** The invariant holds after any run from an empty manager, and Check_ then answers 0. */
  method Run(h: Hasher, nKey: nat, ops: seq<Op>) returns (am: M.AddrMan, err: int)
    requires nKey != 0 && forall i :: 0 <= i < |ops| ==> ops[i].Proper()
    ensures fresh(am) && am.Valid() && am.h == h && err == 0
  {
    am := new M.AddrMan(h);
    for i := 0 to |ops|
      invariant fresh(am) && fresh(am.vvNew) && fresh(am.vvTried) && am.Valid() && am.h == h
    {
      match ops[i]
      case Add(addr, source, nTimePenalty, nNow, draw) =>
        var _ := am.Add_(addr, source, nTimePenalty, nNow, draw);
      case Good(service, nTime, nRnd) =>
        assert ops[i].Proper();
        am.Good_(service, nTime, nRnd % NEW_BUCKET_COUNT);
      case Attempt(service, nTime) =>
        assert ops[i].Proper();
        am.Attempt_(service, nTime);
      case Connected(service, nTime) => am.Connected_(service, nTime);
      case GetAddr(nNow, draws) => var _ := am.GetAddr_(nNow, draws);
    }
    ValidAccepted(am);
    err := Check_(am, nKey);
  }
}
