/** The address manager's entries and bucket tables, as values, and what every operation does to them. */
module AddrBook {
  import Powers

  const TRIED_BUCKET_COUNT: nat := 256
  const NEW_BUCKET_COUNT: nat := 1024
  const BUCKET_SIZE: nat := 64
  const NEW_BUCKETS_PER_ADDRESS: nat := 8

  const HORIZON_DAYS: nat := 30
  const RETRIES: nat := 3
  const MAX_FAILURES: nat := 10
  const MIN_FAIL_DAYS: nat := 7
  const DAY: nat := 24 * 60 * 60

  /** A network address without port; only equality matters. */
  type NetAddr = nat

  /** CService: address and port. */
  datatype Service = Service(ip: NetAddr, port: nat)

  /** CAddress: a service with its service bits and the time it was last seen. */
  datatype Address = Address(service: Service, nServices: set<nat>, nTime: int)

  /** CAddrInfo, except nRandomPos. */
  datatype AddrInfo = AddrInfo(
    addr: Address,
    source: NetAddr,
    nLastTry: int,
    nLastSuccess: int,
    nAttempts: int,
    nRefCount: int,
    fInTried: bool)
  {
    predicate IsTerrible(nNow: int) {
      if nLastTry != 0 && nLastTry >= nNow - 60 then false
      else if addr.nTime > nNow + 10 * 60 then true
      else if addr.nTime == 0 || nNow - addr.nTime > HORIZON_DAYS * DAY then true
      else if nLastSuccess == 0 && nAttempts >= RETRIES then true
      else nNow - nLastSuccess > MIN_FAIL_DAYS * DAY && nAttempts >= MAX_FAILURES
    }
  }

  datatype Slot = Slot(bucket: nat, pos: nat)

  /** The keyed hashes, of which nothing is known, cut to the table sizes; and which addresses are routable. */
  datatype Hasher = Hasher(
    newHash: (Service, NetAddr) -> nat,
    triedHash: Service -> nat,
    posHash: (bool, nat, Service) -> nat,
    routable: NetAddr -> bool)
  {
    function NewBucket(a: Service, source: NetAddr): (b: nat)
      ensures b < NEW_BUCKET_COUNT
    {
      newHash(a, source) % NEW_BUCKET_COUNT
    }

    function TriedBucket(a: Service): (b: nat)
      ensures b < TRIED_BUCKET_COUNT
    {
      triedHash(a) % TRIED_BUCKET_COUNT
    }

    function Position(fNew: bool, bucket: nat, a: Service): (p: nat)
      ensures p < BUCKET_SIZE
    {
      posHash(fNew, bucket, a) % BUCKET_SIZE
    }

    function NewSlot(a: Service, bucket: nat): Slot {
      Slot(bucket, Position(true, bucket, a))
    }

    function TriedSlot(a: Service): Slot {
      Slot(TriedBucket(a), Position(false, TriedBucket(a), a))
    }
  }

  type InfoMap = map<int, AddrInfo>
  /** A bucket table: the occupied slots only. */
  type Table = map<Slot, int>

  datatype Book = Book(info: InfoMap, newTab: Table, triedTab: Table)

  // ---------------------------------------------------------------------------
  // The invariant
  // ---------------------------------------------------------------------------

  /** Every new slot holds an untried id, at that id's own position in the bucket. */
  ghost predicate NewOk(h: Hasher, m: InfoMap, t: Table) {
    forall k :: k in t ==>
      k.bucket < NEW_BUCKET_COUNT && t[k] in m && !m[t[k]].fInTried && k == h.NewSlot(m[t[k]].addr.service, k.bucket)
  }

  /** Every tried slot holds a tried id, and every tried id sits in its own tried slot. */
  ghost predicate TriedOk(h: Hasher, m: InfoMap, t: Table) {
    && (forall k :: k in t ==> t[k] in m && m[t[k]].fInTried && k == h.TriedSlot(m[t[k]].addr.service))
    && (forall id :: id in m && m[id].fInTried ==>
          h.TriedSlot(m[id].addr.service) in t && t[h.TriedSlot(m[id].addr.service)] == id)
  }

  /** The slots that hold an id. */
  ghost function Holders(t: Table, id: int): set<Slot> {
    set k | k in t && t[k] == id
  }

  /** Reference counts are numbers of new slots: 1 to 8 for an untried id, except those in `zero`; 0 for a tried one. */
  ghost predicate RefsOk(m: InfoMap, t: Table, zero: set<int>) {
    && (forall id :: id in m ==>
          && m[id].nRefCount == |Holders(t, id)|
          && (m[id].fInTried || id in zero ==> m[id].nRefCount == 0)
          && (!m[id].fInTried && id !in zero ==> 1 <= m[id].nRefCount <= NEW_BUCKETS_PER_ADDRESS))
    && (forall id :: id in zero ==> id in m && !m[id].fInTried)
  }

  /** Times are not negative, and a tried id has succeeded. */
  ghost predicate TimesOk(m: InfoMap) {
    forall id :: id in m ==>
      m[id].nLastTry >= 0 && m[id].nLastSuccess >= 0 && (m[id].fInTried ==> m[id].nLastSuccess != 0)
  }

  /** The invariant, while the untried ids in `zero` have no slot. */
  ghost predicate BookOk(h: Hasher, b: Book, zero: set<int>) {
    && NewOk(h, b.info, b.newTab)
    && TriedOk(h, b.info, b.triedTab)
    && RefsOk(b.info, b.newTab, zero)
    && TimesOk(b.info)
  }

  // ---------------------------------------------------------------------------
  // Counting slots
  // ---------------------------------------------------------------------------

  lemma {:induction false} HoldersRemoved(t: Table, k: Slot, id: int)
    requires k in t
    ensures Holders(t - {k}, id) == Holders(t, id) - {k}
    ensures |Holders(t - {k}, id)| == |Holders(t, id)| - if t[k] == id then 1 else 0
  {
    assert k in Holders(t, id) <==> t[k] == id;
  }

  lemma {:induction false} HoldersAdded(t: Table, k: Slot, id: int, other: int)
    requires k !in t
    ensures Holders(t[k := id], other) == Holders(t, other) + if other == id then {k} else {}
    ensures |Holders(t[k := id], other)| == |Holders(t, other)| + if other == id then 1 else 0
  {
    assert k !in Holders(t, other);
  }

  /** Nothing holds an id without references, and something holds one with references. */
  lemma {:induction false} HeldIffReferenced(m: InfoMap, t: Table, zero: set<int>, id: int)
    requires RefsOk(m, t, zero) && id in m
    ensures m[id].nRefCount == 0 <==> forall k :: k in t ==> t[k] != id
  {
    if m[id].nRefCount == 0 {
      assert Holders(t, id) == {};
      assert forall k :: k in t && t[k] == id ==> k in Holders(t, id);
    } else {
      var k :| k in Holders(t, id);
    }
  }

  // ---------------------------------------------------------------------------
  // Adding and removing references
  // ---------------------------------------------------------------------------

  /** Takes one reference away. */
  function RemoveRef(b: Book, k: Slot): Book
    requires k in b.newTab && b.newTab[k] in b.info
  {
    var id := b.newTab[k];
    Book(b.info[id := b.info[id].(nRefCount := b.info[id].nRefCount - 1)], b.newTab - {k}, b.triedTab)
  }

  /** Adds one reference. */
  function AddRef(b: Book, k: Slot, id: int): Book
    requires id in b.info
  {
    Book(b.info[id := b.info[id].(nRefCount := b.info[id].nRefCount + 1)], b.newTab[k := id], b.triedTab)
  }

  /** Erases an entry. */
  function Erase(b: Book, id: int): Book {
    b.(info := b.info - {id})
  }

  function SetRef(m: InfoMap, id: int, n: int): InfoMap
    requires id in m
  {
    m[id := m[id].(nRefCount := n)]
  }

  /** A reference count does not matter to the places and times of entries. */
  lemma {:induction false} SetRefKeeps(h: Hasher, b: Book, id: int, n: int)
    requires id in b.info && NewOk(h, b.info, b.newTab) && TriedOk(h, b.info, b.triedTab) && TimesOk(b.info)
    ensures var m := SetRef(b.info, id, n); NewOk(h, m, b.newTab) && TriedOk(h, m, b.triedTab) && TimesOk(m)
  {
  }

  lemma {:induction false} RemoveRefCounts(m: InfoMap, t: Table, k: Slot, zero: set<int>)
    requires RefsOk(m, t, zero) && k in t && t[k] in m
    ensures var id := t[k];
            id !in zero && m[id].nRefCount > 0
            && RefsOk(SetRef(m, id, m[id].nRefCount - 1), t - {k}, if m[id].nRefCount == 1 then zero + {id} else zero)
  {
    assert k in Holders(t, t[k]);
    forall i | i in m ensures |Holders(t - {k}, i)| == |Holders(t, i)| - if i == t[k] then 1 else 0 {
      HoldersRemoved(t, k, i);
    }
  }

  lemma {:induction false} RemoveRefKeeps(h: Hasher, b: Book, k: Slot, zero: set<int>)
    requires BookOk(h, b, zero) && k in b.newTab
    ensures var id := b.newTab[k];
            id in b.info && id !in zero && b.info[id].nRefCount > 0
            && BookOk(h, RemoveRef(b, k), if b.info[id].nRefCount == 1 then zero + {id} else zero)
  {
    RemoveRefCounts(b.info, b.newTab, k, zero);
    SetRefKeeps(h, b, b.newTab[k], b.info[b.newTab[k]].nRefCount - 1);
  }

  lemma {:induction false} AddRefCounts(m: InfoMap, t: Table, k: Slot, id: int, zero: set<int>)
    requires RefsOk(m, t, zero) && k !in t && id in m && !m[id].fInTried
    requires m[id].nRefCount < NEW_BUCKETS_PER_ADDRESS
    ensures RefsOk(SetRef(m, id, m[id].nRefCount + 1), t[k := id], zero - {id})
  {
    forall i | i in m ensures |Holders(t[k := id], i)| == |Holders(t, i)| + if i == id then 1 else 0 {
      HoldersAdded(t, k, id, i);
    }
  }

  lemma {:induction false} AddRefKeeps(h: Hasher, b: Book, k: Slot, id: int, zero: set<int>)
    requires BookOk(h, b, zero) && k !in b.newTab && id in b.info && !b.info[id].fInTried
    requires b.info[id].nRefCount < NEW_BUCKETS_PER_ADDRESS
    requires k.bucket < NEW_BUCKET_COUNT && k == h.NewSlot(b.info[id].addr.service, k.bucket)
    ensures BookOk(h, AddRef(b, k, id), zero - {id})
  {
    AddRefCounts(b.info, b.newTab, k, id, zero);
    SetRefKeeps(h, b, id, b.info[id].nRefCount + 1);
  }

  lemma {:induction false} EraseKeeps(h: Hasher, b: Book, id: int, zero: set<int>)
    requires BookOk(h, b, zero) && id in zero
    ensures BookOk(h, Erase(b, id), zero - {id})
  {
    HeldIffReferenced(b.info, b.newTab, zero, id);
  }

  // ---------------------------------------------------------------------------
  // ClearNew and MakeTried
  // ---------------------------------------------------------------------------

  /** ClearNew: empties a new slot, and erases the entry whose last reference it was. */
  function ClearNew(b: Book, k: Slot): Book
    requires k in b.newTab ==> b.newTab[k] in b.info
  {
    if k !in b.newTab then b
    else if b.info[b.newTab[k]].nRefCount == 1 then Erase(RemoveRef(b, k), b.newTab[k])
    else RemoveRef(b, k)
  }

  lemma {:induction false} ClearNewKeeps(h: Hasher, b: Book, k: Slot, zero: set<int>)
    requires BookOk(h, b, zero)
    ensures BookOk(h, ClearNew(b, k), zero)
  {
    if k in b.newTab {
      RemoveRefKeeps(h, b, k, zero);
      var id := b.newTab[k];
      if b.info[id].nRefCount == 1 {
        EraseKeeps(h, RemoveRef(b, k), id, zero + {id});
        assert zero + {id} - {id} == zero;
      }
    }
  }

  /** The table without an id. */
  function Without(t: Table, id: int): Table {
    map k | k in t && t[k] != id :: t[k]
  }

  /** The first part of MakeTried: takes an id out of every new bucket. */
  function LeaveNew(b: Book, id: int): Book
    requires id in b.info
  {
    Book(SetRef(b.info, id, 0), Without(b.newTab, id), b.triedTab)
  }

  lemma {:induction false} LeaveNewKeeps(h: Hasher, b: Book, id: int, zero: set<int>)
    requires BookOk(h, b, zero) && id in b.info && !b.info[id].fInTried
    ensures BookOk(h, LeaveNew(b, id), zero + {id})
  {
    var t := Without(b.newTab, id);
    forall i | i in b.info ensures Holders(t, i) == if i == id then {} else Holders(b.newTab, i) {
    }
    SetRefKeeps(h, b, id, 0);
  }

  /** Takes the id in a tried slot back out, to be put into the new table. */
  function LeaveTried(b: Book, k: Slot): Book
    requires k in b.triedTab && b.triedTab[k] in b.info
  {
    var id := b.triedTab[k];
    Book(b.info[id := b.info[id].(fInTried := false)], b.newTab, b.triedTab - {k})
  }

  lemma {:induction false} LeaveTriedKeeps(h: Hasher, b: Book, k: Slot, zero: set<int>)
    requires BookOk(h, b, zero) && k in b.triedTab
    ensures b.triedTab[k] in b.info && b.triedTab[k] !in zero
    ensures BookOk(h, LeaveTried(b, k), zero + {b.triedTab[k]})
  {
    var id := b.triedTab[k];
    assert b.info[id].fInTried;
    assert id !in zero;
  }

  /** Puts an id into its tried slot. */
  function EnterTried(h: Hasher, b: Book, id: int): Book
    requires id in b.info
  {
    Book(b.info[id := b.info[id].(fInTried := true)], b.newTab,
         b.triedTab[h.TriedSlot(b.info[id].addr.service) := id])
  }

  lemma {:induction false} EnterTriedKeeps(h: Hasher, b: Book, id: int, zero: set<int>)
    requires BookOk(h, b, zero) && id in zero && b.info[id].nLastSuccess != 0
    requires h.TriedSlot(b.info[id].addr.service) !in b.triedTab
    ensures BookOk(h, EnterTried(h, b, id), zero - {id})
  {
    HeldIffReferenced(b.info, b.newTab, zero, id);
  }

  /** The new slot of an entry under its default source. */
  function NewPlace(h: Hasher, info: AddrInfo): Slot {
    h.NewSlot(info.addr.service, h.NewBucket(info.addr.service, info.source))
  }

  lemma {:induction false} ClearNewOthers(h: Hasher, b: Book, k: Slot, zero: set<int>, id: int)
    requires BookOk(h, b, zero) && id in b.info && (k in b.newTab ==> b.newTab[k] != id)
    ensures id in ClearNew(b, k).info && ClearNew(b, k).info[id] == b.info[id]
    ensures ClearNew(b, k).newTab == b.newTab - {k} && ClearNew(b, k).triedTab == b.triedTab
  {
  }

  lemma {:induction false} ZeroHoldsNothing(h: Hasher, b: Book, k: Slot, zero: set<int>, id: int)
    requires BookOk(h, b, zero) && id in zero && k in b.newTab
    ensures b.newTab[k] != id
  {
    HeldIffReferenced(b.info, b.newTab, zero, id);
  }

  lemma {:induction false} ClearNewForZero(h: Hasher, b: Book, k: Slot, zero: set<int>, id: int)
    requires BookOk(h, b, zero) && id in zero
    ensures id in ClearNew(b, k).info && ClearNew(b, k).info[id] == b.info[id]
    ensures ClearNew(b, k).newTab == b.newTab - {k} && ClearNew(b, k).triedTab == b.triedTab
  {
    if k in b.newTab { ZeroHoldsNothing(h, b, k, zero, id); }
    ClearNewOthers(h, b, k, zero, id);
  }

  /** What holds a new slot is an untried entry with references. */
  predicate HolderOk(b: Book, k: Slot) {
    k in b.newTab ==> b.newTab[k] in b.info && !b.info[b.newTab[k]].fInTried && b.info[b.newTab[k]].nRefCount > 0
  }

  /** What an eviction relies on: the evicted id has no references, and its place can be cleared without losing it. */
  predicate CanEvict(h: Hasher, b: Book, k: Slot) {
    && k in b.triedTab && b.triedTab[k] in b.info
    && b.info[b.triedTab[k]].fInTried && b.info[b.triedTab[k]].nRefCount == 0
    && (var place := NewPlace(h, b.info[b.triedTab[k]]);
        HolderOk(b, place) && (place in b.newTab ==> b.newTab[place] != b.triedTab[k]))
  }

  lemma {:induction false} EvictionsPossible(h: Hasher, b: Book, k: Slot, zero: set<int>)
    requires BookOk(h, b, zero) && k in b.triedTab
    ensures CanEvict(h, b, k)
  {
    var id := b.triedTab[k];
    LeaveTriedKeeps(h, b, k, zero);
    var place := NewPlace(h, b.info[id]);
    if place in b.newTab { RemoveRefKeeps(h, b, place, zero); }
  }

  /** Moves the id in a tried slot back to the new table, over whatever holds its place there. */
  function Evict(h: Hasher, b: Book, k: Slot): Book
    requires CanEvict(h, b, k)
  {
    var place := NewPlace(h, b.info[b.triedTab[k]]);
    AddRef(ClearNew(LeaveTried(b, k), place), place, b.triedTab[k])
  }

  lemma {:induction false} EvictKeeps(h: Hasher, b: Book, k: Slot, zero: set<int>)
    requires BookOk(h, b, zero) && k in b.triedTab
    ensures CanEvict(h, b, k) && BookOk(h, Evict(h, b, k), zero)
    ensures Evict(h, b, k).triedTab == b.triedTab - {k}
    ensures forall id :: id in zero ==> id in Evict(h, b, k).info && Evict(h, b, k).info[id] == b.info[id]
  {
    EvictionsPossible(h, b, k, zero);
    LeaveTriedKeeps(h, b, k, zero);
    var id := b.triedTab[k];
    var b1 := LeaveTried(b, k);
    var place := NewPlace(h, b.info[id]);
    ClearNewKeeps(h, b1, place, zero + {id});
    ClearNewForZero(h, b1, place, zero + {id}, id);
    AddRefKeeps(h, ClearNew(b1, place), place, id, zero + {id});
    assert zero + {id} - {id} == zero;
    forall i | i in zero ensures i in Evict(h, b, k).info && Evict(h, b, k).info[i] == b.info[i] {
      ClearNewForZero(h, b1, place, zero + {id}, i);
    }
  }

  /** What MakeTried relies on. */
  predicate CanMakeTried(h: Hasher, b: Book, id: int) {
    && id in b.info && !b.info[id].fInTried
    && (var k := h.TriedSlot(b.info[id].addr.service);
        k in b.triedTab ==> b.triedTab[k] != id && CanEvict(h, LeaveNew(b, id), k))
  }

  /** MakeTried: an untried id leaves all its new slots and enters its tried slot, evicting whatever is there. */
  function MakeTried(h: Hasher, b: Book, id: int): Book
    requires CanMakeTried(h, b, id)
  {
    var b1 := LeaveNew(b, id);
    var k := h.TriedSlot(b.info[id].addr.service);
    EnterTried(h, if k in b1.triedTab then Evict(h, b1, k) else b1, id)
  }

  lemma {:induction false} MakeTriedKeeps(h: Hasher, b: Book, id: int)
    requires BookOk(h, b, {}) && id in b.info && !b.info[id].fInTried
    ensures CanMakeTried(h, b, id)
    ensures var b' := MakeTried(h, b, id);
            id in b'.info && b'.info[id] == b.info[id].(nRefCount := 0, fInTried := true)
            && (b.info[id].nLastSuccess != 0 ==> BookOk(h, b', {}))
  {
    LeaveNewKeeps(h, b, id, {});
    var b1 := LeaveNew(b, id);
    var k := h.TriedSlot(b.info[id].addr.service);
    if k in b1.triedTab { EvictKeeps(h, b1, k, {} + {id}); }
    if b.info[id].nLastSuccess != 0 {
      EnterTriedKeeps(h, if k in b1.triedTab then Evict(h, b1, k) else b1, id, {} + {id});
      assert {} + {id} - {id} == {};
    }
  }

  // ---------------------------------------------------------------------------
  // Good, Add, Attempt and Connected
  // ---------------------------------------------------------------------------

  /** mapAddr is the inverse of the entries' addresses. */
  ghost predicate AddrOk(m: InfoMap, a: map<NetAddr, int>) {
    && (forall id :: id in m ==> m[id].addr.service.ip in a && a[m[id].addr.service.ip] == id)
    && (forall ip :: ip in a ==> a[ip] in m && m[a[ip]].addr.service.ip == ip)
  }

  /** The entry for exactly this address and port. */
  predicate Matches(b: Book, a: map<NetAddr, int>, service: Service) {
    service.ip in a && a[service.ip] in b.info && b.info[a[service.ip]].addr.service == service
  }

  function Succeeded(info: AddrInfo, nTime: int): AddrInfo {
    info.(nLastSuccess := nTime, nLastTry := nTime, nAttempts := 0)
  }

  function Attempted(info: AddrInfo, nTime: int): AddrInfo {
    info.(nLastTry := nTime, nAttempts := info.nAttempts + 1)
  }

  /** The time of an address has 32 bits, without sign. */
  function Seen(info: AddrInfo, nTime: int): AddrInfo {
    info.(addr := info.addr.(nTime := nTime % 0x1_0000_0000))
  }

  /** Replaces the statistics of an entry: everything but its service, references and table. */
  ghost predicate StatsOnly(old_: AddrInfo, new_: AddrInfo) {
    && new_.addr.service == old_.addr.service && new_.nRefCount == old_.nRefCount && new_.fInTried == old_.fInTried
    && new_.nLastTry >= 0 && new_.nLastSuccess >= 0 && (new_.fInTried ==> new_.nLastSuccess != 0)
  }

  lemma {:induction false} StatsKeep(h: Hasher, b: Book, id: int, info: AddrInfo, zero: set<int>)
    requires BookOk(h, b, zero) && id in b.info && StatsOnly(b.info[id], info)
    ensures BookOk(h, b.(info := b.info[id := info]), zero)
  {
  }

  /** Attempt_: counts an attempt to connect. */
  function Attempt(b: Book, a: map<NetAddr, int>, service: Service, nTime: int): Book {
    if Matches(b, a, service) then b.(info := b.info[a[service.ip] := Attempted(b.info[a[service.ip]], nTime)]) else b
  }

  /** Counting an attempt keeps the invariant exactly when its time is not negative. */
  lemma {:induction false} AttemptKeepsExactly(h: Hasher, b: Book, a: map<NetAddr, int>, service: Service, nTime: int)
    requires BookOk(h, b, {})
    ensures BookOk(h, Attempt(b, a, service, nTime), {}) <==> (Matches(b, a, service) ==> nTime >= 0)
  {
    if Matches(b, a, service) {
      var id := a[service.ip];
      if nTime >= 0 {
        StatsKeep(h, b, id, Attempted(b.info[id], nTime), {});
      } else {
        assert Attempted(b.info[id], nTime).nLastTry < 0;
      }
    }
  }

  /** What MakeTried relies on does not depend on the statistics of an entry. */
  lemma {:induction false} StatsIrrelevant(h: Hasher, b: Book, id: int, info: AddrInfo)
    requires CanMakeTried(h, b, id) && info.addr.service == b.info[id].addr.service && !info.fInTried
    ensures CanMakeTried(h, b.(info := b.info[id := info]), id)
  {
    var b1 := b.(info := b.info[id := info]);
    assert forall i :: i in b.info && i != id ==> LeaveNew(b1, id).info[i] == LeaveNew(b, id).info[i];
  }

  /** Good_: marks an entry as working, and moves it to the tried table. */
  ghost function Good(h: Hasher, b: Book, a: map<NetAddr, int>, service: Service, nTime: int): Book
    requires BookOk(h, b, {})
  {
    if !Matches(b, a, service) then b
    else
      var id := a[service.ip];
      var b1 := b.(info := b.info[id := Succeeded(b.info[id], nTime)]);
      if b.info[id].fInTried then b1
      else
        MakeTriedKeeps(h, b, id);
        StatsIrrelevant(h, b, id, Succeeded(b.info[id], nTime));
        MakeTried(h, b1, id)
  }

  /** Marking an entry good keeps the invariant exactly when the time of success is positive: 0 stands for "never". */
  lemma {:induction false} GoodKeepsExactly(h: Hasher, b: Book, a: map<NetAddr, int>, service: Service, nTime: int)
    requires BookOk(h, b, {})
    ensures BookOk(h, Good(h, b, a, service, nTime), {}) <==> (Matches(b, a, service) ==> nTime > 0)
  {
    if Matches(b, a, service) {
      var id := a[service.ip];
      if nTime > 0 {
        StatsKeep(h, b, id, Succeeded(b.info[id], nTime), {});
        if !b.info[id].fInTried {
          MakeTriedKeeps(h, b.(info := b.info[id := Succeeded(b.info[id], nTime)]), id);
        }
      } else {
        GoodStamps(h, b, a, service, nTime);
      }
    }
  }

  lemma {:induction false} EvictStays(h: Hasher, b: Book, k: Slot, id: int)
    requires CanEvict(h, b, k) && id in b.info && b.triedTab[k] != id && forall l :: l in b.newTab ==> b.newTab[l] != id
    ensures id in Evict(h, b, k).info && Evict(h, b, k).info[id] == b.info[id]
  {
  }

  lemma {:induction false} MakeTriedStays(h: Hasher, b: Book, id: int)
    requires CanMakeTried(h, b, id)
    ensures id in MakeTried(h, b, id).info
    ensures MakeTried(h, b, id).info[id] == b.info[id].(nRefCount := 0, fInTried := true)
  {
    var k := h.TriedSlot(b.info[id].addr.service);
    if k in b.triedTab { EvictStays(h, LeaveNew(b, id), k, id); }
  }

  /** The entry ends in the tried table with the time of success. */
  lemma {:induction false} GoodStamps(h: Hasher, b: Book, a: map<NetAddr, int>, service: Service, nTime: int)
    requires BookOk(h, b, {}) && Matches(b, a, service)
    ensures var id, m := a[service.ip], Good(h, b, a, service, nTime).info;
            id in m && m[id].fInTried && m[id].nLastSuccess == nTime
  {
    var id := a[service.ip];
    if !b.info[id].fInTried {
      MakeTriedKeeps(h, b, id);
      StatsIrrelevant(h, b, id, Succeeded(b.info[id], nTime));
      MakeTriedStays(h, b.(info := b.info[id := Succeeded(b.info[id], nTime)]), id);
    }
  }

  /** The periodic update of the time last seen, and the services added. */
  function Refreshed(info: AddrInfo, addr: Address, nTimePenalty: int, nNow: int): AddrInfo {
    var nUpdateInterval := if nNow - addr.nTime < 24 * 60 * 60 then 60 * 60 else 24 * 60 * 60;
    var nTime :=
      if addr.nTime != 0 && (info.addr.nTime == 0 || info.addr.nTime < addr.nTime - nUpdateInterval - nTimePenalty)
      then Powers.Max(0, addr.nTime - nTimePenalty) else info.addr.nTime;
    info.(addr := info.addr.(nTime := nTime, nServices := info.addr.nServices + addr.nServices))
  }

  /** Whether a known entry may get one more reference; `draw` is the random number. */
  predicate MayAddRef(info: AddrInfo, addr: Address, draw: nat) {
    && addr.nTime != 0 && (info.addr.nTime == 0 || addr.nTime > info.addr.nTime)
    && !info.fInTried
    && info.nRefCount != NEW_BUCKETS_PER_ADDRESS
    && (info.nRefCount > 0 ==> draw % Powers.Pow2(info.nRefCount) == 0)
  }

  function Created(addr: Address, source: NetAddr, nTimePenalty: int): AddrInfo {
    AddrInfo(addr.(nTime := Powers.Max(0, addr.nTime - nTimePenalty)), source, 0, 0, 0, 0, false)
  }

  /** Whether an entry may take the slot from the one that holds it. */
  predicate MayOverwrite(holder: AddrInfo, info: AddrInfo, nNow: int) {
    holder.IsTerrible(nNow) || (holder.nRefCount > 1 && info.nRefCount == 0)
  }

  /** The new slot of an entry under a source. */
  function SlotUnder(h: Hasher, info: AddrInfo, source: NetAddr): Slot {
    h.NewSlot(info.addr.service, h.NewBucket(info.addr.service, source))
  }

  /** The end of Add_: finds the entry a slot under `source`, or drops it if it has none. */
  function Place(h: Hasher, b: Book, id: int, source: NetAddr, nNow: int): Book
    requires id in b.info && !b.info[id].fInTried && HolderOk(b, SlotUnder(h, b.info[id], source))
  {
    var info := b.info[id];
    var k := SlotUnder(h, info, source);
    if k in b.newTab && b.newTab[k] == id then b
    else if k in b.newTab && !MayOverwrite(b.info[b.newTab[k]], info, nNow) then
      if info.nRefCount == 0 then Erase(b, id) else b
    else AddRef(ClearNew(b, k), k, id)
  }

  lemma {:induction false} HoldersOk(h: Hasher, b: Book, zero: set<int>, k: Slot)
    requires BookOk(h, b, zero)
    ensures HolderOk(b, k)
  {
    if k in b.newTab { RemoveRefKeeps(h, b, k, zero); }
  }

  lemma {:induction false} PlaceKeeps(h: Hasher, b: Book, id: int, source: NetAddr, nNow: int, zero: set<int>)
    requires BookOk(h, b, zero) && id in b.info && !b.info[id].fInTried
    requires b.info[id].nRefCount < NEW_BUCKETS_PER_ADDRESS && zero <= {id}
    ensures HolderOk(b, SlotUnder(h, b.info[id], source)) && BookOk(h, Place(h, b, id, source, nNow), {})
  {
    var info := b.info[id];
    var k := SlotUnder(h, info, source);
    HoldersOk(h, b, zero, k);
    assert zero - {id} == {};
    if k in b.newTab && b.newTab[k] == id {
      HeldIffReferenced(b.info, b.newTab, zero, id);
      assert zero == {};
    } else if k in b.newTab && !MayOverwrite(b.info[b.newTab[k]], info, nNow) {
      if info.nRefCount == 0 {
        assert id in zero;
        EraseKeeps(h, b, id, zero);
      } else {
        assert zero == {};
      }
    } else {
      ClearNewKeeps(h, b, k, zero);
      ClearNewOthers(h, b, k, zero, id);
      AddRefKeeps(h, ClearNew(b, k), k, id, zero);
    }
  }

  /** Add_: the new book, and whether the address was not known. */
  ghost function Add(h: Hasher, b: Book, a: map<NetAddr, int>, nId: int, addr: Address, source: NetAddr,
                     nTimePenalty: int, nNow: int, draw: nat): (Book, bool)
    requires BookOk(h, b, {}) && AddrOk(b.info, a) && nId !in b.info
  {
    if !h.routable(addr.service.ip) then (b, false)
    else if addr.service.ip in a then
      var id := a[addr.service.ip];
      var info := Refreshed(b.info[id], addr, nTimePenalty, nNow);
      StatsKeep(h, b, id, info, {});
      var b1 := b.(info := b.info[id := info]);
      HoldersOk(h, b1, {}, SlotUnder(h, info, source));
      (if MayAddRef(info, addr, draw) then Place(h, b1, id, source, nNow) else b1, false)
    else
      var b1 := b.(info := b.info[nId := Created(addr, source, nTimePenalty)]);
      CreateKeeps(h, b, nId, Created(addr, source, nTimePenalty));
      HoldersOk(h, b1, {nId}, SlotUnder(h, Created(addr, source, nTimePenalty), source));
      (Place(h, b1, nId, source, nNow), true)
  }

  lemma {:induction false} CreateKeeps(h: Hasher, b: Book, nId: int, info: AddrInfo)
    requires BookOk(h, b, {}) && nId !in b.info
    requires info.nRefCount == 0 && !info.fInTried && info.nLastTry == 0 && info.nLastSuccess == 0
    ensures BookOk(h, b.(info := b.info[nId := info]), {nId})
  {
    assert Holders(b.newTab, nId) == {};
  }

  lemma {:induction false} AddKeeps(h: Hasher, b: Book, a: map<NetAddr, int>, nId: int, addr: Address, source: NetAddr,
                                    nTimePenalty: int, nNow: int, draw: nat)
    requires BookOk(h, b, {}) && AddrOk(b.info, a) && nId !in b.info
    ensures BookOk(h, Add(h, b, a, nId, addr, source, nTimePenalty, nNow, draw).0, {})
  {
    if h.routable(addr.service.ip) {
      if addr.service.ip in a {
        var id := a[addr.service.ip];
        var info := Refreshed(b.info[id], addr, nTimePenalty, nNow);
        StatsKeep(h, b, id, info, {});
        if MayAddRef(info, addr, draw) {
          PlaceKeeps(h, b.(info := b.info[id := info]), id, source, nNow, {});
        }
      } else {
        var info := Created(addr, source, nTimePenalty);
        CreateKeeps(h, b, nId, info);
        PlaceKeeps(h, b.(info := b.info[nId := info]), nId, source, nNow, {nId});
      }
    }
  }

  /** Adding an unknown routable address always answers true, but the address is kept exactly when its slot is
      free or may be overwritten. */
  lemma {:induction false} AddKeepsExactly(h: Hasher, b: Book, a: map<NetAddr, int>, nId: int, addr: Address,
                                           source: NetAddr, nTimePenalty: int, nNow: int, draw: nat)
    requires BookOk(h, b, {}) && AddrOk(b.info, a) && nId !in b.info
    requires h.routable(addr.service.ip) && addr.service.ip !in a
    ensures var (b', fNew) := Add(h, b, a, nId, addr, source, nTimePenalty, nNow, draw);
            var k := SlotUnder(h, Created(addr, source, nTimePenalty), source);
            var info := Created(addr, source, nTimePenalty);
            fNew && (nId in b'.info <==> (k in b.newTab ==> MayOverwrite(b.info[b.newTab[k]], info, nNow)))
  {
    var info := Created(addr, source, nTimePenalty);
    var b1 := b.(info := b.info[nId := info]);
    CreateKeeps(h, b, nId, info);
    var k := SlotUnder(h, info, source);
    HoldersOk(h, b1, {nId}, k);
    if k in b.newTab {
      ClearNewForZero(h, b1, k, {nId}, nId);
    }
  }

  lemma {:induction false} EvictLoses(h: Hasher, b: Book, k: Slot, lost: int)
    requires CanEvict(h, b, k) && lost in b.info && lost !in Evict(h, b, k).info
    ensures var place := NewPlace(h, b.info[b.triedTab[k]]);
            place in b.newTab && b.newTab[place] == lost && b.info[lost].nRefCount == 1
  {
  }

  /** Making an id tried loses at most one entry: the one whose only reference was at the evicted id's place. */
  lemma {:induction false} MakeTriedLoses(h: Hasher, b: Book, id: int, lost: int)
    requires CanMakeTried(h, b, id) && lost in b.info && lost !in MakeTried(h, b, id).info
    ensures var k := h.TriedSlot(b.info[id].addr.service);
            k in b.triedTab && b.triedTab[k] in b.info
            && (var place := NewPlace(h, b.info[b.triedTab[k]]);
                place in b.newTab && b.newTab[place] == lost != id && b.info[lost].nRefCount == 1)
  {
    EvictLoses(h, LeaveNew(b, id), h.TriedSlot(b.info[id].addr.service), lost);
  }

  // ---------------------------------------------------------------------------
  // Examples
  // ---------------------------------------------------------------------------

  /** A book with one untried entry, for address 1, seen at time 1000. */
  function OneEntry(h: Hasher): Book {
    var info := AddrInfo(Address(Service(1, 1), {}, 1000), 0, 0, 0, 0, 1, false);
    Book(map[0 := info], map[NewPlace(h, info) := 0], map[])
  }

  lemma {:induction false} OneEntryOk(h: Hasher)
    ensures BookOk(h, OneEntry(h), {}) && AddrOk(OneEntry(h).info, map[1 := 0])
  {
    var k := NewPlace(h, OneEntry(h).info[0]);
    HoldersAdded(map[], k, 0, 0);
    assert map[][k := 0] == OneEntry(h).newTab;
    assert Holders(map[], 0) == {};
  }

  /** Marking an entry good at time 0 breaks the invariant. */
  lemma {:induction false} GoodAtZero(h: Hasher)
    ensures BookOk(h, OneEntry(h), {}) && Matches(OneEntry(h), map[1 := 0], Service(1, 1))
    ensures !BookOk(h, Good(h, OneEntry(h), map[1 := 0], Service(1, 1), 0), {})
  {
    OneEntryOk(h);
    GoodKeepsExactly(h, OneEntry(h), map[1 := 0], Service(1, 1), 0);
  }

  /** So does counting an attempt before time 0. */
  lemma {:induction false} AttemptBeforeZero(h: Hasher)
    ensures var b := OneEntry(h); BookOk(h, b, {}) && !BookOk(h, b.(info := map[0 := Attempted(b.info[0], -1)]), {})
  {
    OneEntryOk(h);
    assert Attempted(OneEntry(h).info[0], -1).nLastTry < 0;
  }

  /** Every address in the same slot. */
  const COLLIDING: Hasher := Hasher((a, s) => 0, a => 0, (n, b, a) => 0, ip => true)

  /** Address 2 falls into the slot of address 1: adding it answers true, and drops it. */
  lemma {:induction false} AddedAndDropped()
    ensures BookOk(COLLIDING, OneEntry(COLLIDING), {}) && AddrOk(OneEntry(COLLIDING).info, map[1 := 0])
    ensures var (b, fNew) := Add(COLLIDING, OneEntry(COLLIDING), map[1 := 0], 1, Address(Service(2, 1), {}, 1000), 0,
                                 0, 1000, 0);
            fNew && 1 !in b.info
  {
    OneEntryOk(COLLIDING);
    AddKeepsExactly(COLLIDING, OneEntry(COLLIDING), map[1 := 0], 1, Address(Service(2, 1), {}, 1000), 0, 0, 1000, 0);
  }
}
