/** What the operations of the address manager do to its entries and tables, entry by entry and slot by slot. */
module AddrMeaning {
  import opened AddrBook
  import opened Coins
  import Powers

  /** The entry of an id, if it has one. */
  function Entry(b: Book, id: int): Option<AddrInfo> {
    if id in b.info then Some(b.info[id]) else None
  }

  /** An entry worth keeping: tried within the last minute; or seen within 30 days and not from more than ten minutes
      ahead, with a success or fewer than 3 attempts, and a success within 7 days or fewer than 10 attempts. */
  predicate Worthy(info: AddrInfo, nNow: int) {
    || (info.nLastTry != 0 && nNow - info.nLastTry <= 60)
    || (&& info.addr.nTime != 0 && -600 <= nNow - info.addr.nTime <= 2_592_000
        && (info.nLastSuccess != 0 || info.nAttempts < 3)
        && (nNow - info.nLastSuccess <= 604_800 || info.nAttempts < 10))
  }

  lemma {:induction false} WorthyIs(info: AddrInfo, nNow: int)
    ensures info.IsTerrible(nNow) <==> !Worthy(info, nNow)
  {
  }

  /** The new slot of an address under a source, and the tried slot of an address. */
  function NewSlotOf(h: Hasher, service: Service, source: NetAddr): Slot {
    var bucket := h.newHash(service, source) % 1024;
    Slot(bucket, h.posHash(true, bucket, service) % 64)
  }

  function TriedSlotOf(h: Hasher, service: Service): Slot {
    var bucket := h.triedHash(service) % 256;
    Slot(bucket, h.posHash(false, bucket, service) % 64)
  }

  /** An entry that loses a slot is gone with its last one. */
  function OneLess(e: Option<AddrInfo>): Option<AddrInfo> {
    if e.Some? && e.value.nRefCount != 1 then Some(e.value.(nRefCount := e.value.nRefCount - 1)) else None
  }

  /** New slot `k` has gone from whatever held it to `id`, whose entry now is `info`; nothing else has changed. */
  ghost predicate SlotTaken(b0: Book, b1: Book, k: Slot, id: int, info: AddrInfo) {
    && b1.newTab == b0.newTab[k := id] && b1.triedTab == b0.triedTab
    && forall i :: Entry(b1, i) == if i == id then Some(info)
                                   else if k in b0.newTab && b0.newTab[k] == i then OneLess(Entry(b0, i))
                                   else Entry(b0, i)
  }

  /** Only the entry of `id` has changed. */
  ghost predicate EntrySet(b0: Book, b1: Book, id: int, info: AddrInfo) {
    && b1.newTab == b0.newTab && b1.triedTab == b0.triedTab
    && forall i :: Entry(b1, i) == if i == id then Some(info) else Entry(b0, i)
  }

  // ---------------------------------------------------------------------------
  // Add_
  // ---------------------------------------------------------------------------

  /** How much older than announced an entry may be before it is refreshed: an hour if the address was seen within a
      day, otherwise a day, and the penalty. */
  function Lag(addr: Address, nTimePenalty: int, nNow: int): int {
    nTimePenalty + if nNow - addr.nTime < 86_400 then 3_600 else 86_400
  }

  function Penalized(addr: Address, nTimePenalty: int): int {
    if addr.nTime > nTimePenalty then addr.nTime - nTimePenalty else 0
  }

  /** A known entry after its address is announced: the time is refreshed only if it has fallen behind, or is unknown;
      the services are the old ones and those announced; and nothing else changes. */
  ghost predicate Announced(e0: AddrInfo, e1: AddrInfo, addr: Address, nTimePenalty: int, nNow: int) {
    && (if addr.nTime != 0 && (e0.addr.nTime == 0 || addr.nTime - e0.addr.nTime > Lag(addr, nTimePenalty, nNow))
        then e1.addr.nTime == Penalized(addr, nTimePenalty) else e1.addr.nTime == e0.addr.nTime)
    && (forall s :: s in e1.addr.nServices <==> s in e0.addr.nServices || s in addr.nServices)
    && e1.addr.service == e0.addr.service && e1.source == e0.source
    && e1.nLastTry == e0.nLastTry && e1.nLastSuccess == e0.nLastSuccess && e1.nAttempts == e0.nAttempts
    && e1.nRefCount == e0.nRefCount && e1.fInTried == e0.fInTried
  }

  lemma {:induction false} RefreshedIs(e0: AddrInfo, e1: AddrInfo, addr: Address, nTimePenalty: int, nNow: int)
    ensures e1 == Refreshed(e0, addr, nTimePenalty, nNow) <==> Announced(e0, e1, addr, nTimePenalty, nNow)
  {
    if Announced(e0, e1, addr, nTimePenalty, nNow) {
      assert e1.addr.nServices == e0.addr.nServices + addr.nServices;
    }
  }

  /** After that, no entry with a time is further behind an announced time than the lag. */
  lemma {:induction false} NotFarBehind(e0: AddrInfo, e1: AddrInfo, addr: Address, nTimePenalty: nat, nNow: int)
    requires Announced(e0, e1, addr, nTimePenalty, nNow) && addr.nTime != 0
    ensures e1.addr.nTime == 0 || addr.nTime - e1.addr.nTime <= Lag(addr, nTimePenalty, nNow)
    ensures e1.addr.nTime == e0.addr.nTime || e1.addr.nTime == Penalized(addr, nTimePenalty)
  {
  }

  /** Whether a known entry may take one more slot: it is untried, in fewer than 8, the announced time is news, and one
      draw in 2^n succeeds for an entry in n slots. */
  predicate MayGrow(e: AddrInfo, addr: Address, draw: nat) {
    && !e.fInTried && e.nRefCount != 8
    && addr.nTime != 0 && (e.addr.nTime == 0 || e.addr.nTime < addr.nTime)
    && (e.nRefCount > 0 ==> draw % Powers.Pow2(e.nRefCount) == 0)
  }

  /** Whether a slot can be had: it is free, or its holder is not worth keeping, or the newcomer has no slot at all and
      the holder has others. */
  predicate CanTake(b: Book, k: Slot, nRefCount: int, nNow: int) {
    k in b.newTab ==>
      && b.newTab[k] in b.info
      && (!Worthy(b.info[b.newTab[k]], nNow) || (b.info[b.newTab[k]].nRefCount > 1 && nRefCount == 0))
  }

  /** Add_ for an address that is not known. */
  ghost predicate AddedUnknown(h: Hasher, b0: Book, nId: int, addr: Address, source: NetAddr, nTimePenalty: int,
                               nNow: int, b1: Book) {
    var k := NewSlotOf(h, addr.service, source);
    var info := AddrInfo(addr.(nTime := Penalized(addr, nTimePenalty)), source, 0, 0, 0, 1, false);
    if CanTake(b0, k, 0, nNow) then SlotTaken(b0, b1, k, nId, info) else b1 == b0
  }

  /** Add_ for the address of entry `id`. */
  ghost predicate AddedKnown(h: Hasher, b0: Book, id: int, addr: Address, source: NetAddr, nTimePenalty: int, nNow: int,
                             draw: nat, b1: Book, info: AddrInfo)
    requires id in b0.info
  {
    var e0 := b0.info[id];
    var k := NewSlotOf(h, e0.addr.service, source);
    && Announced(e0, info, addr, nTimePenalty, nNow)
    && if MayGrow(info, addr, draw) && !(k in b0.newTab && b0.newTab[k] == id) && CanTake(b0, k, e0.nRefCount, nNow)
       then SlotTaken(b0, b1, k, id, info.(nRefCount := e0.nRefCount + 1))
       else EntrySet(b0, b1, id, info)
  }

  /** Add_: an address that is not routable changes nothing; the answer says whether the address was not known. */
  ghost predicate Added(h: Hasher, b0: Book, a: map<NetAddr, int>, nId: int, addr: Address, source: NetAddr,
                        nTimePenalty: int, nNow: int, draw: nat, b1: Book, fNew: bool)
    requires AddrOk(b0.info, a)
  {
    if !h.routable(addr.service.ip) then b1 == b0 && !fNew
    else if addr.service.ip !in a then fNew && AddedUnknown(h, b0, nId, addr, source, nTimePenalty, nNow, b1)
    else !fNew && exists info ::
           AddedKnown(h, b0, a[addr.service.ip], addr, source, nTimePenalty, nNow, draw, b1, info)
  }

  lemma {:induction false} TakeIs(b: Book, k: Slot, id: int)
    requires id in b.info && HolderOk(b, k) && (k in b.newTab ==> b.newTab[k] != id)
    ensures id in ClearNew(b, k).info
    ensures SlotTaken(b, AddRef(ClearNew(b, k), k, id), k, id, b.info[id].(nRefCount := b.info[id].nRefCount + 1))
  {
    var b1 := AddRef(ClearNew(b, k), k, id);
    assert ClearNew(b, k).newTab == b.newTab - {k};
    assert b1.newTab == b.newTab[k := id];
  }

  /** The end of Add_. */
  lemma {:induction false} PlaceIs(h: Hasher, b: Book, id: int, source: NetAddr, nNow: int)
    requires id in b.info && !b.info[id].fInTried && HolderOk(b, SlotUnder(h, b.info[id], source))
    ensures var e, k := b.info[id], NewSlotOf(h, b.info[id].addr.service, source);
            var b1 := Place(h, b, id, source, nNow);
            if !(k in b.newTab && b.newTab[k] == id) && CanTake(b, k, e.nRefCount, nNow)
            then SlotTaken(b, b1, k, id, e.(nRefCount := e.nRefCount + 1))
            else if k in b.newTab && b.newTab[k] != id && e.nRefCount == 0 then b1 == Erase(b, id)
            else b1 == b
  {
    var e, k := b.info[id], NewSlotOf(h, b.info[id].addr.service, source);
    assert k == SlotUnder(h, e, source);
    if k in b.newTab { WorthyIs(b.info[b.newTab[k]], nNow); }
    if !(k in b.newTab && b.newTab[k] == id) { TakeIs(b, k, id); }
  }

  lemma {:induction false} AddUnknownIs(h: Hasher, b: Book, a: map<NetAddr, int>, nId: int, addr: Address,
                                        source: NetAddr, nTimePenalty: int, nNow: int, draw: nat)
    requires BookOk(h, b, {}) && AddrOk(b.info, a) && nId !in b.info
    requires h.routable(addr.service.ip) && addr.service.ip !in a
    ensures var r := Add(h, b, a, nId, addr, source, nTimePenalty, nNow, draw);
            r.1 && AddedUnknown(h, b, nId, addr, source, nTimePenalty, nNow, r.0)
  {
    var info := Created(addr, source, nTimePenalty);
    var b1 := b.(info := b.info[nId := info]);
    CreateKeeps(h, b, nId, info);
    HoldersOk(h, b1, {nId}, SlotUnder(h, info, source));
    PlaceIs(h, b1, nId, source, nNow);
    HoldersOk(h, b, {}, NewSlotOf(h, addr.service, source));
    assert b1.info - {nId} == b.info;
  }

  lemma {:induction false} AddKnownIs(h: Hasher, b: Book, a: map<NetAddr, int>, nId: int, addr: Address,
                                      source: NetAddr, nTimePenalty: int, nNow: int, draw: nat)
    requires BookOk(h, b, {}) && AddrOk(b.info, a) && nId !in b.info
    requires h.routable(addr.service.ip) && addr.service.ip in a
    ensures var r := Add(h, b, a, nId, addr, source, nTimePenalty, nNow, draw);
            var id := a[addr.service.ip];
            !r.1 && AddedKnown(h, b, id, addr, source, nTimePenalty, nNow, draw, r.0,
                               Refreshed(b.info[id], addr, nTimePenalty, nNow))
  {
    var id := a[addr.service.ip];
    var info := Refreshed(b.info[id], addr, nTimePenalty, nNow);
    RefreshedIs(b.info[id], info, addr, nTimePenalty, nNow);
    StatsKeep(h, b, id, info, {});
    var b1 := b.(info := b.info[id := info]);
    HoldersOk(h, b1, {}, SlotUnder(h, info, source));
    if MayAddRef(info, addr, draw) {
      PlaceIs(h, b1, id, source, nNow);
    }
  }

  lemma {:induction false} AddIs(h: Hasher, b: Book, a: map<NetAddr, int>, nId: int, addr: Address, source: NetAddr,
                                 nTimePenalty: int, nNow: int, draw: nat)
    requires BookOk(h, b, {}) && AddrOk(b.info, a) && nId !in b.info
    ensures var r := Add(h, b, a, nId, addr, source, nTimePenalty, nNow, draw);
            Added(h, b, a, nId, addr, source, nTimePenalty, nNow, draw, r.0, r.1)
  {
    if h.routable(addr.service.ip) {
      if addr.service.ip in a {
        AddKnownIs(h, b, a, nId, addr, source, nTimePenalty, nNow, draw);
      } else {
        AddUnknownIs(h, b, a, nId, addr, source, nTimePenalty, nNow, draw);
      }
    }
  }

  // ---------------------------------------------------------------------------
  // Good_
  // ---------------------------------------------------------------------------

  /** What holds a slot, if anything does. */
  function Holder(t: Table, k: Slot): Option<int> {
    if k in t then Some(t[k]) else None
  }

  /** An id has left the new table and holds tried slot `k`, which was free. */
  ghost predicate MovedToFree(b0: Book, b1: Book, id: int, k: Slot, info: AddrInfo) {
    && (forall l :: Holder(b1.newTab, l) == if Holder(b0.newTab, l) == Some(id) then None else Holder(b0.newTab, l))
    && (forall i :: Entry(b1, i) == if i == id then Some(info) else Entry(b0, i))
  }

  /** The same when `old` held it: that is untried again and holds its own new slot `place`, and what was there loses
      it. */
  ghost predicate MovedOver(b0: Book, b1: Book, id: int, info: AddrInfo, old_: int, place: Slot) {
    && (forall l :: Holder(b1.newTab, l) == if l == place then Some(old_)
                                            else if Holder(b0.newTab, l) == Some(id) then None
                                            else Holder(b0.newTab, l))
    && old_ in b0.info
    && forall i :: Entry(b1, i) == if i == id then Some(info)
                                   else if i == old_ then Some(b0.info[old_].(fInTried := false, nRefCount := 1))
                                   else if Holder(b0.newTab, place) == Some(i) then OneLess(Entry(b0, i))
                                   else Entry(b0, i)
  }

  ghost predicate Moved(h: Hasher, b0: Book, b1: Book, id: int, info: AddrInfo) {
    var k := TriedSlotOf(h, info.addr.service);
    && b1.triedTab == b0.triedTab[k := id]
    && if k !in b0.triedTab then MovedToFree(b0, b1, id, k, info)
       else b0.triedTab[k] in b0.info
            && (var e := b0.info[b0.triedTab[k]];
                MovedOver(b0, b1, id, info, b0.triedTab[k], NewSlotOf(h, e.addr.service, e.source)))
  }

  /** Good_: the entry for exactly this address and port gets the time of success, and no attempts since; if it was
      untried, it moves to its tried slot, out of all its new slots. */
  ghost predicate Marked(h: Hasher, b0: Book, a: map<NetAddr, int>, service: Service, nTime: int, b1: Book) {
    if service.ip in a && a[service.ip] in b0.info && b0.info[a[service.ip]].addr.service == service
    then
      var id := a[service.ip];
      var e := b0.info[id];
      if e.fInTried then EntrySet(b0, b1, id, e.(nLastSuccess := nTime, nLastTry := nTime, nAttempts := 0))
      else Moved(h, b0, b1, id, e.(nLastSuccess := nTime, nLastTry := nTime, nAttempts := 0, nRefCount := 0,
                                   fInTried := true))
    else b1 == b0
  }

  lemma {:induction false} EvictIs(h: Hasher, b0: Book, b: Book, id: int, k: Slot)
    requires id in b0.info && b == LeaveNew(b0, id) && CanEvict(h, b, k) && b.triedTab[k] != id
    ensures var e := b0.info[b0.triedTab[k]];
            MovedOver(b0, EnterTried(h, Evict(h, b, k), id), id, b0.info[id].(nRefCount := 0, fInTried := true),
                      b0.triedTab[k], NewSlotOf(h, e.addr.service, e.source))
    ensures k == h.TriedSlot(b0.info[id].addr.service) ==>
              EnterTried(h, Evict(h, b, k), id).triedTab == b0.triedTab[k := id]
  {
    var e := b0.info[b0.triedTab[k]];
    var place := NewSlotOf(h, e.addr.service, e.source);
    assert place == NewPlace(h, b.info[b.triedTab[k]]);
    assert b.info[b.triedTab[k]].nRefCount == 0;
    var b1 := Evict(h, b, k);
    assert b1.newTab == b.newTab[place := b0.triedTab[k]] by {
      assert ClearNew(LeaveTried(b, k), place).newTab == b.newTab - {place};
    }
    assert b1.triedTab == b0.triedTab - {k};
  }

  lemma {:induction false} MoveIs(h: Hasher, b: Book, id: int)
    requires CanMakeTried(h, b, id)
    ensures Moved(h, b, MakeTried(h, b, id), id, b.info[id].(nRefCount := 0, fInTried := true))
  {
    var k := TriedSlotOf(h, b.info[id].addr.service);
    assert k == h.TriedSlot(b.info[id].addr.service);
    if k in b.triedTab { EvictIs(h, b, LeaveNew(b, id), id, k); }
  }

  lemma {:induction false} GoodIs(h: Hasher, b: Book, a: map<NetAddr, int>, service: Service, nTime: int)
    requires BookOk(h, b, {})
    ensures Marked(h, b, a, service, nTime, Good(h, b, a, service, nTime))
  {
    if Matches(b, a, service) && !b.info[a[service.ip]].fInTried {
      var id := a[service.ip];
      var b1 := b.(info := b.info[id := Succeeded(b.info[id], nTime)]);
      MakeTriedKeeps(h, b, id);
      StatsIrrelevant(h, b, id, Succeeded(b.info[id], nTime));
      MoveIs(h, b1, id);
      MovedFrom(h, b, b1, Good(h, b, a, service, nTime), id);
    }
  }

  /** The statistics of the entry before do not matter. */
  lemma {:induction false} MovedFrom(h: Hasher, b: Book, b1: Book, b2: Book, id: int)
    requires id in b1.info && id in b.info && b1.newTab == b.newTab && b1.triedTab == b.triedTab
    requires forall i :: i != id ==> Entry(b1, i) == Entry(b, i)
    requires Moved(h, b1, b2, id, b1.info[id].(nRefCount := 0, fInTried := true))
    requires forall k :: k in b.triedTab ==> b.triedTab[k] != id
    ensures Moved(h, b, b2, id, b1.info[id].(nRefCount := 0, fInTried := true))
  {
    var k := TriedSlotOf(h, b1.info[id].addr.service);
    if k in b.triedTab {
      var old_ := b.triedTab[k];
      assert Entry(b1, old_) == Entry(b, old_);
    }
  }
}
