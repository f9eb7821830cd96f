/** A consistent address manager survives being written and read: only its ids are renumbered. */
module AddrRoundTrip {
  import opened AddrBook
  import opened AddrCodec
  import opened Coins
  import M = AddrMan
  import C = AddrManCheck

  // ---------------------------------------------------------------------------
  // The lists of ids
  // ---------------------------------------------------------------------------

  lemma {:induction false} IdsListed(m: InfoMap, tried: bool, n: int, i: nat)
    requires i < |Ids(m, tried, n)|
    ensures 0 <= Ids(m, tried, n)[i] < n && Listed(m, tried, Ids(m, tried, n)[i])
    ensures Rank(m, tried, Ids(m, tried, n)[i]) == i
  {
    if i < |Ids(m, tried, n - 1)| { IdsListed(m, tried, n - 1, i); }
  }

  /** A listed id is at its rank. */
  lemma {:induction false} IdAtRank(m: InfoMap, tried: bool, id: int, n: int)
    requires 0 <= id < n && Listed(m, tried, id)
    ensures Rank(m, tried, id) < |Ids(m, tried, n)| && Ids(m, tried, n)[Rank(m, tried, id)] == id
  {
    if id < n - 1 { IdAtRank(m, tried, id, n - 1); }
  }

  lemma {:induction false} EntriesAre(m: InfoMap, tried: bool, n: int)
    ensures |Entries(m, tried, n)| == |Ids(m, tried, n)|
    ensures forall i :: 0 <= i < |Ids(m, tried, n)| ==>
              Ids(m, tried, n)[i] in m && Entries(m, tried, n)[i] == Disk(m[Ids(m, tried, n)[i]])
  {
    if n > 0 { EntriesAre(m, tried, n - 1); }
  }

  ghost function ListedBelow(m: InfoMap, tried: bool, n: int): set<int> {
    set id | id in m && 0 <= id < n && Listed(m, tried, id)
  }

  lemma {:induction false} IdsCount(m: InfoMap, tried: bool, n: int)
    ensures |Ids(m, tried, n)| == |ListedBelow(m, tried, n)|
  {
    if n <= 0 {
      assert ListedBelow(m, tried, n) == {};
    } else {
      IdsCount(m, tried, n - 1);
      assert ListedBelow(m, tried, n) == ListedBelow(m, tried, n - 1) + if Listed(m, tried, n - 1) then {n - 1} else {};
    }
  }

  /** What is written as nNew and nTried is how many entries follow. */
  lemma {:induction false} CountsWritten(h: Hasher, am: Manager)
    requires Consistent(h, am)
    ensures |Ids(am.book.info, false, am.nIdCount)| == am.nNew
    ensures |Ids(am.book.info, true, am.nIdCount)| == am.nTried
  {
    IdsCount(am.book.info, false, am.nIdCount);
    IdsCount(am.book.info, true, am.nIdCount);
    assert ListedBelow(am.book.info, false, am.nIdCount) == M.IdsWith(am.book.info, false);
    assert ListedBelow(am.book.info, true, am.nIdCount) == M.IdsWith(am.book.info, true);
  }

  // ---------------------------------------------------------------------------
  // The renumbering
  // ---------------------------------------------------------------------------

  /** The ids in the order in which their entries are written. */
  function Order(am: Manager): seq<int> {
    Ids(am.book.info, false, am.nIdCount) + Ids(am.book.info, true, am.nIdCount)
  }

  /** The id under which an entry is read back. */
  function NewName(am: Manager, id: int): nat {
    if id in am.book.info && am.book.info[id].fInTried
    then |Ids(am.book.info, false, am.nIdCount)| + Rank(am.book.info, true, id)
    else Rank(am.book.info, false, id)
  }

  lemma {:induction false} NameInOrder(h: Hasher, am: Manager, id: int)
    requires Consistent(h, am) && id in am.book.info
    ensures NewName(am, id) < |Order(am)| && Order(am)[NewName(am, id)] == id
    ensures NewName(am, id) < |Ids(am.book.info, false, am.nIdCount)| <==> !am.book.info[id].fInTried
  {
    IdAtRank(am.book.info, am.book.info[id].fInTried, id, am.nIdCount);
  }

  lemma {:induction false} OrderNamed(h: Hasher, am: Manager, i: nat)
    requires Consistent(h, am) && i < |Order(am)|
    ensures Order(am)[i] in am.book.info && NewName(am, Order(am)[i]) == i
  {
    var n := |Ids(am.book.info, false, am.nIdCount)|;
    IdsListed(am.book.info, i >= n, am.nIdCount, if i < n then i else i - n);
  }

  /** A table with its ids renamed, as far as the new names are below `c`. */
  function Renamed(am: Manager, t: Table, c: nat): Table {
    map k | k in t && NewName(am, t[k]) < c :: NewName(am, t[k])
  }

  function AddrRenamed(am: Manager, c: nat): map<NetAddr, int> {
    map ip | ip in am.mapAddr && NewName(am, am.mapAddr[ip]) < c :: NewName(am, am.mapAddr[ip])
  }

  /** An entry as it reads back while a part of the new table is loaded: it forgets its last try. */
  ghost function Reread(am: Manager, id: int, part: Table): AddrInfo {
    if id in am.book.info then am.book.info[id].(nLastTry := 0, nRefCount := |Holders(part, id)|)
    else AddrInfo(Address(Service(0, 0), {}, 0), 0, 0, 0, 0, 0, false)
  }

  ghost function EntriesRead(am: Manager, c: nat, part: Table): InfoMap
    requires c <= |Order(am)|
  {
    map i | 0 <= i < c :: Reread(am, Order(am)[i], part)
  }

  function UpTo(n: nat): (r: seq<int>)
    ensures |r| == n
  {
    if n == 0 then [] else UpTo(n - 1) + [n - 1]
  }

  function Same(n: nat): map<int, int> {
    if n == 0 then map[] else Same(n - 1)[n - 1 := n - 1]
  }

  /** The manager after `c` entries and a part of the new table have been read. */
  ghost function Loaded(am: Manager, c: nat, part: Table, nIdCount: int): Manager
    requires c <= |Order(am)|
  {
    Manager(Book(EntriesRead(am, c, part), Renamed(am, part, |Order(am)|), Renamed(am, am.book.triedTab, c)),
            AddrRenamed(am, c), UpTo(c), Same(c), am.nNew, am.nTried, nIdCount)
  }

  /** The manager with its ids renumbered from 0, without the times of last tries. */
  ghost function Renumbered(am: Manager): Manager {
    Loaded(am, |Order(am)|, am.book.newTab, |Order(am)|)
  }

  // ---------------------------------------------------------------------------
  // Reading the entries
  // ---------------------------------------------------------------------------

  lemma {:induction false} AddrGrows(h: Hasher, am: Manager, c: nat)
    requires Consistent(h, am) && c < |Order(am)|
    ensures Order(am)[c] in am.book.info
    ensures AddrRenamed(am, c + 1) == AddrRenamed(am, c)[am.book.info[Order(am)[c]].addr.service.ip := c]
  {
    OrderNamed(h, am, c);
    forall ip | ip in am.mapAddr
      ensures NewName(am, am.mapAddr[ip]) == c <==> ip == am.book.info[Order(am)[c]].addr.service.ip
    {
      NameInOrder(h, am, am.mapAddr[ip]);
    }
  }

  lemma {:induction false} InfoGrows(am: Manager, c: nat)
    requires c < |Order(am)|
    ensures EntriesRead(am, c + 1, map[]) == EntriesRead(am, c, map[])[c := Reread(am, Order(am)[c], map[])]
  {
  }

  lemma {:induction false} EnterEntry(h: Hasher, am: Manager, c: nat, nIdCount: int)
    requires Consistent(h, am) && c < |Order(am)|
    ensures Order(am)[c] in am.book.info
    ensures Enter(Loaded(am, c, map[], nIdCount), c, Reread(am, Order(am)[c], map[]))
            == Loaded(am, c + 1, map[], nIdCount).(book := Loaded(am, c, map[], nIdCount).book.(
                 info := EntriesRead(am, c + 1, map[])))
  {
    AddrGrows(h, am, c);
    InfoGrows(am, c);
  }

  /** What is read is what was written of the entry, before any reference is counted. */
  lemma {:induction false} EntryRead(h: Hasher, am: Manager, id: int)
    requires Consistent(h, am) && id in am.book.info
    ensures FromDisk(Disk(am.book.info[id])).(fInTried := am.book.info[id].fInTried) == Reread(am, id, map[])
  {
    assert Holders(map[], id) == {};
  }

  /** Only the tried ids are in the tried table, and they are the later ones. */
  lemma {:induction false} TriedUnchanged(h: Hasher, am: Manager, c: nat)
    requires Consistent(h, am) && c < |Order(am)| && Order(am)[c] in am.book.info
    requires !am.book.info[Order(am)[c]].fInTried
    ensures Renamed(am, am.book.triedTab, c) == Renamed(am, am.book.triedTab, c + 1)
  {
    forall k | k in am.book.triedTab ensures NewName(am, am.book.triedTab[k]) != c {
      NameInOrder(h, am, am.book.triedTab[k]);
    }
  }

  lemma {:induction false} TriedGrows(h: Hasher, am: Manager, c: nat)
    requires Consistent(h, am) && c < |Order(am)| && Order(am)[c] in am.book.info
    requires am.book.info[Order(am)[c]].fInTried
    ensures var k := h.TriedSlot(am.book.info[Order(am)[c]].addr.service);
            k !in Renamed(am, am.book.triedTab, c)
            && Renamed(am, am.book.triedTab, c + 1) == Renamed(am, am.book.triedTab, c)[k := c]
  {
    var id := Order(am)[c];
    OrderNamed(h, am, c);
    var k := h.TriedSlot(am.book.info[id].addr.service);
    assert k in am.book.triedTab && am.book.triedTab[k] == id;
    forall l | l in am.book.triedTab ensures NewName(am, am.book.triedTab[l]) == c <==> l == k {
      NameInOrder(h, am, am.book.triedTab[l]);
    }
  }

  /** The token that stands for the entry read as `c`. */
  predicate IsEntry(am: Manager, c: nat, t: Token) {
    c < |Order(am)| && Order(am)[c] in am.book.info && t == Disk(am.book.info[Order(am)[c]])
  }

  lemma {:induction false} OrderSplit(h: Hasher, am: Manager, c: nat)
    requires Consistent(h, am) && c < |Order(am)|
    ensures |Order(am)| == am.nNew + am.nTried
    ensures Order(am)[c] in am.book.info && (am.book.info[Order(am)[c]].fInTried <==> c >= am.nNew)
  {
    CountsWritten(h, am);
    OrderNamed(h, am, c);
    NameInOrder(h, am, Order(am)[c]);
  }

  lemma {:induction false} NewEntryRead(h: Hasher, am: Manager, c: nat, next: nat, t: Token)
    requires Consistent(h, am) && IsEntry(am, c, t) && c < am.nNew && next == c + 1
    ensures Enter(Loaded(am, c, map[], 0), c, FromDisk(t)) == Loaded(am, next, map[], 0)
  {
    OrderSplit(h, am, c);
    EntryRead(h, am, Order(am)[c]);
    EnterEntry(h, am, c, 0);
    TriedUnchanged(h, am, c);
  }

  lemma {:induction false} TriedEntryRead(h: Hasher, am: Manager, c: nat, next: nat, t: Token)
    requires Consistent(h, am) && IsEntry(am, c, t) && c >= am.nNew && next == c + 1
    ensures PutTried(h, Loaded(am, c, map[], c), FromDisk(t)) == Loaded(am, next, map[], next)
  {
    OrderSplit(h, am, c);
    EntryRead(h, am, Order(am)[c]);
    EnterEntry(h, am, c, c);
    TriedGrows(h, am, c);
  }

  /** The token at `pos` + `i` stands for the entry read as `base` + `i`. */
  predicate EntryAt(am: Manager, s: seq<Token>, pos: nat, base: nat, i: nat) {
    pos + i < |s| && IsEntry(am, base + i, s[pos + i])
  }

  ghost predicate EntriesAt(am: Manager, s: seq<Token>, pos: nat, base: nat, n: nat) {
    forall i :: 0 <= i < n ==> EntryAt(am, s, pos, base, i)
  }

  /** One more entry, from managers that are known. */
  lemma {:induction false} LoadNewNext(h: Hasher, st: Manager, s: seq<Token>, pos: nat, n: nat, t: Token,
                                       before: Manager, r: Manager)
    requires 0 < n <= |s| - pos && s[pos + n - 1] == t && t.Entry? && Enter(before, n - 1, FromDisk(t)) == r
    requires LoadNew(h, st, s, pos, n - 1, true) == Some(before)
    ensures LoadNew(h, st, s, pos, n, true) == Some(r)
  {
  }

  lemma {:induction false} LoadTriedNext(h: Hasher, st: Manager, s: seq<Token>, pos: nat, n: nat, t: Token,
                                         before: Manager, r: Manager)
    requires 0 < n <= |s| - pos && s[pos + n - 1] == t && t.Entry? && PutTried(h, before, FromDisk(t)) == r
    requires LoadTried(h, st, s, pos, n - 1) == Some(before)
    ensures LoadTried(h, st, s, pos, n) == Some(r)
  {
  }

  lemma {:induction false} NewEntryLoaded(h: Hasher, am: Manager, st: Manager, s: seq<Token>, pos: nat, n: nat)
    requires Consistent(h, am) && n > 0 && EntryAt(am, s, pos, 0, n - 1) && n <= am.nNew && n <= |Order(am)|
    requires LoadNew(h, st, s, pos, n - 1, true) == Some(Loaded(am, n - 1, map[], 0))
    ensures LoadNew(h, st, s, pos, n, true) == Some(Loaded(am, n, map[], 0))
  {
    var t, before := s[pos + n - 1], Loaded(am, n - 1, map[], 0);
    assert IsEntry(am, n - 1, t);
    NewEntryRead(h, am, n - 1, n, t);
    LoadNewNext(h, st, s, pos, n, t, before, Enter(before, n - 1, FromDisk(t)));
  }

  lemma {:induction false} NewEntriesRead(h: Hasher, am: Manager, st: Manager, s: seq<Token>, pos: nat, n: nat)
    requires Consistent(h, am) && EntriesAt(am, s, pos, 0, n) && n <= am.nNew && n <= |Order(am)|
    requires st == Loaded(am, 0, map[], 0)
    ensures LoadNew(h, st, s, pos, n, true) == Some(Loaded(am, n, map[], 0))
  {
    if n > 0 {
      NewEntriesRead(h, am, st, s, pos, n - 1);
      NewEntryLoaded(h, am, st, s, pos, n);
    }
  }

  /** The `i`-th token turns the `i`-th manager into the next. */
  ghost predicate StepAlong(h: Hasher, states: seq<Manager>, s: seq<Token>, pos: nat, i: nat) {
    && pos + i < |s| && s[pos + i].Entry? && i + 1 < |states|
    && PutTried(h, states[i], FromDisk(s[pos + i])) == states[i + 1]
  }

  lemma {:induction false} TriedAlong(h: Hasher, states: seq<Manager>, s: seq<Token>, pos: nat, n: nat)
    requires n < |states| && forall i :: 0 <= i < n ==> StepAlong(h, states, s, pos, i)
    ensures LoadTried(h, states[0], s, pos, n) == Some(states[n])
  {
    if n > 0 {
      TriedAlong(h, states, s, pos, n - 1);
      assert StepAlong(h, states, s, pos, n - 1);
      LoadTriedNext(h, states[0], s, pos, n, s[pos + n - 1], states[n - 1], states[n]);
    }
  }

  /** The `i`-th manager, `base` entries having been read before. */
  ghost predicate StateAt(am: Manager, states: seq<Manager>, base: nat, i: nat) {
    i < |states| && base + i <= |Order(am)| && states[i] == Loaded(am, base + i, map[], base + i)
  }

  lemma {:induction false} StepIs(h: Hasher, am: Manager, t: Token, c: nat, next: nat, before: Manager, after: Manager)
    requires Consistent(h, am) && IsEntry(am, c, t) && am.nNew <= c && next == c + 1 <= |Order(am)|
    requires before == Loaded(am, c, map[], c) && after == Loaded(am, next, map[], next)
    ensures t.Entry? && PutTried(h, before, FromDisk(t)) == after
  {
    TriedEntryRead(h, am, c, next, t);
  }

  lemma {:induction false} StepTaken(h: Hasher, am: Manager, states: seq<Manager>, s: seq<Token>, pos: nat, base: nat,
                                     i: nat)
    requires Consistent(h, am) && EntryAt(am, s, pos, base, i) && am.nNew <= base
    requires StateAt(am, states, base, i) && StateAt(am, states, base, i + 1)
    ensures StepAlong(h, states, s, pos, i)
  {
    StepIs(h, am, s[pos + i], base + i, base + i + 1, states[i], states[i + 1]);
  }

  lemma {:induction false} StepsTaken(h: Hasher, am: Manager, states: seq<Manager>, s: seq<Token>, pos: nat, base: nat,
                                      n: nat)
    requires Consistent(h, am) && EntriesAt(am, s, pos, base, n) && am.nNew <= base && |states| == n + 1
    requires forall i :: 0 <= i <= n ==> StateAt(am, states, base, i)
    ensures LoadTried(h, states[0], s, pos, n) == Some(states[n])
  {
    forall i | 0 <= i < n ensures StepAlong(h, states, s, pos, i) {
      assert EntryAt(am, s, pos, base, i) && StateAt(am, states, base, i + 1);
      StepTaken(h, am, states, s, pos, base, i);
    }
    TriedAlong(h, states, s, pos, n);
  }

  lemma {:induction false} TriedEntriesRead(h: Hasher, am: Manager, s: seq<Token>, pos: nat, base: nat, n: nat, c: nat,
                                            first: Manager, last: Manager)
    requires Consistent(h, am) && EntriesAt(am, s, pos, base, n) && am.nNew <= base && base + n == c <= |Order(am)|
    requires first == Loaded(am, base, map[], base) && last == Loaded(am, c, map[], c)
    ensures LoadTried(h, first, s, pos, n) == Some(last)
  {
    var states := States(am, base, n);
    Ends(am, states, base, n, c, first, last);
    StepsTaken(h, am, states, s, pos, base, n);
  }

  lemma {:induction false} Ends(am: Manager, states: seq<Manager>, base: nat, n: nat, c: nat, first: Manager,
                                last: Manager)
    requires |states| == n + 1 && base + n == c <= |Order(am)|
    requires forall i :: 0 <= i <= n ==> StateAt(am, states, base, i)
    requires first == Loaded(am, base, map[], base) && last == Loaded(am, c, map[], c)
    ensures states[0] == first && states[n] == last
  {
    assert StateAt(am, states, base, 0) && StateAt(am, states, base, n);
  }

  /** The managers while the tried entries are read. */
  lemma {:induction false} States(am: Manager, base: nat, n: nat) returns (states: seq<Manager>)
    requires base + n <= |Order(am)|
    ensures |states| == n + 1 && forall i :: 0 <= i <= n ==> StateAt(am, states, base, i)
  {
    var c := base + n;
    if n == 0 {
      states := [Loaded(am, c, map[], c)];
    } else {
      var low := States(am, base, n - 1);
      states := low + [Loaded(am, c, map[], c)];
      forall i | 0 <= i <= n ensures StateAt(am, states, base, i) {
        assert i < n ==> StateAt(am, low, base, i);
      }
    }
  }

  // ---------------------------------------------------------------------------
  // Reading the new table
  // ---------------------------------------------------------------------------

  /** The slots read so far are slots of the table, and the next one is not among them. */
  lemma {:induction false} RoomForReference(h: Hasher, am: Manager, part: Table, k: Slot)
    requires Consistent(h, am) && k in am.book.newTab && k !in part
    requires forall l :: l in part ==> l in am.book.newTab && am.book.newTab[l] == part[l]
    ensures am.book.newTab[k] in am.book.info && |Holders(part, am.book.newTab[k])| < NEW_BUCKETS_PER_ADDRESS
  {
    var id := am.book.newTab[k];
    assert Holders(part, id) + {k} <= Holders(am.book.newTab, id);
    M.SubsetCard(Holders(part, id) + {k}, Holders(am.book.newTab, id));
    assert |Holders(part, id) + {k}| == |Holders(part, id)| + 1;
  }

  lemma {:induction false} TableGrows(h: Hasher, am: Manager, part: Table, k: Slot, id: int)
    requires Consistent(h, am) && id in am.book.info && k !in part
    ensures Renamed(am, part[k := id], |Order(am)|) == Renamed(am, part, |Order(am)|)[k := NewName(am, id)]
    ensures k !in Renamed(am, part, |Order(am)|)
  {
    NameInOrder(h, am, id);
  }

  lemma {:induction false} OneCounted(h: Hasher, am: Manager, part: Table, k: Slot, id: int, i: nat)
    requires Consistent(h, am) && k !in part && id in am.book.info && i < |Order(am)|
    ensures |Holders(part[k := id], Order(am)[i])|
            == |Holders(part, Order(am)[i])| + if i == NewName(am, id) then 1 else 0
    ensures Reread(am, Order(am)[i], part[k := id])
            == Reread(am, Order(am)[i], part).(nRefCount := |Holders(part[k := id], Order(am)[i])|)
  {
    OrderNamed(h, am, i);
    NameInOrder(h, am, id);
    HoldersAdded(part, k, id, Order(am)[i]);
  }

  lemma {:induction false} ReferenceCounted(h: Hasher, am: Manager, part: Table, k: Slot, id: int)
    requires Consistent(h, am) && k !in part && id in am.book.info
    ensures NewName(am, id) in EntriesRead(am, |Order(am)|, part)
    ensures EntriesRead(am, |Order(am)|, part)[NewName(am, id)] == Reread(am, id, part)
    ensures EntriesRead(am, |Order(am)|, part[k := id])
            == SetRef(EntriesRead(am, |Order(am)|, part), NewName(am, id), |Holders(part, id)| + 1)
  {
    NameInOrder(h, am, id);
    var old_, new_ := EntriesRead(am, |Order(am)|, part), EntriesRead(am, |Order(am)|, part[k := id]);
    var n := NewName(am, id);
    forall i | 0 <= i < |Order(am)|
      ensures new_[i] == if i == n then old_[n].(nRefCount := |Holders(part, id)| + 1) else old_[i]
    {
      OneCounted(h, am, part, k, id, i);
    }
    assert new_ == SetRef(old_, n, |Holders(part, id)| + 1);
  }

  /** An index that can be used is used. */
  lemma {:induction false} IndexPut(h: Hasher, st: Manager, n: int, k: Slot)
    requires 0 <= n < st.nNew && n in st.book.info && k == h.NewSlot(st.book.info[n].addr.service, k.bucket)
    requires k !in st.book.newTab && st.book.info[n].nRefCount < NEW_BUCKETS_PER_ADDRESS
    ensures PutIndex(h, st, n, k.bucket, true) == st.(book := AddRef(st.book, k, n))
  {
  }

  /** The part of the table read so far, and the next slot. */
  ghost predicate NextSlot(am: Manager, part: Table, k: Slot) {
    && k in am.book.newTab && k !in part
    && forall l :: l in part ==> l in am.book.newTab && am.book.newTab[l] == part[l]
  }

  lemma {:induction false} IndexUsable(h: Hasher, am: Manager, st: Manager, part: Table, k: Slot, n: int)
    requires Consistent(h, am) && NextSlot(am, part, k) && st == Loaded(am, |Order(am)|, part, st.nIdCount)
    requires n == Rank(am.book.info, false, am.book.newTab[k])
    ensures am.book.newTab[k] in am.book.info && n == NewName(am, am.book.newTab[k])
    ensures 0 <= n < st.nNew && n in st.book.info && k == h.NewSlot(st.book.info[n].addr.service, k.bucket)
    ensures st.book.info[n].nRefCount < NEW_BUCKETS_PER_ADDRESS
  {
    var id := am.book.newTab[k];
    RoomForReference(h, am, part, k);
    ReferenceCounted(h, am, part, k, id);
    NameInOrder(h, am, id);
    OrderSplit(h, am, NewName(am, id));
  }

  lemma {:induction false} ReferenceAdded(h: Hasher, am: Manager, st: Manager, part: Table, k: Slot, id: int)
    requires Consistent(h, am) && k !in part && st == Loaded(am, |Order(am)|, part, st.nIdCount)
    requires id in am.book.info
    ensures NewName(am, id) in st.book.info && k !in st.book.newTab
    ensures st.(book := AddRef(st.book, k, NewName(am, id))) == Loaded(am, |Order(am)|, part[k := id], st.nIdCount)
  {
    ReferenceCounted(h, am, part, k, id);
    TableGrows(h, am, part, k, id);
  }

  /** Reading one index puts its slot back. */
  lemma {:induction false} IndexRead(h: Hasher, am: Manager, st: Manager, part: Table, k: Slot, n: int)
    requires Consistent(h, am) && NextSlot(am, part, k) && st == Loaded(am, |Order(am)|, part, st.nIdCount)
    requires n == Rank(am.book.info, false, am.book.newTab[k])
    ensures PutIndex(h, st, n, k.bucket, true) == Loaded(am, |Order(am)|, part[k := am.book.newTab[k]], st.nIdCount)
  {
    IndexUsable(h, am, st, part, k, n);
    ReferenceAdded(h, am, st, part, k, am.book.newTab[k]);
    IndexPut(h, st, n, k);
  }

  /** Where an index stands in its bucket's list. */
  lemma {:induction false} IndexAt(m: InfoMap, t: Table, bucket: nat, i: nat, n: nat)
    requires i < n && Slot(bucket, i) in t
    ensures |Indices(m, t, bucket, i)| < |Indices(m, t, bucket, n)|
    ensures Indices(m, t, bucket, n)[|Indices(m, t, bucket, i)|] == Num(Rank(m, false, t[Slot(bucket, i)]))
  {
    if i < n - 1 { IndexAt(m, t, bucket, i, n - 1); }
  }

  predicate At(s: seq<Token>, pos: nat, part: seq<Token>) {
    pos + |part| <= |s| && s[pos..pos + |part|] == part
  }

  lemma {:induction false} TokenAt(s: seq<Token>, pos: nat, part: seq<Token>, j: nat)
    requires At(s, pos, part) && j < |part|
    ensures s[pos + j] == part[j]
  {
    assert s[pos..pos + |part|][j] == part[j];
  }

  lemma {:induction false} AtParts(s: seq<Token>, pos: nat, a: seq<Token>, b: seq<Token>)
    requires At(s, pos, a + b)
    ensures At(s, pos, a) && At(s, pos + |a|, b)
  {
    var both := s[pos..pos + |a + b|];
    assert both[..|a|] == a && both[|a|..] == b;
  }

  /** The scan of the table as far as a cell, once its entries have been read. */
  ghost function Scanned(am: Manager, bucket: nat, i: nat): Manager {
    Loaded(am, |Order(am)|, C.Part(am.book.newTab, bucket, i), |Order(am)|)
  }

  lemma {:induction false} CellRead(h: Hasher, am: Manager, bucket: nat, i: nat)
    requires Consistent(h, am)
    ensures var k := Slot(bucket, i);
            Scanned(am, bucket, i + 1)
            == if k in am.book.newTab
               then PutIndex(h, Scanned(am, bucket, i), Rank(am.book.info, false, am.book.newTab[k]), bucket, true)
               else Scanned(am, bucket, i)
  {
    C.PartStep(am.book.newTab, bucket, i);
    var k := Slot(bucket, i);
    if k in am.book.newTab {
      IndexRead(h, am, Scanned(am, bucket, i), C.Part(am.book.newTab, bucket, i), k,
                Rank(am.book.info, false, am.book.newTab[k]));
    }
  }

  lemma {:induction false} LoadIndicesNext(h: Hasher, st: Manager, s: seq<Token>, pos: nat, n: nat, bucket: nat,
                                           index: int, before: Manager, r: Manager)
    requires pos + n < |s| && s[pos + n] == Num(index) && PutIndex(h, before, index, bucket, true) == r
    requires LoadIndices(h, st, s, pos, n, bucket, true) == Some(before)
    ensures LoadIndices(h, st, s, pos, n + 1, bucket, true) == Some(r)
  {
  }

  ghost predicate BucketRead(h: Hasher, am: Manager, st: Manager, s: seq<Token>, pos: nat, bucket: nat, i: nat) {
    LoadIndices(h, st, s, pos, |Indices(am.book.info, am.book.newTab, bucket, i)|, bucket, true)
    == Some(Scanned(am, bucket, i))
  }

  lemma {:induction false} CellLoaded(h: Hasher, am: Manager, st: Manager, s: seq<Token>, pos: nat, bucket: nat, i: nat,
                                      next: nat, size: nat)
    requires Consistent(h, am) && At(s, pos, Indices(am.book.info, am.book.newTab, bucket, size))
    requires i < size && next == i + 1 && BucketRead(h, am, st, s, pos, bucket, i)
    ensures BucketRead(h, am, st, s, pos, bucket, next)
  {
    var m, t, k := am.book.info, am.book.newTab, Slot(bucket, i);
    CellRead(h, am, bucket, i);
    if k in t {
      IndexAt(m, t, bucket, i, size);
      TokenAt(s, pos, Indices(m, t, bucket, size), |Indices(m, t, bucket, i)|);
      LoadIndicesNext(h, st, s, pos, |Indices(m, t, bucket, i)|, bucket, Rank(m, false, t[k]), Scanned(am, bucket, i),
                      Scanned(am, bucket, next));
    }
  }

  lemma {:induction false} CellsLoaded(h: Hasher, am: Manager, st: Manager, s: seq<Token>, pos: nat, bucket: nat,
                                       i: nat, size: nat)
    requires Consistent(h, am) && At(s, pos, Indices(am.book.info, am.book.newTab, bucket, size))
    requires i <= size && st == Scanned(am, bucket, 0)
    ensures BucketRead(h, am, st, s, pos, bucket, i)
  {
    if i > 0 {
      CellsLoaded(h, am, st, s, pos, bucket, i - 1, size);
      CellLoaded(h, am, st, s, pos, bucket, i - 1, i, size);
    }
  }

  // ---------------------------------------------------------------------------
  // Reading the buckets
  // ---------------------------------------------------------------------------

  lemma {:induction false} SlotsInRange(h: Hasher, am: Manager)
    requires Consistent(h, am)
    ensures forall k :: k in am.book.newTab ==> k.bucket < NEW_BUCKET_COUNT && k.pos < BUCKET_SIZE
  {
    forall k | k in am.book.newTab ensures k.bucket < NEW_BUCKET_COUNT && k.pos < BUCKET_SIZE {
      assert k == h.NewSlot(am.book.info[am.book.newTab[k]].addr.service, k.bucket);
    }
  }

  lemma {:induction false} OneBucketRead(h: Hasher, am: Manager, st: Manager, s: seq<Token>, pos: nat, bucket: nat)
    requires Consistent(h, am) && At(s, pos, Bucket(am.book.info, am.book.newTab, bucket))
    requires st == Scanned(am, bucket, 0)
    ensures LoadBucket(h, st, s, pos, bucket, true)
            == Some((Scanned(am, bucket, BUCKET_SIZE), pos + |Bucket(am.book.info, am.book.newTab, bucket)|))
  {
    var indices := Indices(am.book.info, am.book.newTab, bucket, BUCKET_SIZE);
    TokenAt(s, pos, Bucket(am.book.info, am.book.newTab, bucket), 0);
    AtParts(s, pos, [Num(|indices|)], indices);
    CellsLoaded(h, am, st, s, pos + 1, bucket, BUCKET_SIZE, BUCKET_SIZE);
  }

  lemma {:induction false} RowEnd(h: Hasher, am: Manager, bucket: nat)
    requires Consistent(h, am)
    ensures Scanned(am, bucket, BUCKET_SIZE) == Scanned(am, bucket + 1, 0)
  {
    SlotsInRange(h, am);
    C.PartRow(am.book.newTab, bucket);
  }

  lemma {:induction false} LoadBucketsNext(h: Hasher, st: Manager, s: seq<Token>, pos: nat, n: nat, before: Manager,
                                           at: nat, r: (Manager, nat))
    requires LoadBuckets(h, st, s, pos, n, true) == Some((before, at))
    requires LoadBucket(h, before, s, at, n, true) == Some(r)
    ensures LoadBuckets(h, st, s, pos, n + 1, true) == Some(r)
  {
  }

  ghost predicate AllRead(h: Hasher, am: Manager, st: Manager, s: seq<Token>, pos: nat, n: nat) {
    LoadBuckets(h, st, s, pos, n, true) == Some((Scanned(am, n, 0), pos + |Buckets(am.book.info, am.book.newTab, n)|))
  }

  lemma {:induction false} NextBucketRead(h: Hasher, am: Manager, st: Manager, s: seq<Token>, pos: nat, n: nat,
                                          next: nat)
    requires Consistent(h, am) && AllRead(h, am, st, s, pos, n) && next == n + 1
    requires At(s, pos + |Buckets(am.book.info, am.book.newTab, n)|, Bucket(am.book.info, am.book.newTab, n))
    ensures AllRead(h, am, st, s, pos, next)
  {
    var m, t := am.book.info, am.book.newTab;
    var at := pos + |Buckets(m, t, n)|;
    OneBucketRead(h, am, Scanned(am, n, 0), s, at, n);
    RowEnd(h, am, n);
    LoadBucketsNext(h, st, s, pos, n, Scanned(am, n, 0), at, (Scanned(am, n, BUCKET_SIZE), at + |Bucket(m, t, n)|));
  }

  lemma {:induction false} BucketsRead(h: Hasher, am: Manager, st: Manager, s: seq<Token>, pos: nat, n: nat)
    requires Consistent(h, am) && At(s, pos, Buckets(am.book.info, am.book.newTab, n)) && st == Scanned(am, 0, 0)
    ensures AllRead(h, am, st, s, pos, n)
  {
    if n > 0 {
      AtParts(s, pos, Buckets(am.book.info, am.book.newTab, n - 1), Bucket(am.book.info, am.book.newTab, n - 1));
      BucketsRead(h, am, st, s, pos, n - 1);
      NextBucketRead(h, am, st, s, pos, n - 1, n);
    }
  }

  ghost predicate NoneToPrune(m: InfoMap) {
    forall id :: id in m ==> m[id].fInTried || m[id].nRefCount != 0
  }

  lemma {:induction false} NothingPruned(st: Manager, n: nat)
    requires NoneToPrune(st.book.info)
    ensures Prune(st, n) == st
  {
    if n > 0 { NothingPruned(st, n - 1); }
  }

  /** Every entry read has a reference or is tried. */
  lemma {:induction false} AllKept(h: Hasher, am: Manager)
    requires Consistent(h, am)
    ensures NoneToPrune(Renumbered(am).book.info)
  {
    forall i | 0 <= i < |Order(am)|
      ensures Renumbered(am).book.info[i].fInTried || Renumbered(am).book.info[i].nRefCount != 0
    {
      EntryKept(h, am, i);
    }
  }

  lemma {:induction false} EntryKept(h: Hasher, am: Manager, i: nat)
    requires Consistent(h, am) && i < |Order(am)|
    ensures Order(am)[i] in am.book.info
    ensures Renumbered(am).book.info[i] == am.book.info[Order(am)[i]].(nLastTry := 0)
    ensures Renumbered(am).book.info[i].fInTried || Renumbered(am).book.info[i].nRefCount != 0
  {
    OrderNamed(h, am, i);
  }

  // ---------------------------------------------------------------------------
  // The round trip
  // ---------------------------------------------------------------------------

  lemma {:induction false} Fresh(h: Hasher, am: Manager)
    requires Consistent(h, am)
    ensures Loaded(am, 0, map[], 0)
            == ClearedWith(am.nNew, am.nTried)
  {
  }

  lemma {:induction false} EntriesWritten(h: Hasher, am: Manager, s: seq<Token>, pos: nat)
    requires Consistent(h, am)
    requires At(s, pos, Entries(am.book.info, false, am.nIdCount))
    requires At(s, pos + am.nNew, Entries(am.book.info, true, am.nIdCount))
    ensures EntriesAt(am, s, pos, 0, am.nNew) && EntriesAt(am, s, pos + am.nNew, am.nNew, am.nTried)
  {
    CountsWritten(h, am);
    EntriesAre(am.book.info, false, am.nIdCount);
    EntriesAre(am.book.info, true, am.nIdCount);
    forall i | 0 <= i < am.nNew ensures EntryAt(am, s, pos, 0, i) {
      TokenAt(s, pos, Entries(am.book.info, false, am.nIdCount), i);
    }
    var base, next := am.nNew as nat, pos + am.nNew as nat;
    forall i | 0 <= i < am.nTried ensures EntryAt(am, s, next, base, i) {
      TokenAt(s, next, Entries(am.book.info, true, am.nIdCount), i);
    }
  }

  lemma {:induction false} FlipFlip()
    ensures Flip(Flip(NEW_BUCKET_COUNT)) == NEW_BUCKET_COUNT
  {
  }

  lemma {:induction false} FourParts(s: seq<Token>, a: seq<Token>, b: seq<Token>, c: seq<Token>, d: seq<Token>)
    requires s == a + b + c + d
    ensures At(s, 0, a) && At(s, |a|, b) && At(s, |a| + |b|, c) && At(s, |a| + |b| + |c|, d)
  {
    assert s[0..|s|] == a + b + c + d;
    AtParts(s, 0, a + b + c, d);
    AtParts(s, 0, a + b, c);
    AtParts(s, 0, a, b);
  }

  lemma {:induction false} PartSizes(h: Hasher, am: Manager)
    requires Consistent(h, am)
    ensures |Entries(am.book.info, false, am.nIdCount)| == am.nNew
    ensures |Entries(am.book.info, true, am.nIdCount)| == am.nTried
  {
    CountsWritten(h, am);
    EntriesAre(am.book.info, false, am.nIdCount);
    EntriesAre(am.book.info, true, am.nIdCount);
  }

  /** Where the parts of the stream stand. */
  ghost predicate Laid(key: nat, am: Manager, s: seq<Token>, nNew: nat, nTried: nat, n: nat) {
    && At(s, 0, Header(key, am))
    && At(s, 6, Entries(am.book.info, false, am.nIdCount))
    && At(s, 6 + nNew, Entries(am.book.info, true, am.nIdCount))
    && At(s, 6 + nNew + nTried, Buckets(am.book.info, am.book.newTab, n))
  }

  lemma {:induction false} PartsLaid(key: nat, am: Manager, s: seq<Token>, untried: seq<Token>, tried: seq<Token>,
                                     buckets: seq<Token>, n: nat)
    requires untried == Entries(am.book.info, false, am.nIdCount) && tried == Entries(am.book.info, true, am.nIdCount)
    requires buckets == Buckets(am.book.info, am.book.newTab, n)
    requires s == Header(key, am) + untried + tried + buckets
    ensures Laid(key, am, s, |untried|, |tried|, n)
  {
    FourParts(s, Header(key, am), untried, tried, buckets);
  }

  lemma {:induction false} StreamParts(h: Hasher, key: nat, am: Manager, n: nat)
    requires Consistent(h, am) && n == NEW_BUCKET_COUNT
    ensures am.nNew >= 0 && am.nTried >= 0 && Laid(key, am, Stream(key, am), am.nNew, am.nTried, n)
  {
    PartSizes(h, am);
    PartsLaid(key, am, Stream(key, am), Entries(am.book.info, false, am.nIdCount),
              Entries(am.book.info, true, am.nIdCount), Buckets(am.book.info, am.book.newTab, n), n);
  }

  lemma {:induction false} HeaderTokens(key: nat, am: Manager, s: seq<Token>)
    requires At(s, 0, Header(key, am))
    ensures |s| >= 6 && s[0] == Num(VERSION) && s[1] == Num(KEY_SIZE) && s[2] == Key(key)
    ensures s[3] == Num(am.nNew) && s[4] == Num(am.nTried) && s[5] == Num(Flip(NEW_BUCKET_COUNT))
  {
    assert s[0..6] == Header(key, am);
    assert forall i :: 0 <= i < 6 ==> s[i] == s[0..6][i];
  }

  /** The loops, put together. */
  lemma {:induction false} BodySteps(h: Hasher, s: seq<Token>, nNew: nat, nTried: nat, st0: Manager, st1: Manager,
                                     st2: Manager, st3: Manager, n: nat, end: nat)
    requires st0.nNew == nNew && st0.nTried == nTried
    requires LoadNew(h, st0, s, 6, nNew, true) == Some(st1)
    requires LoadTried(h, st1.(nIdCount := nNew), s, 6 + nNew, nTried) == Some(st2)
    requires LoadBuckets(h, st2, s, 6 + nNew + nTried, n, true) == Some((st3, end))
    requires NoneToPrune(st3.book.info)
    ensures ParseBody(h, st0, s, n, true) == Some(st3)
  {
    TableSteps(h, s, 6 + nNew + nTried, st2, st3, n, end);
  }

  lemma {:induction false} TableSteps(h: Hasher, s: seq<Token>, pos: nat, st: Manager, r: Manager, n: nat, end: nat)
    requires LoadBuckets(h, st, s, pos, n, true) == Some((r, end)) && NoneToPrune(r.book.info)
    ensures ParseTable(h, st, s, pos, n, true) == Some(r)
  {
    NothingPruned(r, Natural(r.nIdCount));
  }

  /** Unserialize, put together from the header and the loops. */
  lemma {:induction false} ParseSteps(keyed: nat -> Hasher, s: seq<Token>, key: nat, nNew: nat, nTried: nat, n: nat,
                                      r: Manager)
    requires n == NEW_BUCKET_COUNT && |s| >= 6 && s[0] == Num(VERSION) && s[1] == Num(KEY_SIZE) && s[2] == Key(key)
    requires s[3] == Num(nNew) && s[4] == Num(nTried) && s[5] == Num(Flip(NEW_BUCKET_COUNT))
    requires ParseBody(keyed(key), ClearedWith(nNew, nTried), s, n, true) == Some(r)
    ensures Parse(keyed, s) == Some((key, r))
  {
    FlipFlip();
  }

  lemma {:induction false} AllScanned(h: Hasher, am: Manager)
    requires Consistent(h, am)
    ensures Scanned(am, 0, 0) == Loaded(am, |Order(am)|, map[], |Order(am)|)
    ensures Scanned(am, NEW_BUCKET_COUNT, 0) == Renumbered(am)
  {
    SlotsInRange(h, am);
    C.PartAll(am.book.newTab, NEW_BUCKET_COUNT);
    C.PartNone(am.book.newTab);
  }

  lemma {:induction false} NewLoaded(h: Hasher, key: nat, am: Manager, st: Manager, s: seq<Token>, nNew: nat,
                                     nTried: nat, n: nat)
    requires Consistent(h, am) && Laid(key, am, s, nNew, nTried, n) && nNew == am.nNew && nTried == am.nTried
    requires st == ClearedWith(nNew, nTried)
    ensures nNew <= |Order(am)|
    ensures LoadNew(h, st, s, 6, nNew, true) == Some(Loaded(am, nNew, map[], 0))
  {
    CountsWritten(h, am);
    EntriesWritten(h, am, s, 6);
    Fresh(h, am);
    NewEntriesRead(h, am, st, s, 6, nNew);
  }

  lemma {:induction false} IdsCounted(am: Manager, c: nat)
    requires c <= |Order(am)|
    ensures Loaded(am, c, map[], 0).(nIdCount := c) == Loaded(am, c, map[], c)
  {
  }

  lemma {:induction false} TriedLoaded(h: Hasher, key: nat, am: Manager, s: seq<Token>, nNew: nat, nTried: nat,
                                       all: nat, n: nat)
    requires Consistent(h, am) && Laid(key, am, s, nNew, nTried, n) && nNew == am.nNew && nTried == am.nTried
    requires all == |Order(am)| && nNew <= all
    ensures LoadTried(h, Loaded(am, nNew, map[], 0).(nIdCount := nNew), s, 6 + nNew, nTried)
            == Some(Loaded(am, all, map[], all))
  {
    CountsWritten(h, am);
    EntriesWritten(h, am, s, 6);
    IdsCounted(am, nNew);
    TriedEntriesRead(h, am, s, 6 + nNew, nNew, nTried, all, Loaded(am, nNew, map[], nNew), Loaded(am, all, map[], all));
  }

  lemma {:induction false} BucketsLoaded(h: Hasher, am: Manager, st: Manager, r: Manager, s: seq<Token>, pos: nat,
                                         n: nat)
    returns (end: nat)
    requires Consistent(h, am) && At(s, pos, Buckets(am.book.info, am.book.newTab, n)) && st == Scanned(am, 0, 0)
    requires Scanned(am, n, 0) == r
    ensures LoadBuckets(h, st, s, pos, n, true) == Some((r, end))
  {
    end := pos + |Buckets(am.book.info, am.book.newTab, n)|;
    BucketsRead(h, am, st, s, pos, n);
  }

  /** The loops, on a stream that is laid out like this. */
  lemma {:induction false} BodyRead(h: Hasher, key: nat, am: Manager, s: seq<Token>, nNew: nat, nTried: nat, all: nat,
                                    n: nat, st: Manager, r: Manager)
    requires Consistent(h, am) && Laid(key, am, s, nNew, nTried, n) && nNew == am.nNew && nTried == am.nTried
    requires st == ClearedWith(nNew, nTried) && all == |Order(am)| && r == Renumbered(am)
    requires Scanned(am, n, 0) == r && Scanned(am, 0, 0) == Loaded(am, all, map[], all)
    ensures ParseBody(h, st, s, n, true) == Some(r)
  {
    NewLoaded(h, key, am, st, s, nNew, nTried, n);
    var st1 := Loaded(am, nNew, map[], 0);
    TriedLoaded(h, key, am, s, nNew, nTried, all, n);
    var st2 := Loaded(am, all, map[], all);
    var end := BucketsLoaded(h, am, st2, r, s, 6 + nNew + nTried, n);
    AllKept(h, am);
    BodySteps(h, s, nNew, nTried, st, st1, st2, r, n, end);
  }

  /** What is read from a stream that is laid out like this. */
  lemma {:induction false} LaidRead(keyed: nat -> Hasher, key: nat, am: Manager, s: seq<Token>, nNew: nat, nTried: nat,
                                    all: nat, n: nat)
    requires Consistent(keyed(key), am) && Laid(key, am, s, nNew, nTried, n) && n == NEW_BUCKET_COUNT
    requires nNew == am.nNew && nTried == am.nTried && all == |Order(am)|
    requires Scanned(am, n, 0) == Renumbered(am) && Scanned(am, 0, 0) == Loaded(am, all, map[], all)
    ensures Parse(keyed, s) == Some((key, Renumbered(am)))
  {
    HeaderTokens(key, am, s);
    BodyRead(keyed(key), key, am, s, nNew, nTried, all, n, ClearedWith(nNew, nTried), Renumbered(am));
    ParseSteps(keyed, s, key, nNew, nTried, n, Renumbered(am));
  }

  /** Writing a consistent manager and reading it back gives the renumbered manager: nothing is lost. */
  lemma {:induction false} RoundTrip(keyed: nat -> Hasher, key: nat, am: Manager)
    requires Consistent(keyed(key), am)
    ensures Parse(keyed, Stream(key, am)) == Some((key, Renumbered(am)))
  {
    StreamParts(keyed(key), key, am, NEW_BUCKET_COUNT);
    AllScanned(keyed(key), am);
    LaidRead(keyed, key, am, Stream(key, am), am.nNew, am.nTried, |Order(am)|, NEW_BUCKET_COUNT);
  }

  // ---------------------------------------------------------------------------
  // What renumbering keeps
  // ---------------------------------------------------------------------------

  /** The same entries under new ids, each exactly once; only the times of last tries are forgotten. */
  lemma {:induction false} EntriesKept(h: Hasher, am: Manager)
    requires Consistent(h, am)
    ensures var r := Renumbered(am);
            && (forall id :: id in am.book.info ==>
                  NewName(am, id) in r.book.info && r.book.info[NewName(am, id)] == am.book.info[id].(nLastTry := 0))
            && (forall i :: i in r.book.info ==>
                  0 <= i < |Order(am)| && Order(am)[i] in am.book.info && NewName(am, Order(am)[i]) == i)
  {
    forall id | id in am.book.info
      ensures NewName(am, id) in Renumbered(am).book.info
      ensures Renumbered(am).book.info[NewName(am, id)] == am.book.info[id].(nLastTry := 0)
    {
      NameInOrder(h, am, id);
      EntryKept(h, am, NewName(am, id));
    }
    forall i | i in Renumbered(am).book.info
      ensures 0 <= i < |Order(am)| && Order(am)[i] in am.book.info && NewName(am, Order(am)[i]) == i
    {
      OrderNamed(h, am, i);
    }
  }

  /** `t'` has the occupied slots of `t`, under the new ids. */
  ghost predicate SameSlots(am: Manager, t: Table, t': Table) {
    && (forall k :: k in t <==> k in t')
    && (forall k :: k in t ==> t'[k] == NewName(am, t[k]))
  }

  /** Every slot and every address stays with its entry. */
  lemma {:induction false} PlacesKept(h: Hasher, am: Manager)
    requires Consistent(h, am)
    ensures var r := Renumbered(am);
            && SameSlots(am, am.book.newTab, r.book.newTab) && SameSlots(am, am.book.triedTab, r.book.triedTab)
            && (forall ip :: ip in am.mapAddr <==> ip in r.mapAddr)
            && (forall ip :: ip in am.mapAddr ==> r.mapAddr[ip] == NewName(am, am.mapAddr[ip]))
            && r.nNew == am.nNew && r.nTried == am.nTried
  {
    forall id | id in am.book.info ensures NewName(am, id) < |Order(am)| {
      NameInOrder(h, am, id);
    }
  }

  lemma {:induction false} NamesDiffer(h: Hasher, am: Manager, i: int, j: int)
    requires Consistent(h, am) && i in am.book.info && j in am.book.info && NewName(am, i) == NewName(am, j)
    ensures i == j
  {
    NameInOrder(h, am, i);
    NameInOrder(h, am, j);
  }

  lemma {:induction false} HoldersKept(h: Hasher, am: Manager, id: int)
    requires Consistent(h, am) && id in am.book.info
    ensures Holders(Renumbered(am).book.newTab, NewName(am, id)) == Holders(am.book.newTab, id)
  {
    PlacesKept(h, am);
    var r := Renumbered(am);
    forall k | k in am.book.newTab ensures r.book.newTab[k] == NewName(am, id) <==> am.book.newTab[k] == id {
      if r.book.newTab[k] == NewName(am, id) { NamesDiffer(h, am, am.book.newTab[k], id); }
    }
  }

  /** The renumbering, as far as the invariant depends on it. */
  ghost predicate Renames(am: Manager, r: Manager) {
    && (forall id :: id in am.book.info ==>
          NewName(am, id) in r.book.info && r.book.info[NewName(am, id)] == am.book.info[id].(nLastTry := 0))
    && (forall i :: i in r.book.info ==>
          0 <= i < |Order(am)| && Order(am)[i] in am.book.info && NewName(am, Order(am)[i]) == i)
    && SameSlots(am, am.book.newTab, r.book.newTab) && SameSlots(am, am.book.triedTab, r.book.triedTab)
  }

  lemma {:induction false} PlacesOk(h: Hasher, am: Manager, r: Manager)
    requires Consistent(h, am) && Renames(am, r)
    ensures NewOk(h, r.book.info, r.book.newTab)
    ensures TriedOk(h, r.book.info, r.book.triedTab)
  {
    forall i | i in r.book.info && r.book.info[i].fInTried
      ensures h.TriedSlot(r.book.info[i].addr.service) in r.book.triedTab
      ensures r.book.triedTab[h.TriedSlot(r.book.info[i].addr.service)] == i
    {
      assert r.book.info[NewName(am, Order(am)[i])] == am.book.info[Order(am)[i]].(nLastTry := 0);
    }
  }

  /** An entry that is read back is one that was written. */
  lemma {:induction false} Origin(h: Hasher, am: Manager, i: int) returns (id: int)
    requires Consistent(h, am) && i in Renumbered(am).book.info
    ensures id in am.book.info && NewName(am, id) == i
    ensures Renumbered(am).book.info[i] == am.book.info[id].(nLastTry := 0)
    ensures Holders(Renumbered(am).book.newTab, i) == Holders(am.book.newTab, id)
  {
    OrderNamed(h, am, i);
    id := Order(am)[i];
    EntryKept(h, am, i);
    HoldersKept(h, am, id);
  }

  lemma {:induction false} CountsAndTimesOk(h: Hasher, am: Manager)
    requires Consistent(h, am)
    ensures RefsOk(Renumbered(am).book.info, Renumbered(am).book.newTab, {})
    ensures TimesOk(Renumbered(am).book.info)
  {
    var m, t := Renumbered(am).book.info, Renumbered(am).book.newTab;
    forall i | i in m
      ensures m[i].nRefCount == |Holders(t, i)| && (m[i].fInTried ==> m[i].nRefCount == 0)
      ensures !m[i].fInTried ==> 1 <= m[i].nRefCount <= NEW_BUCKETS_PER_ADDRESS
      ensures m[i].nLastTry >= 0 && m[i].nLastSuccess >= 0 && (m[i].fInTried ==> m[i].nLastSuccess != 0)
    {
      var id := Origin(h, am, i);
    }
  }

  lemma {:induction false} AddressesOk(h: Hasher, am: Manager)
    requires Consistent(h, am)
    ensures AddrOk(Renumbered(am).book.info, Renumbered(am).mapAddr)
  {
    PlacesKept(h, am);
    EntriesKept(h, am);
    forall i | i in Renumbered(am).book.info
      ensures Renumbered(am).book.info[i].addr.service.ip in Renumbered(am).mapAddr
      ensures Renumbered(am).mapAddr[Renumbered(am).book.info[i].addr.service.ip] == i
    {
      var id := Origin(h, am, i);
    }
  }

  lemma {:induction false} Counting(n: nat)
    ensures forall i :: 0 <= i < n ==> UpTo(n)[i] == i && i in Same(n) && Same(n)[i] == i
    ensures forall i :: i in Same(n) ==> 0 <= i < n
  {
    if n > 0 { Counting(n - 1); }
  }

  lemma {:induction false} RandomsOk(h: Hasher, am: Manager)
    requires Consistent(h, am)
    ensures M.RandomOk(Renumbered(am).nRandomPos, Renumbered(am).vRandom)
    ensures M.SameIds(Renumbered(am).book.info, Renumbered(am).nRandomPos)
    ensures M.IdsOk(Renumbered(am).book.info, Renumbered(am).nIdCount)
  {
    Counting(|Order(am)|);
  }

  lemma {:induction false} CountsOk(h: Hasher, am: Manager)
    requires Consistent(h, am)
    ensures M.CountsOk(Renumbered(am).book.info, am.nNew, am.nTried)
  {
    CountsWritten(h, am);
    var m, nNew, all := Renumbered(am).book.info, am.nNew as nat, |Order(am)|;
    forall i ensures i in M.IdsWith(m, false) <==> 0 <= i < nNew
             ensures i in M.IdsWith(m, true) <==> nNew <= i < all
    {
      if 0 <= i < all {
        OrderSplit(h, am, i);
        EntryKept(h, am, i);
      }
    }
    assert M.IdsWith(m, false) == C.Below(nNew);
    assert M.IdsWith(m, true) == C.Below(all) - C.Below(nNew);
    assert C.Below(nNew) <= C.Below(all);
  }

  /** What is read back satisfies the invariant again. */
  lemma {:induction false} RenumberedConsistent(h: Hasher, am: Manager)
    requires Consistent(h, am)
    ensures Consistent(h, Renumbered(am))
  {
    EntriesKept(h, am);
    PlacesKept(h, am);
    PlacesOk(h, am, Renumbered(am));
    CountsAndTimesOk(h, am);
    AddressesOk(h, am);
    RandomsOk(h, am);
    CountsOk(h, am);
  }
}
