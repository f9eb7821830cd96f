/** Serialising a CAddrMan, as a stream of tokens, and what reading the stream gives. */
module AddrCodec {
  import opened AddrBook
  import M = AddrMan
  import opened Coins

  /** What the stream holds: numbers, the key, and the parts of an entry that are kept. */
  datatype Token =
    | Num(n: int)
    | Key(k: nat)
    | Entry(addr: Address, source: NetAddr, nLastSuccess: int, nAttempts: int)

  const VERSION: int := 1
  const KEY_SIZE: int := 32
  const BUCKET_FLAG: int := 0x4000_0000

  /** x ^ (1 << 30). */
  function Flip(x: int): int {
    if (x / BUCKET_FLAG) % 2 == 1 then x - BUCKET_FLAG else x + BUCKET_FLAG
  }

  function Disk(info: AddrInfo): Token {
    Entry(info.addr, info.source, info.nLastSuccess, info.nAttempts)
  }

  function FromDisk(t: Token): AddrInfo
    requires t.Entry?
  {
    AddrInfo(t.addr, t.source, 0, t.nLastSuccess, t.nAttempts, 0, false)
  }

  /** The manager without its arrays and its key. */
  datatype Manager = Manager(book: Book, mapAddr: map<NetAddr, int>, vRandom: seq<int>, nRandomPos: map<int, int>,
                             nNew: int, nTried: int, nIdCount: int)

  /** The invariant that every operation keeps. */
  ghost predicate Consistent(h: Hasher, am: Manager) {
    && BookOk(h, am.book, {})
    && AddrOk(am.book.info, am.mapAddr)
    && M.RandomOk(am.nRandomPos, am.vRandom) && M.SameIds(am.book.info, am.nRandomPos)
    && M.CountsOk(am.book.info, am.nNew, am.nTried)
    && M.IdsOk(am.book.info, am.nIdCount)
  }

  // ---------------------------------------------------------------------------
  // Writing
  // ---------------------------------------------------------------------------

  /** The entries of one of the two lists: those with references, or the tried ones. */
  predicate Listed(m: InfoMap, tried: bool, id: int) {
    id in m && if tried then m[id].fInTried else m[id].nRefCount != 0
  }

  /** The listed ids from 0 up to `n`, in ascending order. */
  function Ids(m: InfoMap, tried: bool, n: int): seq<int> {
    if n <= 0 then []
    else Ids(m, tried, n - 1) + if Listed(m, tried, n - 1) then [n - 1] else []
  }

  function Entries(m: InfoMap, tried: bool, n: int): seq<Token> {
    if n <= 0 then []
    else Entries(m, tried, n - 1) + if Listed(m, tried, n - 1) then [Disk(m[n - 1])] else []
  }

  /** mapUnkIds: the number of entries with references before an id. */
  function Rank(m: InfoMap, tried: bool, id: int): nat {
    |Ids(m, tried, id)|
  }

  /** The indices in the first `n` slots of a bucket. */
  function Indices(m: InfoMap, t: Table, bucket: nat, n: nat): seq<Token> {
    if n == 0 then []
    else
      var k := Slot(bucket, n - 1);
      Indices(m, t, bucket, n - 1) + if k in t then [Num(Rank(m, false, t[k]))] else []
  }

  function Bucket(m: InfoMap, t: Table, bucket: nat): seq<Token> {
    [Num(|Indices(m, t, bucket, BUCKET_SIZE)|)] + Indices(m, t, bucket, BUCKET_SIZE)
  }

  function Buckets(m: InfoMap, t: Table, n: nat): seq<Token> {
    if n == 0 then [] else Buckets(m, t, n - 1) + Bucket(m, t, n - 1)
  }

  function Header(key: nat, am: Manager): seq<Token> {
    [Num(VERSION), Num(KEY_SIZE), Key(key), Num(am.nNew), Num(am.nTried), Num(Flip(NEW_BUCKET_COUNT))]
  }

  /** Serialize. */
  function Stream(key: nat, am: Manager): seq<Token> {
    Header(key, am) + Entries(am.book.info, false, am.nIdCount) + Entries(am.book.info, true, am.nIdCount)
    + Buckets(am.book.info, am.book.newTab, NEW_BUCKET_COUNT)
  }

  // ---------------------------------------------------------------------------
  // Reading
  // ---------------------------------------------------------------------------

  function Enter(st: Manager, id: int, info: AddrInfo): Manager {
    st.(book := st.book.(info := st.book.info[id := info]), mapAddr := st.mapAddr[info.addr.service.ip := id],
        vRandom := st.vRandom + [id], nRandomPos := st.nRandomPos[id := |st.vRandom|])
  }

  /** In case the new table data cannot be used: a reference at the default place, if it is free. */
  function Replace(h: Hasher, st: Manager, id: int): Manager
    requires id in st.book.info
  {
    var k := NewPlace(h, st.book.info[id]);
    if k in st.book.newTab then st else st.(book := AddRef(st.book, k, id))
  }

  /** The first `n` entries of the new table. */
  function LoadNew(h: Hasher, st: Manager, s: seq<Token>, pos: nat, n: int, usable: bool): Option<Manager> {
    if n <= 0 then Some(st)
    else
      match LoadNew(h, st, s, pos, n - 1, usable)
      case None => None
      case Some(r) =>
        if pos + n > |s| || !s[pos + n - 1].Entry? then None
        else
          var r1 := Enter(r, n - 1, FromDisk(s[pos + n - 1]));
          Some(if usable then r1 else Replace(h, r1, n - 1))
  }

  /** One entry of the tried table: lost if its slot is taken. An id of -1, as a stream with a negative number of new
      entries can give, leaves the slot empty. */
  function PutTried(h: Hasher, st: Manager, info: AddrInfo): Manager {
    var k := h.TriedSlot(info.addr.service);
    if k in st.book.triedTab && st.book.triedTab[k] != -1 then st.(nTried := st.nTried - 1)
    else
      var st1 := Enter(st, st.nIdCount, info.(fInTried := true));
      st1.(book := st1.book.(triedTab := st1.book.triedTab[k := st.nIdCount]), nIdCount := st.nIdCount + 1)
  }

  /** The first `n` entries of the tried table. */
  function LoadTried(h: Hasher, st: Manager, s: seq<Token>, pos: nat, n: int): Option<Manager> {
    if n <= 0 then Some(st)
    else
      match LoadTried(h, st, s, pos, n - 1)
      case None => None
      case Some(r) =>
        if pos + n > |s| || !s[pos + n - 1].Entry? then None else Some(PutTried(h, r, FromDisk(s[pos + n - 1])))
  }

  /** One index of a bucket. */
  function PutIndex(h: Hasher, st: Manager, nIndex: int, bucket: nat, usable: bool): Manager {
    if 0 <= nIndex < st.nNew && nIndex in st.book.info && usable then
      var info := st.book.info[nIndex];
      var k := h.NewSlot(info.addr.service, bucket);
      if k !in st.book.newTab && info.nRefCount < NEW_BUCKETS_PER_ADDRESS
      then st.(book := AddRef(st.book, k, nIndex)) else st
    else st
  }

  /** The first `n` indices of a bucket. */
  function LoadIndices(h: Hasher, st: Manager, s: seq<Token>, pos: nat, n: int, bucket: nat, usable: bool)
    : Option<Manager>
  {
    if n <= 0 then Some(st)
    else
      match LoadIndices(h, st, s, pos, n - 1, bucket, usable)
      case None => None
      case Some(r) =>
        if pos + n > |s| || !s[pos + n - 1].Num? then None
        else Some(PutIndex(h, r, s[pos + n - 1].n, bucket, usable))
  }

  /** The first `n` buckets, and the position after them. */
  function LoadBuckets(h: Hasher, st: Manager, s: seq<Token>, pos: nat, n: int, usable: bool): Option<(Manager, nat)> {
    if n <= 0 then Some((st, pos))
    else
      match LoadBuckets(h, st, s, pos, n - 1, usable)
      case None => None
      case Some(r) => LoadBucket(h, r.0, s, r.1, n - 1, usable)
  }

  /** One bucket: the number of its indices, then the indices. */
  function LoadBucket(h: Hasher, st: Manager, s: seq<Token>, pos: nat, bucket: nat, usable: bool)
    : Option<(Manager, nat)>
  {
    if pos >= |s| || !s[pos].Num? then None
    else
      match LoadIndices(h, st, s, pos + 1, s[pos].n, bucket, usable)
      case None => None
      case Some(r) => Some((r, pos + 1 + Natural(s[pos].n)))
  }

  /** SwapRandom, for positions that exist. */
  function SwapEnd(st: Manager, i: nat): Manager
    requires i < |st.vRandom|
  {
    var last := |st.vRandom| - 1;
    var id1, id2 := st.vRandom[i], st.vRandom[last];
    st.(vRandom := st.vRandom[i := id2][last := id1], nRandomPos := st.nRandomPos[id1 := last][id2 := i])
  }

  /** Delete: the id is swapped to the end of vRandom and dropped. */
  function DeleteFrom(st: Manager, id: int): Manager
    requires id in st.book.info
  {
    if id !in st.nRandomPos || !(0 <= st.nRandomPos[id] < |st.vRandom|) then st
    else
      var st1 := SwapEnd(st, st.nRandomPos[id]);
      st1.(book := Erase(st.book, id), mapAddr := st.mapAddr - {st.book.info[id].addr.service.ip},
           vRandom := st1.vRandom[..|st1.vRandom| - 1], nRandomPos := st1.nRandomPos - {id}, nNew := st.nNew - 1)
  }

  /** Prunes the new entries below `n` without references. */
  function Prune(st: Manager, n: nat): Manager {
    if n == 0 then st
    else
      var st1 := Prune(st, n - 1);
      var id := n - 1;
      if id in st1.book.info && !st1.book.info[id].fInTried && st1.book.info[id].nRefCount == 0
      then DeleteFrom(st1, id) else st1
  }

  function Natural(x: int): nat { if x < 0 then 0 else x }

  /** The new table, and the pruning at the end. */
  function ParseTable(h: Hasher, st: Manager, s: seq<Token>, pos: nat, nUBuckets: int, usable: bool): Option<Manager> {
    match LoadBuckets(h, st, s, pos, nUBuckets, usable)
    case None => None
    case Some(r) => Some(Prune(r.0, Natural(r.0.nIdCount)))
  }

  /** Everything after the header. */
  function ParseBody(h: Hasher, st: Manager, s: seq<Token>, nUBuckets: int, usable: bool): Option<Manager> {
    match LoadNew(h, st, s, 6, st.nNew, usable)
    case None => None
    case Some(st1) =>
      var tried := 6 + Natural(st.nNew);
      match LoadTried(h, st1.(nIdCount := st.nNew), s, tried, st.nTried)
      case None => None
      case Some(st2) =>
        ParseTable(h, st2, s, tried + Natural(st.nTried), nUBuckets, usable)
  }

  function ClearedWith(nNew: int, nTried: int): Manager {
    Manager(Book(map[], map[], map[]), map[], [], map[], nNew, nTried, 0)
  }

  /** Unserialize into a fresh manager: the key and the manager, or nothing if the stream is malformed. */
  function Parse(keyed: nat -> Hasher, s: seq<Token>): Option<(nat, Manager)> {
    if |s| < 6 || !s[0].Num? || !s[1].Num? || !s[2].Key? || !s[3].Num? || !s[4].Num? || !s[5].Num? || s[1].n != KEY_SIZE
    then None
    else
      var nUBuckets := if s[0].n != 0 then Flip(s[5].n) else s[5].n;
      var usable := s[0].n == VERSION && nUBuckets == NEW_BUCKET_COUNT;
      match ParseBody(keyed(s[2].k), ClearedWith(s[3].n, s[4].n), s, nUBuckets, usable)
      case None => None
      case Some(r) => Some((s[2].k, r))
  }
}
