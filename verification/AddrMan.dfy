/**
 The address manager (src/addrman.h, src/addrman.cpp): what the five redundant structures hold,
 as values, and the invariant that ties them together.  The class that mutates them is in
 AddrManTables.dfy.

 Bucket hashes, the clock and every random draw are arbitrary.
 */
module AddrMan {
  import opened Wrappers
  import opened Powers

  const TRIED_BUCKET_COUNT := 256
  const NEW_BUCKET_COUNT := 1024
  const BUCKET_SIZE := 64
  const NEW_BUCKETS_PER_ADDRESS := 8
  const HORIZON_DAYS := 30
  const RETRIES := 3
  const MAX_FAILURES := 10
  const MIN_FAIL_DAYS := 7
  const GETADDR_MAX_PCT := 23
  const GETADDR_MAX := 2500

  /** Marks an empty position in a bucket. */
  const NO_ID := -1

  type NetAddr = nat
  type Slot = (nat, nat)
  type Table = map<Slot, int>

  datatype Service = Service(ip: NetAddr, port: nat)

  /** `services` is the set of service bits. */
  datatype Address = Address(service: Service, services: set<nat>, time: int)

  datatype AddrInfo = AddrInfo(
    service: Service, services: set<nat>, time: int, source: NetAddr,
    lastTry: int, lastCountAttempt: int, lastSuccess: int, attempts: int,
    refCount: int, inTried: bool, randomPos: int)

  function NewInfo(addr: Address, source: NetAddr, randomPos: nat): AddrInfo {
    AddrInfo(addr.service, addr.services, addr.time, source, 0, 0, 0, 0, 0, false, randomPos)
  }

  /** The keyed hashes that choose buckets and positions. */
  datatype Hashes = Hashes(triedHash: Service -> nat, newHash: (Service, NetAddr) -> nat,
                           positionHash: (Service, bool, nat) -> nat)

  function TriedSlot(h: Hashes, a: Service): Slot {
    var bucket := h.triedHash(a) % TRIED_BUCKET_COUNT;
    (bucket, h.positionHash(a, false, bucket) % BUCKET_SIZE)
  }

  function NewPosition(h: Hashes, a: Service, bucket: nat): nat {
    h.positionHash(a, true, bucket) % BUCKET_SIZE
  }

  function NewSlot(h: Hashes, a: Service, source: NetAddr): Slot {
    var bucket := h.newHash(a, source) % NEW_BUCKET_COUNT;
    (bucket, NewPosition(h, a, bucket))
  }

  predicate IsTerrible(i: AddrInfo, now: int) {
    if i.lastTry != 0 && i.lastTry >= now - 60 then false
    else if i.time > now + 10 * 60 then true
    else if i.time == 0 || now - i.time > HORIZON_DAYS * 24 * 60 * 60 then true
    else if i.lastSuccess == 0 && i.attempts >= RETRIES then true
    else now - i.lastSuccess > MIN_FAIL_DAYS * 24 * 60 * 60 && i.attempts >= MAX_FAILURES
  }

  type Infos = map<int, AddrInfo>

  /** The contents of the manager. */
  datatype Book = Book(
    idCount: int,
    info: Infos,
    addrs: map<Service, int>,
    random: seq<int>,
    nTried: int,
    tried: Table,
    nNew: int,
    newer: Table,
    lastGood: int,
    hashes: Hashes,
    discriminatePorts: bool)

  function Key(discriminatePorts: bool, a: Service): Service {
    if discriminatePorts then a else Service(a.ip, 0)
  }

  function Max(a: int, b: int): int { if a < b then b else a }

  // ----- The operations on values -----

  function Empty(hashes: Hashes, discriminatePorts: bool): Book {
    Book(0, map[], map[], [], 0, map[], 0, map[], 1, hashes, discriminatePorts)
  }

  function Find(b: Book, a: Service): Option<int> {
    var k := Key(b.discriminatePorts, a);
    if k in b.addrs && b.addrs[k] in b.info then Some(b.addrs[k]) else None
  }

  function Put(b: Book, id: int, i: AddrInfo): Book {
    b.(info := b.info[id := i])
  }

  function Create(b: Book, addr: Address, source: NetAddr): Book {
    b.(idCount := b.idCount + 1,
       info := b.info[b.idCount := NewInfo(addr, source, |b.random|)],
       addrs := b.addrs[Key(b.discriminatePorts, addr.service) := b.idCount],
       random := b.random + [b.idCount],
       nNew := b.nNew + 1)
  }

  function Swap(b: Book, i: nat, j: nat): (c: Book)
    requires i < |b.random| && j < |b.random| && b.random[i] in b.info && b.random[j] in b.info
    ensures |c.random| == |b.random|
  {
    if i == j then b
    else
      var p, q := b.random[i], b.random[j];
      var info := b.info[p := b.info[p].(randomPos := j)];
      b.(info := info[q := info[q].(randomPos := i)], random := b.random[i := q][j := p])
  }

  /** An entry has its place in vRandom, and the last place is taken. */
  lemma Places(b: Book, id: int)
    requires RandomOk(b) && id in b.info
    ensures 0 <= b.info[id].randomPos < |b.random| && b.random[b.info[id].randomPos] == id
    ensures b.random[|b.random| - 1] in b.info
  {
    assert EntryPosOk(b, id) && PosOk(b, |b.random| - 1);
  }

  /** Delete an entry that nothing refers to any more. */
  function Drop(b: Book, id: int): Book
    requires id in b.info && RandomOk(b)
  {
    assert EntryPosOk(b, id) && PosOk(b, |b.random| - 1);
    var c := Swap(b, b.info[id].randomPos, |b.random| - 1);
    c.(random := c.random[..|c.random| - 1],
       addrs := c.addrs - {Key(b.discriminatePorts, b.info[id].service)},
       info := c.info - {id},
       nNew := c.nNew - 1)
  }

  /** One more reference from slot s of the new table. */
  function AddRef(b: Book, id: int, s: Slot): Book
    requires id in b.info
  {
    b.(info := b.info[id := b.info[id].(refCount := b.info[id].refCount + 1)], newer := b.newer[s := id])
  }

  function RemoveRef(b: Book, s: Slot): Book
    requires s in b.newer && b.newer[s] in b.info
  {
    var id := b.newer[s];
    b.(info := b.info[id := b.info[id].(refCount := b.info[id].refCount - 1)], newer := b.newer - {s})
  }

  /** Clear a position in the new table, deleting the entry with its last reference. */
  function ClearNew(b: Book, s: Slot): Book
    requires RandomOk(b) && (s in b.newer ==> b.newer[s] in b.info)
  {
    if s !in b.newer then b
    else
      var c := RemoveRef(b, s);
      KeepRandom(b, c, b.newer[s]);
      if c.info[b.newer[s]].refCount == 0 then Drop(c, b.newer[s]) else c
  }

  /** A table without the references to id. */
  function Without(t: Table, id: int): Table {
    map s | s in t && t[s] != id :: if t[s] != id then t[s] else NO_ID
  }

  /** Take an entry out of the new table altogether. */
  function Detach(b: Book, id: int): Book
    requires id in b.info
  {
    b.(info := b.info[id := b.info[id].(refCount := 0)],
       newer := Without(b.newer, id),
       nNew := b.nNew - 1)
  }

  /** Take an entry out of the tried table. */
  function Untry(b: Book, s: Slot): Book
    requires s in b.tried && b.tried[s] in b.info
  {
    var id := b.tried[s];
    b.(info := b.info[id := b.info[id].(inTried := false)], tried := b.tried - {s}, nTried := b.nTried - 1)
  }

  function MarkTried(b: Book, id: int): Book
    requires id in b.info
  {
    b.(info := b.info[id := b.info[id].(inTried := true)],
       tried := b.tried[TriedSlot(b.hashes, b.info[id].service) := id],
       nTried := b.nTried + 1)
  }

  // ----- The invariant, point by point -----

  /** vRandom lists each id once, at the position its entry records. */
  ghost predicate PosOk(b: Book, i: int) {
    0 <= i < |b.random| ==> b.random[i] in b.info && b.info[b.random[i]].randomPos == i
  }

  ghost predicate EntryPosOk(b: Book, id: int) {
    id in b.info ==> 0 <= b.info[id].randomPos < |b.random| && b.random[b.info[id].randomPos] == id
  }

  ghost predicate RandomOk(b: Book) {
    (forall i :: PosOk(b, i)) && (forall id :: EntryPosOk(b, id))
  }

  /** mapAddr holds exactly the (possibly port-stripped) address of each entry. */
  ghost predicate KeyOk(b: Book, k: Service) {
    k in b.addrs ==> b.addrs[k] in b.info && Key(b.discriminatePorts, b.info[b.addrs[k]].service) == k
  }

  ghost predicate EntryKeyOk(b: Book, id: int) {
    id in b.info ==>
      var k := Key(b.discriminatePorts, b.info[id].service);
      k in b.addrs && b.addrs[k] == id
  }

  /** Every reference in the new table is to an untried entry, at its own position. */
  ghost predicate NewSlotOk(b: Book, s: Slot) {
    s in b.newer ==>
      && s.0 < NEW_BUCKET_COUNT
      && b.newer[s] in b.info
      && !b.info[b.newer[s]].inTried
      && s.1 == NewPosition(b.hashes, b.info[b.newer[s]].service, s.0)
  }

  ghost function Refs(newer: Table, id: int): set<Slot> {
    set s | s in newer && newer[s] == id
  }

  /** The reference count of an entry is the number of its occurrences in the new table:
      none for a tried entry and for a loose one, 1 to 8 for every other. */
  ghost predicate EntryRefsOk(b: Book, id: int, loose: set<int>) {
    id in b.info ==>
      && b.info[id].refCount == |Refs(b.newer, id)|
      && if b.info[id].inTried || id in loose then b.info[id].refCount == 0
         else 1 <= b.info[id].refCount <= NEW_BUCKETS_PER_ADDRESS
  }

  /** The tried table holds each tried entry in its single slot and nothing else. */
  ghost predicate TriedSlotOk(b: Book, s: Slot) {
    s in b.tried ==>
      b.tried[s] in b.info && b.info[b.tried[s]].inTried && s == TriedSlot(b.hashes, b.info[b.tried[s]].service)
  }

  ghost predicate EntryTriedOk(b: Book, id: int) {
    id in b.info && b.info[id].inTried ==>
      var s := TriedSlot(b.hashes, b.info[id].service);
      s in b.tried && b.tried[s] == id
  }

  ghost predicate IdOk(b: Book, id: int) {
    id in b.info ==> 0 <= id < b.idCount
  }

  ghost function Untried(info: Infos): set<int> {
    set id | id in info && !info[id].inTried
  }

  ghost function TriedIds(info: Infos): set<int> {
    set id | id in info && info[id].inTried
  }

  ghost predicate CountsOk(b: Book, loose: set<int>, uncounted: set<int>) {
    && uncounted <= loose <= Untried(b.info)
    && b.nNew == |Untried(b.info) - uncounted|
    && b.nTried == |TriedIds(b.info)|
  }

  /** The ids, vRandom and mapAddr. */
  ghost predicate NamesOk(b: Book) {
    && b.idCount >= 0
    && (forall id :: IdOk(b, id))
    && RandomOk(b)
    && (forall k :: KeyOk(b, k))
    && (forall id :: EntryKeyOk(b, id))
  }

  /** The invariant, but for some loose entries, of which the uncounted are missing in nNew. */
  ghost predicate Sound(b: Book, loose: set<int>, uncounted: set<int>) {
    && NamesOk(b)
    && (forall s :: NewSlotOk(b, s))
    && (forall id :: EntryRefsOk(b, id, loose))
    && (forall s :: TriedSlotOk(b, s))
    && (forall id :: EntryTriedOk(b, id))
    && CountsOk(b, loose, uncounted)
  }

  ghost predicate Inv(b: Book) {
    Sound(b, {}, {})
  }

  /** The entry id is one for the address, as far as the manager tells addresses apart. */
  predicate IsEntryFor(b: Book, id: int, a: Service) {
    id in b.info && Key(b.discriminatePorts, b.info[id].service) == Key(b.discriminatePorts, a)
  }

  /** Looking an address up yields the one entry for it, and nothing exactly when there is none. */
  lemma FindExactly(b: Book, a: Service)
    requires NamesOk(b)
    ensures forall id :: Find(b, a) == Some(id) <==> IsEntryFor(b, id, a)
    ensures Find(b, a) == None <==> forall id :: !IsEntryFor(b, id, a)
  {
    assert KeyOk(b, Key(b.discriminatePorts, a));
    forall id ensures Find(b, a) == Some(id) <==> IsEntryFor(b, id, a) {
      assert EntryKeyOk(b, id);
    }
    if Find(b, a).Some? {
      assert IsEntryFor(b, Find(b, a).value, a);
    }
  }

  lemma EmptyInv(h: Hashes, disc: bool)
    ensures Inv(Empty(h, disc)) && Empty(h, disc).info == map[] && Empty(h, disc).lastGood == 1
  {
    assert Untried(map[]) == {} && TriedIds(map[]) == {};
    assert Untried(map[]) - {} == {};
  }

  // ----- Elementary changes and what they keep -----

  /** c differs from b in the tables, the counters and the marks of one entry only. */
  ghost predicate Changed(b: Book, c: Book, id: int) {
    && id in b.info && id in c.info
    && c.info == b.info[id := c.info[id]]
    && c.info[id].service == b.info[id].service
    && c.info[id].randomPos == b.info[id].randomPos
    && c == b.(info := c.info, tried := c.tried, newer := c.newer, nTried := c.nTried, nNew := c.nNew)
  }

  lemma KeepRandom(b: Book, c: Book, id: int)
    requires RandomOk(b) && Changed(b, c, id)
    ensures RandomOk(c)
  {
    forall x ensures EntryPosOk(c, x) {
      assert EntryPosOk(b, x);
    }
    forall i ensures PosOk(c, i) {
      assert PosOk(b, i);
    }
  }

  /** The two tables have entry `id` alike in what matters outside vRandom. */
  ghost predicate Agree(info: Infos, info': Infos, id: int) {
    && (id in info <==> id in info')
    && (id in info ==>
          && info[id].service == info'[id].service
          && info[id].inTried == info'[id].inTried
          && info[id].refCount == info'[id].refCount)
  }

  /** Outside vRandom only addresses, reference counts and the tried mark matter. */
  lemma Restyle(b: Book, c: Book, loose: set<int>, uncounted: set<int>)
    requires Sound(b, loose, uncounted)
    requires c == b.(info := c.info, random := c.random, lastGood := c.lastGood)
    requires forall id :: Agree(b.info, c.info, id)
    requires RandomOk(c)
    ensures Sound(c, loose, uncounted)
  {
    forall id ensures IdOk(c, id) && EntryKeyOk(c, id) && EntryRefsOk(c, id, loose) && EntryTriedOk(c, id) {
      assert IdOk(b, id) && EntryKeyOk(b, id) && EntryRefsOk(b, id, loose) && EntryTriedOk(b, id);
      assert Agree(b.info, c.info, id);
    }
    forall k ensures KeyOk(c, k) {
      assert KeyOk(b, k);
      assert k in b.addrs ==> Agree(b.info, c.info, b.addrs[k]);
    }
    forall s ensures NewSlotOk(c, s) && TriedSlotOk(c, s) {
      assert NewSlotOk(b, s) && TriedSlotOk(b, s);
      assert s in b.newer ==> Agree(b.info, c.info, b.newer[s]);
      assert s in b.tried ==> Agree(b.info, c.info, b.tried[s]);
    }
    SameIds(b.info, c.info);
  }

  lemma SameIds(info: Infos, info': Infos)
    requires forall id :: Agree(info, info', id)
    ensures Untried(info') == Untried(info) && TriedIds(info') == TriedIds(info)
  {
    forall id ensures id in Untried(info) <==> id in Untried(info') {
      assert Agree(info, info', id);
    }
    forall id ensures id in TriedIds(info) <==> id in TriedIds(info') {
      assert Agree(info, info', id);
    }
  }

  lemma SwapRandom(b: Book, i: nat, j: nat)
    requires RandomOk(b) && i < |b.random| && j < |b.random|
    ensures b.random[i] in b.info && b.random[j] in b.info
    ensures RandomOk(Swap(b, i, j))
    ensures forall id :: Agree(b.info, Swap(b, i, j).info, id)
  {
    assert PosOk(b, i) && PosOk(b, j);
    var c := Swap(b, i, j);
    forall x ensures PosOk(c, x) {
      assert PosOk(b, x);
    }
    forall id ensures EntryPosOk(c, id) {
      assert EntryPosOk(b, id);
    }
  }

  lemma CreateSound(b: Book, addr: Address, source: NetAddr)
    requires Inv(b) && Key(b.discriminatePorts, addr.service) !in b.addrs
    ensures Sound(Create(b, addr, source), {b.idCount}, {})
  {
    var n := b.idCount;
    var c := Create(b, addr, source);
    assert IdOk(b, n);
    CreateNames(b, addr, source);
    forall id ensures EntryTriedOk(c, id) {
      assert EntryTriedOk(b, id);
    }
    forall s ensures NewSlotOk(c, s) {
      assert NewSlotOk(b, s);
    }
    forall s ensures TriedSlotOk(c, s) {
      assert TriedSlotOk(b, s);
    }
    forall id ensures EntryRefsOk(c, id, {n}) {
      assert EntryRefsOk(b, id, {});
      if id == n {
        forall s ensures s !in Refs(b.newer, n) {
          assert NewSlotOk(b, s);
        }
        assert Refs(b.newer, n) == {};
      }
    }
    CreateCounts(b.info, c.info, n);
  }

  lemma CreateNames(b: Book, addr: Address, source: NetAddr)
    requires NamesOk(b) && Key(b.discriminatePorts, addr.service) !in b.addrs
    ensures NamesOk(Create(b, addr, source))
  {
    var c := Create(b, addr, source);
    assert IdOk(b, b.idCount);
    forall id ensures IdOk(c, id) {
      assert IdOk(b, id);
    }
    forall id ensures EntryPosOk(c, id) {
      assert EntryPosOk(b, id);
    }
    forall id ensures EntryKeyOk(c, id) {
      assert EntryKeyOk(b, id);
    }
    forall i ensures PosOk(c, i) {
      assert PosOk(b, i);
    }
    forall k ensures KeyOk(c, k) {
      assert KeyOk(b, k);
    }
  }

  lemma CreateCounts(info: Infos, info': Infos, n: int)
    requires n !in info && n in info' && !info'[n].inTried && info' == info[n := info'[n]]
    ensures {n} <= Untried(info')
    ensures |Untried(info') - {}| == |Untried(info) - {}| + 1 && TriedIds(info') == TriedIds(info)
  {
    assert Untried(info') - {} == (Untried(info) - {}) + {n};
  }

  lemma DropRandom(b: Book, id: int)
    requires id in b.info && RandomOk(b)
    ensures RandomOk(Drop(b, id))
    ensures Drop(b, id).info.Keys == b.info.Keys - {id}
    ensures forall x :: x == id || Agree(b.info, Drop(b, id).info, x)
  {
    var n := |b.random| - 1;
    assert EntryPosOk(b, id);
    SwapRandom(b, b.info[id].randomPos, n);
    var c := Swap(b, b.info[id].randomPos, n);
    var d := Drop(b, id);
    assert c.random[n] == id;
    forall i ensures PosOk(d, i) {
      assert PosOk(c, i) && PosOk(c, n);
    }
    forall x ensures EntryPosOk(d, x) {
      assert EntryPosOk(c, x) && PosOk(c, n);
    }
    forall x ensures x == id || Agree(b.info, d.info, x) {
      assert Agree(b.info, c.info, x);
    }
    forall x ensures x in d.info.Keys <==> x in b.info.Keys - {id} {
      assert Agree(b.info, c.info, x);
    }
  }

  lemma DropSound(b: Book, id: int, loose: set<int>, uncounted: set<int>)
    requires Sound(b, loose, uncounted) && id in loose && id !in uncounted
    ensures Sound(Drop(b, id), loose - {id}, uncounted)
  {
    DropRandom(b, id);
    var d := Drop(b, id);
    assert EntryRefsOk(b, id, loose);
    assert Refs(b.newer, id) == {};
    DropNames(b, id, loose, uncounted);
    DropTables(b, id, loose, uncounted);
    DropCounts(b, id, d, loose, uncounted);
    hide Drop, NewSlotOk, TriedSlotOk, EntryRefsOk, EntryTriedOk, CountsOk, NamesOk;
  }

  lemma DropNames(b: Book, id: int, loose: set<int>, uncounted: set<int>)
    requires Sound(b, loose, uncounted) && id in b.info
    ensures NamesOk(Drop(b, id))
  {
    DropRandom(b, id);
    var d := Drop(b, id);
    hide NewSlotOk, TriedSlotOk, EntryRefsOk, EntryTriedOk, CountsOk;
    assert EntryKeyOk(b, id);
    forall x ensures IdOk(d, x) {
      assert IdOk(b, x) && (x == id || Agree(b.info, d.info, x));
    }
    forall x ensures EntryKeyOk(d, x) {
      assert EntryKeyOk(b, x) && (x == id || Agree(b.info, d.info, x));
    }
    forall k ensures KeyOk(d, k) {
      assert KeyOk(b, k);
      assert k in b.addrs && b.addrs[k] != id ==> Agree(b.info, d.info, b.addrs[k]);
    }
  }

  lemma DropTables(b: Book, id: int, loose: set<int>, uncounted: set<int>)
    requires Sound(b, loose, uncounted) && id in loose && id in b.info && Refs(b.newer, id) == {} && !b.info[id].inTried
    ensures var d := Drop(b, id);
      && (forall s :: NewSlotOk(d, s)) && (forall x :: EntryRefsOk(d, x, loose - {id}))
      && (forall s :: TriedSlotOk(d, s)) && (forall x :: EntryTriedOk(d, x))
  {
    DropRandom(b, id);
    var d := Drop(b, id);
    hide IdOk, EntryKeyOk, KeyOk, CountsOk;
    forall x ensures EntryRefsOk(d, x, loose - {id}) {
      assert EntryRefsOk(b, x, loose) && (x == id || Agree(b.info, d.info, x));
    }
    forall x ensures EntryTriedOk(d, x) {
      assert EntryTriedOk(b, x) && (x == id || Agree(b.info, d.info, x));
    }
    forall s ensures NewSlotOk(d, s) {
      assert NewSlotOk(b, s);
      assert s in b.newer ==> s !in Refs(b.newer, id) && Agree(b.info, d.info, b.newer[s]);
    }
    forall s ensures TriedSlotOk(d, s) {
      assert TriedSlotOk(b, s);
      assert s in b.tried ==> b.tried[s] != id && Agree(b.info, d.info, b.tried[s]);
    }
  }

  lemma DropCounts(b: Book, id: int, d: Book, loose: set<int>, uncounted: set<int>)
    requires CountsOk(b, loose, uncounted) && id in loose && id !in uncounted
    requires forall x :: x == id || Agree(b.info, d.info, x)
    requires id !in d.info && d.nNew == b.nNew - 1 && d.nTried == b.nTried
    ensures CountsOk(d, loose - {id}, uncounted)
  {
    DropIds(b.info, d.info, id);
    OneLess(Untried(b.info) - uncounted, Untried(d.info) - uncounted, id);
  }

  lemma DropIds(info: Infos, info': Infos, id: int)
    requires id in Untried(info) && id !in info' && forall x :: x == id || Agree(info, info', x)
    ensures Untried(info') == Untried(info) - {id} && TriedIds(info') == TriedIds(info)
  {
    forall x ensures x in Untried(info') <==> x in Untried(info) - {id} {
      assert x == id || Agree(info, info', x);
    }
    forall x ensures x in TriedIds(info') <==> x in TriedIds(info) {
      assert x == id || Agree(info, info', x);
    }
  }

  lemma OneLess(a: set<int>, b: set<int>, x: int)
    requires x in a && b == a - {x}
    ensures |b| == |a| - 1
  {
  }

  lemma KeepNames(b: Book, c: Book, id: int)
    requires NamesOk(b) && Changed(b, c, id)
    ensures NamesOk(c)
  {
    KeepRandom(b, c, id);
    forall x ensures IdOk(c, x) {
      assert IdOk(b, x);
    }
    forall x ensures EntryKeyOk(c, x) {
      assert EntryKeyOk(b, x);
    }
    forall k ensures KeyOk(c, k) {
      assert KeyOk(b, k);
    }
  }

  /** The tried table is not concerned. */
  lemma KeepTried(b: Book, c: Book, id: int)
    requires Changed(b, c, id) && c.info[id].inTried == b.info[id].inTried && c.tried == b.tried
    requires (forall s :: TriedSlotOk(b, s)) && (forall x :: EntryTriedOk(b, x))
    ensures (forall s :: TriedSlotOk(c, s)) && (forall x :: EntryTriedOk(c, x))
    ensures Untried(c.info) == Untried(b.info) && TriedIds(c.info) == TriedIds(b.info)
  {
    forall s ensures TriedSlotOk(c, s) {
      assert TriedSlotOk(b, s);
    }
    forall x ensures EntryTriedOk(c, x) {
      assert EntryTriedOk(b, x);
    }
    assert forall x :: x in Untried(c.info) <==> x in Untried(b.info);
    assert forall x :: x in TriedIds(c.info) <==> x in TriedIds(b.info);
  }

  lemma RefsPut(newer: Table, s: Slot, id: int, x: int)
    requires s !in newer
    ensures |Refs(newer[s := id], x)| == |Refs(newer, x)| + (if x == id then 1 else 0)
  {
    assert Refs(newer[s := id], x) == Refs(newer, x) + (if x == id then {s} else {});
  }

  lemma RefsRemove(newer: Table, s: Slot, x: int)
    requires s in newer
    ensures |Refs(newer - {s}, x)| == |Refs(newer, x)| - (if x == newer[s] then 1 else 0)
  {
    assert Refs(newer - {s}, x) == Refs(newer, x) - {s};
    assert s in Refs(newer, x) <==> x == newer[s];
  }

  lemma AddRefSound(b: Book, id: int, s: Slot, loose: set<int>, uncounted: set<int>)
    requires Sound(b, loose, uncounted)
    requires id in b.info && !b.info[id].inTried && b.info[id].refCount < NEW_BUCKETS_PER_ADDRESS
    requires s !in b.newer && s.0 < NEW_BUCKET_COUNT && s.1 == NewPosition(b.hashes, b.info[id].service, s.0)
    ensures Sound(AddRef(b, id, s).(nNew := b.nNew + if id in uncounted then 1 else 0), loose - {id}, uncounted - {id})
  {
    hide NamesOk, TriedSlotOk, EntryTriedOk, NewSlotOk, EntryRefsOk, CountsOk;
    var c := AddRef(b, id, s).(nNew := b.nNew + if id in uncounted then 1 else 0);
    assert Changed(b, c, id);
    KeepNames(b, c, id);
    KeepTried(b, c, id);
    AddRefNewer(b, c, id, s, loose);
    AddRefCounts(b, c, id, loose, uncounted);
  }

  lemma AddRefCounts(b: Book, c: Book, id: int, loose: set<int>, uncounted: set<int>)
    requires CountsOk(b, loose, uncounted) && id in b.info && !b.info[id].inTried
    requires Untried(c.info) == Untried(b.info) && TriedIds(c.info) == TriedIds(b.info)
    requires c.nTried == b.nTried && c.nNew == b.nNew + if id in uncounted then 1 else 0
    ensures CountsOk(c, loose - {id}, uncounted - {id})
  {
    OneCounted(Untried(b.info), uncounted, id);
  }

  lemma AddRefNewer(b: Book, c: Book, id: int, s: Slot, loose: set<int>)
    requires (forall t :: NewSlotOk(b, t)) && (forall x :: EntryRefsOk(b, x, loose))
    requires id in b.info && !b.info[id].inTried && b.info[id].refCount < NEW_BUCKETS_PER_ADDRESS
    requires s !in b.newer && s.0 < NEW_BUCKET_COUNT && s.1 == NewPosition(b.hashes, b.info[id].service, s.0)
    requires c.newer == b.newer[s := id] && c.hashes == b.hashes
    requires c.info == b.info[id := b.info[id].(refCount := b.info[id].refCount + 1)]
    ensures (forall t :: NewSlotOk(c, t)) && (forall x :: EntryRefsOk(c, x, loose - {id}))
  {
    forall t ensures NewSlotOk(c, t) {
      assert NewSlotOk(b, t);
    }
    forall x ensures EntryRefsOk(c, x, loose - {id}) {
      assert EntryRefsOk(b, x, loose);
      RefsPut(b.newer, s, id, x);
    }
  }

  lemma OneCounted(a: set<int>, uncounted: set<int>, id: int)
    requires id in a
    ensures |a - (uncounted - {id})| == |a - uncounted| + if id in uncounted then 1 else 0
  {
    if id in uncounted {
      assert a - (uncounted - {id}) == (a - uncounted) + {id};
    } else {
      assert uncounted - {id} == uncounted;
    }
  }

  lemma RemoveRefSound(b: Book, s: Slot, loose: set<int>, uncounted: set<int>)
    requires Sound(b, loose, uncounted) && s in b.newer
    ensures NewSlotOk(b, s) && b.info[b.newer[s]].refCount > 0
    ensures Sound(RemoveRef(b, s),
                  if RemoveRef(b, s).info[b.newer[s]].refCount == 0 then loose + {b.newer[s]} else loose, uncounted)
  {
    assert NewSlotOk(b, s);
    var id := b.newer[s];
    var c := RemoveRef(b, s);
    var loose' := if c.info[id].refCount == 0 then loose + {id} else loose;
    assert EntryRefsOk(b, id, loose);
    assert s in Refs(b.newer, id);
    KeepNames(b, c, id);
    KeepTried(b, c, id);
    forall t ensures NewSlotOk(c, t) {
      assert NewSlotOk(b, t);
    }
    forall x ensures EntryRefsOk(c, x, loose') {
      assert EntryRefsOk(b, x, loose);
      RefsRemove(b.newer, s, x);
    }
  }

  lemma ClearNewSound(b: Book, s: Slot, loose: set<int>, uncounted: set<int>)
    requires Sound(b, loose, uncounted)
    ensures NewSlotOk(b, s)
    ensures Sound(ClearNew(b, s), loose, uncounted)
    ensures s !in ClearNew(b, s).newer
  {
    assert NewSlotOk(b, s);
    if s in b.newer {
      var id := b.newer[s];
      RemoveRefSound(b, s, loose, uncounted);
      assert EntryRefsOk(b, id, loose);
      if RemoveRef(b, s).info[id].refCount == 0 {
        DropSound(RemoveRef(b, s), id, loose + {id}, uncounted);
        assert loose + {id} - {id} == loose;
      }
    }
  }

  lemma DetachSound(b: Book, id: int)
    requires Inv(b) && id in b.info && !b.info[id].inTried
    ensures Sound(Detach(b, id), {id}, {id})
  {
    var c := Detach(b, id);
    KeepNames(b, c, id);
    KeepTried(b, c, id);
    DetachNewer(b, c, id);
    hide NamesOk, TriedSlotOk, EntryTriedOk, NewSlotOk, EntryRefsOk;
    OneLess(Untried(b.info) - {}, Untried(b.info) - {id}, id);
  }

  lemma DetachNewer(b: Book, c: Book, id: int)
    requires (forall t :: NewSlotOk(b, t)) && (forall x :: EntryRefsOk(b, x, {})) && id in b.info
    requires c.newer == Without(b.newer, id) && c.hashes == b.hashes
    requires c.info == b.info[id := b.info[id].(refCount := 0)]
    ensures (forall t :: NewSlotOk(c, t)) && (forall x :: EntryRefsOk(c, x, {id}))
  {
    forall t ensures NewSlotOk(c, t) {
      assert NewSlotOk(b, t);
    }
    forall x ensures EntryRefsOk(c, x, {id}) {
      assert EntryRefsOk(b, x, {});
      assert Refs(c.newer, x) == if x == id then {} else Refs(b.newer, x);
    }
  }

  lemma UntrySound(b: Book, s: Slot, loose: set<int>, uncounted: set<int>)
    requires Sound(b, loose, uncounted) && s in b.tried
    ensures TriedSlotOk(b, s)
    ensures Sound(Untry(b, s), loose + {b.tried[s]}, uncounted + {b.tried[s]})
  {
    assert TriedSlotOk(b, s);
    var id := b.tried[s];
    var c := Untry(b, s);
    KeepNames(b, c, id);
    assert EntryRefsOk(b, id, loose) && EntryTriedOk(b, id);
    forall t ensures NewSlotOk(c, t) {
      assert NewSlotOk(b, t);
    }
    forall t ensures TriedSlotOk(c, t) {
      assert TriedSlotOk(b, t);
    }
    forall x ensures EntryTriedOk(c, x) {
      assert EntryTriedOk(b, x);
    }
    forall x ensures EntryRefsOk(c, x, loose + {id}) {
      assert EntryRefsOk(b, x, loose);
    }
    assert Untried(c.info) == Untried(b.info) + {id};
    assert Untried(c.info) - (uncounted + {id}) == Untried(b.info) - uncounted;
    OneLess(TriedIds(b.info), TriedIds(c.info), id);
  }

  lemma MarkTriedSound(b: Book, id: int, loose: set<int>, uncounted: set<int>)
    requires Sound(b, loose, uncounted) && id in uncounted
    requires id in b.info && TriedSlot(b.hashes, b.info[id].service) !in b.tried
    ensures Sound(MarkTried(b, id), loose - {id}, uncounted - {id})
  {
    var c := MarkTried(b, id);
    KeepNames(b, c, id);
    assert EntryRefsOk(b, id, loose);
    assert Refs(b.newer, id) == {};
    forall t ensures NewSlotOk(c, t) {
      assert NewSlotOk(b, t);
      assert t in b.newer && b.newer[t] == id ==> t in Refs(b.newer, id);
    }
    forall t ensures TriedSlotOk(c, t) {
      assert TriedSlotOk(b, t);
    }
    forall x ensures EntryTriedOk(c, x) {
      assert EntryTriedOk(b, x);
    }
    forall x ensures EntryRefsOk(c, x, loose - {id}) {
      assert EntryRefsOk(b, x, loose);
    }
    assert Untried(c.info) == Untried(b.info) - {id};
    assert Untried(c.info) - (uncounted - {id}) == Untried(b.info) - uncounted;
    OneLess(TriedIds(c.info), TriedIds(b.info), id);
  }

  // ----- The public operations on values -----

  /** Every reference can be followed. */
  ghost predicate Linked(b: Book) {
    RandomOk(b) && (forall s :: NewSlotOk(b, s)) && (forall s :: TriedSlotOk(b, s))
  }

  lemma {:induction false} ClearNewKeeps(b: Book, s: Slot, x: int)
    requires Linked(b) && x in b.info && (s in b.newer ==> b.newer[s] in b.info && b.newer[s] != x)
    ensures x in ClearNew(b, s).info
    ensures ClearNew(b, s).info[x] == b.info[x].(randomPos := ClearNew(b, s).info[x].randomPos)
  {
    if s in b.newer {
      var c := RemoveRef(b, s);
      KeepRandom(b, c, b.newer[s]);
      assert EntryPosOk(c, b.newer[s]) && PosOk(c, |c.random| - 1);
    }
  }

  /** Where an entry goes when it is known from `source`. */
  function SlotFor(b: Book, id: int, source: NetAddr): Slot
    requires id in b.info
  {
    NewSlot(b.hashes, b.info[id].service, source)
  }

  /** Clear a slot of the new table and refer to another entry from it. */
  function Enter(b: Book, id: int, s: Slot): Book
    requires Linked(b) && id in b.info && (s in b.newer ==> b.newer[s] != id)
  {
    assert NewSlotOk(b, s);
    ClearNewKeeps(b, s, id);
    AddRef(ClearNew(b, s), id, s)
  }

  /** Move the occupant of a tried slot back to the new table. */
  function Evict(b: Book, s: Slot): Book
    requires Linked(b) && s in b.tried
  {
    EvictKeeps(b, s);
    var id := b.tried[s];
    var c := Untry(b, s);
    var d := Enter(c, id, SlotFor(c, id, c.info[id].source));
    d.(nNew := d.nNew + 1)
  }

  lemma EvictKeeps(b: Book, s: Slot)
    requires Linked(b) && s in b.tried
    ensures b.tried[s] in b.info && Linked(Untry(b, s))
    ensures var t := SlotFor(b, b.tried[s], b.info[b.tried[s]].source);
            t in b.newer ==> b.newer[t] != b.tried[s]
  {
    assert TriedSlotOk(b, s);
    var id := b.tried[s];
    var c := Untry(b, s);
    KeepRandom(b, c, id);
    forall t ensures NewSlotOk(c, t) {
      assert NewSlotOk(b, t);
    }
    forall t ensures TriedSlotOk(c, t) {
      assert TriedSlotOk(b, t);
    }
    assert NewSlotOk(b, SlotFor(b, id, b.info[id].source));
  }

  lemma EnterSound(b: Book, id: int, s: Slot, loose: set<int>, uncounted: set<int>)
    requires Sound(b, loose, uncounted)
    requires id in b.info && !b.info[id].inTried && b.info[id].refCount < NEW_BUCKETS_PER_ADDRESS
    requires s.0 < NEW_BUCKET_COUNT && s.1 == NewPosition(b.hashes, b.info[id].service, s.0)
    requires s in b.newer ==> b.newer[s] != id
    ensures var d := Enter(b, id, s);
      Sound(d.(nNew := d.nNew + if id in uncounted then 1 else 0), loose - {id}, uncounted - {id})
  {
    SoundIsLinked(b, loose, uncounted);
    ClearNewSound(b, s, loose, uncounted);
    hide Sound, ClearNew, Linked, AddRef;
    ClearNewKeeps(b, s, id);
    ClearNewFields(b, s);
    AddRefSound(ClearNew(b, s), id, s, loose, uncounted);
  }

  lemma EvictSound(b: Book, s: Slot, p: int)
    requires Sound(b, {p}, {p}) && s in b.tried
    ensures Sound(Evict(b, s), {p}, {p})
  {
    EvictKeeps(b, s);
    UntrySound(b, s, {p}, {p});
    var id := b.tried[s];
    var c := Untry(b, s);
    assert EntryRefsOk(c, id, {p} + {id});
    EnterSound(c, id, SlotFor(c, id, c.info[id].source), {p} + {id}, {p} + {id});
    assert {p} + {id} - {id} == {p} by {
      assert p in Untried(b.info) && TriedSlotOk(b, s);
    }
  }

  /** The entry being promoted survives the eviction. */
  lemma EvictOthers(b: Book, s: Slot, p: int)
    requires Sound(b, {p}, {p}) && s in b.tried
    ensures s !in Evict(b, s).tried && Evict(b, s).hashes == b.hashes && Evict(b, s).lastGood == b.lastGood
    ensures p in Evict(b, s).info
    ensures Evict(b, s).info[p] == b.info[p].(randomPos := Evict(b, s).info[p].randomPos)
  {
    SoundIsLinked(b, {p}, {p});
    hide Sound, ClearNew, NewSlotOk, TriedSlotOk, Linked, KeyOk;
    EvictKeeps(b, s);
    var id := b.tried[s];
    var c := Untry(b, s);
    var t := SlotFor(c, id, c.info[id].source);
    NotPromoted(b, s, t, p);
    ClearNewKeeps(c, t, p);
    ClearNewFields(c, t);
  }

  lemma SoundIsLinked(b: Book, loose: set<int>, uncounted: set<int>)
    requires Sound(b, loose, uncounted)
    ensures Linked(b)
  {
  }

  lemma ClearNewFields(b: Book, s: Slot)
    requires Linked(b) && (s in b.newer ==> b.newer[s] in b.info)
    ensures var c := ClearNew(b, s); c.tried == b.tried && c.hashes == b.hashes && c.lastGood == b.lastGood
  {
  }

  /** An entry that lacks its references is in no position. */
  lemma NotPromoted(b: Book, s: Slot, t: Slot, p: int)
    requires Sound(b, {p}, {p}) && s in b.tried
    ensures p in b.info && (t in b.newer ==> b.newer[t] in b.info && b.newer[t] != p) && b.tried[s] != p
  {
    assert EntryRefsOk(b, p, {p}) && NewSlotOk(b, t) && TriedSlotOk(b, s);
    assert t in b.newer && b.newer[t] == p ==> t in Refs(b.newer, p);
  }

  /** Move an entry from the new table to the tried table. */
  function MakeTried(b: Book, id: int): Book
    requires Inv(b) && id in b.info && !b.info[id].inTried
  {
    DetachSound(b, id);
    var c := Detach(b, id);
    var s := TriedSlot(c.hashes, c.info[id].service);
    if s in c.tried then EvictOthers(c, s, id); MarkTried(Evict(c, s), id)
    else MarkTried(c, id)
  }

  lemma MakeTriedSound(b: Book, id: int)
    requires Inv(b) && id in b.info && !b.info[id].inTried
    ensures Inv(MakeTried(b, id))
  {
    DetachSound(b, id);
    var c := Detach(b, id);
    var s := TriedSlot(c.hashes, c.info[id].service);
    var d := c;
    if s in c.tried {
      EvictSound(c, s, id);
      EvictOthers(c, s, id);
      d := Evict(c, s);
    }
    MarkTriedSound(d, id, {id}, {id});
    assert {id} - {id} == {};
  }

  /** Overwriting statistics only. */
  lemma StatsSound(b: Book, id: int, i: AddrInfo, loose: set<int>, uncounted: set<int>)
    requires Sound(b, loose, uncounted) && id in b.info
    requires i.service == b.info[id].service && i.inTried == b.info[id].inTried
    requires i.refCount == b.info[id].refCount && i.randomPos == b.info[id].randomPos
    ensures Sound(Put(b, id, i), loose, uncounted)
  {
    KeepRandom(b, Put(b, id, i), id);
    Restyle(b, Put(b, id, i), loose, uncounted);
  }

  lemma LastGoodSound(b: Book, t: int)
    requires Inv(b)
    ensures Inv(b.(lastGood := t))
  {
    var c := b.(lastGood := t);
    forall i ensures PosOk(c, i) {
      assert PosOk(b, i);
    }
    forall id ensures EntryPosOk(c, id) {
      assert EntryPosOk(b, id);
    }
    Restyle(b, c, {}, {});
  }

  /** The entry for exactly this address, port included. */
  function FindExact(b: Book, a: Service): Option<int> {
    var r := Find(b, a);
    if r.Some? && b.info[r.value].service == a then r else None
  }

  function Proven(i: AddrInfo, t: int): AddrInfo {
    i.(lastSuccess := t, lastTry := t, attempts := 0)
  }

  function Good(b: Book, a: Service, t: int): Book
    requires Inv(b)
  {
    LastGoodSound(b, t);
    var c := b.(lastGood := t);
    match FindExact(b, a)
    case None => c
    case Some(id) =>
      var d := Put(c, id, Proven(c.info[id], t));
      StatsSound(c, id, Proven(c.info[id], t), {}, {});
      if d.info[id].inTried then d else MakeTried(d, id)
  }

  lemma GoodInv(b: Book, a: Service, t: int)
    requires Inv(b)
    ensures Inv(Good(b, a, t))
  {
    LastGoodSound(b, t);
    var c := b.(lastGood := t);
    var r := FindExact(b, a);
    if r.Some? {
      StatsSound(c, r.value, Proven(c.info[r.value], t), {}, {});
      var d := Put(c, r.value, Proven(c.info[r.value], t));
      if !d.info[r.value].inTried {
        MakeTriedSound(d, r.value);
      }
    }
  }

  function Attempt(b: Book, a: Service, countFailure: bool, t: int): Book {
    match FindExact(b, a)
    case None => b
    case Some(id) =>
      var i := b.info[id].(lastTry := t);
      Put(b, id, if countFailure && i.lastCountAttempt < b.lastGood
                 then i.(lastCountAttempt := t, attempts := i.attempts + 1) else i)
  }

  function Connected(b: Book, a: Service, t: int): Book {
    match FindExact(b, a)
    case Some(id) => if t - b.info[id].time > 20 * 60 then Put(b, id, b.info[id].(time := t)) else b
    case None => b
  }

  function SetServices(b: Book, a: Service, services: set<nat>): Book {
    match FindExact(b, a)
    case None => b
    case Some(id) => Put(b, id, b.info[id].(services := services))
  }

  /** The time kept for an address after hearing of it again; recent addresses are updated hourly. */
  function FresherTime(known: int, heard: int, penalty: int, now: int): int {
    var interval := if now - heard < 24 * 60 * 60 then 60 * 60 else 24 * 60 * 60;
    if heard != 0 && (known == 0 || known < heard - interval - penalty) then Max(0, heard - penalty) else known
  }

  /** An existing entry after hearing of its address again. */
  function Refreshed(i: AddrInfo, addr: Address, penalty: int, now: int): AddrInfo {
    i.(time := FresherTime(i.time, addr.time, penalty, now), services := i.services + addr.services)
  }

  /** Whether a known entry should try for one more reference; each one makes it twice as hard. */
  predicate WantsMore(i: AddrInfo, addr: Address, draw: nat) {
    && addr.time != 0
    && !(i.time != 0 && addr.time <= i.time)
    && !i.inTried
    && i.refCount != NEW_BUCKETS_PER_ADDRESS
    && !(i.refCount > 0 && draw % Pow2(i.refCount) != 0)
  }

  predicate CanReplace(b: Book, s: Slot, id: int, now: int)
    requires id in b.info && s in b.newer && b.newer[s] in b.info
  {
    var there := b.info[b.newer[s]];
    IsTerrible(there, now) || (there.refCount > 1 && b.info[id].refCount == 0)
  }

  /** Try to refer to an entry from the slot chosen by the source; drop it if nothing refers to it. */
  function Place(b: Book, id: int, source: NetAddr, now: int): Book
    requires Linked(b) && id in b.info
  {
    var s := SlotFor(b, id, source);
    assert NewSlotOk(b, s);
    if s in b.newer && b.newer[s] == id then b
    else if s !in b.newer || CanReplace(b, s, id, now) then Enter(b, id, s)
    else if b.info[id].refCount == 0 then Drop(b, id)
    else b
  }

  lemma PlaceSound(b: Book, id: int, source: NetAddr, now: int, loose: set<int>)
    requires Sound(b, loose, {}) && (loose == {} || loose == {id})
    requires id in b.info && !b.info[id].inTried && b.info[id].refCount < NEW_BUCKETS_PER_ADDRESS
    ensures Inv(Place(b, id, source, now))
  {
    var s := SlotFor(b, id, source);
    var none: set<int> := {};
    assert loose - {id} == none && none - {id} == none;
    assert NewSlotOk(b, s) && EntryRefsOk(b, id, loose);
    if s in b.newer && b.newer[s] == id {
      assert s in Refs(b.newer, id);
    } else if s !in b.newer || CanReplace(b, s, id, now) {
      EnterSound(b, id, s, loose, {});
    } else if b.info[id].refCount == 0 {
      DropSound(b, id, loose, {});
    }
  }

  /** Add_ for an address that has an entry. */
  function AddKnown(b: Book, id: int, addr: Address, source: NetAddr, penalty: int, heard: int, now: int,
                    draw: nat): Book
    requires Inv(b) && id in b.info
  {
    var i := Refreshed(b.info[id], addr, penalty, heard);
    StatsSound(b, id, i, {}, {});
    if WantsMore(i, addr, draw) then Place(Put(b, id, i), id, source, now) else Put(b, id, i)
  }

  /** Add_ for an address that has none. */
  function AddUnknown(b: Book, addr: Address, source: NetAddr, penalty: int, now: int): Book
    requires Inv(b) && Find(b, addr.service).None?
  {
    var late := addr.(time := Max(0, addr.time - penalty));
    UnknownKey(b, addr.service);
    CreateSound(b, late, source);
    Place(Create(b, late, source), b.idCount, source, now)
  }

  /** Add_: `routable`, `heard`, `now` and `draw` stand for the network class, the clock when a known entry is
      refreshed and when an occupied position is judged, and RandomInt. */
  function Add(b: Book, addr: Address, source: NetAddr, penalty: int, routable: bool, heard: int, now: int,
               draw: nat): (Book, bool)
    requires Inv(b)
  {
    var fine := if addr.service.ip == source then 0 else penalty;
    if !routable then (b, false)
    else
      match Find(b, addr.service)
      case Some(id) => (AddKnown(b, id, addr, source, fine, heard, now, draw), false)
      case None => (AddUnknown(b, addr, source, fine, now), true)
  }

  lemma UnknownKey(b: Book, a: Service)
    requires Inv(b) && Find(b, a).None?
    ensures Key(b.discriminatePorts, a) !in b.addrs
  {
    assert KeyOk(b, Key(b.discriminatePorts, a));
  }

  lemma AddKnownInv(b: Book, id: int, addr: Address, source: NetAddr, penalty: int, heard: int, now: int, draw: nat)
    requires Inv(b) && id in b.info
    ensures Inv(AddKnown(b, id, addr, source, penalty, heard, now, draw))
  {
    var i := Refreshed(b.info[id], addr, penalty, heard);
    StatsSound(b, id, i, {}, {});
    if WantsMore(i, addr, draw) {
      assert EntryRefsOk(b, id, {});
      PlaceSound(Put(b, id, i), id, source, now, {});
    }
  }

  lemma AddUnknownInv(b: Book, addr: Address, source: NetAddr, penalty: int, now: int)
    requires Inv(b) && Find(b, addr.service).None?
    ensures Inv(AddUnknown(b, addr, source, penalty, now))
  {
    hide Sound, Place;
    var late := addr.(time := Max(0, addr.time - penalty));
    UnknownKey(b, addr.service);
    CreateSound(b, late, source);
    PlaceSound(Create(b, late, source), b.idCount, source, now, {b.idCount});
  }

  lemma AddInv(b: Book, addr: Address, source: NetAddr, penalty: int, routable: bool, heard: int, now: int, draw: nat)
    requires Inv(b)
    ensures Inv(Add(b, addr, source, penalty, routable, heard, now, draw).0)
  {
    var fine := if addr.service.ip == source then 0 else penalty;
    match Find(b, addr.service)
    case Some(id) => AddKnownInv(b, id, addr, source, fine, heard, now, draw);
    case None => AddUnknownInv(b, addr, source, fine, now);
  }

  function ToAddress(i: AddrInfo): Address {
    Address(i.service, i.services, i.time)
  }

  /** How many addresses a getaddr reply may hold. */
  function NodesToReturn(size: nat): nat {
    var n := GETADDR_MAX_PCT * size / 100;
    if n > GETADDR_MAX then GETADDR_MAX else n
  }

  function Exchanged(s: seq<int>, i: nat, j: nat): (r: seq<int>)
    requires i < |s| && j < |s|
    ensures |r| == |s|
  {
    s[i := s[j]][j := s[i]]
  }

  /** The place drawn in round k: one of those from k on. */
  function DrawnPlace(size: nat, k: nat, d: nat): (r: nat)
    requires k < size
    ensures k <= r < size
  {
    d % (size - k) + k
  }

  /** The order of vRandom after n rounds. */
  function Shuffled(s: seq<int>, draw: nat -> nat, n: nat): (r: seq<int>)
    requires n <= |s|
    ensures |r| == |s|
  {
    if n == 0 then s else Exchanged(Shuffled(s, draw, n - 1), n - 1, DrawnPlace(|s|, n - 1, draw(n - 1)))
  }

  /** The addresses of the first n entries of vRandom that are not terrible, in order. */
  function Gather(b: Book, n: nat, clock: nat -> int): seq<Address>
    requires n <= |b.random| && RandomOk(b)
  {
    if n == 0 then []
    else
      assert PosOk(b, n - 1);
      var i := b.info[b.random[n - 1]];
      Gather(b, n - 1, clock) + if IsTerrible(i, clock(n - 1)) then [] else [ToAddress(i)]
  }

  /** The same entries, in the same places of the tables, under another order of vRandom. */
  ghost predicate Reordered(b: Book, c: Book) {
    && c == b.(info := c.info, random := c.random)
    && multiset(c.random) == multiset(b.random)
    && (forall id :: SameEntry(b, c, id))
  }

  ghost predicate SameEntry(b: Book, c: Book, id: int) {
    && (id in b.info <==> id in c.info)
    && (id in b.info ==> c.info[id] == b.info[id].(randomPos := c.info[id].randomPos))
  }

  lemma SwapEntry(b: Book, i: nat, j: nat, id: int)
    requires i < |b.random| && j < |b.random| && b.random[i] in b.info && b.random[j] in b.info
    ensures SameEntry(b, Swap(b, i, j), id)
  {
  }

  lemma SwapReorders(b: Book, i: nat, j: nat)
    requires RandomOk(b) && i < |b.random| && j < |b.random|
    ensures b.random[i] in b.info && b.random[j] in b.info
    ensures Reordered(b, Swap(b, i, j))
  {
    assert PosOk(b, i) && PosOk(b, j);
    var c := Swap(b, i, j);
    SwapMultiset(b.random, i, j);
    hide RandomOk;
    forall id ensures SameEntry(b, c, id) {
      SwapEntry(b, i, j, id);
    }
  }

  lemma SwapMultiset(s: seq<int>, i: nat, j: nat)
    requires i < |s| && j < |s|
    ensures multiset(s[i := s[j]][j := s[i]]) == multiset(s)
  {
  }

  lemma ReorderedTrans(b: Book, c: Book, d: Book)
    requires Reordered(b, c) && Reordered(c, d)
    ensures Reordered(b, d)
  {
    forall id ensures SameEntry(b, d, id) {
      assert SameEntry(b, c, id) && SameEntry(c, d, id);
    }
  }

  /** Swapping later positions does not change what was gathered before. */
  lemma {:induction false} GatherKept(b: Book, c: Book, n: nat, clock: nat -> int)
    requires RandomOk(b) && RandomOk(c) && Reordered(b, c)
    requires n <= |b.random| && n <= |c.random| && b.random[..n] == c.random[..n]
    ensures Gather(b, n, clock) == Gather(c, n, clock)
  {
    if n > 0 {
      assert b.random[..n][..n - 1] == c.random[..n][..n - 1];
      assert b.random[..n][n - 1] == c.random[..n][n - 1];
      GatherKept(b, c, n - 1, clock);
      assert PosOk(b, n - 1) && SameEntry(b, c, b.random[n - 1]);
    }
  }

  lemma ReorderedInv(b: Book, c: Book)
    requires Inv(b) && Reordered(b, c) && RandomOk(c)
    ensures Inv(c)
  {
    forall id ensures Agree(b.info, c.info, id) {
      assert SameEntry(b, c, id);
    }
    Restyle(b, c, {}, {});
  }

  // ----- What the two main operations achieve -----

  /** Everything about an entry but its position in vRandom is as before. */
  lemma DropOthers(b: Book, id: int, x: int)
    requires RandomOk(b) && id in b.info && x in b.info && x != id
    ensures x in Drop(b, id).info
    ensures Drop(b, id).info[x] == b.info[x].(randomPos := Drop(b, id).info[x].randomPos)
  {
    assert EntryPosOk(b, id) && PosOk(b, |b.random| - 1);
  }

  /** Only the sole reference to an entry can take it along. */
  lemma ClearNewLoses(b: Book, s: Slot, x: int)
    requires Linked(b) && x in b.info
    ensures NewSlotOk(b, s)
    ensures x !in ClearNew(b, s).info ==> s in b.newer && b.newer[s] == x && b.info[x].refCount == 1
    ensures x in ClearNew(b, s).info ==>
              && ClearNew(b, s).info[x].service == b.info[x].service
              && ClearNew(b, s).info[x].inTried == b.info[x].inTried
  {
    assert NewSlotOk(b, s);
    if s in b.newer {
      var c := RemoveRef(b, s);
      KeepRandom(b, c, b.newer[s]);
      assert EntryPosOk(c, b.newer[s]) && PosOk(c, |c.random| - 1);
    }
  }

  lemma EvictOther(b: Book, s: Slot, p: int, x: int)
    requires Sound(b, {p}, {p}) && s in b.tried && x in b.info && x != p
    ensures x !in Evict(b, s).info ==> !b.info[x].inTried && b.info[x].refCount == 1
    ensures x in Evict(b, s).info ==>
              && Evict(b, s).info[x].service == b.info[x].service
              && Evict(b, s).info[x].inTried == (b.info[x].inTried && x != b.tried[s])
  {
    EvictKeeps(b, s);
    var id := b.tried[s];
    var c := Untry(b, s);
    var t := SlotFor(c, id, c.info[id].source);
    assert NewSlotOk(b, t);
    ClearNewLoses(c, t, x);
  }

  /** A good address ends up in the tried table, and costs at most entries that had a single
      reference; only the tried entry in its slot has to leave the tried table. */
  lemma GoodEffect(b: Book, a: Service, t: int)
    requires Inv(b) && FindExact(b, a).Some?
    ensures var id, c := FindExact(b, a).value, Good(b, a, t);
      && id in c.info && c.info[id].inTried && c.info[id].service == a
      && c.info[id].lastSuccess == t && c.info[id].lastTry == t && c.info[id].attempts == 0
      && c.lastGood == t
  {
    var id := FindExact(b, a).value;
    LastGoodSound(b, t);
    var c := b.(lastGood := t);
    StatsSound(c, id, Proven(c.info[id], t), {}, {});
    var d := Put(c, id, Proven(c.info[id], t));
    if !d.info[id].inTried {
      MakeTriedSelf(d, id);
    }
  }

  lemma MakeTriedSelf(b: Book, id: int)
    requires Inv(b) && id in b.info && !b.info[id].inTried
    ensures id in MakeTried(b, id).info && MakeTried(b, id).lastGood == b.lastGood
    ensures MakeTried(b, id).info[id] ==
            b.info[id].(refCount := 0, inTried := true, randomPos := MakeTried(b, id).info[id].randomPos)
  {
    DetachSound(b, id);
    var c := Detach(b, id);
    var s := TriedSlot(c.hashes, c.info[id].service);
    if s in c.tried {
      EvictOthers(c, s, id);
    }
  }

  lemma GoodOthers(b: Book, a: Service, t: int, x: int)
    requires Inv(b) && x in b.info && Some(x) != FindExact(b, a)
    ensures var c := Good(b, a, t);
      && (x !in c.info ==> !b.info[x].inTried && b.info[x].refCount == 1)
      && (x in c.info ==> c.info[x].service == b.info[x].service && (c.info[x].inTried ==> b.info[x].inTried))
      && (x in c.info && b.info[x].inTried && !c.info[x].inTried ==>
            TriedSlot(b.hashes, b.info[x].service) == TriedSlot(b.hashes, a))
  {
    var r := FindExact(b, a);
    if r.Some? {
      var id := r.value;
      LastGoodSound(b, t);
      var c := b.(lastGood := t);
      StatsSound(c, id, Proven(c.info[id], t), {}, {});
      var d := Put(c, id, Proven(c.info[id], t));
      if !d.info[id].inTried {
        MakeTriedOthers(d, id, x);
      }
    }
  }

  lemma MakeTriedOthers(b: Book, id: int, x: int)
    requires Inv(b) && id in b.info && !b.info[id].inTried && x in b.info && x != id
    ensures var c := MakeTried(b, id);
      && (x !in c.info ==> !b.info[x].inTried && b.info[x].refCount == 1)
      && (x in c.info ==> c.info[x].service == b.info[x].service && (c.info[x].inTried ==> b.info[x].inTried))
      && (x in c.info && b.info[x].inTried && !c.info[x].inTried ==>
            TriedSlot(b.hashes, b.info[x].service) == TriedSlot(b.hashes, b.info[id].service))
  {
    DetachSound(b, id);
    var c := Detach(b, id);
    var s := TriedSlot(c.hashes, c.info[id].service);
    if s in c.tried {
      EvictOthers(c, s, id);
      EvictOther(c, s, id, x);
      assert TriedSlotOk(c, s);
    }
  }

  /** Whether a new address gets the slot chosen by its source. */
  predicate SlotFree(b: Book, s: Slot, now: int) {
    s !in b.newer || (b.newer[s] in b.info && (IsTerrible(b.info[b.newer[s]], now) || b.info[b.newer[s]].refCount > 1))
  }

  /** The state from which a new address is placed. */
  ghost predicate Placing(b: Book, id: int, s: Slot) {
    && Sound(b, {id}, {}) && id in b.info && !b.info[id].inTried && b.info[id].refCount == 0
    && s.0 < NEW_BUCKET_COUNT && s.1 == NewPosition(b.hashes, b.info[id].service, s.0)
    && (s in b.newer ==> b.newer[s] in b.info && b.newer[s] != id)
  }

  lemma AddUnknownSplit(b: Book, addr: Address, source: NetAddr, penalty: int, now: int) returns (n: Book)
    requires Inv(b) && Find(b, addr.service).None?
    ensures n == Create(b, addr.(time := Max(0, addr.time - penalty)), source) && b.idCount !in b.info
    ensures var s := NewSlot(b.hashes, addr.service, source);
      && Placing(n, b.idCount, s)
      && AddUnknown(b, addr, source, penalty, now) ==
         if SlotFree(b, s, now) then Enter(n, b.idCount, s) else Drop(n, b.idCount)
  {
    var late := addr.(time := Max(0, addr.time - penalty));
    var s := NewSlot(b.hashes, addr.service, source);
    n := Create(b, late, source);
    UnknownKey(b, addr.service);
    CreateSound(b, late, source);
    assert NewSlotOk(b, s) && IdOk(b, b.idCount);
  }

  lemma EnterEffect(b: Book, id: int, s: Slot)
    requires Placing(b, id, s)
    ensures var c := Enter(b, id, s);
      s in c.newer && c.newer[s] == id && id in c.info && c.info[id].service == b.info[id].service
        && c.info[id].refCount == 1
  {
    ClearNewKeeps(b, s, id);
  }

  /** A new address is entered with one reference exactly when its slot is free or may be taken;
      otherwise it is forgotten again and every other entry stays. */
  lemma AddUnknownEffect(b: Book, addr: Address, source: NetAddr, penalty: int, now: int)
    requires Inv(b) && Find(b, addr.service).None?
    ensures var c, s := AddUnknown(b, addr, source, penalty, now), NewSlot(b.hashes, addr.service, source);
      if SlotFree(b, s, now) then
        s in c.newer && c.newer[s] == b.idCount && b.idCount in c.info
        && c.info[b.idCount].service == addr.service && c.info[b.idCount].refCount == 1
      else c.info.Keys == b.info.Keys
  {
    var n := AddUnknownSplit(b, addr, source, penalty, now);
    var s := NewSlot(b.hashes, addr.service, source);
    if SlotFree(b, s, now) {
      EnterEffect(n, b.idCount, s);
    } else {
      DropRandom(n, b.idCount);
      assert n.info.Keys - {b.idCount} == b.info.Keys;
    }
  }

  /** Adding can only cost the sole reference in that slot, and only when it is terrible. */
  lemma AddUnknownOthers(b: Book, addr: Address, source: NetAddr, penalty: int, now: int, x: int)
    requires Inv(b) && Find(b, addr.service).None? && x in b.info
    ensures var c, s := AddUnknown(b, addr, source, penalty, now), NewSlot(b.hashes, addr.service, source);
      x !in c.info ==> s in b.newer && b.newer[s] == x && b.info[x].refCount == 1 && IsTerrible(b.info[x], now)
  {
    var n := AddUnknownSplit(b, addr, source, penalty, now);
    var s := NewSlot(b.hashes, addr.service, source);
    if SlotFree(b, s, now) {
      ClearNewLoses(n, s, x);
    } else {
      DropOthers(n, b.idCount, x);
    }
  }
}
