/**
 The address manager as the program holds it: two maps, a vector, two fixed tables of ids and the
 counters, changed in place.  Each method is proved to do to these what the function of the same
 name does to a Book.
 */
module AddrManTables {
  import opened Wrappers
  import opened Powers
  import M = AddrMan

  /** The occupied positions of a bucket table. */
  ghost function TableOf(a: array2<int>): M.Table
    reads a
  {
    map b: nat, p: nat | b < a.Length0 && p < a.Length1 && a[b, p] != M.NO_ID
      :: (b, p) := if b < a.Length0 && p < a.Length1 then a[b, p] else M.NO_ID
  }

  method SetSlot(a: array2<int>, b: nat, p: nat, v: int)
    requires b < a.Length0 && p < a.Length1
    modifies a
    ensures TableOf(a) == if v == M.NO_ID then old(TableOf(a)) - {(b, p)} else old(TableOf(a))[(b, p) := v]
    ensures a[b, p] == v
    ensures forall i, j :: 0 <= i < a.Length0 && 0 <= j < a.Length1 && (i, j) != (b, p) ==> a[i, j] == old(a[i, j])
  {
    a[b, p] := v;
  }

  method Wipe(a: array2<int>)
    modifies a
    ensures TableOf(a) == map[]
  {
    for b := 0 to a.Length0
      invariant forall i, j :: 0 <= i < b && 0 <= j < a.Length1 ==> a[i, j] == M.NO_ID
    {
      for p := 0 to a.Length1
        invariant forall i, j :: 0 <= i < b && 0 <= j < a.Length1 ==> a[i, j] == M.NO_ID
        invariant forall j :: 0 <= j < p ==> a[b, j] == M.NO_ID
      {
        a[b, p] := M.NO_ID;
      }
    }
  }

  class AddrManager {
    var nIdCount: int
    var mapInfo: M.Infos
    var mapAddr: map<M.Service, int>
    var vRandom: seq<int>
    var nTried: int
    const vvTried: array2<int>
    var nNew: int
    const vvNew: array2<int>
    var nLastGood: int
    var nKey: M.Hashes
    const discriminatePorts: bool

    ghost predicate Sized() {
      && vvTried.Length0 == M.TRIED_BUCKET_COUNT && vvTried.Length1 == M.BUCKET_SIZE
      && vvNew.Length0 == M.NEW_BUCKET_COUNT && vvNew.Length1 == M.BUCKET_SIZE
      && vvTried != vvNew
    }

    /** The contents, as a value. */
    ghost function Model(): M.Book
      reads this, vvTried, vvNew
    {
      M.Book(nIdCount, mapInfo, mapAddr, vRandom, nTried, TableOf(vvTried), nNew, TableOf(vvNew),
             nLastGood, nKey, discriminatePorts)
    }

    ghost predicate Valid()
      reads this, vvTried, vvNew
    {
      Sized() && M.Inv(Model())
    }

    constructor (key: M.Hashes, ports: bool)
      ensures Valid() && Model() == M.Empty(key, ports)
      ensures fresh(vvTried) && fresh(vvNew)
    {
      discriminatePorts := ports;
      vvTried := new int[M.TRIED_BUCKET_COUNT, M.BUCKET_SIZE];
      vvNew := new int[M.NEW_BUCKET_COUNT, M.BUCKET_SIZE];
      nKey := key;
      new;
      Clear(key);
    }

    /** Forget everything; `key` stands for the fresh random key. */
    method Clear(key: M.Hashes)
      requires Sized()
      modifies this, vvTried, vvNew
      ensures Valid() && Model() == M.Empty(key, discriminatePorts)
    {
      vRandom := [];
      nKey := key;
      Wipe(vvNew);
      Wipe(vvTried);
      nIdCount, nTried, nNew, nLastGood := 0, 0, 0, 1;
      mapInfo, mapAddr := map[], map[];
      hide M.Inv;
      M.EmptyInv(key, discriminatePorts);
    }

    /** The one entry for the address, or nothing when there is none. */
    method Find(a: M.Service) returns (r: Option<int>)
      ensures r == M.Find(Model(), a)
      ensures Valid() ==> forall id :: r == Some(id) <==> M.IsEntryFor(Model(), id, a)
      ensures Valid() ==> (r == None <==> forall id :: !M.IsEntryFor(Model(), id, a))
    {
      var k := if discriminatePorts then a else M.Service(a.ip, 0);
      r := if k in mapAddr && mapAddr[k] in mapInfo then Some(mapAddr[k]) else None;
      if Valid() {
        M.FindExactly(Model(), a);
      }
    }

    method Create(addr: M.Address, source: M.NetAddr) returns (nId: int)
      requires Sized()
      modifies this
      ensures nId == old(nIdCount)
      ensures Model() == M.Create(old(Model()), addr, source).(nNew := old(nNew))
    {
      var k := if discriminatePorts then addr.service else M.Service(addr.service.ip, 0);
      nId := nIdCount;
      nIdCount := nIdCount + 1;
      mapInfo := mapInfo[nId := M.NewInfo(addr, source, 0)];
      mapAddr := mapAddr[k := nId];
      mapInfo := mapInfo[nId := mapInfo[nId].(randomPos := |vRandom|)];
      vRandom := vRandom + [nId];
    }

    /** The asserts of the original are preconditions here, so no call can violate them. */
    method SwapRandom(i: nat, j: nat)
      requires i < |vRandom| && j < |vRandom| && vRandom[i] in mapInfo && vRandom[j] in mapInfo
      modifies this
      ensures Model() == M.Swap(old(Model()), i, j)
    {
      if i == j { return; }
      var nId1, nId2 := vRandom[i], vRandom[j];
      mapInfo := mapInfo[nId1 := mapInfo[nId1].(randomPos := j)];
      mapInfo := mapInfo[nId2 := mapInfo[nId2].(randomPos := i)];
      vRandom := vRandom[i := nId2][j := nId1];
    }

    method Delete(nId: int)
      requires nId in mapInfo && !mapInfo[nId].inTried && mapInfo[nId].refCount == 0
      requires M.RandomOk(Model())
      modifies this
      ensures Model() == M.Drop(old(Model()), nId)
    {
      hide M.RandomOk, M.Swap;
      var addr := if discriminatePorts then mapInfo[nId].service else M.Service(mapInfo[nId].service.ip, 0);
      M.Places(Model(), nId);
      SwapRandom(mapInfo[nId].randomPos, |vRandom| - 1);
      vRandom := vRandom[..|vRandom| - 1];
      mapAddr := mapAddr - {addr};
      mapInfo := mapInfo - {nId};
      nNew := nNew - 1;
    }

    method ClearNew(b: nat, p: nat)
      requires Sized() && b < M.NEW_BUCKET_COUNT && p < M.BUCKET_SIZE && M.RandomOk(Model())
      requires vvNew[b, p] != M.NO_ID ==>
                 vvNew[b, p] in mapInfo && mapInfo[vvNew[b, p]].refCount > 0 && !mapInfo[vvNew[b, p]].inTried
      modifies this, vvNew
      ensures Model() == M.ClearNew(old(Model()), (b, p))
    {
      hide M.RandomOk, M.Drop;
      if vvNew[b, p] != M.NO_ID {
        var nIdDelete := vvNew[b, p];
        mapInfo := mapInfo[nIdDelete := mapInfo[nIdDelete].(refCount := mapInfo[nIdDelete].refCount - 1)];
        SetSlot(vvNew, b, p, M.NO_ID);
        assert Model() == M.RemoveRef(old(Model()), (b, p));
        M.KeepRandom(old(Model()), Model(), nIdDelete);
        if mapInfo[nIdDelete].refCount == 0 {
          Delete(nIdDelete);
        }
      }
    }

    /** The first loop of MakeTried: take the entry out of all new buckets, counting down its references. */
    method RemoveFromNew(nId: int) returns (nRefCount: int)
      requires Sized() && (forall s :: M.NewSlotOk(Model(), s))
      requires nId in mapInfo && nId != M.NO_ID && mapInfo[nId].refCount == |M.Refs(TableOf(vvNew), nId)|
      modifies vvNew
      ensures nRefCount == 0 && TableOf(vvNew) == M.Without(old(TableOf(vvNew)), nId)
    {
      ghost var book := Model();
      nRefCount := mapInfo[nId].refCount;
      for bucket := 0 to M.NEW_BUCKET_COUNT
        invariant TableOf(vvNew) == Pruned(book, nId, bucket)
        invariant nRefCount == |M.Refs(TableOf(vvNew), nId)|
      {
        var pos := M.NewPosition(nKey, mapInfo[nId].service, bucket);
        if vvNew[bucket, pos] == nId {
          M.RefsRemove(TableOf(vvNew), (bucket, pos), nId);
          SetSlot(vvNew, bucket, pos, M.NO_ID);
          nRefCount := nRefCount - 1;
        }
      }
      PrunedAll(book, nId);
    }

    method MakeTried(nId: int)
      requires Valid() && nId in mapInfo && !mapInfo[nId].inTried
      modifies this, vvTried, vvNew
      ensures Sized() && Model() == M.MakeTried(old(Model()), nId)
    {
      ghost var book := Model();
      assert M.EntryRefsOk(book, nId, {}) && M.IdOk(book, nId);
      var nRefCount := RemoveFromNew(nId);
      mapInfo := mapInfo[nId := mapInfo[nId].(refCount := nRefCount)];
      nNew := nNew - 1;
      assert mapInfo[nId].refCount == 0;
      ghost var c := Model();
      assert c == M.Detach(book, nId);
      M.DetachSound(book, nId);
      var (nKBucket, nKBucketPos) := M.TriedSlot(nKey, mapInfo[nId].service);
      if vvTried[nKBucket, nKBucketPos] != M.NO_ID {
        M.EvictOthers(c, (nKBucket, nKBucketPos), nId);
        EvictTried(nKBucket, nKBucketPos, nId);
      }
      assert vvTried[nKBucket, nKBucketPos] == M.NO_ID;
      EnterTried(nId, nKBucket, nKBucketPos);
    }

    /** The last lines of MakeTried. */
    method EnterTried(nId: int, b: nat, p: nat)
      requires Sized() && nId in mapInfo && nId != M.NO_ID && (b, p) == M.TriedSlot(nKey, mapInfo[nId].service)
      modifies this, vvTried
      ensures Model() == M.MarkTried(old(Model()), nId)
    {
      SetSlot(vvTried, b, p, nId);
      nTried := nTried + 1;
      mapInfo := mapInfo[nId := mapInfo[nId].(inTried := true)];
    }

    /** The middle part of MakeTried: the occupant of the tried slot goes back to the new table. */
    method EvictTried(b: nat, p: nat, ghost promoted: int)
      requires Sized() && M.Sound(Model(), {promoted}, {promoted})
      requires b < M.TRIED_BUCKET_COUNT && p < M.BUCKET_SIZE && vvTried[b, p] != M.NO_ID
      modifies this, vvTried, vvNew
      ensures Model() == M.Evict(old(Model()), (b, p))
    {
      hide M.Sound, M.Enter, M.Untry;
      ghost var c := Untried(Model(), (b, p), promoted);
      var nIdEvict := LeaveTried(b, p);
      assert Model() == c;
      var (nUBucket, nUBucketPos) := M.NewSlot(nKey, mapInfo[nIdEvict].service, mapInfo[nIdEvict].source);
      EnterNew(nIdEvict, nUBucket, nUBucketPos, {promoted} + {nIdEvict}, {promoted} + {nIdEvict});
      nNew := nNew + 1;
    }

    method LeaveTried(b: nat, p: nat) returns (nIdEvict: int)
      requires Sized() && b < M.TRIED_BUCKET_COUNT && p < M.BUCKET_SIZE
      requires vvTried[b, p] != M.NO_ID && vvTried[b, p] in mapInfo
      modifies this, vvTried
      ensures nIdEvict == old(vvTried[b, p])
      ensures Model() == M.Untry(old(Model()), (b, p))
    {
      nIdEvict := vvTried[b, p];
      mapInfo := mapInfo[nIdEvict := mapInfo[nIdEvict].(inTried := false)];
      SetSlot(vvTried, b, p, M.NO_ID);
      nTried := nTried - 1;
    }

    /** Clear a position and refer to another entry from it. */
    method EnterNew(nId: int, b: nat, p: nat, ghost loose: set<int>, ghost uncounted: set<int>)
      requires Sized() && M.Sound(Model(), loose, uncounted) && nId in mapInfo
      requires b < M.NEW_BUCKET_COUNT && p < M.BUCKET_SIZE && vvNew[b, p] != nId
      modifies this, vvNew
      ensures Model() == M.Enter(old(Model()), nId, (b, p))
    {
      ghost var book := Model();
      ghost var c := ClearedFor(book, nId, (b, p), loose, uncounted);
      ClearNew(b, p);
      assert Model() == c;
      assert vvNew[b, p] == M.NO_ID;
      AddReference(nId, b, p);
    }

    method AddReference(nId: int, b: nat, p: nat)
      requires Sized() && nId in mapInfo && nId != M.NO_ID && b < M.NEW_BUCKET_COUNT && p < M.BUCKET_SIZE
      modifies this, vvNew
      ensures Model() == M.AddRef(old(Model()), nId, (b, p))
    {
      mapInfo := mapInfo[nId := mapInfo[nId].(refCount := mapInfo[nId].refCount + 1)];
      SetSlot(vvNew, b, p, nId);
    }

    /** The search loop of Good_: some bucket is always found, so its "no bucket" exit is unreachable. */
    method FindBucket(nId: int, nRnd: nat) returns (nUBucket: int)
      requires Valid() && nId in mapInfo && !mapInfo[nId].inTried
      ensures 0 <= nUBucket < M.NEW_BUCKET_COUNT
      ensures vvNew[nUBucket, M.NewPosition(nKey, mapInfo[nId].service, nUBucket)] == nId
    {
      ghost var k := ReferringBucket(Model(), nId);
      ghost var last := Rotation(k, nRnd);
      nUBucket := -1;
      var n := 0;
      while n < M.NEW_BUCKET_COUNT && nUBucket == -1
        invariant n <= last
        invariant nUBucket != -1 ==>
          && 0 <= nUBucket < M.NEW_BUCKET_COUNT
          && vvNew[nUBucket, M.NewPosition(nKey, mapInfo[nId].service, nUBucket)] == nId
        decreases M.NEW_BUCKET_COUNT - n, nUBucket == -1
      {
        var nB := (n + nRnd) % M.NEW_BUCKET_COUNT;
        var nBpos := M.NewPosition(nKey, mapInfo[nId].service, nB);
        if vvNew[nB, nBpos] == nId {
          nUBucket := nB;
        } else {
          n := n + 1;
        }
      }
    }

    method FindExact(addr: M.Service) returns (r: Option<int>)
      ensures r == M.FindExact(Model(), addr)
    {
      r := Find(addr);
      if r.Some? && mapInfo[r.value].service != addr {
        r := None;
      }
    }

    /** Overwrite the statistics of an entry. */
    method SetStats(nId: int, info: M.AddrInfo)
      requires Valid() && nId in mapInfo
      requires info.service == mapInfo[nId].service && info.inTried == mapInfo[nId].inTried
      requires info.refCount == mapInfo[nId].refCount && info.randomPos == mapInfo[nId].randomPos
      modifies this`mapInfo
      ensures Valid() && Model() == M.Put(old(Model()), nId, info)
    {
      M.StatsSound(Model(), nId, info, {}, {});
      ghost var next := M.Put(Model(), nId, info);
      mapInfo := mapInfo[nId := info];
      assert Model() == next;
    }

    method SetLastGood(nTime: int)
      requires Valid()
      modifies this`nLastGood
      ensures Valid() && Model() == old(Model()).(lastGood := nTime)
    {
      M.LastGoodSound(Model(), nTime);
      ghost var next := Model().(lastGood := nTime);
      nLastGood := nTime;
      assert Model() == next;
    }

    method Good(addr: M.Service, nTime: int, nRnd: nat)
      requires Valid()
      modifies this, vvTried, vvNew
      ensures Valid() && Model() == M.Good(old(Model()), addr, nTime)
    {
      M.GoodInv(Model(), addr, nTime);
      SetLastGood(nTime);
      var r := FindExact(addr);
      if r.None? { return; }
      var nId := r.value;
      SetStats(nId, mapInfo[nId].(lastSuccess := nTime, lastTry := nTime, attempts := 0));
      if mapInfo[nId].inTried { return; }
      var nUBucket := FindBucket(nId, nRnd);
      MakeTried(nId);
    }

    method Attempt(addr: M.Service, fCountFailure: bool, nTime: int)
      requires Valid()
      modifies this
      ensures Valid() && Model() == M.Attempt(old(Model()), addr, fCountFailure, nTime)
    {
      var r := FindExact(addr);
      if r.None? { return; }
      var info := mapInfo[r.value].(lastTry := nTime);
      if fCountFailure && info.lastCountAttempt < nLastGood {
        info := info.(lastCountAttempt := nTime, attempts := info.attempts + 1);
      }
      SetStats(r.value, info);
    }

    method Connected(addr: M.Service, nTime: int)
      requires Valid()
      modifies this
      ensures Valid() && Model() == M.Connected(old(Model()), addr, nTime)
    {
      var r := FindExact(addr);
      if r.None? { return; }
      if nTime - mapInfo[r.value].time > 20 * 60 {
        SetStats(r.value, mapInfo[r.value].(time := nTime));
      }
    }

    method SetServices(addr: M.Service, nServices: set<nat>)
      requires Valid()
      modifies this
      ensures Valid() && Model() == M.SetServices(old(Model()), addr, nServices)
    {
      var r := FindExact(addr);
      if r.None? { return; }
      SetStats(r.value, mapInfo[r.value].(services := nServices));
    }

    /** The updates of Add_ to an entry that exists. */
    method Refresh(nId: int, addr: M.Address, nTimePenalty: int, now: int)
      requires Valid() && nId in mapInfo
      modifies this`mapInfo
      ensures Valid() && Model() == M.Put(old(Model()), nId, M.Refreshed(old(mapInfo)[nId], addr, nTimePenalty, now))
    {
      var time := FresherTime(mapInfo[nId].time, addr.time, nTimePenalty, now);
      SetStats(nId, mapInfo[nId].(time := time, services := mapInfo[nId].services + addr.services));
    }

    method FresherTime(known: int, heard: int, nTimePenalty: int, now: int) returns (time: int)
      ensures time == M.FresherTime(known, heard, nTimePenalty, now)
    {
      var fCurrentlyOnline := now - heard < 24 * 60 * 60;
      var nUpdateInterval := if fCurrentlyOnline then 60 * 60 else 24 * 60 * 60;
      time := known;
      if heard != 0 && (known == 0 || known < heard - nUpdateInterval - nTimePenalty) {
        time := M.Max(0, heard - nTimePenalty);
      }
    }

    /** The tests of Add_ on an entry that exists. */
    method Wants(info: M.AddrInfo, addr: M.Address, draw: nat) returns (goOn: bool)
      requires info.refCount >= 0
      ensures goOn == M.WantsMore(info, addr, draw)
    {
      if addr.time == 0 || (info.time != 0 && addr.time <= info.time) { return false; }
      if info.inTried { return false; }
      if info.refCount == M.NEW_BUCKETS_PER_ADDRESS { return false; }
      var nFactor := 1;
      for n := 0 to info.refCount
        invariant nFactor == Pow2(n)
      {
        nFactor := nFactor * 2;
      }
      assert info.refCount > 0 ==> nFactor == 2 * Pow2(info.refCount - 1);
      goOn := !(nFactor > 1 && draw % nFactor != 0);
    }

    /** The end of Add_: find a place for the entry, or drop it if it has none. */
    method PlaceEntry(nId: int, source: M.NetAddr, now: int, ghost loose: set<int>)
      requires Sized() && M.Sound(Model(), loose, {}) && (loose == {} || loose == {nId})
      requires nId in mapInfo && !mapInfo[nId].inTried && mapInfo[nId].refCount < M.NEW_BUCKETS_PER_ADDRESS
      modifies this, vvNew
      ensures Valid() && Model() == M.Place(old(Model()), nId, source, now)
    {
      ghost var book := Model();
      M.PlaceSound(book, nId, source, now, loose);
      assert M.IdOk(book, nId);
      var (b, p) := M.NewSlot(nKey, mapInfo[nId].service, source);
      if vvNew[b, p] == nId { return; }
      assert M.NewSlotOk(book, (b, p));
      var fInsert := vvNew[b, p] == M.NO_ID;
      if !fInsert {
        var infoExisting := mapInfo[vvNew[b, p]];
        fInsert := M.IsTerrible(infoExisting, now) || (infoExisting.refCount > 1 && mapInfo[nId].refCount == 0);
      }
      if fInsert {
        EnterNew(nId, b, p, loose, {});
      } else if mapInfo[nId].refCount == 0 {
        Delete(nId);
      }
    }

    method CreatePenalised(addr: M.Address, source: M.NetAddr, penalty: int) returns (nId: int)
      requires Sized()
      modifies this
      ensures nId == old(nIdCount)
      ensures Model() == M.Create(old(Model()), addr.(time := M.Max(0, addr.time - penalty)), source)
    {
      nId := Create(addr, source);
      mapInfo := mapInfo[nId := mapInfo[nId].(time := M.Max(0, mapInfo[nId].time - penalty))];
      nNew := nNew + 1;
      assert mapInfo == old(mapInfo)[nId := mapInfo[nId]];
    }

    method Add(addr: M.Address, source: M.NetAddr, nTimePenalty: int, routable: bool, heard: int, now: int, draw: nat)
      returns (fNew: bool)
      requires Valid()
      modifies this, vvNew
      ensures Valid() && (Model(), fNew) == M.Add(old(Model()), addr, source, nTimePenalty, routable, heard, now, draw)
    {
      if !routable { return false; }
      var penalty := if addr.service.ip == source then 0 else nTimePenalty;
      var r := Find(addr.service);
      if r.Some? {
        fNew := false;
        AddKnown(r.value, addr, source, penalty, heard, now, draw);
      } else {
        fNew := true;
        AddUnknown(addr, source, penalty, now);
      }
    }

    method AddKnown(nId: int, addr: M.Address, source: M.NetAddr, penalty: int, heard: int, now: int, draw: nat)
      requires Valid() && nId in mapInfo
      modifies this, vvNew
      ensures Valid() && Model() == M.AddKnown(old(Model()), nId, addr, source, penalty, heard, now, draw)
    {
      assert M.EntryRefsOk(Model(), nId, {});
      Refresh(nId, addr, penalty, heard);
      var goOn := Wants(mapInfo[nId], addr, draw);
      if goOn {
        PlaceEntry(nId, source, now, {});
      }
    }

    method AddUnknown(addr: M.Address, source: M.NetAddr, penalty: int, now: int)
      requires Valid() && M.Find(Model(), addr.service).None?
      modifies this, vvNew
      ensures Valid() && Model() == M.AddUnknown(old(Model()), addr, source, penalty, now)
    {
      ghost var book := Model();
      ghost var c := NewEntry(book, addr, source, penalty, now);
      var nId := CreatePenalised(addr, source, penalty);
      assert Model() == c;
      PlaceEntry(nId, source, now, {nId});
    }

    /** A random selection for a getaddr reply: the entries that are not terrible among the first n of
        a reshuffled vRandom, at most nNodes of them. */
    method GetAddr(clock: nat -> int, draw: nat -> nat) returns (vAddr: seq<M.Address>, ghost n: nat)
      requires Valid()
      modifies this
      ensures Valid() && M.Reordered(old(Model()), Model())
      ensures n <= |vRandom| == |old(vRandom)| && vRandom == M.Shuffled(old(vRandom), draw, n)
      ensures vAddr == M.Gather(Model(), n, clock)
      ensures var nNodes := M.NodesToReturn(|vRandom|);
              |vAddr| <= nNodes && (n == |vRandom| || |vAddr| == nNodes)
    {
      hide M.Inv, M.RandomOk, M.Reordered, M.Shuffled, M.Gather, M.NodesToReturn;
      ghost var book := Model();
      var nNodes := ReplyLimit();
      vAddr := [];
      var k := 0;
      Unshuffled(book, draw, clock);
      while k < |vRandom| && |vAddr| < nNodes
        invariant k <= |vRandom| == |book.random|
        invariant M.RandomOk(Model()) && M.Reordered(book, Model())
        invariant vRandom == M.Shuffled(book.random, draw, k)
        invariant vAddr == M.Gather(Model(), k, clock) && |vAddr| <= nNodes
        decreases |vRandom| - k
      {
        vAddr := GatherOne(vAddr, k, draw, clock, book);
        k := k + 1;
      }
      n := k;
      M.ReorderedInv(book, Model());
    }

    method ReplyLimit() returns (nNodes: nat)
      ensures nNodes == M.NodesToReturn(|vRandom|)
    {
      nNodes := M.GETADDR_MAX_PCT * |vRandom| / 100;
      if nNodes > M.GETADDR_MAX {
        nNodes := M.GETADDR_MAX;
      }
    }

    /** One round of GetAddr_. */
    method GatherOne(vIn: seq<M.Address>, k: nat, draw: nat -> nat, clock: nat -> int, ghost book: M.Book)
      returns (vAddr: seq<M.Address>)
      requires k < |vRandom| == |book.random| && M.RandomOk(Model()) && M.Reordered(book, Model())
      requires vRandom == M.Shuffled(book.random, draw, k) && vIn == M.Gather(Model(), k, clock)
      modifies this
      ensures |vRandom| == |book.random| && M.RandomOk(Model()) && M.Reordered(book, Model())
      ensures vRandom == M.Shuffled(book.random, draw, k + 1) && vAddr == M.Gather(Model(), k + 1, clock)
      ensures |vAddr| <= |vIn| + 1
    {
      vAddr := vIn;
      hide M.Reordered;
      Shuffle(k, draw(k) % (|vRandom| - k) + k, clock, book);
      assert M.PosOk(Model(), k);
      var ai := mapInfo[vRandom[k]];
      if !M.IsTerrible(ai, clock(k)) {
        vAddr := vAddr + [M.ToAddress(ai)];
      }
    }

    /** One swap of GetAddr_ keeps what was gathered so far. */
    method Shuffle(k: nat, nRndPos: nat, clock: nat -> int, ghost book: M.Book)
      requires M.RandomOk(Model()) && M.Reordered(book, Model()) && k <= nRndPos < |vRandom|
      modifies this
      ensures M.RandomOk(Model()) && M.Reordered(book, Model()) && |vRandom| == old(|vRandom|)
      ensures vRandom == M.Exchanged(old(vRandom), k, nRndPos)
      ensures M.Gather(Model(), k, clock) == M.Gather(old(Model()), k, clock)
    {
      ghost var c := Model();
      M.SwapRandom(c, k, nRndPos);
      M.SwapReorders(c, k, nRndPos);
      SwapRandom(k, nRndPos);
      M.ReorderedTrans(book, c, Model());
      M.GatherKept(c, Model(), k, clock);
    }
  }

  lemma Unshuffled(b: M.Book, draw: nat -> nat, clock: nat -> int)
    requires M.Inv(b)
    ensures M.RandomOk(b) && M.Reordered(b, b)
    ensures M.Shuffled(b.random, draw, 0) == b.random && M.Gather(b, 0, clock) == []
  {
  }

  // ----- The loop of RemoveFromNew -----

  ghost function WithoutAt(t: M.Table, id: int, s: M.Slot): M.Table {
    if s in t && t[s] == id then t - {s} else t
  }

  /** The new table after the first k buckets were searched for `id`. */
  ghost function Pruned(b: M.Book, id: int, k: nat): M.Table
    requires id in b.info
  {
    if k == 0 then b.newer
    else WithoutAt(Pruned(b, id, k - 1), id, (k - 1, M.NewPosition(b.hashes, b.info[id].service, k - 1)))
  }

  lemma {:induction false} PrunedAt(b: M.Book, id: int, k: nat, s: M.Slot)
    requires id in b.info && M.NewSlotOk(b, s)
    ensures s in Pruned(b, id, k) <==> s in b.newer && !(b.newer[s] == id && s.0 < k)
    ensures s in Pruned(b, id, k) ==> Pruned(b, id, k)[s] == b.newer[s]
  {
    if k > 0 {
      PrunedAt(b, id, k - 1, s);
    }
  }

  /** Searching only the entry's own positions finds all of its references. */
  lemma PrunedAll(b: M.Book, id: int)
    requires (forall s :: M.NewSlotOk(b, s)) && id in b.info
    ensures Pruned(b, id, M.NEW_BUCKET_COUNT) == M.Without(b.newer, id)
    ensures |M.Refs(M.Without(b.newer, id), id)| == 0
  {
    var p, w := Pruned(b, id, M.NEW_BUCKET_COUNT), M.Without(b.newer, id);
    forall s ensures (s in p <==> s in w) && (s in p ==> p[s] == w[s]) {
      assert M.NewSlotOk(b, s);
      PrunedAt(b, id, M.NEW_BUCKET_COUNT, s);
    }
    assert M.Refs(w, id) == {};
  }

  /** A referenced entry is there, untried, and counted, so ClearNew may be called. */
  lemma ClearedFor(b: M.Book, id: int, s: M.Slot, loose: set<int>, uncounted: set<int>) returns (c: M.Book)
    requires M.Sound(b, loose, uncounted) && id in b.info && (s in b.newer ==> b.newer[s] != id)
    ensures s in b.newer ==> b.newer[s] in b.info && b.info[b.newer[s]].refCount > 0 && !b.info[b.newer[s]].inTried
    ensures c == M.ClearNew(b, s) && s !in c.newer && id in c.info && id >= 0
    ensures M.Enter(b, id, s) == M.AddRef(c, id, s)
  {
    assert M.NewSlotOk(b, s) && M.IdOk(b, id);
    if s in b.newer {
      assert M.EntryRefsOk(b, b.newer[s], loose);
      assert s in M.Refs(b.newer, b.newer[s]);
    }
    c := M.ClearNew(b, s);
    M.ClearNewKeeps(b, s, id);
    M.ClearNewSound(b, s, loose, uncounted);
  }

  /** Counting up from any start meets every bucket. */
  lemma Rotation(k: nat, start: nat) returns (m: nat)
    requires k < M.NEW_BUCKET_COUNT
    ensures m < M.NEW_BUCKET_COUNT && (m + start) % M.NEW_BUCKET_COUNT == k
  {
    m := (k - start) % M.NEW_BUCKET_COUNT;
  }

  lemma ReferringBucket(b: M.Book, id: int) returns (k: nat)
    requires M.Inv(b) && id in b.info && !b.info[id].inTried
    ensures k < M.NEW_BUCKET_COUNT
    ensures var s := (k, M.NewPosition(b.hashes, b.info[id].service, k)); s in b.newer && b.newer[s] == id
  {
    assert M.EntryRefsOk(b, id, {});
    var s :| s in M.Refs(b.newer, id);
    assert M.NewSlotOk(b, s);
    k := s.0;
  }

  lemma NewEntry(b: M.Book, addr: M.Address, source: M.NetAddr, penalty: int, now: int) returns (c: M.Book)
    requires M.Inv(b) && M.Find(b, addr.service).None?
    ensures c == M.Create(b, addr.(time := M.Max(0, addr.time - penalty)), source)
    ensures M.Sound(c, {b.idCount}, {}) && b.idCount in c.info
    ensures !c.info[b.idCount].inTried && c.info[b.idCount].refCount == 0
    ensures M.AddUnknown(b, addr, source, penalty, now) == M.Place(c, b.idCount, source, now)
  {
    c := M.Create(b, addr.(time := M.Max(0, addr.time - penalty)), source);
    M.UnknownKey(b, addr.service);
    M.CreateSound(b, addr.(time := M.Max(0, addr.time - penalty)), source);
  }

  /** The state between taking an entry out of the tried table and entering it in the new one. */
  lemma Untried(b: M.Book, s: M.Slot, promoted: int) returns (c: M.Book)
    requires M.Sound(b, {promoted}, {promoted}) && s in b.tried
    ensures b.tried[s] in b.info && c == M.Untry(b, s)
    ensures var id := b.tried[s];
      && id in c.info && M.Sound(c, {promoted} + {id}, {promoted} + {id})
      && var t := M.SlotFor(c, id, c.info[id].source);
         && (t in c.newer ==> c.newer[t] != id)
         && var d := M.Enter(c, id, t); M.Evict(b, s) == d.(nNew := d.nNew + 1)
  {
    M.EvictKeeps(b, s);
    c := M.Untry(b, s);
    M.UntrySound(b, s, {promoted}, {promoted});
  }

  // ----- Whole runs -----

  /** The public operations, each with the clock readings and random draws it meets. */
  datatype Op =
    | OpAdd(addr: M.Address, source: M.NetAddr, penalty: int, routable: bool, heard: int, now: int, draw: nat)
    | OpGood(service: M.Service, time: int, rnd: nat)
    | OpAttempt(service: M.Service, countFailure: bool, time: int)
    | OpConnected(service: M.Service, time: int)
    | OpSetServices(service: M.Service, services: set<nat>)
    | OpGetAddr(clock: nat -> int, draws: nat -> nat)

  method Perform(m: AddrManager, op: Op)
    requires m.Valid()
    modifies m, m.vvTried, m.vvNew
    ensures m.Valid()
  {
    match op
    case OpAdd(addr, source, penalty, routable, heard, now, draw) =>
      var _ := m.Add(addr, source, penalty, routable, heard, now, draw);
    case OpGood(service, time, rnd) => m.Good(service, time, rnd);
    case OpAttempt(service, countFailure, time) => m.Attempt(service, countFailure, time);
    case OpConnected(service, time) => m.Connected(service, time);
    case OpSetServices(service, services) => m.SetServices(service, services);
    case OpGetAddr(clock, draws) =>
      var _, _ := m.GetAddr(clock, draws);
  }

  /** From an empty manager, any run of operations keeps the five structures and the two counters in
      agreement; since every assert of the original is a precondition or an assertion above, none fires. */
  method Run(key: M.Hashes, discriminatePorts: bool, ops: seq<Op>) returns (m: AddrManager)
    ensures m.Valid()
  {
    m := new AddrManager(key, discriminatePorts);
    for i := 0 to |ops|
      invariant m.Valid() && fresh(m) && fresh(m.vvTried) && fresh(m.vvNew)
    {
      Perform(m, ops[i]);
    }
  }
}
