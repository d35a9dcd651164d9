/**
 What each operation of the address manager does to every entry and both tables, in closed form
 (src/addrman.h, src/addrman.cpp).
 */
module AddrManEffects {
  import opened Wrappers
  import opened Powers
  import opened AddrMan

  // ----- Judging and choosing -----

  /** An entry is terrible unless it was tried in the last minute, if its time is more than ten minutes ahead,
      missing or more than 30 days old, or if it failed three times without any success, or ten times without
      one in a week. */
  lemma TerribleExactly(i: AddrInfo, now: int)
    ensures IsTerrible(i, now) <==>
      && (i.lastTry == 0 || now - i.lastTry > 60)
      && (|| i.time - now > 600 || i.time == 0 || now - i.time > 2592000
          || (i.attempts >= 3 && i.lastSuccess == 0)
          || (i.attempts >= 10 && now - i.lastSuccess > 604800))
  {
  }

  /** The bucket is chosen by the address and, for the new table, its source; the position by the address, the
      table and the bucket. */
  lemma SlotFormulas(h: Hashes, a: Service, source: NetAddr)
    ensures var bucket := h.triedHash(a) % 256; TriedSlot(h, a) == (bucket, h.positionHash(a, false, bucket) % 64)
    ensures var bucket := h.newHash(a, source) % 1024;
      NewSlot(h, a, source) == (bucket, h.positionHash(a, true, bucket) % 64)
  {
  }

  /** Operations on a known address act on the entry with exactly that address and port, if there is one. */
  lemma FindExactOnly(b: Book, a: Service, id: int)
    requires NamesOk(b)
    ensures FindExact(b, a) == Some(id) <==> id in b.info && b.info[id].service == a
  {
    FindExactly(b, a);
    assert EntryKeyOk(b, id);
  }

  // ----- Statistics -----

  /** Every entry but the one for exactly this address stays, and so do the tables and the order. */
  ghost predicate OnlyEntry(b: Book, c: Book, a: Service) {
    && c == b.(info := c.info) && c.info.Keys == b.info.Keys
    && forall x :: x in b.info && b.info[x].service != a ==> c.info[x] == b.info[x]
  }

  /** An attempt is recorded; it counts as a failure if asked for and none was counted since the last success
      of any address. */
  lemma AttemptEffect(b: Book, a: Service, countFailure: bool, t: int)
    requires NamesOk(b)
    ensures var c := Attempt(b, a, countFailure, t);
      && OnlyEntry(b, c, a)
      && forall x :: x in b.info && b.info[x].service == a ==>
           var i := b.info[x];
           c.info[x] == if countFailure && b.lastGood > i.lastCountAttempt
                        then i.(lastTry := t, lastCountAttempt := t, attempts := i.attempts + 1)
                        else i.(lastTry := t)
  {
    forall x | x in b.info && b.info[x].service == a ensures FindExact(b, a) == Some(x) {
      FindExactOnly(b, a, x);
    }
    ExactInBook(b, a);
  }

  lemma ExactInBook(b: Book, a: Service)
    requires NamesOk(b)
    ensures FindExact(b, a).Some? ==> FindExact(b, a).value in b.info && b.info[FindExact(b, a).value].service == a
  {
    if FindExact(b, a).Some? {
      FindExactOnly(b, a, FindExact(b, a).value);
    }
  }

  /** A connection refreshes the time of an entry that is more than 20 minutes old. */
  lemma ConnectedEffect(b: Book, a: Service, t: int)
    requires NamesOk(b)
    ensures var c := Connected(b, a, t);
      && OnlyEntry(b, c, a)
      && forall x :: x in b.info && b.info[x].service == a ==>
           c.info[x] == b.info[x].(time := if t > b.info[x].time + 1200 then t else b.info[x].time)
  {
    forall x | x in b.info && b.info[x].service == a ensures FindExact(b, a) == Some(x) {
      FindExactOnly(b, a, x);
    }
    ExactInBook(b, a);
  }

  lemma SetServicesEffect(b: Book, a: Service, services: set<nat>)
    requires NamesOk(b)
    ensures var c := SetServices(b, a, services);
      && OnlyEntry(b, c, a)
      && forall x :: x in b.info && b.info[x].service == a ==> c.info[x] == b.info[x].(services := services)
  {
    forall x | x in b.info && b.info[x].service == a ensures FindExact(b, a) == Some(x) {
      FindExactOnly(b, a, x);
    }
    ExactInBook(b, a);
  }

  // ----- References -----

  ghost predicate Refers(b: Book, s: Slot, x: int) {
    s in b.newer && b.newer[s] == x
  }

  /** x is in c as it was in b, less the reference in s; it is gone exactly if that was its only one. */
  ghost predicate Remains(b: Book, c: Book, s: Slot, x: int) {
    && (x in c.info <==> x in b.info && !(Refers(b, s, x) && b.info[x].refCount == 1))
    && (x in c.info ==>
          c.info[x] == b.info[x].(refCount := b.info[x].refCount - (if Refers(b, s, x) then 1 else 0),
                                  randomPos := c.info[x].randomPos))
  }

  lemma ClearNewExactly(b: Book, s: Slot, x: int)
    requires Linked(b) && NewSlotOk(b, s)
    ensures var c := ClearNew(b, s);
      Remains(b, c, s, x) && c.newer == b.newer - {s} && c.tried == b.tried
  {
    assert NewSlotOk(b, s);
    if s in b.newer {
      var id, c := b.newer[s], RemoveRef(b, s);
      KeepRandom(b, c, id);
      if c.info[id].refCount == 0 {
        DropRandom(c, id);
        if x in c.info && x != id {
          DropOthers(c, id, x);
        }
      }
    } else {
      assert b.newer - {s} == b.newer;
    }
  }

  /** Entering a reference into s takes it from whoever had it. */
  lemma EnterExactly(b: Book, id: int, s: Slot, x: int)
    requires Linked(b) && id in b.info && NewSlotOk(b, s) && !Refers(b, s, id)
    ensures var c := Enter(b, id, s);
      && c.newer == b.newer[s := id] && c.tried == b.tried && c.hashes == b.hashes
      && id in c.info
      && c.info[id] == b.info[id].(refCount := b.info[id].refCount + 1, randomPos := c.info[id].randomPos)
      && (x != id ==> Remains(b, c, s, x))
  {
    ClearNewKeeps(b, s, id);
    ClearNewExactly(b, s, x);
    ClearNewFields(b, s);
    hide ClearNew, Linked;
    assert (b.newer - {s})[s := id] == b.newer[s := id];
  }

  // ----- Add_ for an address that has an entry -----

  /** The time kept after hearing of an address again: the one heard, less the penalty, if it is newer by more
      than an hour, or a day when it is not recent; a missing one is not considered. */
  ghost function NewTime(known: int, addr: Address, penalty: int, heard: int): int {
    if addr.time == 0 then known
    else if known != 0 && known + penalty + (if heard < addr.time + 86400 then 3600 else 86400) >= addr.time then known
    else if addr.time <= penalty then 0
    else addr.time - penalty
  }

  /** Whether one more reference is entered into s: there is news, the entry is untried and has fewer than
      eight, the draw hits one in 2^references, and s is empty or held by another entry that is terrible. */
  ghost predicate GetsReference(b: Book, id: int, time: int, addr: Address, s: Slot, now: int, draw: nat)
    requires id in b.info && b.info[id].refCount >= 0 && NewSlotOk(b, s)
  {
    && addr.time != 0 && (time == 0 || time < addr.time)
    && !b.info[id].inTried && b.info[id].refCount < 8 && draw % Pow2(b.info[id].refCount) == 0
    && !Refers(b, s, id) && (s in b.newer ==> IsTerrible(b.info[b.newer[s]], now))
  }

  lemma RefreshedIs(i: AddrInfo, addr: Address, penalty: int, heard: int)
    ensures Refreshed(i, addr, penalty, heard)
         == i.(time := NewTime(i.time, addr, penalty, heard), services := i.services + addr.services)
  {
  }

  /** The entry is refreshed; one more reference is entered or the tables stay; and only the terrible entry
      in that slot can lose one. */
  lemma AddKnownEffect(b: Book, id: int, addr: Address, source: NetAddr, penalty: int, heard: int, now: int,
                       draw: nat, x: int)
    requires Inv(b) && id in b.info
    ensures b.info[id].refCount >= 0
    ensures var i, s := b.info[id], NewSlot(b.hashes, b.info[id].service, source);
      var time := NewTime(i.time, addr, penalty, heard);
      NewSlotOk(b, s) &&
      var c, more := AddKnown(b, id, addr, source, penalty, heard, now, draw),
                     GetsReference(b, id, time, addr, s, now, draw);
      && c.newer == (if more then b.newer[s := id] else b.newer) && c.tried == b.tried
      && id in c.info
      && c.info[id] == i.(time := time, services := i.services + addr.services,
                          refCount := i.refCount + (if more then 1 else 0), randomPos := c.info[id].randomPos)
      && (x != id && more ==> Remains(b, c, s, x))
      && (x != id && !more ==> (x in c.info <==> x in b.info) && (x in b.info ==> c.info[x] == b.info[x]))
  {
    hide *;
    var i, s := Refreshed(b.info[id], addr, penalty, heard), NewSlot(b.hashes, b.info[id].service, source);
    RefreshedIs(b.info[id], addr, penalty, heard);
    PutIs(b, id, i, s, x);
    var d := Put(b, id, i);
    PlaceCases(b, d, id, addr, source, now, draw);
    AddKnownIs(b, id, addr, source, penalty, heard, now, draw);
    if GetsReference(b, id, i.time, addr, s, now, draw) {
      GetsMeans(b, d, id, i.time, addr, s, now, draw);
      EnterExactly(d, id, s, x);
      RemainsFrom(b, d, Enter(d, id, s), s, x, id);
    }
  }

  lemma AddKnownIs(b: Book, id: int, addr: Address, source: NetAddr, penalty: int, heard: int, now: int, draw: nat)
    requires Inv(b) && id in b.info
    ensures var i := Refreshed(b.info[id], addr, penalty, heard);
      && Linked(Put(b, id, i)) && id in Put(b, id, i).info
      && AddKnown(b, id, addr, source, penalty, heard, now, draw)
         == if WantsMore(i, addr, draw) then Place(Put(b, id, i), id, source, now) else Put(b, id, i)
  {
    var i := Refreshed(b.info[id], addr, penalty, heard);
    StatsSound(b, id, i, {}, {});
    SoundIsLinked(Put(b, id, i), {}, {});
  }

  lemma PutIs(b: Book, id: int, i: AddrInfo, s: Slot, x: int)
    requires Inv(b) && id in b.info
    requires i == b.info[id].(time := i.time, services := i.services)
    ensures var d := Put(b, id, i);
      && Inv(d) && id in d.info && d.info[id] == i && d == Put(b, id, d.info[id])
      && d.newer == b.newer && d.tried == b.tried && d.hashes == b.hashes
      && (x != id ==> (x in d.info <==> x in b.info) && (x in b.info ==> d.info[x] == b.info[x]))
      && NewSlotOk(d, s) && NewSlotOk(b, s)
  {
    StatsSound(b, id, i, {}, {});
    assert NewSlotOk(b, s) && NewSlotOk(Put(b, id, i), s);
  }

  lemma GetsMeans(b: Book, d: Book, id: int, time: int, addr: Address, s: Slot, now: int, draw: nat)
    requires id in b.info && b.info[id].refCount >= 0 && NewSlotOk(b, s) && d.newer == b.newer
    requires GetsReference(b, id, time, addr, s, now, draw)
    ensures !Refers(d, s, id) && (s in d.newer ==> d.newer[s] != id)
  {
  }

  lemma PlaceCases(b: Book, d: Book, id: int, addr: Address, source: NetAddr, now: int, draw: nat)
    requires Inv(b) && Inv(d) && id in b.info && id in d.info && d == Put(b, id, d.info[id])
    requires d.info[id] == b.info[id].(time := d.info[id].time, services := d.info[id].services)
    ensures var s := NewSlot(b.hashes, b.info[id].service, source);
      && NewSlotOk(b, s) && b.info[id].refCount >= 0 && Linked(d)
      && (if WantsMore(d.info[id], addr, draw) then Place(d, id, source, now) else d)
         == if GetsReference(b, id, d.info[id].time, addr, s, now, draw) then Enter(d, id, s) else d
  {
    var s := NewSlot(b.hashes, b.info[id].service, source);
    assert EntryRefsOk(b, id, {}) && EntryRefsOk(d, id, {}) && NewSlotOk(b, s) && NewSlotOk(d, s);
    hide Enter, ClearNew;
    if b.info[id].refCount == 0 {
      assert Pow2(0) == 1;
    }
  }

  // ----- Add_ for an address that has none -----

  /** The address is entered, with its time less the penalty and one reference, if its slot is empty or held
      by an entry that is terrible or has another reference; otherwise only the id is used up. */
  lemma AddUnknownEntry(b: Book, addr: Address, source: NetAddr, penalty: int, now: int, x: int)
    requires Inv(b) && Find(b, addr.service).None?
    ensures var s, id := NewSlot(b.hashes, addr.service, source), b.idCount;
      NewSlotOk(b, s) && id !in b.info &&
      var c := AddUnknown(b, addr, source, penalty, now);
      && c.idCount == id + 1 && c.tried == b.tried && c.lastGood == b.lastGood
      && if s !in b.newer || IsTerrible(b.info[b.newer[s]], now) || b.info[b.newer[s]].refCount > 1 then
           && c.newer == b.newer[s := id] && id in c.info
           && c.info[id] == AddrInfo(addr.service, addr.services,
                                     if addr.time <= penalty then 0 else addr.time - penalty,
                                     source, 0, 0, 0, 0, 1, false, c.info[id].randomPos)
           && (x != id ==> Remains(b, c, s, x))
         else
           && c.newer == b.newer && (x in c.info <==> x in b.info)
           && (x in b.info ==> c.info[x] == b.info[x].(randomPos := c.info[x].randomPos))
  {
    hide *;
    var s, id := NewSlot(b.hashes, addr.service, source), b.idCount;
    var n := AddUnknownSplit(b, addr, source, penalty, now);
    CreateIs(b, addr.(time := Max(0, addr.time - penalty)), source, s, x);
    PlacingIs(b, n, id, s);
    SlotFreeIs(b, s, now);
    LateIs(addr.time, penalty);
    if SlotFree(b, s, now) {
      EnterFields(n, id, s);
      EnterExactly(n, id, s, x);
      RemainsFrom(b, n, Enter(n, id, s), s, x, id);
    } else {
      DropFields(n, id, x);
    }
  }

  lemma LateIs(time: int, penalty: int)
    ensures Max(0, time - penalty) == if time <= penalty then 0 else time - penalty
  {
  }

  lemma SlotFreeIs(b: Book, s: Slot, now: int)
    requires NewSlotOk(b, s)
    ensures s in b.newer ==> b.newer[s] in b.info
    ensures SlotFree(b, s, now)
      <==> s !in b.newer || IsTerrible(b.info[b.newer[s]], now) || b.info[b.newer[s]].refCount > 1
  {
  }

  lemma PlacingIs(b: Book, n: Book, id: int, s: Slot)
    requires Inv(b) && Placing(n, id, s)
    ensures NewSlotOk(b, s) && Linked(n) && NewSlotOk(n, s) && !Refers(n, s, id) && RandomOk(n)
  {
    SoundIsLinked(n, {id}, {});
    assert NewSlotOk(b, s) && NewSlotOk(n, s);
  }

  lemma CreateIs(b: Book, late: Address, source: NetAddr, s: Slot, x: int)
    ensures var n := Create(b, late, source);
      && n.idCount == b.idCount + 1 && n.tried == b.tried && n.newer == b.newer && n.lastGood == b.lastGood
      && b.idCount in n.info && n.info[b.idCount] == NewInfo(late, source, |b.random|)
      && n.info[b.idCount] == AddrInfo(late.service, late.services, late.time, source, 0, 0, 0, 0, 0, false, |b.random|)
      && (x != b.idCount ==> (x in n.info <==> x in b.info) && (x in b.info ==> n.info[x] == b.info[x]))
  {
  }

  lemma RemainsFrom(b: Book, n: Book, c: Book, s: Slot, x: int, id: int)
    requires n.newer == b.newer
    requires x != id ==> (x in n.info <==> x in b.info) && (x in b.info ==> n.info[x] == b.info[x])
    requires x != id ==> Remains(n, c, s, x)
    ensures x != id ==> Remains(b, c, s, x)
  {
  }

  lemma DropFields(b: Book, id: int, x: int)
    requires RandomOk(b) && id in b.info
    ensures var c := Drop(b, id);
      && c.newer == b.newer && c.tried == b.tried && c.idCount == b.idCount && c.lastGood == b.lastGood
      && (x in c.info <==> x in b.info && x != id)
      && (x in c.info ==> c.info[x] == b.info[x].(randomPos := c.info[x].randomPos))
  {
    DropRandom(b, id);
    if x in b.info && x != id {
      DropOthers(b, id, x);
    }
  }

  lemma EnterFields(b: Book, id: int, s: Slot)
    requires Linked(b) && id in b.info && NewSlotOk(b, s) && !Refers(b, s, id)
    ensures Enter(b, id, s).idCount == b.idCount && Enter(b, id, s).lastGood == b.lastGood
  {
    ClearNewKeeps(b, s, id);
    ClearNewFields(b, s);
  }

  /** Add_ ignores addresses that are not routable, reports exactly the ones it had no entry for as new, and
      spares an address that announces itself the penalty. */
  lemma AddCases(b: Book, addr: Address, source: NetAddr, penalty: int, routable: bool, heard: int, now: int,
                 draw: nat)
    requires Inv(b)
    ensures var (c, fNew) := Add(b, addr, source, penalty, routable, heard, now, draw);
      && (!routable ==> c == b && !fNew)
      && (routable ==> (fNew <==> forall id :: !IsEntryFor(b, id, addr.service)))
      && (addr.service.ip == source ==>
            (c, fNew) == Add(b, addr, source, 0, routable, heard, now, draw))
      && (routable && addr.service.ip != source && fNew ==> c == AddUnknown(b, addr, source, penalty, now))
      && (routable && addr.service.ip != source && !fNew ==>
            exists id :: IsEntryFor(b, id, addr.service)
                         && c == AddKnown(b, id, addr, source, penalty, heard, now, draw))
      && (routable && addr.service.ip == source && fNew ==> c == AddUnknown(b, addr, source, 0, now))
      && (routable && addr.service.ip == source && !fNew ==>
            exists id :: IsEntryFor(b, id, addr.service)
                         && c == AddKnown(b, id, addr, source, 0, heard, now, draw))
  {
    FindExactly(b, addr.service);
    hide AddKnown, AddUnknown, Inv;
    if Find(b, addr.service).Some? {
      assert IsEntryFor(b, Find(b, addr.service).value, addr.service);
    }
  }

  // ----- Good_ -----

  lemma EvictExactly(b: Book, s: Slot, p: int, y: int)
    requires Sound(b, {p}, {p}) && s in b.tried
    ensures b.tried[s] in b.info && b.tried[s] != p
    ensures var x := b.tried[s]; var q := NewSlot(b.hashes, b.info[x].service, b.info[x].source);
      var e := Evict(b, s);
      && e.newer == b.newer[q := x] && e.tried == b.tried - {s}
      && x in e.info
      && e.info[x] == b.info[x].(inTried := false, refCount := b.info[x].refCount + 1, randomPos := e.info[x].randomPos)
      && (y != x ==> Remains(b, e, q, y))
  {
    SoundIsLinked(b, {p}, {p});
    EvictKeeps(b, s);
    assert TriedSlotOk(b, s);
    var x, c := b.tried[s], Untry(b, s);
    var q := NewSlot(b.hashes, b.info[x].service, b.info[x].source);
    NotPromoted(b, s, q, p);
    assert NewSlotOk(c, q);
    hide Enter, Sound, Linked;
    EnterExactly(c, x, q, y);
  }

  /** The reference of every slot but those of id. */
  ghost predicate WithoutId(newer: Table, was: Table, id: int, q: Slot) {
    && (q in newer <==> q in was && was[q] != id)
    && (q in newer ==> newer[q] == was[q])
  }

  /** The entry moves to its tried slot and loses all its references.  An entry that held the slot goes back
      to the new table, to the slot that its own source chooses, where it replaces what was there; and nothing
      else changes. */
  lemma MakeTriedExactly(b: Book, id: int, y: int, q: Slot)
    requires Inv(b) && id in b.info && !b.info[id].inTried && y != id
    ensures var s, c := TriedSlot(b.hashes, b.info[id].service), MakeTried(b, id);
      && c.tried == b.tried[s := id]
      && (s !in b.tried ==>
            && WithoutId(c.newer, b.newer, id, q)
            && (y in c.info <==> y in b.info) && (y in b.info ==> c.info[y] == b.info[y]))
      && (s in b.tried ==>
            var x := b.tried[s];
            && x in b.info && x != id
            && var p := NewSlot(b.hashes, b.info[x].service, b.info[x].source);
            && p in c.newer && c.newer[p] == x && (q != p ==> WithoutId(c.newer, b.newer, id, q))
            && x in c.info
            && c.info[x] == b.info[x].(inTried := false, refCount := 1, randomPos := c.info[x].randomPos)
            && (y != x ==> Remains(b, c, p, y)))
  {
    hide Evict, Sound, Inv, Detach, TriedSlot, NewSlot, Remains, WithoutId;
    var s := TriedSlot(b.hashes, b.info[id].service);
    DetachSound(b, id);
    SoundIsLinked(Detach(b, id), {id}, {id});
    DetachIs(b, id, y, q);
    if s in b.tried {
      var x := b.tried[s];
      TriedOccupant(b, s, id);
      var p := NewSlot(b.hashes, b.info[x].service, b.info[x].source);
      DetachIs(b, id, x, p);
      DetachIs(b, id, y, p);
      EvictExactly(Detach(b, id), s, id, y);
      EvictedRemains(b, Detach(b, id), Evict(Detach(b, id), s), p, y, x, id, q);
      MakeTriedEvicts(b, id, s, y);
      RemainsSame(b, Evict(Detach(b, id), s), MakeTried(b, id), p, y);
    } else {
      MakeTriedPlain(b, id, s);
    }
  }

  lemma RemainsSame(b: Book, e: Book, c: Book, p: Slot, y: int)
    requires (y in c.info <==> y in e.info) && (y in e.info ==> c.info[y] == e.info[y])
    ensures Remains(b, e, p, y) ==> Remains(b, c, p, y)
  {
  }

  lemma TriedOccupant(b: Book, s: Slot, id: int)
    requires Inv(b) && s in b.tried && id in b.info && !b.info[id].inTried
    ensures b.tried[s] in b.info && b.tried[s] != id && b.info[b.tried[s]].refCount == 0
  {
    assert TriedSlotOk(b, s) && EntryRefsOk(b, b.tried[s], {});
  }

  lemma MakeTriedPlain(b: Book, id: int, s: Slot)
    requires Inv(b) && id in b.info && !b.info[id].inTried
    requires s == TriedSlot(b.hashes, b.info[id].service) && s !in b.tried
    ensures var c, d := MakeTried(b, id), Detach(b, id);
      && id in d.info && c.tried == b.tried[s := id] && c.newer == d.newer
      && c.info == d.info[id := d.info[id].(inTried := true)]
  {
    hide Inv, Sound, TriedSlot;
    DetachSound(b, id);
  }

  lemma MakeTriedEvicts(b: Book, id: int, s: Slot, y: int)
    requires Inv(b) && id in b.info && !b.info[id].inTried && y != id
    requires s == TriedSlot(b.hashes, b.info[id].service) && s in b.tried
    requires Linked(Detach(b, id)) && Evict(Detach(b, id), s).tried == b.tried - {s}
    ensures var c, e := MakeTried(b, id), Evict(Detach(b, id), s);
      && c.tried == b.tried[s := id] && c.newer == e.newer
      && (y in c.info <==> y in e.info) && (y in e.info ==> c.info[y] == e.info[y])
      && forall x :: x in e.info && x != id ==> x in c.info && c.info[x] == e.info[x]
  {
    hide Inv, Sound, TriedSlot, Evict;
    DetachSound(b, id);
    EvictOthers(Detach(b, id), s, id);
    assert (b.tried - {s})[s := id] == b.tried[s := id];
  }

  lemma EvictedRemains(b: Book, d: Book, e: Book, p: Slot, y: int, x: int, id: int, q: Slot)
    requires e.newer == d.newer[p := x] && WithoutId(d.newer, b.newer, id, q)
    requires (Refers(d, p, y) <==> Refers(b, p, y)) && (y in d.info <==> y in b.info)
    requires y in b.info ==> d.info[y] == b.info[y]
    requires y != x ==> Remains(d, e, p, y)
    ensures y != x ==> Remains(b, e, p, y)
    ensures q != p ==> WithoutId(e.newer, b.newer, id, q)
  {
  }

  lemma DetachIs(b: Book, id: int, y: int, q: Slot)
    requires Inv(b) && id in b.info && y != id
    ensures var d := Detach(b, id);
      && d.hashes == b.hashes && d.tried == b.tried && id in d.info && d.info[id].service == b.info[id].service
      && WithoutId(d.newer, b.newer, id, q) && (Refers(d, q, y) <==> Refers(b, q, y))
      && (y in d.info <==> y in b.info) && (y in b.info ==> d.info[y] == b.info[y])
  {
    hide Inv;
  }

  /** Without an entry for exactly this address only the time of the last success is noted.  With one, its
      statistics start afresh, it holds its tried slot, and has no references; its time, services and source
      stay. */
  lemma GoodEntry(b: Book, a: Service, t: int, id: int)
    requires Inv(b)
    ensures (forall x :: x in b.info ==> b.info[x].service != a) ==> Good(b, a, t) == b.(lastGood := t)
    ensures id in b.info && b.info[id].service == a ==>
      var c := Good(b, a, t);
      && c.lastGood == t && c.tried == b.tried[TriedSlot(b.hashes, a) := id] && id in c.info
      && c.info[id] == b.info[id].(lastSuccess := t, lastTry := t, attempts := 0, refCount := 0, inTried := true,
                                   randomPos := c.info[id].randomPos)
  {
    ExactInBook(b, a);
    if id in b.info && b.info[id].service == a {
      FindExactOnly(b, a, id);
      GoodEffect(b, a, t);
      LastGoodSound(b, t);
      var c := b.(lastGood := t);
      StatsSound(c, id, Proven(c.info[id], t), {}, {});
      var d := Put(c, id, Proven(c.info[id], t));
      assert EntryRefsOk(b, id, {}) && EntryTriedOk(b, id);
      hide Sound, MakeTried;
      if d.info[id].inTried {
        assert b.tried == b.tried[TriedSlot(b.hashes, a) := id];
      } else {
        MakeTriedSelf(d, id);
        MakeTriedExactly(d, id, id + 1, (0, 0));
      }
    }
  }

  // ----- GetAddr_ -----

  /** 23% of the entries, rounded down, but at most 2500. */
  lemma NodesExactly(size: nat)
    ensures var n := NodesToReturn(size);
      n <= 2500 && 100 * n <= 23 * size && (n == 2500 || 23 * size < 100 * n + 100)
  {
  }

  /** What is gathered are the addresses of exactly the places below n whose entry is not terrible when it is
      looked at, in order. */
  lemma {:induction false} GatherPlaces(b: Book, n: nat, clock: nat -> int) returns (ps: seq<nat>)
    requires n <= |b.random| && RandomOk(b)
    ensures forall i: nat :: i < |b.random| ==> b.random[i] in b.info
    ensures |ps| == |Gather(b, n, clock)| && forall j, k :: 0 <= j < k < |ps| ==> ps[j] < ps[k]
    ensures forall i: nat :: i in ps <==> i < n && !IsTerrible(b.info[b.random[i]], clock(i))
    ensures forall k :: 0 <= k < |ps| ==>
      && ps[k] < n
      && var i := b.info[b.random[ps[k]]]; Gather(b, n, clock)[k] == Address(i.service, i.services, i.time)
  {
    forall i: nat | i < |b.random| ensures b.random[i] in b.info {
      assert PosOk(b, i);
    }
    ps := [];
    if n > 0 {
      ps := GatherPlaces(b, n - 1, clock);
      if !IsTerrible(b.info[b.random[n - 1]], clock(n - 1)) {
        ps := ps + [n - 1];
      }
    }
  }

  lemma {:induction false} ShuffledSame(s: seq<int>, draw: nat -> nat, draw': nat -> nat, n: nat)
    requires n <= |s| && forall i: nat :: i < n ==> draw(i) == draw'(i)
    ensures Shuffled(s, draw, n) == Shuffled(s, draw', n)
  {
    if n > 0 {
      hide Exchanged, DrawnPlace;
      ShuffledSame(s, draw, draw', n - 1);
    }
  }

  lemma ExchangedMembers(s: seq<int>, i: nat, j: nat)
    requires i < |s| && j < |s|
    ensures multiset(Exchanged(s, i, j)) == multiset(s)
  {
  }

  lemma {:induction false} ShuffledMembers(s: seq<int>, draw: nat -> nat, n: nat)
    requires n <= |s|
    ensures multiset(Shuffled(s, draw, n)) == multiset(s)
  {
    hide *;
    if n == 0 {
      ShuffledNone(s, draw);
    } else {
      ShuffledMembers(s, draw, n - 1);
      ShuffledUnfold(s, draw, n - 1);
      ExchangedMembers(Shuffled(s, draw, n - 1), n - 1, DrawnPlace(|s|, n - 1, draw(n - 1)));
    }
  }

  lemma ShuffledNone(s: seq<int>, draw: nat -> nat)
    ensures Shuffled(s, draw, 0) == s
  {
  }

  lemma ShuffledUnfold(s: seq<int>, draw: nat -> nat, k: nat)
    requires k < |s|
    ensures Shuffled(s, draw, k + 1) == Exchanged(Shuffled(s, draw, k), k, DrawnPlace(|s|, k, draw(k)))
  {
  }

  ghost predicate AllDifferent(s: seq<int>) {
    forall i, j :: 0 <= i < j < |s| ==> s[i] != s[j]
  }

  ghost predicate AllIn(target: seq<int>, s: seq<int>) {
    forall i :: 0 <= i < |target| ==> target[i] in s
  }

  /** Every selection of entries can be drawn, in every order. */
  lemma {:induction false} ShuffleReaches(s: seq<int>, target: seq<int>) returns (draw: nat -> nat)
    requires |target| <= |s| && AllDifferent(target) && AllIn(target, s)
    ensures Shuffled(s, draw, |target|)[..|target|] == target
  {
    draw := (i: nat) => 0;
    if target != [] {
      var k := |target| - 1;
      var before := ShuffleReaches(s, target[..k]);
      hide Shuffled, AllIn;
      var j := NextPlace(s, target, before, k);
      draw := (i: nat) => if i < k then before(i) else j - k;
      ShuffledSame(s, before, draw, k);
      ShuffledNext(s, draw, k, j);
      assert target == target[..k] + [target[k]];
    }
  }

  /** The next one wanted has not been drawn yet. */
  lemma NextPlace(s: seq<int>, target: seq<int>, draw: nat -> nat, k: nat) returns (j: nat)
    requires k < |target| <= |s| && AllDifferent(target) && AllIn(target, s)
    requires Shuffled(s, draw, k)[..k] == target[..k]
    ensures k <= j < |s| && Shuffled(s, draw, k)[j] == target[k]
  {
    hide Shuffled;
    var t := Shuffled(s, draw, k);
    ShuffledMembers(s, draw, k);
    assert target[k] in multiset(t);
    j :| 0 <= j < |t| && t[j] == target[k];
    assert forall i :: 0 <= i < k ==> t[i] == t[..k][i] == target[..k][i] == target[i];
  }

  lemma ShuffledNext(s: seq<int>, draw: nat -> nat, k: nat, j: nat)
    requires k <= j < |s| && draw(k) == j - k
    ensures Shuffled(s, draw, k + 1)[..k + 1] == Shuffled(s, draw, k)[..k] + [Shuffled(s, draw, k)[j]]
  {
    DrawnIs(|s|, k, j);
    assert Shuffled(s, draw, k + 1) == Exchanged(Shuffled(s, draw, k), k, j);
    hide Shuffled, DrawnPlace;
  }

  lemma DrawnIs(size: nat, k: nat, j: nat)
    requires k <= j < size
    ensures DrawnPlace(size, k, j - k) == j
  {
  }
}
