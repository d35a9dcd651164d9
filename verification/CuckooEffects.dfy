/**
 What the operations of the cuckoo cache do to the flags and epochs, position by position
 (src/cuckoocache.h).
 */
module CuckooEffects {
  import opened Uint32
  import opened Cuckoo

  // ----- Lookups -----

  /** One of the eight locations of e holds it. */
  ghost predicate Stored(h: Hash, s: State, e: Element)
    requires Shaped(s)
  {
    exists i: nat :: i < 8 && s.slots[Locate(h, |s.slots|, e, i)] == e
  }

  /** A lookup finds exactly what one of its locations holds.  Only an erasing one that finds it changes
      anything: the collection flag of one location that holds it. */
  lemma LookupEffect(h: Hash, s: State, e: Element, erase: bool)
    requires Shaped(s)
    ensures var (t, found) := Lookup(h, s, e, erase);
      && (found <==> Stored(h, s, e))
      && (!erase || !found ==> t == s)
      && (erase && found ==>
            exists i: nat :: i < 8 && s.slots[Locate(h, |s.slots|, e, i)] == e
                             && t == s.(discard := s.discard[Locate(h, |s.slots|, e, i) := true]))
  {
    var locs := Locs(h, |s.slots|, e);
    var i := FindElement(s.slots, locs, e, 0);
    if Stored(h, s, e) {
      var k: nat :| k < 8 && s.slots[Locate(h, |s.slots|, e, k)] == e;
      assert s.slots[locs[k]] == e;
    }
    if i < 8 {
      assert s.slots[Locate(h, |s.slots|, e, i)] == e;
    }
  }

  /** Erasing is lazy: what an erasing lookup found, any later lookup still finds, until its slot is needed. */
  lemma ErasedStillFound(h: Hash, s: State, x: Element, y: Element, erase: bool)
    requires Shaped(s)
    ensures Lookup(h, Lookup(h, s, x, true).0, y, erase).1 == Lookup(h, s, y, erase).1
  {
    LookupEffect(h, s, x, true);
    LookupEffect(h, s, y, erase);
    var t := Lookup(h, s, x, true).0;
    LookupEffect(h, t, y, erase);
    assert t.slots == s.slots;
    assert Stored(h, t, y) <==> Stored(h, s, y);
  }

  /** In the words of the header: insert(x), then contains(x, true) implies contains(x, false). */
  lemma InsertEraseFind(h: Hash, s: State, x: Element)
    requires Shaped(s)
    ensures var t := Insert(h, s, x).After();
      Lookup(h, t, x, true).1 ==> Lookup(h, Lookup(h, t, x, true).0, x, false).1
  {
    var t := Insert(h, s, x).After();
    ErasedStillFound(h, t, x, x, false);
    LookupEffect(h, t, x, true);
    LookupEffect(h, t, x, false);
  }

  // ----- Epochs -----

  ghost function LiveSlots(s: State, n: nat): set<nat>
    requires n <= |s.discard| == |s.recent|
  {
    set i: nat | i < n && IsLive(s, i)
  }

  /** An entry of the current epoch that may not be discarded. */
  predicate IsLive(s: State, i: nat)
    requires |s.discard| == |s.recent|
  {
    i < |s.discard| && s.recent[i] && !s.discard[i]
  }

  lemma LiveSlotsNext(s: State, n: nat)
    requires 0 < n <= |s.discard| == |s.recent|
    ensures |LiveSlots(s, n)| == |LiveSlots(s, n - 1)| + if s.recent[n - 1] && !s.discard[n - 1] then 1 else 0
  {
    assert IsLive(s, n - 1) <==> s.recent[n - 1] && !s.discard[n - 1];
    hide IsLive;
    if IsLive(s, n - 1) {
      assert LiveSlots(s, n) == LiveSlots(s, n - 1) + {n - 1};
    } else {
      assert LiveSlots(s, n) == LiveSlots(s, n - 1);
    }
  }

  lemma {:induction false} LiveIsCount(s: State, n: nat)
    requires n <= |s.discard| == |s.recent|
    ensures Live(s, n) == |LiveSlots(s, n)|
  {
    if n > 0 {
      LiveIsCount(s, n - 1);
      LiveSlotsNext(s, n);
    } else {
      assert LiveSlots(s, 0) == {};
    }
  }

  /** The check moves no element.  It counts down; at zero, a full epoch becomes the old one, whose entries
      stay kept, while everything older may be discarded; and an epoch that is not full gets as many further
      insertions as are certain not to overfill it, or a sixteenth of its size, or one. */
  lemma EpochEffect(s: State)
    requires Shaped(s)
    ensures var c, live := EpochChecked(s), |LiveSlots(s, |s.slots|)|;
      && c.slots == s.slots && c.epochSize == s.epochSize && c.depthLimit == s.depthLimit && Shaped(c)
      && (s.counter > 0 ==> c == s.(counter := s.counter - 1))
      && (s.counter == 0 && live >= s.epochSize ==>
            && c.counter == s.epochSize
            && forall i: nat :: i < |s.slots| ==> !c.recent[i] && (c.discard[i] <==> s.discard[i] || !s.recent[i]))
      && (s.counter == 0 && live < s.epochSize ==>
            && c == s.(counter := c.counter)
            && c.counter >= 1 && c.counter >= s.epochSize - live && 16 * c.counter + 15 >= s.epochSize
            && (c.counter == 1 || c.counter == s.epochSize - live || 16 * c.counter <= s.epochSize))
  {
    LiveIsCount(s, |s.slots|);
  }

  // ----- Insertion -----

  /** The elements with the epoch that each one carries. */
  function Tagged(s: State): (r: seq<(Element, bool)>)
    requires Shaped(s)
    ensures |r| == |s.slots| && forall i :: 0 <= i < |r| ==> r[i] == (s.slots[i], s.recent[i])
  {
    seq(|s.slots|, i requires 0 <= i < |s.slots| => (s.slots[i], s.recent[i]))
  }

  lemma TaggedPut(s: State, t: State, loc: nat)
    requires Shaped(s) && Shaped(t) && loc < |s.slots| == |t.slots|
    requires t.slots == s.slots[loc := t.slots[loc]] && t.recent == s.recent[loc := t.recent[loc]]
    ensures multiset(Tagged(t)) + multiset{Tagged(s)[loc]} == multiset(Tagged(s)) + multiset{Tagged(t)[loc]}
  {
    assert Tagged(t) == Tagged(s)[loc := Tagged(t)[loc]];
  }

  /** Everything in the table and in hand. */
  function Load(s: State, e: Element, recent: bool): multiset<(Element, bool)>
    requires Shaped(s)
  {
    multiset(Tagged(s)) + multiset{(e, recent)}
  }

  lemma PlacedTagged(s: State, hand: Hand, loc: nat)
    requires Shaped(s) && loc < |s.slots|
    ensures Load(Placed(s, loc, hand.element, hand.recent), s.slots[loc], s.recent[loc])
         == Load(s, hand.element, hand.recent)
  {
    TaggedPut(s, Placed(s, loc, hand.element, hand.recent), loc);
  }

  lemma SwappedTagged(h: Hash, s: State, hand: Hand)
    requires Shaped(s)
    ensures var (t, next) := Swapped(h, s, hand);
      Load(t, next.element, next.recent) == Load(s, hand.element, hand.recent)
  {
    hide Locs, IndexOf;
    TaggedPut(s, Swapped(h, s, hand).0, Victim(h, s, hand));
  }

  /** Displacement moves elements together with their epochs. */
  lemma {:induction false} DisplaceTagged(h: Hash, s: State, hand: Hand, depth: nat) returns (recent: bool)
    requires Shaped(s)
    ensures var r := Displace(h, s, hand, depth); Load(r.state, r.dropped, recent) == Load(s, hand.element, hand.recent)
    decreases depth
  {
    hide *;
    recent := hand.recent;
    if depth == 0 {
      DisplaceNone(h, s, hand);
    } else {
      var placed, loc := DisplaceCases(h, s, hand, depth);
      if placed {
        recent := s.recent[loc];
        PlacedTagged(s, hand, loc);
      } else {
        SwappedTagged(h, s, hand);
        recent := DisplaceTagged(h, Swapped(h, s, hand).0, Swapped(h, s, hand).1, depth - 1);
      }
    }
  }

  lemma DisplaceNone(h: Hash, s: State, hand: Hand)
    requires Shaped(s)
    ensures Displace(h, s, hand, 0) == Result(s, hand.element, INVALID)
  {
  }

  lemma DisplaceCases(h: Hash, s: State, hand: Hand, depth: nat) returns (placed: bool, loc: nat)
    requires Shaped(s) && depth > 0
    ensures loc < |s.slots| == |s.recent|
    ensures placed ==>
      Displace(h, s, hand, depth) == Result(Placed(s, loc, hand.element, hand.recent), s.slots[loc], loc)
    ensures !placed ==>
      Displace(h, s, hand, depth) == Displace(h, Swapped(h, s, hand).0, Swapped(h, s, hand).1, depth - 1)
  {
    var locs := Locs(h, |s.slots|, hand.element);
    var i := FindDiscard(s.discard, locs, 0);
    placed, loc := i < 8, locs[if i < 8 then i else 0];
  }

  /** One insertion after the epoch check c.  An element that is there is kept and joins the current epoch.
      Any other goes in as one of the current epoch; one element goes out; every other keeps its epoch; and no
      collection flag changes but that of the slot that was given up. */
  lemma InsertFlags(h: Hash, s: State, e: Element)
    requires Shaped(s)
    ensures var c := EpochChecked(s);
      match Insert(h, s, e)
      case Found(t) =>
        exists i: nat :: i < 8 && c.slots[Locate(h, |c.slots|, e, i)] == e
          && t == c.(discard := c.discard[Locate(h, |c.slots|, e, i) := false],
                     recent := c.recent[Locate(h, |c.slots|, e, i) := true])
      case Inserted(r) =>
        && !Stored(h, c, e)
        && (exists recent: bool :: Load(r.state, r.dropped, recent) == Load(c, e, true))
        && r.state.discard == (if r.slot == INVALID then c.discard
                               else if r.slot < |c.discard| then c.discard[r.slot := false] else [])
        && r.state.counter == c.counter && r.state.epochSize == c.epochSize && r.state.depthLimit == c.depthLimit
  {
    var c := EpochChecked(s);
    var locs := Locs(h, |c.slots|, e);
    var i := FindElement(c.slots, locs, e, 0);
    if i < 8 {
      assert c.slots[Locate(h, |c.slots|, e, i)] == e;
    } else {
      var recent := DisplaceTagged(h, c, Hand(e, true, INVALID), c.depthLimit);
      DisplaceDrops(h, c, Hand(e, true, INVALID), c.depthLimit);
      DisplaceLive(h, c, Hand(e, true, INVALID), c.depthLimit);
    }
  }

  /** If one of the locations may be discarded, the first such one takes the element and nothing is moved. */
  lemma InsertDirect(h: Hash, s: State, e: Element, i: nat)
    requires Shaped(s) && s.depthLimit > 0 && i < 8 && !Stored(h, EpochChecked(s), e)
    requires EpochChecked(s).discard[Locate(h, |s.slots|, e, i)]
    requires forall j: nat :: j < i ==> !EpochChecked(s).discard[Locate(h, |s.slots|, e, j)]
    ensures var loc := Locate(h, |s.slots|, e, i);
      Insert(h, s, e).Inserted? && Insert(h, s, e).After().slots == s.slots[loc := e]
      && Insert(h, s, e).result.slot == loc
  {
    var c := EpochChecked(s);
    var locs := Locs(h, |c.slots|, e);
    assert FindElement(c.slots, locs, e, 0) == 8;
    assert FindDiscard(c.discard, locs, 0) == i;
  }

  /** A displacement that follows one into the k-th location of the element in hand uses the next one. */
  lemma VictimNext(h: Hash, s: State, hand: Hand, k: nat)
    requires Shaped(s) && k < 8 && Locate(h, |s.slots|, hand.element, k) == hand.last
    requires forall j: nat :: j < k ==> Locate(h, |s.slots|, hand.element, j) != hand.last
    ensures Victim(h, s, hand) == Locate(h, |s.slots|, hand.element, if k == 7 then 0 else k + 1)
  {
    var locs := Locs(h, |s.slots|, hand.element);
    assert locs[k] == hand.last;
    assert IndexOf(locs, hand.last, 0) == k;
  }

  // ----- Set up -----

  /** The epoch size is 45% of the slots, rounded down, but at least one. */
  ghost predicate IsShare(epoch: nat, size: nat) {
    if size < 3 then epoch == 1 else 100 * epoch <= 45 * size < 100 * epoch + 100
  }

  /** The documented 45% holds exactly as long as 45 times the size fits 32 bits. */
  lemma EpochSizeExactly(size: U32)
    ensures IsShare(EpochSize(size), size) <==> 45 * size < 0x1_0000_0000
  {
  }

  /** At 95443718 slots the product wraps, and the epoch is a single entry. */
  lemma EpochSizeWrapped()
    ensures EpochSize(95443717) == 42949672 && EpochSize(95443718) == 1
  {
  }

  /** Whatever was in the table before stays as far as it fits, and may be discarded. */
  lemma SetUpEffect(s: State, newSize: U32, depthLimit: nat)
    requires |s.recent| == |s.slots|
    ensures var t := SetUp(s, newSize, depthLimit);
      && |t.slots| == |t.discard| == |t.recent| == (if newSize < 2 then 2 else newSize)
      && (forall i: nat :: i < |t.slots| ==>
            && t.discard[i]
            && t.slots[i] == (if i < |s.slots| then s.slots[i] else 0)
            && t.recent[i] == (i < |s.slots| && s.recent[i]))
      && t.counter == t.epochSize == EpochSize(|t.slots|) && t.depthLimit == depthLimit
  {
  }
}
