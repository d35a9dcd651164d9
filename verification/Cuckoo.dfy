/**
 The cuckoo cache (src/cuckoocache.h) as functions on its table and flags: insertion by displacement,
 lookup with lazy erasure, and the epochs that decide what may be discarded.
 */
module Cuckoo {
  import opened Uint32

  const INVALID: nat := 0xFFFF_FFFF

  /** Elements are only compared and hashed. */
  type Element = nat
  type Hash = (nat, Element) -> U32

  datatype State = State(slots: seq<Element>, discard: seq<bool>, recent: seq<bool>,
                         counter: nat, epochSize: nat, depthLimit: nat)

  ghost predicate Shaped(s: State) {
    && 2 <= |s.slots| < 0x1_0000_0000
    && |s.discard| == |s.slots| && |s.recent| == |s.slots|
  }

  // ----- Locations -----

  /** (hash * size) >> 32 */
  function Locate(h: Hash, size: nat, e: Element, i: nat): (loc: nat)
    requires size >= 1
    ensures loc < size
  {
    Scaled(h(i, e), size)
  }

  function Locs(h: Hash, size: nat, e: Element): (locs: seq<nat>)
    requires size >= 1
    ensures |locs| == 8 && forall i :: 0 <= i < 8 ==> locs[i] == Locate(h, size, e, i)
  {
    seq(8, i requires 0 <= i < 8 => Locate(h, size, e, i))
  }

  /** The first of the locations from k on that holds e, or 8. */
  function FindElement(slots: seq<Element>, locs: seq<nat>, e: Element, k: nat): (i: nat)
    requires k <= |locs| && forall j :: 0 <= j < |locs| ==> locs[j] < |slots|
    ensures k <= i <= |locs| && (i < |locs| ==> slots[locs[i]] == e)
    ensures forall j :: k <= j < i ==> slots[locs[j]] != e
    decreases |locs| - k
  {
    if k == |locs| || slots[locs[k]] == e then k else FindElement(slots, locs, e, k + 1)
  }

  /** The first of the locations from k on that may be discarded, or 8. */
  function FindDiscard(discard: seq<bool>, locs: seq<nat>, k: nat): (i: nat)
    requires k <= |locs| && forall j :: 0 <= j < |locs| ==> locs[j] < |discard|
    ensures k <= i <= |locs| && (i < |locs| ==> discard[locs[i]])
    ensures forall j :: k <= j < i ==> !discard[locs[j]]
    decreases |locs| - k
  {
    if k == |locs| || discard[locs[k]] then k else FindDiscard(discard, locs, k + 1)
  }

  /** Where std::find finds a location, or 8. */
  function IndexOf(locs: seq<nat>, loc: nat, k: nat): (i: nat)
    requires k <= |locs|
    ensures k <= i <= |locs| && (i < |locs| ==> locs[i] == loc)
    ensures forall j :: k <= j < i ==> locs[j] != loc
    decreases |locs| - k
  {
    if k == |locs| || locs[k] == loc then k else IndexOf(locs, loc, k + 1)
  }

  // ----- Epochs -----

  /** Entries of the current epoch that are not marked for collection, among the first n. */
  function Live(s: State, n: nat): nat
    requires n <= |s.discard| && n <= |s.recent|
  {
    if n == 0 then 0 else Live(s, n - 1) + if s.recent[n - 1] && !s.discard[n - 1] then 1 else 0
  }

  function LiveCount(s: State): nat
    requires |s.discard| == |s.recent|
  {
    Live(s, |s.discard|)
  }

  function Max(a: nat, b: nat): nat { if a < b then b else a }

  /** The old epoch becomes discardable and the current one old. */
  function Aged(s: State): State
    requires |s.discard| == |s.recent|
  {
    s.(discard := seq(|s.discard|, i requires 0 <= i < |s.discard| => s.discard[i] || !s.recent[i]),
       recent := seq(|s.recent|, i => false), counter := s.epochSize)
  }

  function EpochChecked(s: State): State
    requires |s.discard| == |s.recent|
  {
    if s.counter != 0 then s.(counter := s.counter - 1)
    else if LiveCount(s) >= s.epochSize then Aged(s)
    else s.(counter := Max(1, Max(s.epochSize / 16, s.epochSize - LiveCount(s))))
  }

  // ----- Insertion -----

  /** The element in hand during displacement, the epoch it carries, and where it came from. */
  datatype Hand = Hand(element: Element, recent: bool, last: nat)

  /** Put an element into a slot and keep it. */
  function Placed(s: State, loc: nat, e: Element, recent: bool): State
    requires Shaped(s) && loc < |s.slots|
  {
    s.(slots := s.slots[loc := e], discard := s.discard[loc := false], recent := s.recent[loc := recent])
  }

  /** The location the next displacement uses: the one after the last, cyclically. */
  function Victim(h: Hash, s: State, hand: Hand): (loc: nat)
    requires Shaped(s)
    ensures loc < |s.slots|
  {
    var locs := Locs(h, |s.slots|, hand.element);
    locs[(1 + IndexOf(locs, hand.last, 0)) % 8]
  }

  /** The first displacement uses the second location, hence the first one only when the two are equal. */
  lemma FirstVictim(h: Hash, s: State, e: Element, recent: bool)
    requires Shaped(s)
    ensures var locs := Locs(h, |s.slots|, e); var loc := Victim(h, s, Hand(e, recent, INVALID));
      loc == locs[1] && (loc == locs[0] <==> locs[0] == locs[1])
  {
    var locs := Locs(h, |s.slots|, e);
    assert IndexOf(locs, INVALID, 0) == 8;
  }

  /** A displacement returns to the slot of the one before it exactly when that slot stands twice in a row
      among the locations of the element in hand. */
  lemma VictimAgain(h: Hash, s: State, hand: Hand)
    requires Shaped(s)
    ensures var locs := Locs(h, |s.slots|, hand.element); var k := IndexOf(locs, hand.last, 0);
      Victim(h, s, hand) == hand.last <==> k < 8 && locs[(k + 1) % 8] == locs[k]
  {
    var locs := Locs(h, |s.slots|, hand.element);
    assert Victim(h, s, hand) in locs;
  }

  function Swapped(h: Hash, s: State, hand: Hand): (r: (State, Hand))
    requires Shaped(s)
    ensures Shaped(r.0)
  {
    var loc := Victim(h, s, hand);
    (s.(slots := s.slots[loc := hand.element], recent := s.recent[loc := hand.recent]),
     Hand(s.slots[loc], s.recent[loc], loc))
  }

  datatype Result = Result(state: State, dropped: Element, slot: nat)

  /** Up to `depth` rounds; the slot is that of the discarded element, or INVALID at the depth limit. */
  function Displace(h: Hash, s: State, hand: Hand, depth: nat): (r: Result)
    requires Shaped(s)
    ensures Shaped(r.state)
    decreases depth
  {
    if depth == 0 then Result(s, hand.element, INVALID)
    else
      var locs := Locs(h, |s.slots|, hand.element);
      var i := FindDiscard(s.discard, locs, 0);
      if i < 8 then Result(Placed(s, locs[i], hand.element, hand.recent), s.slots[locs[i]], locs[i])
      else
        var (t, next) := Swapped(h, s, hand);
        Displace(h, t, next, depth - 1)
  }

  lemma DisplaceRound(h: Hash, s: State, hand: Hand, depth: nat)
    requires Shaped(s)
    ensures Displace(h, s, hand, 0).state == s
    ensures depth > 0 ==>
      var locs := Locs(h, |s.slots|, hand.element);
      var i := FindDiscard(s.discard, locs, 0);
      if i < 8 then Displace(h, s, hand, depth).state == Placed(s, locs[i], hand.element, hand.recent)
      else Displace(h, s, hand, depth) == Displace(h, Swapped(h, s, hand).0, Swapped(h, s, hand).1, depth - 1)
  {
  }

  datatype Insertion = Found(state: State) | Inserted(result: Result) {
    function After(): State {
      match this
      case Found(s) => s
      case Inserted(r) => r.state
    }
  }

  function Insert(h: Hash, before: State, e: Element): (r: Insertion)
    requires Shaped(before)
    ensures Shaped(r.After())
  {
    var s := EpochChecked(before);
    var locs := Locs(h, |s.slots|, e);
    var i := FindElement(s.slots, locs, e, 0);
    if i < 8 then Found(s.(discard := s.discard[locs[i] := false], recent := s.recent[locs[i] := true]))
    else Inserted(Displace(h, s, Hand(e, true, INVALID), s.depthLimit))
  }

  function Lookup(h: Hash, s: State, e: Element, erase: bool): (r: (State, bool))
    requires Shaped(s)
    ensures Shaped(r.0)
  {
    var locs := Locs(h, |s.slots|, e);
    var i := FindElement(s.slots, locs, e, 0);
    if i < 8 then (if erase then s.(discard := s.discard[locs[i] := true]) else s, true) else (s, false)
  }

  // ----- Set up and runs -----

  function Resized<T>(s: seq<T>, n: nat, default: T): seq<T> {
    if n <= |s| then s[..n] else s + seq(n - |s|, _ => default)
  }

  /** 45% of the size, computed in 32 bits, but at least 1. */
  function EpochSize(size: nat): nat { Max(1, 45 * size % 0x1_0000_0000 / 100) }

  /** The depth limit is the integer part of a floating-point logarithm, at least 1. */
  function SetUp(s: State, newSize: U32, depthLimit: nat): State {
    var size := Max(2, newSize);
    State(Resized(s.slots, size, 0), seq(size, _ => true), Resized(s.recent, size, false),
          EpochSize(size), EpochSize(size), depthLimit)
  }

  datatype Op = Insertion(e: Element) | Query(e: Element, erase: bool)

  function Perform(h: Hash, s: State, op: Op): (r: State)
    requires Shaped(s)
    ensures Shaped(r)
  {
    match op
    case Insertion(e) => Insert(h, s, e).After()
    case Query(e, erase) => Lookup(h, s, e, erase).0
  }

  function PerformAll(h: Hash, s: State, ops: seq<Op>): (r: State)
    requires Shaped(s)
    ensures Shaped(r)
  {
    if ops == [] then s else Perform(h, PerformAll(h, s, ops[..|ops| - 1]), ops[|ops| - 1])
  }

  // ----- A run in which the element just put in is moved and lost -----

  /** In a table of four slots, the first location of every element is slot 0 and the others are slot 2. */
  function FirstApart(): Hash { (i, e) => if i == 0 then 0 else 0x8000_0000 }

  lemma ApartLocs(e: Element)
    ensures Locs(FirstApart(), 4, e) == [0, 2, 2, 2, 2, 2, 2, 2]
  {
    forall i | 0 <= i < 8 ensures Locate(FirstApart(), 4, e, i) == if i == 0 then 0 else 2 {
    }
  }

  function ApartEmpty(): State { State([0, 0, 0, 0], [true, true, true, true], [false, false, false, false], 1, 1, 2) }
  function ApartOne(): State { State([5, 0, 0, 0], [false, true, true, true], [true, false, false, false], 0, 1, 2) }
  function ApartTwo(): State { State([5, 0, 6, 0], [false, true, false, true], [false, false, true, false], 1, 1, 2) }

  lemma ApartSetUp()
    ensures SetUp(State([], [], [], 0, 0, 0), 4, 2) == ApartEmpty()
  {
  }

  lemma ApartFirst()
    ensures Insert(FirstApart(), ApartEmpty(), 5).After() == ApartOne()
  {
    ApartLocs(5);
    var s := ApartEmpty().(counter := 0);
    assert FindElement(s.slots, Locs(FirstApart(), 4, 5), 5, 0) == 8;
    assert FindDiscard(s.discard, Locs(FirstApart(), 4, 5), 0) == 0;
  }

  lemma ApartAges()
    ensures EpochChecked(ApartOne()) == ApartOne().(recent := [false, false, false, false], counter := 1)
  {
    var s := ApartOne();
    assert Live(s, 1) == 1;
    assert Live(s, 3) == 1;
  }

  lemma ApartSecond()
    ensures Insert(FirstApart(), ApartOne(), 6).After() == ApartTwo()
  {
    ApartLocs(6);
    ApartAges();
    hide EpochChecked;
    var s := EpochChecked(ApartOne());
    assert FindElement(s.slots, Locs(FirstApart(), 4, 6), 6, 0) == 8;
    assert FindDiscard(s.discard, Locs(FirstApart(), 4, 6), 0) == 1;
  }

  function ApartFull(): State { ApartTwo().(counter := 0) }
  function ApartMoved(): State { ApartFull().(slots := [5, 0, 7, 0]) }

  /** With both locations taken, the first displacement puts the element into slot 2... */
  lemma ApartThird()
    ensures Victim(FirstApart(), ApartFull(), Hand(7, true, INVALID)) == 2
    ensures Swapped(FirstApart(), ApartFull(), Hand(7, true, INVALID)) == (ApartMoved(), Hand(6, true, 2))
  {
    ApartLocs(7);
    hide Locs, FirstApart, Victim;
    FirstVictim(FirstApart(), ApartFull(), 7, true);
    assert ApartFull().recent[2 := true] == ApartFull().recent;
    assert ApartFull().slots[2 := 7] == ApartMoved().slots;
  }

  /** ... and the next one takes it back out of there. */
  lemma ApartBack()
    ensures Victim(FirstApart(), ApartMoved(), Hand(6, true, 2)) == 2
    ensures Swapped(FirstApart(), ApartMoved(), Hand(6, true, 2)) == (ApartFull(), Hand(7, true, 2))
  {
    ApartLocs(6);
    hide Locs, FirstApart;
    assert IndexOf(Locs(FirstApart(), 4, 6), 2, 0) == 1;
    assert Victim(FirstApart(), ApartMoved(), Hand(6, true, 2)) == 2;
    hide Victim;
    assert ApartMoved().recent[2 := true] == ApartFull().recent;
    assert ApartMoved().slots[2 := 6] == ApartFull().slots;
  }

  lemma ApartDisplaced()
    ensures Displace(FirstApart(), ApartFull(), Hand(7, true, INVALID), 2) == Result(ApartFull(), 7, INVALID)
  {
    ApartLocs(7);
    ApartLocs(6);
    ApartThird();
    ApartBack();
    hide Swapped, Locs, FirstApart;
    var h := FirstApart();
    assert FindDiscard(ApartFull().discard, Locs(h, 4, 7), 0) == 8;
    assert FindDiscard(ApartMoved().discard, Locs(h, 4, 6), 0) == 8;
    assert Displace(h, ApartMoved(), Hand(6, true, 2), 1) == Displace(h, ApartFull(), Hand(7, true, 2), 0);
  }

  lemma ApartLost()
    ensures Insert(FirstApart(), ApartTwo(), 7) == Inserted(Result(ApartFull(), 7, INVALID))
  {
    ApartLocs(7);
    ApartDisplaced();
    hide Displace, Locs, FirstApart;
    assert EpochChecked(ApartTwo()) == ApartFull();
    assert FindElement(ApartFull().slots, Locs(FirstApart(), 4, 7), 7, 0) == 8;
  }

  /** After two insertions into a new cache of four slots, a third one does not displace its first location,
      displaces what it has just put in, and loses the new element. */
  lemma VictimWitness()
    ensures var h, hand := FirstApart(), Hand(7, true, INVALID);
      var s := PerformAll(h, SetUp(State([], [], [], 0, 0, 0), 4, 2), [Insertion(5), Insertion(6)]);
      && Locs(h, |s.slots|, 7)[0] == 0 && Victim(h, EpochChecked(s), hand) == 2
      && (var (t, next) := Swapped(h, EpochChecked(s), hand); t.slots[2] == 7 && Victim(h, t, next) == 2)
      && (var r := Insert(h, s, 7); r.Inserted? && r.result.dropped == 7 && 7 !in r.After().slots)
  {
    ApartLocs(7);
    hide *;
    ApartShaped();
    ApartSetUp();
    ApartFirst();
    ApartSecond();
    ApartRun(FirstApart(), ApartEmpty());
    ApartThird();
    ApartBack();
    ApartLost();
  }

  lemma ApartShaped()
    ensures Shaped(ApartEmpty()) && |ApartTwo().slots| == 4 && EpochChecked(ApartTwo()) == ApartFull()
    ensures ApartMoved().slots[2] == 7 && 7 !in ApartFull().slots
  {
  }

  lemma ApartRun(h: Hash, s: State)
    requires Shaped(s)
    ensures PerformAll(h, s, [Insertion(5), Insertion(6)])
         == Insert(h, Insert(h, s, 5).After(), 6).After()
  {
    hide Insert;
    var ops := [Insertion(5), Insertion(6)];
    assert ops[..1] == [Insertion(5)] && ops[..1][..0] == [];
    assert PerformAll(h, s, ops[..1]) == Insert(h, s, 5).After();
  }

  // ----- Every kept element is where lookups find it -----

  ghost predicate AtHome(h: Hash, s: State, j: nat)
    requires Shaped(s) && j < |s.slots|
  {
    s.discard[j] || exists i: nat :: i < 8 && Locate(h, |s.slots|, s.slots[j], i) == j
  }

  ghost predicate AllAtHome(h: Hash, s: State)
    requires Shaped(s)
  {
    forall j: nat :: j < |s.slots| ==> AtHome(h, s, j)
  }

  /** x is kept in one of its own slots. */
  ghost predicate Held(h: Hash, s: State, x: Element)
    requires Shaped(s)
  {
    exists i: nat :: i < 8 && s.slots[Locate(h, |s.slots|, x, i)] == x && !s.discard[Locate(h, |s.slots|, x, i)]
  }

  lemma HomeStays(h: Hash, s: State, t: State, j: nat)
    requires Shaped(s) && Shaped(t) && AllAtHome(h, s) && j < |s.slots| == |t.slots|
    requires s.slots[j] == t.slots[j] && (s.discard[j] ==> t.discard[j])
    ensures AtHome(h, t, j)
  {
    assert AtHome(h, s, j);
  }

  lemma PlacedHome(h: Hash, s: State, loc: nat, e: Element, recent: bool, i: nat)
    requires Shaped(s) && AllAtHome(h, s) && i < 8 && loc == Locate(h, |s.slots|, e, i)
    ensures AllAtHome(h, Placed(s, loc, e, recent))
  {
    var t := Placed(s, loc, e, recent);
    forall j: nat | j < |t.slots| ensures AtHome(h, t, j) {
      if j == loc {
        assert Locate(h, |t.slots|, t.slots[j], i) == j;
      } else {
        HomeStays(h, s, t, j);
      }
    }
  }

  lemma VictimIs(h: Hash, s: State, hand: Hand) returns (i: nat)
    requires Shaped(s)
    ensures i < 8 && Victim(h, s, hand) == Locate(h, |s.slots|, hand.element, i)
  {
    i := (1 + IndexOf(Locs(h, |s.slots|, hand.element), hand.last, 0)) % 8;
  }

  lemma SwappedHome(h: Hash, s: State, hand: Hand)
    requires Shaped(s) && AllAtHome(h, s)
    ensures AllAtHome(h, Swapped(h, s, hand).0)
  {
    var t := Swapped(h, s, hand).0;
    var i := VictimIs(h, s, hand);
    forall j: nat | j < |t.slots| ensures AtHome(h, t, j) {
      if j == Victim(h, s, hand) {
        assert Locate(h, |t.slots|, t.slots[j], i) == j;
      } else {
        HomeStays(h, s, t, j);
      }
    }
  }

  lemma {:induction false} DisplaceHome(h: Hash, s: State, hand: Hand, depth: nat)
    requires Shaped(s) && AllAtHome(h, s)
    ensures AllAtHome(h, Displace(h, s, hand, depth).state)
    decreases depth
  {
    if depth > 0 {
      var locs := Locs(h, |s.slots|, hand.element);
      var i := FindDiscard(s.discard, locs, 0);
      if i < 8 {
        PlacedHome(h, s, locs[i], hand.element, hand.recent, i);
      } else {
        SwappedHome(h, s, hand);
        var (t, next) := Swapped(h, s, hand);
        DisplaceHome(h, t, next, depth - 1);
      }
    }
  }

  lemma InsertHome(h: Hash, s: State, e: Element)
    requires Shaped(s) && AllAtHome(h, s)
    ensures AllAtHome(h, Insert(h, s, e).After())
  {
    var c := EpochChecked(s);
    forall j: nat | j < |c.slots| ensures AtHome(h, c, j) {
      HomeStays(h, s, c, j);
    }
    var locs := Locs(h, |c.slots|, e);
    var i := FindElement(c.slots, locs, e, 0);
    if i < 8 {
      PlacedHome(h, c, locs[i], e, true, i);
      assert c.slots[locs[i] := e] == c.slots;
    } else {
      DisplaceHome(h, c, Hand(e, true, INVALID), c.depthLimit);
    }
  }

  lemma LookupHome(h: Hash, s: State, e: Element, erase: bool)
    requires Shaped(s) && AllAtHome(h, s)
    ensures AllAtHome(h, Lookup(h, s, e, erase).0)
  {
    var t := Lookup(h, s, e, erase).0;
    forall j: nat | j < |t.slots| ensures AtHome(h, t, j) {
      HomeStays(h, s, t, j);
    }
  }

  // ----- What one insertion does to the table -----

  /** What a run of displacement drops, and that nothing else leaves the table. */
  lemma {:induction false} DisplaceConserves(h: Hash, s: State, hand: Hand, depth: nat)
    requires Shaped(s)
    ensures var r := Displace(h, s, hand, depth);
      && |r.state.slots| == |s.slots|
      && multiset(r.state.slots) + multiset{r.dropped} == multiset(s.slots) + multiset{hand.element}
    decreases depth
  {
    if depth > 0 && FindDiscard(s.discard, Locs(h, |s.slots|, hand.element), 0) == 8 {
      var (t, next) := Swapped(h, s, hand);
      DisplaceConserves(h, t, next, depth - 1);
    }
  }

  /** Unless the depth limit is reached, the dropped element sat in a discardable slot all along; no
      other slot's collection flag changes. */
  lemma {:induction false} DisplaceDrops(h: Hash, s: State, hand: Hand, depth: nat)
    requires Shaped(s)
    ensures var r := Displace(h, s, hand, depth);
      if r.slot == INVALID then r.state.discard == s.discard
      else r.slot < |s.slots| && s.discard[r.slot] && r.dropped == s.slots[r.slot]
           && r.state.discard == s.discard[r.slot := false]
    decreases depth
  {
    if depth > 0 && FindDiscard(s.discard, Locs(h, |s.slots|, hand.element), 0) == 8 {
      var (t, next) := Swapped(h, s, hand);
      DisplaceDrops(h, t, next, depth - 1);
      var i := VictimIs(h, s, hand);
    }
  }

  lemma SwappedKeeps(h: Hash, s: State, hand: Hand, x: Element)
    requires Shaped(s) && FindDiscard(s.discard, Locs(h, |s.slots|, hand.element), 0) == 8
    requires Held(h, s, x) || hand.element == x
    ensures Held(h, Swapped(h, s, hand).0, x) || Swapped(h, s, hand).1.element == x
  {
    var (t, next) := Swapped(h, s, hand);
    var k := VictimIs(h, s, hand);
    if hand.element == x {
      assert t.slots[Locate(h, |t.slots|, x, k)] == x && !t.discard[Locate(h, |t.slots|, x, k)];
    } else {
      var i: nat :| i < 8 && s.slots[Locate(h, |s.slots|, x, i)] == x && !s.discard[Locate(h, |s.slots|, x, i)];
      if Locate(h, |s.slots|, x, i) != Victim(h, s, hand) {
        assert t.slots[Locate(h, |t.slots|, x, i)] == x;
      }
    }
  }

  /** Displacement loses no kept element but the one dropped at the depth limit. */
  lemma {:induction false} DisplaceKeeps(h: Hash, s: State, hand: Hand, depth: nat, x: Element)
    requires Shaped(s) && (Held(h, s, x) || hand.element == x)
    ensures var r := Displace(h, s, hand, depth);
      Held(h, r.state, x) || (r.slot == INVALID && r.dropped == x)
    decreases depth
  {
    if depth > 0 {
      var locs := Locs(h, |s.slots|, hand.element);
      var i := FindDiscard(s.discard, locs, 0);
      if i < 8 {
        PlacedKeeps(h, s, hand, i, x);
      } else {
        var (t, next) := Swapped(h, s, hand);
        SwappedKeeps(h, s, hand, x);
        DisplaceKeeps(h, t, next, depth - 1, x);
      }
    }
  }

  lemma PlacedKeeps(h: Hash, s: State, hand: Hand, i: nat, x: Element)
    requires Shaped(s) && i < 8 && s.discard[Locate(h, |s.slots|, hand.element, i)]
    requires Held(h, s, x) || hand.element == x
    ensures Held(h, Placed(s, Locate(h, |s.slots|, hand.element, i), hand.element, hand.recent), x)
  {
    var t := Placed(s, Locate(h, |s.slots|, hand.element, i), hand.element, hand.recent);
    if hand.element == x {
      assert t.slots[Locate(h, |t.slots|, x, i)] == x && !t.discard[Locate(h, |t.slots|, x, i)];
    } else {
      var k: nat :| k < 8 && s.slots[Locate(h, |s.slots|, x, k)] == x && !s.discard[Locate(h, |s.slots|, x, k)];
      assert t.slots[Locate(h, |t.slots|, x, k)] == x && !t.discard[Locate(h, |t.slots|, x, k)];
    }
  }

  /** One insertion: the element was present and the table is unchanged; or it went in and exactly one
      element went out, which was discardable unless the depth limit was reached. */
  lemma InsertEffect(h: Hash, s: State, e: Element)
    requires Shaped(s)
    ensures match Insert(h, s, e)
      case Found(t) => t.slots == s.slots && Held(h, t, e)
      case Inserted(r) =>
        && multiset(r.state.slots) + multiset{r.dropped} == multiset(s.slots) + multiset{e}
        && (r.slot != INVALID ==>
              r.slot < |s.slots| && EpochChecked(s).discard[r.slot] && r.dropped == s.slots[r.slot])
  {
    var c := EpochChecked(s);
    var locs := Locs(h, |c.slots|, e);
    var i := FindElement(c.slots, locs, e, 0);
    if i < 8 {
      assert Locate(h, |c.slots|, e, i) == locs[i];
    } else {
      DisplaceConserves(h, c, Hand(e, true, INVALID), c.depthLimit);
      DisplaceDrops(h, c, Hand(e, true, INVALID), c.depthLimit);
    }
  }

  /** The inserted element, and every element that the epoch check keeps, is kept afterwards, but for one
      dropped at the depth limit. */
  lemma InsertKeeps(h: Hash, s: State, e: Element, x: Element)
    requires Shaped(s) && (x == e || Held(h, EpochChecked(s), x))
    ensures Held(h, Insert(h, s, e).After(), x)
         || (Insert(h, s, e).Inserted? && Insert(h, s, e).result.slot == INVALID && Insert(h, s, e).result.dropped == x)
  {
    var c := EpochChecked(s);
    var locs := Locs(h, |c.slots|, e);
    var i := FindElement(c.slots, locs, e, 0);
    if i == 8 {
      DisplaceKeeps(h, c, Hand(e, true, INVALID), c.depthLimit, x);
    } else if x == e {
      InsertEffect(h, s, e);
    } else {
      FoundKeeps(h, c, locs[i], x);
    }
  }

  lemma FoundKeeps(h: Hash, c: State, loc: nat, x: Element)
    requires Shaped(c) && loc < |c.slots| && Held(h, c, x)
    ensures Held(h, c.(discard := c.discard[loc := false], recent := c.recent[loc := true]), x)
  {
    var t := c.(discard := c.discard[loc := false], recent := c.recent[loc := true]);
    var k: nat :| k < 8 && c.slots[Locate(h, |c.slots|, x, k)] == x && !c.discard[Locate(h, |c.slots|, x, k)];
    assert t.slots[Locate(h, |t.slots|, x, k)] == x && !t.discard[Locate(h, |t.slots|, x, k)];
  }

  /** Lookups find what is kept, and only what is in the table. */
  lemma LookupFinds(h: Hash, s: State, e: Element, erase: bool)
    requires Shaped(s)
    ensures Held(h, s, e) ==> Lookup(h, s, e, erase).1
    ensures Lookup(h, s, e, erase).1 ==> e in s.slots
  {
    var locs := Locs(h, |s.slots|, e);
    var i := FindElement(s.slots, locs, e, 0);
    if Held(h, s, e) {
      var k: nat :| k < 8 && s.slots[Locate(h, |s.slots|, e, k)] == e && !s.discard[Locate(h, |s.slots|, e, k)];
      assert s.slots[locs[k]] == e;
    }
  }

  // ----- The epoch bound -----

  function Weight(s: State, j: nat): nat
    requires j < |s.discard| == |s.recent|
  {
    if s.recent[j] && !s.discard[j] then 1 else 0
  }

  lemma LiveNext(s: State, n: nat)
    requires n < |s.discard| == |s.recent|
    ensures Live(s, n + 1) == Live(s, n) + Weight(s, n) && Live(s, 0) == 0
  {
  }

  lemma {:induction false} LiveChange(s: State, t: State, loc: nat, n: nat)
    requires |s.discard| == |s.recent| == |t.discard| == |t.recent| && n <= |s.discard| && loc < |s.discard|
    requires forall j :: 0 <= j < |s.discard| && j != loc ==> s.discard[j] == t.discard[j] && s.recent[j] == t.recent[j]
    ensures Live(t, n) == Live(s, n) + if loc < n then Weight(t, loc) - Weight(s, loc) else 0
  {
    if n > 0 {
      LiveChange(s, t, loc, n - 1);
    }
  }

  lemma {:induction false} LiveNone(s: State, n: nat)
    requires n <= |s.discard| == |s.recent| && forall j :: 0 <= j < n ==> !s.recent[j] || s.discard[j]
    ensures Live(s, n) == 0
  {
    if n > 0 {
      LiveNone(s, n - 1);
    }
  }

  lemma SwappedLive(h: Hash, s: State, hand: Hand)
    requires Shaped(s) && FindDiscard(s.discard, Locs(h, |s.slots|, hand.element), 0) == 8
    ensures var (t, next) := Swapped(h, s, hand);
      LiveCount(t) + (if next.recent then 1 else 0) == LiveCount(s) + if hand.recent then 1 else 0
  {
    var i := VictimIs(h, s, hand);
    LiveChange(s, Swapped(h, s, hand).0, Victim(h, s, hand), |s.discard|);
  }

  /** Displacement hands epochs around but adds at most the one it started with. */
  lemma {:induction false} DisplaceLive(h: Hash, s: State, hand: Hand, depth: nat)
    requires Shaped(s)
    ensures var t := Displace(h, s, hand, depth).state;
      && LiveCount(t) <= LiveCount(s) + (if hand.recent then 1 else 0)
      && t.counter == s.counter && t.epochSize == s.epochSize && t.depthLimit == s.depthLimit
    decreases depth
  {
    if depth > 0 {
      var locs := Locs(h, |s.slots|, hand.element);
      var i := FindDiscard(s.discard, locs, 0);
      if i < 8 {
        LiveChange(s, Placed(s, locs[i], hand.element, hand.recent), locs[i], |s.discard|);
      } else {
        SwappedLive(h, s, hand);
        var (t, next) := Swapped(h, s, hand);
        DisplaceLive(h, t, next, depth - 1);
      }
    }
  }

  function Limit(epochSize: nat): nat { epochSize + Max(1, epochSize / 16) }

  /** The live entries of the current epoch together with the insertions until the next scan. */
  ghost predicate Bounded(s: State)
    requires Shaped(s)
  {
    s.epochSize >= 1 && LiveCount(s) + s.counter <= Limit(s.epochSize)
  }

  /** After the check there is room for one more. */
  lemma EpochRoom(s: State)
    requires Shaped(s) && Bounded(s)
    ensures var c := EpochChecked(s);
      Shaped(c) && c.epochSize == s.epochSize && LiveCount(c) + c.counter + 1 <= Limit(c.epochSize)
  {
    if s.counter == 0 {
      if LiveCount(s) >= s.epochSize {
        LiveNone(Aged(s), |s.discard|);
      } else {
        SameLive(s, EpochChecked(s), |s.discard|);
      }
    } else {
      SameLive(s, EpochChecked(s), |s.discard|);
    }
  }

  lemma {:induction false} SameLive(s: State, t: State, n: nat)
    requires n <= |s.discard| == |s.recent| && s.discard == t.discard && s.recent == t.recent
    ensures Live(s, n) == Live(t, n)
  {
    if n > 0 {
      SameLive(s, t, n - 1);
    }
  }

  lemma InsertBounded(h: Hash, s: State, e: Element)
    requires Shaped(s) && Bounded(s)
    ensures Bounded(Insert(h, s, e).After())
  {
    EpochRoom(s);
    var c := EpochChecked(s);
    var locs := Locs(h, |c.slots|, e);
    var i := FindElement(c.slots, locs, e, 0);
    if i < 8 {
      LiveChange(c, Insert(h, s, e).After(), locs[i], |c.discard|);
    } else {
      DisplaceLive(h, c, Hand(e, true, INVALID), c.depthLimit);
    }
  }

  lemma LookupBounded(h: Hash, s: State, e: Element, erase: bool)
    requires Shaped(s) && Bounded(s)
    ensures Bounded(Lookup(h, s, e, erase).0)
  {
    var locs := Locs(h, |s.slots|, e);
    var i := FindElement(s.slots, locs, e, 0);
    if i < 8 {
      LiveChange(s, Lookup(h, s, e, erase).0, locs[i], |s.discard|);
    }
  }

  // ----- Every run after set up -----

  lemma SetUpOk(h: Hash, s: State, newSize: U32, depthLimit: nat)
    ensures Shaped(SetUp(s, newSize, depthLimit))
    ensures AllAtHome(h, SetUp(s, newSize, depthLimit)) && Bounded(SetUp(s, newSize, depthLimit))
  {
    var t := SetUp(s, newSize, depthLimit);
    LiveNone(t, |t.discard|);
  }

  lemma {:induction false} EveryRun(h: Hash, s: State, newSize: U32, depthLimit: nat, ops: seq<Op>)
    ensures Shaped(SetUp(s, newSize, depthLimit))
    ensures var t := PerformAll(h, SetUp(s, newSize, depthLimit), ops);
      && AllAtHome(h, t) && Bounded(t)
      && LiveCount(t) <= t.epochSize + if t.epochSize < 32 then 1 else t.epochSize / 16
    decreases |ops|
  {
    SetUpOk(h, s, newSize, depthLimit);
    if ops != [] {
      EveryRun(h, s, newSize, depthLimit, ops[..|ops| - 1]);
      var t := PerformAll(h, SetUp(s, newSize, depthLimit), ops[..|ops| - 1]);
      match ops[|ops| - 1]
      case Insertion(e) =>
        InsertHome(h, t, e);
        InsertBounded(h, t, e);
      case Query(e, erase) =>
        LookupHome(h, t, e, erase);
        LookupBounded(h, t, e, erase);
    }
  }
}
