/**
 64-bit words as their bits, lowest first, with the operators that work bit by bit.
 */
module Words {
  type Word = w: seq<bool> | |w| == 64 witness seq(64, _ => false)

  const ZERO: Word := seq(64, _ => false)

  function And(x: Word, y: Word): Word { seq(64, i requires 0 <= i < 64 => x[i] && y[i]) }
  function Or(x: Word, y: Word): Word { seq(64, i requires 0 <= i < 64 => x[i] || y[i]) }
  function Xor(x: Word, y: Word): Word { seq(64, i requires 0 <= i < 64 => x[i] != y[i]) }
  function Not(x: Word): Word { seq(64, i requires 0 <= i < 64 => !x[i]) }

  /** b << k for a single bit b. */
  function ShiftLeft(b: bool, k: nat): Word { seq(64, i => i == k && b) }

  /** 0 - b for a single bit b. */
  function Negated(b: bool): Word { seq(64, _ => b) }
}

/**
 Generation marks of the rolling Bloom filter (src/bloom.cpp).  A position has one bit in each word of a
 pair; the two bits are the number of the generation that set it, or 0.
 */
module Marks {
  import opened Words

  function Mark(x: Word, y: Word, k: nat): (m: nat)
    requires k < 64
    ensures m <= 3
  {
    (if x[k] then 1 else 0) + if y[k] then 2 else 0
  }

  /** nGeneration & 1 and nGeneration >> 1 */
  function Low(g: nat): bool { g % 2 == 1 }
  function High(g: nat): bool { g / 2 == 1 }

  /** Bit k replaced by b. */
  function SetTo(x: Word, k: nat, b: bool): Word { Or(And(x, Not(ShiftLeft(true, k))), ShiftLeft(b, k)) }

  /** Writing a generation into a position marks that position only. */
  lemma MarkWritten(x: Word, y: Word, k: nat, g: nat, j: nat)
    requires 1 <= g <= 3 && j < 64
    ensures Mark(SetTo(x, k, Low(g)), SetTo(y, k, High(g)), j) == if j == k then g else Mark(x, y, j)
  {
  }

  /** The bits that differ from those of generation g in either word. */
  function KeepMask(x: Word, y: Word, g: nat): Word {
    Or(Xor(x, Negated(Low(g))), Xor(y, Negated(High(g))))
  }

  /** The masked wipe clears exactly the positions of generation g. */
  lemma MarkWiped(x: Word, y: Word, g: nat, k: nat)
    requires 1 <= g <= 3 && k < 64
    ensures Mark(And(x, KeepMask(x, y, g)), And(y, KeepMask(x, y, g)), k) == if Mark(x, y, k) == g then 0
      else Mark(x, y, k)
  {
  }
}

/**
 The rolling Bloom filter (src/bloom.h, src/bloom.cpp): every position of the filter carries the number
 of the generation that last set it, and starting a generation wipes what the third-last one left.
 */
module RollingBloom {
  import opened Words
  import opened Marks
  import opened Uint32

  type Key = seq<nat>
  type Hash = (U32, Key) -> U32

  function NextGeneration(g: nat): nat { if g + 1 == 4 then 1 else g + 1 }

  /** Set at most `age` generations ago, with g being the current one. */
  predicate Within(m: nat, g: nat, age: nat) {
    && 1 <= m <= 3
    && (m == g || (age >= 1 && NextGeneration(m) == g) || age >= 2)
  }

  /** Generations are numbered 1, 2 and 3 in turn; 0 marks nothing. */
  lemma GenerationsCycle()
    ensures NextGeneration(1) == 2 && NextGeneration(2) == 3 && NextGeneration(3) == 1
  {
  }

  /** When a generation starts, the marks of the last two are one generation older and not reused. */
  lemma Older(m: nat, g: nat, age: nat)
    requires Within(m, g, age) && age <= 1 && 1 <= g <= 3
    ensures m != NextGeneration(g) && Within(m, NextGeneration(g), age + 1)
  {
  }

  // ----- Positions of a key -----

  datatype Place = Place(w: nat, k: nat)

  function FastMod(x: U32, n: nat): (r: nat)
    ensures n > 0 ==> r < n && r * 0x1_0000_0000 <= x * n < r * 0x1_0000_0000 + 0x1_0000_0000
  {
    if n > 0 then Scaled(x, n) else 0
  }

  function RollingBloomHash(h: Hash, n: nat, tweak: U32, key: Key): U32 {
    h((n * 0xFBA4C795 + tweak) % 0x1_0000_0000, key)
  }

  function PlaceOf(h: Hash, n: nat, tweak: U32, key: Key, size: nat): (p: Place)
    requires size > 0 && size % 2 == 0
    ensures 2 * p.w + 1 < size && p.k < 64
  {
    var x := RollingBloomHash(h, n, tweak, key);
    Place(FastMod(x, size) / 2, x % 64)
  }

  /** The multiplier is odd, so that no two hash functions of a key have the same seed. */
  lemma SeedsDiffer(m: nat, n: nat, tweak: U32, key: Key)
    requires m < n < 0x1_0000_0000
    ensures var seed: Hash := (s, _) => s;
      RollingBloomHash(seed, m, tweak, key) != RollingBloomHash(seed, n, tweak, key)
  {
    SameSeed(m * 0xFBA4C795 + tweak, n * 0xFBA4C795 + tweak, n - m);
  }

  lemma SameSeed(x: nat, y: nat, d: nat)
    requires y - x == d * 0xFBA4C795 && 0 < d < 0x1_0000_0000
    ensures x % 0x1_0000_0000 != y % 0x1_0000_0000
  {
    if x % 0x1_0000_0000 == y % 0x1_0000_0000 {
      var p, q, r := x / 0x1_0000_0000, y / 0x1_0000_0000, x % 0x1_0000_0000;
      SameRest(x, y, p, q, r);
      OddFactor(d, q - p);
    }
  }

  lemma SameRest(x: nat, y: nat, p: nat, q: nat, r: nat)
    requires x == p * 0x1_0000_0000 + r && y == q * 0x1_0000_0000 + r
    ensures y - x == (q - p) * 0x1_0000_0000
  {
  }

  lemma OddFactor(d: int, k: int)
    requires d * 0xFBA4C795 == k * 0x1_0000_0000
    ensures d % 0x1_0000_0000 == 0
  {
    assert 0xFBA4C795 * 0x75604BBD == 1 + 0x7360F775 * 0x1_0000_0000;
    assert d == 0x1_0000_0000 * (k * 0x75604BBD - d * 0x7360F775);
  }

  /** A key marks, for each hash, the bit of its low six bits, in the pair of words that the whole of it is
      scaled to. */
  lemma PlaceExactly(h: Hash, n: nat, tweak: U32, key: Key, size: nat)
    requires size > 0 && size % 2 == 0
    ensures var x, p := RollingBloomHash(h, n, tweak, key), PlaceOf(h, n, tweak, key, size);
      && p.k == x % 64
      && 2 * p.w * 0x1_0000_0000 <= x * size < (2 * p.w + 2) * 0x1_0000_0000
  {
  }

  /** One of the first n positions of the key. */
  ghost predicate Hit(h: Hash, n: nat, tweak: U32, key: Key, size: nat, p: Place)
    requires size > 0 && size % 2 == 0
  {
    exists i: nat :: i < n && PlaceOf(h, i, tweak, key, size) == p
  }

  class RollingBloomFilter {
    const hash: Hash
    const nEntriesPerGeneration: nat
    const nHashFuncs: nat
    const data: array<Word>
    var nEntriesThisGeneration: nat
    var nGeneration: nat
    var nTweak: U32

    /** The keys inserted since the last reset. */
    ghost var history: seq<Key>

    ghost predicate Shaped()
      reads this
    {
      data.Length > 0 && data.Length % 2 == 0 && 1 <= nGeneration <= 3
    }

    function MarkAt(w: nat, k: nat): nat
      requires 2 * w + 1 < data.Length && k < 64
      reads this, data
    {
      Mark(data[2 * w], data[2 * w + 1], k)
    }

    /** Every position of the key was set at most `age` generations ago. */
    ghost predicate Kept(key: Key, age: nat)
      requires Shaped()
      reads this, data
    {
      forall n: nat :: n < nHashFuncs ==>
        var p := PlaceOf(hash, n, nTweak, key, data.Length);
        Within(MarkAt(p.w, p.k), nGeneration, age)
    }

    ghost predicate Remembers(i: nat)
      requires Shaped() && i < |history|
      reads this, data
    {
      && (|history| - nEntriesThisGeneration <= i ==> Kept(history[i], 0))
      && (|history| - nEntriesThisGeneration - nEntriesPerGeneration <= i ==> Kept(history[i], 1))
      && (|history| - nEntriesThisGeneration - 2 * nEntriesPerGeneration <= i ==> Kept(history[i], 2))
    }

    ghost predicate Valid()
      reads this, data
    {
      Shaped() && forall i: nat :: i < |history| ==> Remembers(i)
    }

    /** The hash count and the size come from floating-point formulas and are arbitrary here. */
    constructor (hash: Hash, nElements: nat, hashFuncs: nat, pairs: nat, tweak: U32)
      requires pairs >= 1
      ensures Valid() && history == [] && fresh(data) && data.Length == 2 * pairs
      ensures this.hash == hash && nHashFuncs == hashFuncs && nEntriesPerGeneration == (nElements + 1) / 2
      ensures nTweak == tweak && forall w: nat, k: nat :: k < 64 && 2 * w + 1 < data.Length ==> MarkAt(w, k) == 0
    {
      this.hash, nHashFuncs, nEntriesPerGeneration := hash, hashFuncs, (nElements + 1) / 2;
      data := new Word[2 * pairs];
      nGeneration, nEntriesThisGeneration, nTweak, history := 1, 0, 0, [];
      new;
      Reset(tweak);
    }

    method Reset(tweak: U32)
      requires Shaped()
      modifies this, data
      ensures Valid() && history == [] && nTweak == tweak && nEntriesThisGeneration == 0 && nGeneration == 1
      ensures forall w: nat, k: nat :: k < 64 && 2 * w + 1 < data.Length ==> MarkAt(w, k) == 0
    {
      nTweak, nEntriesThisGeneration, nGeneration, history := tweak, 0, 1, [];
      for i := 0 to data.Length
        modifies data
        invariant forall j :: 0 <= j < i ==> data[j] == ZERO
      {
        data[i] := ZERO;
      }
    }

    /** Wipe old entries that used this generation number. */
    method Wipe()
      requires Shaped()
      modifies data
      ensures forall w: nat, k: nat :: k < 64 && 2 * w + 1 < data.Length ==>
        MarkAt(w, k) == if old(MarkAt(w, k)) == nGeneration then 0 else old(MarkAt(w, k))
    {
      hide Mark, KeepMask, And;
      var p := 0;
      while p < data.Length
        invariant p % 2 == 0 && p <= data.Length
        invariant forall j :: p <= j < data.Length ==> data[j] == old(data[j])
        invariant forall w: nat, k: nat :: k < 64 && 2 * w < p ==>
          MarkAt(w, k) == if old(MarkAt(w, k)) == nGeneration then 0 else old(MarkAt(w, k))
      {
        var p1, p2 := data[p], data[p + 1];
        var mask := KeepMask(p1, p2, nGeneration);
        data[p], data[p + 1] := And(p1, mask), And(p2, mask);
        forall k: nat | k < 64 ensures MarkAt(p / 2, k) == if old(MarkAt(p / 2, k)) == nGeneration then 0
          else old(MarkAt(p / 2, k)) {
          MarkWiped(p1, p2, nGeneration, k);
        }
        p := p + 2;
      }
    }

    method StartGeneration()
      requires Valid() && nEntriesThisGeneration == nEntriesPerGeneration
      modifies this, data
      ensures Valid() && history == old(history) && nTweak == old(nTweak)
      ensures nEntriesThisGeneration == 0 && nGeneration == NextGeneration(old(nGeneration))
      ensures forall w: nat, k: nat :: k < 64 && 2 * w + 1 < data.Length ==>
        MarkAt(w, k) == if old(MarkAt(w, k)) == nGeneration then 0 else old(MarkAt(w, k))
    {
      ghost var g := nGeneration;
      nEntriesThisGeneration := 0;
      nGeneration := nGeneration + 1;
      if nGeneration == 4 {
        nGeneration := 1;
      }
      Wipe();
      forall i: nat | i < |history| ensures Remembers(i) {
        assert old(Remembers(i));
        Aged(history[i]);
        assert Kept(history[i], 0 + 1) || !old(Kept(history[i], 0));
        assert Kept(history[i], 1 + 1) || !old(Kept(history[i], 1));
      }
    }

    twostate lemma Aged(key: Key)
      requires old(Shaped()) && Shaped()
      requires nTweak == old(nTweak) && nGeneration == NextGeneration(old(nGeneration))
      requires forall w: nat, k: nat :: k < 64 && 2 * w + 1 < data.Length ==>
        MarkAt(w, k) == if old(MarkAt(w, k)) == nGeneration then 0 else old(MarkAt(w, k))
      ensures forall age: nat :: age <= 1 && old(Kept(key, age)) ==> Kept(key, age + 1)
    {
      forall age: nat | age <= 1 && old(Kept(key, age)) ensures Kept(key, age + 1) {
        forall n: nat | n < nHashFuncs
          ensures var p := PlaceOf(hash, n, nTweak, key, data.Length); Within(MarkAt(p.w, p.k), nGeneration, age + 1)
        {
          var p := PlaceOf(hash, n, nTweak, key, data.Length);
          Older(old(MarkAt(p.w, p.k)), old(nGeneration), age);
        }
      }
    }

    /** Mark the key's positions with the current generation. */
    method MarkKey(key: Key)
      requires Shaped()
      modifies data
      ensures forall w: nat, k: nat :: k < 64 && 2 * w + 1 < data.Length ==>
        MarkAt(w, k) == if Hit(hash, nHashFuncs, nTweak, key, data.Length, Place(w, k)) then nGeneration
          else old(MarkAt(w, k))
    {
      for n := 0 to nHashFuncs
        invariant forall w: nat, k: nat :: k < 64 && 2 * w + 1 < data.Length ==>
          MarkAt(w, k) == if Hit(hash, n, nTweak, key, data.Length, Place(w, k)) then nGeneration else old(MarkAt(w, k))
      {
        var h := RollingBloomHash(hash, n, nTweak, key);
        var bit := h % 64;
        var pos := FastMod(h, data.Length);
        WriteMark(pos / 2, bit);
        forall w: nat, k: nat | k < 64 && 2 * w + 1 < data.Length
          ensures Hit(hash, n + 1, nTweak, key, data.Length, Place(w, k))
             <==> (|| Hit(hash, n, nTweak, key, data.Length, Place(w, k))
                   || Place(w, k) == PlaceOf(hash, n, nTweak, key, data.Length))
        {
          HitNext(hash, n, nTweak, key, data.Length, Place(w, k));
        }
      }
    }

    /** The two assignments for one position: `pos & ~1` is 2 * w and `pos | 1` is 2 * w + 1. */
    method WriteMark(w: nat, bit: nat)
      requires Shaped() && 2 * w + 1 < data.Length && bit < 64
      modifies data
      ensures forall v: nat, k: nat :: k < 64 && 2 * v + 1 < data.Length ==>
        MarkAt(v, k) == if v == w && k == bit then nGeneration else old(MarkAt(v, k))
    {
      ghost var x, y := data[2 * w], data[2 * w + 1];
      data[2 * w] := SetTo(data[2 * w], bit, Low(nGeneration));
      data[2 * w + 1] := SetTo(data[2 * w + 1], bit, High(nGeneration));
      forall k: nat | k < 64 ensures MarkAt(w, k) == if k == bit then nGeneration else old(MarkAt(w, k)) {
        MarkWritten(x, y, bit, nGeneration, k);
      }
    }

    method Insert(key: Key)
      requires Valid()
      modifies this, data
      ensures Valid() && history == old(history) + [key] && nTweak == old(nTweak)
      ensures var roll := old(nEntriesThisGeneration) == nEntriesPerGeneration;
        && nEntriesThisGeneration == (if roll then 1 else old(nEntriesThisGeneration) + 1)
        && nGeneration == (if roll then NextGeneration(old(nGeneration)) else old(nGeneration))
        && forall w: nat, k: nat :: k < 64 && 2 * w + 1 < data.Length ==>
             MarkAt(w, k) == if Hit(hash, nHashFuncs, nTweak, key, data.Length, Place(w, k)) then nGeneration
                             else if roll && old(MarkAt(w, k)) == nGeneration then 0
                             else old(MarkAt(w, k))
    {
      if nEntriesThisGeneration == nEntriesPerGeneration {
        StartGeneration();
      }
      Add(key);
    }

    method Add(key: Key)
      requires Valid()
      modifies this, data
      ensures Valid() && history == old(history) + [key] && nTweak == old(nTweak) && nGeneration == old(nGeneration)
      ensures nEntriesThisGeneration == old(nEntriesThisGeneration) + 1
      ensures forall w: nat, k: nat :: k < 64 && 2 * w + 1 < data.Length ==>
        MarkAt(w, k) == if Hit(hash, nHashFuncs, nTweak, key, data.Length, Place(w, k)) then nGeneration
          else old(MarkAt(w, k))
    {
      nEntriesThisGeneration := nEntriesThisGeneration + 1;
      MarkKey(key);
      history := history + [key];
      JustMarked(key);
      Remarked(key);
      forall i: nat | i < |history| - 1 ensures Remembers(i) {
        assert old(Remembers(i));
      }
    }

    /** Marking another key only makes marks younger. */
    twostate lemma Remarked(other: Key)
      requires old(Shaped()) && Shaped() && nTweak == old(nTweak) && nGeneration == old(nGeneration)
      requires forall w: nat, k: nat :: k < 64 && 2 * w + 1 < data.Length ==>
        MarkAt(w, k) == if Hit(hash, nHashFuncs, nTweak, other, data.Length, Place(w, k)) then nGeneration
          else old(MarkAt(w, k))
      ensures forall key: Key, age: nat :: old(Kept(key, age)) ==> Kept(key, age)
    {
      forall key: Key, age: nat | old(Kept(key, age)) ensures Kept(key, age) {
        forall n: nat | n < nHashFuncs
          ensures var p := PlaceOf(hash, n, nTweak, key, data.Length); Within(MarkAt(p.w, p.k), nGeneration, age)
        {
          var p := PlaceOf(hash, n, nTweak, key, data.Length);
          assert old(Within(MarkAt(p.w, p.k), nGeneration, age));
        }
      }
    }

    lemma JustMarked(key: Key)
      requires Shaped()
      requires forall w: nat, k: nat :: k < 64 && 2 * w + 1 < data.Length ==>
        (Hit(hash, nHashFuncs, nTweak, key, data.Length, Place(w, k)) ==> MarkAt(w, k) == nGeneration)
      ensures Kept(key, 0) && Kept(key, 1) && Kept(key, 2)
    {
      forall n: nat | n < nHashFuncs
        ensures var p := PlaceOf(hash, n, nTweak, key, data.Length); MarkAt(p.w, p.k) == nGeneration
      {
        var p := PlaceOf(hash, n, nTweak, key, data.Length);
        assert Hit(hash, nHashFuncs, nTweak, key, data.Length, Place(p.w, p.k));
      }
    }

    /** Every position of the key is marked. */
    ghost predicate Reports(key: Key)
      requires Shaped()
      reads this, data
    {
      forall n: nat :: n < nHashFuncs ==>
        var p := PlaceOf(hash, n, nTweak, key, data.Length);
        MarkAt(p.w, p.k) != 0
    }

    method Contains(key: Key) returns (r: bool)
      requires Shaped()
      ensures r <==> Reports(key)
    {
      for n := 0 to nHashFuncs
        invariant forall i: nat :: i < n ==>
          var p := PlaceOf(hash, i, nTweak, key, data.Length);
          MarkAt(p.w, p.k) != 0
      {
        var h := RollingBloomHash(hash, n, nTweak, key);
        var bit := h % 64;
        var pos := FastMod(h, data.Length);
        assert PlaceOf(hash, n, nTweak, key, data.Length) == Place(pos / 2, bit);
        if !Or(data[2 * (pos / 2)], data[2 * (pos / 2) + 1])[bit] {
          return false;
        }
      }
      r := true;
    }

    /** The last two generations' worth of keys, and those of the current generation besides, are reported. */
    lemma Retains(i: nat)
      requires Valid() && i < |history|
      requires i >= |history| - 2 * nEntriesPerGeneration - nEntriesThisGeneration
      ensures Reports(history[i])
    {
      assert Remembers(i);
    }
  }

  /** Hence at least the last nElements keys. */
  lemma RetainsElements(f: RollingBloomFilter, nElements: nat, i: nat)
    requires f.Valid() && f.nEntriesPerGeneration == (nElements + 1) / 2
    requires i < |f.history| && i >= |f.history| - nElements
    ensures f.Reports(f.history[i])
  {
    f.Retains(i);
  }

  lemma HitNext(h: Hash, n: nat, tweak: U32, key: Key, size: nat, p: Place)
    requires size > 0 && size % 2 == 0
    ensures Hit(h, n + 1, tweak, key, size, p)
      <==> Hit(h, n, tweak, key, size, p) || p == PlaceOf(h, n, tweak, key, size)
  {
    if Hit(h, n + 1, tweak, key, size, p) && p != PlaceOf(h, n, tweak, key, size) {
      var i: nat :| i < n + 1 && PlaceOf(h, i, tweak, key, size) == p;
      assert i < n;
    }
    if Hit(h, n, tweak, key, size, p) {
      var i: nat :| i < n && PlaceOf(h, i, tweak, key, size) == p;
      assert i < n + 1;
    }
  }
}
