/**
 The cuckoo cache object (src/cuckoocache.h): its bit-packed collection flags and the loops that
 compute the operations of Cuckoo.dfy.
 */
module CuckooFlags {
  import opened ByteBits
  import opened Uint32

  lemma SamePlace(i: nat, s: nat)
    ensures i / 8 == s / 8 && i % 8 == s % 8 <==> i == s
  {
  }

  /** One bit per slot, eight to a byte; a set bit means the slot may be discarded. */
  class BitPackedFlags {
    var mem: array<bv8>

    /** What was last written to each bit, padding included. */
    ghost var marks: seq<bool>

    ghost predicate Valid()
      reads this, mem
    {
      |marks| == 8 * mem.Length && forall i: nat :: i < |marks| ==> marks[i] == BitOf(mem[i / 8], i % 8)
    }

    /** The padded size is computed in 32 bits: there is room for the slots exactly when adding 7 does not
        wrap, and for none otherwise. */
    constructor (size: U32)
      ensures Valid() && fresh(mem) && (forall i :: 0 <= i < |marks| ==> marks[i])
      ensures if size <= 0xFFFF_FFF8 then size <= |marks| < size + 8 else |marks| == 0
    {
      mem := new bv8[(size + 7) % 0x1_0000_0000 / 8];
      new;
      Fill();
    }

    method Fill()
      modifies this`marks, mem
      ensures Valid() && forall i :: 0 <= i < |marks| ==> marks[i]
    {
      for i := 0 to mem.Length
        invariant forall j :: 0 <= j < i ==> mem[j] == 0xFF
      {
        mem[i] := 0xFF;
      }
      marks := seq(8 * mem.Length, _ => true);
      forall i: nat | i < |marks| ensures marks[i] == BitOf(mem[i / 8], i % 8) {
        AllSet(i % 8);
      }
    }

    /** Marks everything discardable, with room for `b` slots unless b + 7 wraps. */
    method Setup(b: U32)
      modifies this
      ensures Valid() && fresh(mem) && (forall i :: 0 <= i < |marks| ==> marks[i])
      ensures if b <= 0xFFFF_FFF8 then b <= |marks| < b + 8 else |marks| == 0
    {
      var d := new BitPackedFlags(b);
      mem := d.mem;
      marks := d.marks;
    }

    method BitSet(s: nat)
      requires Valid() && s < |marks|
      modifies this`marks, mem
      ensures Valid() && marks == old(marks)[s := true]
    {
      hide BitOf, BitMask;
      ghost var was := mem[s / 8];
      mem[s / 8] := mem[s / 8] | BitMask(s % 8);
      marks := marks[s := true];
      forall i: nat | i < |marks| ensures marks[i] == BitOf(mem[i / 8], i % 8) {
        SamePlace(i, s);
        if i / 8 == s / 8 {
          SetBit(was, s % 8, i % 8);
        }
      }
    }

    method BitUnset(s: nat)
      requires Valid() && s < |marks|
      modifies this`marks, mem
      ensures Valid() && marks == old(marks)[s := false]
    {
      hide BitOf, BitMask;
      ghost var was := mem[s / 8];
      mem[s / 8] := mem[s / 8] & !BitMask(s % 8);
      marks := marks[s := false];
      forall i: nat | i < |marks| ensures marks[i] == BitOf(mem[i / 8], i % 8) {
        SamePlace(i, s);
        if i / 8 == s / 8 {
          ClearBit(was, s % 8, i % 8);
        }
      }
    }

    /** What was last written to the bit. */
    method BitIsSet(s: nat) returns (r: bool)
      requires Valid() && s < |marks|
      ensures r == marks[s]
    {
      r := BitMask(s % 8) & mem[s / 8] != 0;
    }
  }
}

module CuckooCache {
  import opened Cuckoo
  import opened CuckooFlags
  import opened Uint32

  class Cache {
    const hash: Hash
    var table: seq<Element>
    var size: nat
    const collectionFlags: BitPackedFlags
    var epochFlags: seq<bool>
    var epochHeuristicCounter: nat
    var epochSize: nat
    var depthLimit: nat

    /** The object is its state: sizes agree and nothing more. */
    ghost predicate Valid()
      reads this, collectionFlags, collectionFlags.mem
    {
      && 2 <= size < 0x1_0000_0000
      && |table| == size && |epochFlags| == size && size <= |collectionFlags.marks| && collectionFlags.Valid()
    }

    ghost function Model(): (s: State)
      reads this, collectionFlags, collectionFlags.mem
      requires size <= |collectionFlags.marks|
      ensures Valid() ==> Shaped(s)
    {
      State(table, collectionFlags.marks[..size], epochFlags, epochHeuristicCounter, epochSize, depthLimit)
    }

    constructor (hash: Hash)
      ensures this.hash == hash && fresh(collectionFlags) && fresh(collectionFlags.mem) && collectionFlags.Valid()
      ensures size == 0 && Model() == State([], [], [], 0, 0, 0)
    {
      this.hash := hash;
      var f := new BitPackedFlags(0);
      collectionFlags := f;
      table, size, epochFlags, epochHeuristicCounter, epochSize, depthLimit := [], 0, [], 0, 0, 0;
    }

    /** Sizes within 7 of 2^32 leave the flags without any room. */
    method Setup(newSize: U32, limit: nat) returns (n: nat)
      requires size <= |collectionFlags.marks|
      modifies this, collectionFlags
      ensures n == size == Max(2, newSize) && fresh(collectionFlags.mem)
      ensures if newSize <= 0xFFFF_FFF8 then Valid() && Model() == SetUp(old(Model()), newSize, limit)
              else |collectionFlags.marks| == 0
    {
      depthLimit := limit;
      size := Max(2, newSize);
      table := Resized(table, size, 0);
      collectionFlags.Setup(size);
      epochFlags := Resized(epochFlags, size, false);
      epochSize := Max(1, 45 * size % 0x1_0000_0000 / 100);
      epochHeuristicCounter := epochSize;
      n := size;
    }

    method AllowErase(n: nat)
      requires Valid() && n < size
      modifies collectionFlags`marks, collectionFlags.mem
      ensures Valid() && Model() == old(Model()).(discard := old(Model()).discard[n := true])
    {
      collectionFlags.BitSet(n);
    }

    method PleaseKeep(n: nat)
      requires Valid() && n < size
      modifies collectionFlags`marks, collectionFlags.mem
      ensures Valid() && Model() == old(Model()).(discard := old(Model()).discard[n := false])
    {
      collectionFlags.BitUnset(n);
    }

    method CountUnused() returns (count: nat)
      requires Valid()
      ensures count == LiveCount(Model())
    {
      hide Live;
      ghost var m := Model();
      LiveNext(m, 0);
      count := 0;
      for i := 0 to size
        invariant count == Live(m, i)
      {
        var marked := collectionFlags.BitIsSet(i);
        LiveNext(m, i);
        if epochFlags[i] && !marked {
          count := count + 1;
        }
      }
    }

    /** Age every entry: the old epoch may be erased, the current one becomes old. */
    method AgeEntries()
      requires Valid()
      modifies this`epochFlags, collectionFlags`marks, collectionFlags.mem
      ensures Valid()
      ensures Model().discard == Aged(old(Model())).discard && Model().recent == Aged(old(Model())).recent
    {
      ghost var d, r := Model().discard, epochFlags;
      for i := 0 to size
        invariant Valid()
        invariant forall j :: 0 <= j < size ==> epochFlags[j] == (j >= i && r[j])
        invariant forall j :: 0 <= j < size ==> collectionFlags.marks[j] == (d[j] || (j < i && !r[j]))
      {
        if epochFlags[i] {
          epochFlags := epochFlags[i := false];
        } else {
          collectionFlags.BitSet(i);
        }
      }
    }

    method EpochCheck()
      requires Valid()
      modifies this`epochFlags, this`epochHeuristicCounter, collectionFlags`marks, collectionFlags.mem
      ensures Valid() && Model() == EpochChecked(old(Model()))
    {
      if epochHeuristicCounter != 0 {
        epochHeuristicCounter := epochHeuristicCounter - 1;
        return;
      }
      var unused := CountUnused();
      if unused >= epochSize {
        AgeEntries();
        epochHeuristicCounter := epochSize;
      } else {
        epochHeuristicCounter := Max(1, Max(epochSize / 16, epochSize - unused));
      }
    }

    /** The first loop of insert: if the element is in one of its slots, keep it there. */
    method KeepIfPresent(e: Element, locs: seq<nat>) returns (found: bool)
      requires Valid() && locs == Locs(hash, size, e)
      modifies this`epochFlags, collectionFlags`marks, collectionFlags.mem
      ensures Valid()
      ensures var i := FindElement(old(Model()).slots, locs, e, 0);
        && (found <==> i < 8)
        && Model() == if found then old(Model()).(discard := old(Model()).discard[locs[i] := false],
                                                  recent := old(Model()).recent[locs[i] := true])
                      else old(Model())
    {
      for i := 0 to 8
        invariant FindElement(table, locs, e, 0) == FindElement(table, locs, e, i)
        invariant Valid() && Model() == old(Model())
      {
        if table[locs[i]] == e {
          PleaseKeep(locs[i]);
          epochFlags := epochFlags[locs[i] := true];
          return true;
        }
      }
      found := false;
    }

    /** One round's search for a discardable slot. */
    method PlaceIfRoom(e: Element, epoch: bool, locs: seq<nat>) returns (placed: bool)
      requires Valid() && locs == Locs(hash, size, e)
      modifies this`table, this`epochFlags, collectionFlags`marks, collectionFlags.mem
      ensures Valid()
      ensures var i := FindDiscard(old(Model()).discard, locs, 0);
        && (placed <==> i < 8)
        && Model() == if placed then Placed(old(Model()), locs[i], e, epoch) else old(Model())
    {
      for i := 0 to 8
        invariant Valid() && Model() == old(Model())
        invariant FindDiscard(Model().discard, locs, 0) == FindDiscard(Model().discard, locs, i)
      {
        var marked := collectionFlags.BitIsSet(locs[i]);
        if marked {
          table := table[locs[i] := e];
          PleaseKeep(locs[i]);
          epochFlags := epochFlags[locs[i] := epoch];
          return true;
        }
      }
      placed := false;
    }

    /** std::find over the locations. */
    method Search(locs: seq<nat>, loc: nat) returns (i: nat)
      requires |locs| == 8
      ensures i == IndexOf(locs, loc, 0)
    {
      i := 0;
      while i < 8 && locs[i] != loc
        invariant i <= 8 && IndexOf(locs, loc, 0) == IndexOf(locs, loc, i)
      {
        i := i + 1;
      }
    }

    method Swap(e: Element, epoch: bool, lastLoc: nat, locs: seq<nat>)
      returns (e': Element, epoch': bool, lastLoc': nat)
      requires Valid() && locs == Locs(hash, size, e)
      modifies this`table, this`epochFlags
      ensures Valid() && (Model(), Hand(e', epoch', lastLoc')) == Swapped(hash, old(Model()), Hand(e, epoch, lastLoc))
    {
      var k := Search(locs, lastLoc);
      lastLoc' := locs[(1 + k) % 8];
      e' := table[lastLoc'];
      table := table[lastLoc' := e];
      epoch' := epochFlags[lastLoc'];
      epochFlags := epochFlags[lastLoc' := epoch];
    }

    method Insert(element: Element)
      requires Valid()
      modifies this, collectionFlags`marks, collectionFlags.mem
      ensures Valid() && Model() == Cuckoo.Insert(hash, old(Model()), element).After()
    {
      EpochCheck();
      var locs := Locs(hash, size, element);
      var found := KeepIfPresent(element, locs);
      if found {
        return;
      }
      Push(element, locs);
    }

    /** The displacement rounds of insert. */
    method Push(element: Element, elementLocs: seq<nat>)
      requires Valid() && elementLocs == Locs(hash, size, element)
      modifies this`table, this`epochFlags, collectionFlags`marks, collectionFlags.mem
      ensures Valid() && Model() == Displace(hash, old(Model()), Hand(element, true, INVALID), depthLimit).state
    {
      hide Displace, Swapped, Placed, FindDiscard, Locs;
      var e, lastLoc, lastEpoch, locs := element, INVALID, true, elementLocs;
      ghost var result := Displace(hash, Model(), Hand(e, true, INVALID), depthLimit);
      for depth := 0 to depthLimit
        invariant Valid() && locs == Locs(hash, size, e)
        invariant Displace(hash, Model(), Hand(e, lastEpoch, lastLoc), depthLimit - depth) == result
      {
        DisplaceRound(hash, Model(), Hand(e, lastEpoch, lastLoc), depthLimit - depth);
        var placed := PlaceIfRoom(e, lastEpoch, locs);
        if placed {
          return;
        }
        e, lastEpoch, lastLoc := Swap(e, lastEpoch, lastLoc, locs);
        locs := Locs(hash, size, e);
      }
      DisplaceRound(hash, Model(), Hand(e, lastEpoch, lastLoc), 0);
    }

    method Contains(e: Element, erase: bool) returns (found: bool)
      requires Valid()
      modifies collectionFlags`marks, collectionFlags.mem
      ensures Valid() && (Model(), found) == Lookup(hash, old(Model()), e, erase)
    {
      var locs := Locs(hash, size, e);
      for i := 0 to 8
        invariant FindElement(table, locs, e, 0) == FindElement(table, locs, e, i)
        invariant Valid() && Model() == old(Model())
      {
        if table[locs[i]] == e {
          if erase {
            AllowErase(locs[i]);
          }
          return true;
        }
      }
      found := false;
    }
  }
}
