/**
 The block index with its skip list, and chains of blocks (src/chain.h, src/chain.cpp).
 */
module Chain {
  import opened Powers
  import opened SkipHeights
  import opened SkipWalk

  // ----- Blocks -----

  class BlockIndex {
    /** Set once, when the block is linked to its predecessor. */
    const pprev: BlockIndex?
    const nHeight: nat
    const hash: nat
    const nTime: nat
    /** The work that the block's target stands for, and the sums and maxima along the line. */
    const proof: nat
    const nChainWork: nat
    const nTimeMax: nat
    /** The block and all its ancestors. */
    ghost const line: set<BlockIndex>
    var pskip: BlockIndex?

    constructor (hash: nat, time: nat, proof: nat, prev: BlockIndex?)
      requires prev != null ==> Linked(prev)
      ensures this.hash == hash && nTime == time && this.proof == proof && pprev == prev && pskip == null
      ensures nHeight == (if prev == null then 0 else prev.nHeight + 1) && Linked(this)
      ensures nChainWork == proof + if prev == null then 0 else prev.nChainWork
      ensures nTimeMax == if prev == null || prev.nTimeMax < time then time else prev.nTimeMax
    {
      this.hash, nTime, this.proof, pprev := hash, time, proof, prev;
      nChainWork := proof + if prev == null then 0 else prev.nChainWork;
      nTimeMax := if prev == null || prev.nTimeMax < time then time else prev.nTimeMax;
      nHeight := if prev == null then 0 else prev.nHeight + 1;
      pskip := null;
      line := {this} + if prev == null then {} else prev.line;
    }

    /** The rounds are those that SkipWalk.dfy counts, if every skip is built. */
    method GetAncestor(height: int) returns (r: BlockIndex?, ghost rounds: nat)
      requires Linked(this) && SkipsOk(this)
      ensures r == if 0 <= height <= nHeight then Ancestor(this, height) else null
      ensures 0 <= height <= nHeight && SkipsBuilt(this) ==> rounds == Steps(nHeight, height)
      ensures 0 <= height <= nHeight <= 0x4_0000 && SkipsBuilt(this) ==> rounds <= 110
    {
      hide Ancestor, SkipsOk, SkipsBuilt, Steps, GetSkipHeight;
      rounds := 0;
      if height > nHeight || height < 0 {
        return null, 0;
      }
      if nHeight <= 0x4_0000 {
        WalkOf110(nHeight, height);
      }
      var walk: BlockIndex := this;
      var heightWalk := nHeight;
      while heightWalk > height
        invariant Linked(walk) && SkipsOk(walk) && walk.nHeight == heightWalk >= height
        invariant Ancestor(walk, height) == Ancestor(this, height)
        invariant SkipsBuilt(this) ==> SkipsBuilt(walk) && rounds + Steps(heightWalk, height) == Steps(nHeight, height)
      {
        rounds := rounds + 1;
        StepsOnce(heightWalk, height);
        LineBelow(walk, height);
        var heightSkip := GetSkipHeight(heightWalk);
        var heightSkipPrev := GetSkipHeight(heightWalk - 1);
        if walk.pskip != null
           && (heightSkip == height
               || (heightSkip > height && !(heightSkipPrev < heightSkip - 2 && heightSkipPrev >= height))) {
          AncestorOfAncestor(walk, heightSkip, height);
          SkipsBelow(walk, heightSkip);
          BuiltBelow(walk, heightSkip);
          walk := walk.pskip;
          heightWalk := heightSkip;
        } else {
          // The source's assertion: there is a predecessor.
          assert walk.pprev != null;
          walk := walk.pprev;
          heightWalk := heightWalk - 1;
        }
      }
      StepsNone(height);
      AncestorSelf(walk);
      r := walk;
    }

    method BuildSkip()
      requires Linked(this) && (pprev != null ==> SkipsOk(pprev))
      modifies this
      ensures SkipsOk(this)
      ensures pprev != null && SkipsBuilt(pprev) ==> SkipsBuilt(this)
      ensures pprev != null ==> pskip == Ancestor(this, GetSkipHeight(nHeight))
      ensures pprev == null ==> pskip == old(pskip)
    {
      if pprev != null {
        var a, _ := pprev.GetAncestor(GetSkipHeight(nHeight));
        pskip := a;
      }
    }
  }

  /** Every block is one above its predecessor, down to a first block at height 0. */
  ghost predicate Linked(b: BlockIndex)
    decreases b.nHeight
  {
    && (b.pprev == null ==> b.nHeight == 0 && b.line == {b})
    && (b.pprev != null ==>
          b.nHeight == b.pprev.nHeight + 1 && b !in b.pprev.line && b.line == {b} + b.pprev.line && Linked(b.pprev))
  }

  /** Walking down the predecessors to a height. */
  ghost function Ancestor(b: BlockIndex, h: nat): (r: BlockIndex)
    requires Linked(b) && h <= b.nHeight
    ensures Linked(r) && r.nHeight == h
    decreases b.nHeight
  {
    if h == b.nHeight then b else Ancestor(b.pprev, h)
  }

  lemma {:induction false} AncestorOfAncestor(b: BlockIndex, k: nat, h: nat)
    requires Linked(b) && h <= k <= b.nHeight
    ensures Ancestor(Ancestor(b, k), h) == Ancestor(b, h)
    decreases b.nHeight
  {
    if k < b.nHeight {
      AncestorOfAncestor(b.pprev, k, h);
    }
  }

  /** Every skip link on the line is unset or leads to the ancestor at the skip height. */
  ghost predicate SkipsOk(b: BlockIndex)
    requires Linked(b)
    reads b.line
    decreases b.nHeight
  {
    b.pprev != null ==>
      && (b.pskip == null || (GetSkipHeight(b.nHeight) <= b.nHeight
                              && b.pskip == Ancestor(b, GetSkipHeight(b.nHeight))))
      && SkipsOk(b.pprev)
  }

  /** Every block above the first has its skip. */
  ghost predicate SkipsBuilt(b: BlockIndex)
    requires Linked(b)
    reads b.line
    decreases b.nHeight
  {
    b.pprev != null ==> b.pskip != null && SkipsBuilt(b.pprev)
  }

  lemma {:induction false} BuiltBelow(b: BlockIndex, h: nat)
    requires Linked(b) && h <= b.nHeight
    ensures SkipsBuilt(b) ==> SkipsBuilt(Ancestor(b, h))
    decreases b.nHeight
  {
    if h < b.nHeight {
      BuiltBelow(b.pprev, h);
    }
  }

  /** What a round may use. */
  lemma LineBelow(b: BlockIndex, h: nat)
    requires Linked(b) && SkipsOk(b) && h < b.nHeight
    ensures b.pprev != null && SkipsOk(b.pprev) && (SkipsBuilt(b) ==> b.pskip != null && SkipsBuilt(b.pprev))
    ensures Ancestor(b, h) == Ancestor(b.pprev, h)
    ensures b.pskip != null ==> b.pskip == Ancestor(b, GetSkipHeight(b.nHeight))
  {
  }

  lemma AncestorSelf(b: BlockIndex)
    requires Linked(b)
    ensures Ancestor(b, b.nHeight) == b
  {
  }

  lemma {:induction false} SkipsBelow(b: BlockIndex, h: nat)
    requires Linked(b) && SkipsOk(b) && h <= b.nHeight
    ensures SkipsOk(Ancestor(b, h))
    decreases b.nHeight
  {
    if h < b.nHeight {
      SkipsBelow(b.pprev, h);
    }
  }

  /** No ancestor has a later time, and one has this time. */
  ghost predicate IsTimeMax(b: BlockIndex)
    requires Linked(b)
  {
    && (forall h: nat :: h <= b.nHeight ==> Ancestor(b, h).nTime <= b.nTimeMax)
    && exists h: nat :: h <= b.nHeight && Ancestor(b, h).nTime == b.nTimeMax
  }

  lemma TimeMaxNext(b: BlockIndex)
    requires Linked(b) && b.pprev != null && IsTimeMax(b.pprev)
    requires b.nTimeMax == if b.pprev.nTimeMax < b.nTime then b.nTime else b.pprev.nTimeMax
    ensures IsTimeMax(b)
  {
    forall h: nat | h <= b.nHeight ensures Ancestor(b, h).nTime <= b.nTimeMax {
      assert h < b.nHeight ==> Ancestor(b, h) == Ancestor(b.pprev, h);
    }
    if b.nTimeMax == b.nTime {
      assert Ancestor(b, b.nHeight) == b;
    } else {
      var h: nat :| h <= b.pprev.nHeight && Ancestor(b.pprev, h).nTime == b.pprev.nTimeMax;
      assert Ancestor(b, h) == Ancestor(b.pprev, h);
    }
  }

  /** The largest time is right all along the line. */
  ghost predicate TimesOk(b: BlockIndex)
    requires Linked(b)
    decreases b.nHeight
  {
    IsTimeMax(b) && (b.pprev != null ==> TimesOk(b.pprev))
  }

  lemma {:induction false} TimesBelow(b: BlockIndex, h: nat)
    requires Linked(b) && TimesOk(b) && h <= b.nHeight
    ensures TimesOk(Ancestor(b, h))
    decreases b.nHeight
  {
    if h < b.nHeight {
      TimesBelow(b.pprev, h);
    }
  }

  /** The largest times do not decrease along the line, although the times may. */
  lemma TimesRise(b: BlockIndex, g: nat, h: nat)
    requires Linked(b) && TimesOk(b) && g <= h <= b.nHeight
    ensures Ancestor(b, g).nTimeMax <= Ancestor(b, h).nTimeMax
  {
    TimesBelow(b, g);
    TimesBelow(b, h);
    hide TimesOk, Linked;
    TimesOkIs(Ancestor(b, g));
    TimesOkIs(Ancestor(b, h));
    var k: nat :| k <= g && Ancestor(Ancestor(b, g), k).nTime == Ancestor(b, g).nTimeMax;
    AncestorOfAncestor(b, g, k);
    AncestorOfAncestor(b, h, k);
  }

  lemma TimesOkIs(b: BlockIndex)
    requires Linked(b) && TimesOk(b)
    ensures IsTimeMax(b)
  {
  }

  lemma OwnTime(b: BlockIndex, h: nat)
    requires Linked(b) && TimesOk(b) && h <= b.nHeight
    ensures Ancestor(b, h).nTime <= Ancestor(b, h).nTimeMax
  {
    TimesBelow(b, h);
    hide TimesOk, Linked;
    TimesOkIs(Ancestor(b, h));
    AncestorSelf(Ancestor(b, h));
  }

  /** Where the largest times pass t, all times before are below it and the time there is not. */
  lemma FirstReaches(b: BlockIndex, h: nat, t: int)
    requires Linked(b) && TimesOk(b) && h <= b.nHeight + 1
    requires h > 0 ==> Ancestor(b, h - 1).nTimeMax < t
    requires h <= b.nHeight ==> Ancestor(b, h).nTimeMax >= t
    ensures forall g: nat :: g < h ==> Ancestor(b, g).nTime < t
    ensures h <= b.nHeight ==> Ancestor(b, h).nTime >= t
  {
    hide TimesOk, Linked;
    forall g: nat | g < h ensures Ancestor(b, g).nTime < t {
      OwnTime(b, g);
      TimesRise(b, g, h - 1);
    }
    if h <= b.nHeight {
      TimesBelow(b, h);
      TimesOkIs(Ancestor(b, h));
      var k: nat :| k <= h && Ancestor(Ancestor(b, h), k).nTime == Ancestor(b, h).nTimeMax;
      AncestorOfAncestor(b, h, k);
    }
  }

  // ----- Chains -----

  /** a is b or one of its ancestors. */
  ghost predicate OnLine(a: BlockIndex, b: BlockIndex)
    requires Linked(b)
  {
    a.nHeight <= b.nHeight && Ancestor(b, a.nHeight) == a
  }

  lemma LowerOnLine(b: BlockIndex, a: BlockIndex, h: nat)
    requires Linked(b) && OnLine(a, b) && h <= a.nHeight
    ensures Linked(a) && OnLine(Ancestor(a, h), b)
  {
    AncestorOfAncestor(b, a.nHeight, h);
  }

  /** The highest block on both lines, if any. */
  ghost predicate LastCommon(r: BlockIndex?, a: BlockIndex, b: BlockIndex)
    requires Linked(a) && Linked(b)
  {
    && (r != null ==> OnLine(r, a) && OnLine(r, b))
    && forall h: nat :: h <= a.nHeight && h <= b.nHeight && Ancestor(a, h) == Ancestor(b, h) ==>
      r != null && h <= r.nHeight
  }

  /** How far below its start the i-th entry of a locator is: eleven single steps, then doubling ones. */
  function Offset(i: nat): nat {
    if i <= 11 then i else 9 + Pow2(i - 10)
  }

  /** The step is one as long as there are at most ten entries, and doubles with every further one. */
  lemma OffsetSteps(i: nat)
    ensures Offset(0) == 0 && Offset(i + 1) - Offset(i) == if i + 1 <= 11 then 1 else Pow2(i + 1 - 11)
  {
  }

  function HeightBelow(height: nat, offset: nat): nat {
    if offset <= height then height - offset else 0
  }

  lemma OffsetWithin(height: nat, i: nat)
    requires Offset(i) < height
    ensures i + 1 <= 11 + BitLength(height)
  {
    if i > 11 {
      BitLengthIs(height);
      if i - 10 >= BitLength(height) {
        Pow2Monotone(BitLength(height), i - 10);
      }
    }
  }

  class ActiveChain {
    var vChain: seq<BlockIndex?>

    /** Each place holds the tip's ancestor of that height. */
    ghost predicate Exact()
      reads this
    {
      vChain != [] ==>
        && vChain[|vChain| - 1] != null && Linked(vChain[|vChain| - 1]) && vChain[|vChain| - 1].nHeight == |vChain| - 1
        && forall h :: 0 <= h < |vChain| ==> vChain[h] == Ancestor(vChain[|vChain| - 1], h)
    }

    constructor ()
      ensures vChain == [] && Exact()
    {
      vChain := [];
    }

    function Tip(): (r: BlockIndex?)
      reads this
    {
      if |vChain| > 0 then vChain[|vChain| - 1] else null
    }

    function At(height: int): (r: BlockIndex?)
      reads this
    {
      if height < 0 || height >= |vChain| then null else vChain[height]
    }

    function Height(): int
      reads this
    {
      |vChain| - 1
    }

    predicate Contains(b: BlockIndex)
      reads this
    {
      At(b.nHeight) == b
    }

    function Next(b: BlockIndex): (r: BlockIndex?)
      reads this
    {
      if Contains(b) then At(b.nHeight + 1) else null
    }

    /** A chain contains exactly the line of its tip, and Next inverts the predecessor. */
    lemma ContainsLine(b: BlockIndex)
      requires Exact()
      ensures Contains(b) <==> Tip() != null && OnLine(b, Tip())
      ensures Next(b) != null ==> Next(b).pprev == b
      ensures Contains(b) && b != Tip() ==> Next(b) != null
    {
      if Contains(b) && b.nHeight + 1 < |vChain| {
        AncestorOfAncestor(Tip(), b.nHeight + 1, b.nHeight);
      }
    }

    method SetTip(tip: BlockIndex?)
      requires Exact() && (tip != null ==> Linked(tip))
      modifies this
      ensures Exact() && Tip() == tip && (tip == null ==> vChain == [])
    {
      if tip == null {
        vChain := [];
        return;
      }
      var n := tip.nHeight + 1;
      vChain := if n <= |vChain| then vChain[..n] else vChain + seq(n - |vChain|, _ => null);
      var walk: BlockIndex? := tip;
      while walk != null && vChain[walk.nHeight] != walk
        invariant |vChain| == n
        invariant walk != null ==> OnLine(walk, tip)
        invariant forall h :: 0 <= h < n && (walk == null || walk.nHeight < h) ==> vChain[h] == Ancestor(tip, h)
        invariant walk != null ==> forall h :: 0 <= h <= walk.nHeight ==> vChain[h] == old(At(h))
        decreases if walk == null then 0 else walk.nHeight + 1
      {
        vChain := vChain[walk.nHeight := walk];
        StepDown(tip, walk);
        walk := walk.pprev;
      }
      if walk != null {
        SameBelow(old(Tip()), tip, walk);
      }
    }

    /** The first block of the chain whose own time is at least t, found by halving over the largest times. */
    method FindEarliestAtLeast(t: int) returns (r: BlockIndex?)
      requires Exact() && (Tip() != null ==> TimesOk(Tip()))
      ensures r == null <==> forall h :: 0 <= h < |vChain| ==> vChain[h].nTime < t
      ensures r != null ==> Contains(r) && r.nTime >= t && forall h :: 0 <= h < r.nHeight ==> vChain[h].nTime < t
    {
      hide TimesOk, Linked, Ancestor;
      var first, count := 0, |vChain|;
      while count > 0
        invariant 0 <= first <= first + count <= |vChain|
        invariant first > 0 ==> vChain[first - 1].nTimeMax < t
        invariant first + count < |vChain| ==> vChain[first + count].nTimeMax >= t
      {
        var step := count / 2;
        if vChain[first + step].nTimeMax < t {
          first, count := first + step + 1, count - step - 1;
        } else {
          count := step;
        }
      }
      if vChain != [] {
        FirstReaches(Tip(), first, t);
      }
      r := if first == |vChain| then null else vChain[first];
    }

    method FindFork(b: BlockIndex?) returns (r: BlockIndex?)
      requires Exact() && (b != null ==> Linked(b) && SkipsOk(b))
      ensures b == null || vChain == [] ==> r == null
      ensures b != null && vChain != [] ==> LastCommon(r, b, Tip())
    {
      hide SkipsOk, SkipsBuilt, Steps, GetSkipHeight;
      if b == null {
        return null;
      }
      r := b;
      if b.nHeight > Height() {
        var a, _ := b.GetAncestor(Height());
        r := a;
      }
      while r != null && !Contains(r)
        invariant r != null ==> Linked(r) && OnLine(r, b) && r.nHeight <= Height()
        invariant forall h: nat :: h <= b.nHeight && h <= Height() && (r == null || r.nHeight < h) ==>
          Ancestor(b, h) != vChain[h]
        decreases if r == null then 0 else r.nHeight + 1
      {
        StepDown(b, r);
        r := r.pprev;
      }
    }

    /** An ancestor, from the chain itself where possible. */
    method AncestorVia(b: BlockIndex, height: nat) returns (r: BlockIndex?)
      requires Exact() && Linked(b) && height <= b.nHeight && (Contains(b) || SkipsOk(b))
      ensures r == Ancestor(b, height) && (Contains(r) || SkipsOk(r))
    {
      if Contains(b) {
        AncestorOfAncestor(Tip(), b.nHeight, height);
        r := At(height);
        assert Contains(r);
      } else {
        var a, _ := b.GetAncestor(height);
        r := a;
        SkipsBelow(b, height);
      }
    }

    /** The hashes of ever sparser ancestors of a block (by default the tip), down to the first block. */
    method GetLocator(b: BlockIndex?) returns (have: seq<nat>)
      requires Exact() && (b != null ==> Linked(b) && SkipsOk(b))
      ensures var start := if b == null then Tip() else b;
        if start == null then have == []
        else
          && 1 <= |have| <= 12 + BitLength(start.nHeight)
          && (forall i :: 0 <= i < |have| ==> have[i] == Ancestor(start, HeightBelow(start.nHeight, Offset(i))).hash)
          && (forall i :: 0 < i < |have| ==>
               HeightBelow(start.nHeight, Offset(i)) < HeightBelow(start.nHeight, Offset(i - 1)))
          && HeightBelow(start.nHeight, Offset(|have| - 1)) == 0
    {
      if b != null {
        have := LocatorFrom(b);
      } else if Tip() != null {
        TipContained();
        have := LocatorFrom(Tip());
      } else {
        have := [];
      }
    }

    lemma TipContained()
      requires Exact() && Tip() != null
      ensures Linked(Tip()) && Contains(Tip())
    {
    }

    /** The walk of GetLocator. */
    method LocatorFrom(start: BlockIndex) returns (have: seq<nat>)
      requires Exact() && Linked(start) && (Contains(start) || SkipsOk(start))
      ensures 1 <= |have| <= 12 + BitLength(start.nHeight)
      ensures forall i :: 0 <= i < |have| ==> have[i] == Ancestor(start, HeightBelow(start.nHeight, Offset(i))).hash
      ensures forall i :: 0 < i < |have| ==>
        HeightBelow(start.nHeight, Offset(i)) < HeightBelow(start.nHeight, Offset(i - 1))
      ensures HeightBelow(start.nHeight, Offset(|have| - 1)) == 0
    {
      hide Sparse, Ancestor, SkipsOk, Linked, Offset, BitLength, OnLine, Exact, Contains;
      SparseEmpty();
      var step := 1;
      have := [];
      ghost var blocks: seq<BlockIndex> := [];
      var walk: BlockIndex := start;
      while true
        invariant |have| == |blocks| && forall i :: 0 <= i < |have| ==> have[i] == blocks[i].hash
        invariant Linked(walk) && OnLine(walk, start) && (Contains(walk) || SkipsOk(walk))
        invariant walk.nHeight == HeightBelow(start.nHeight, Offset(|have|)) && Sparse(blocks, start)
        invariant forall i :: 0 <= i < |blocks| ==> blocks[i].nHeight > 0
        invariant step == if |have| <= 10 then 1 else Pow2(|have| - 10)
        decreases walk.nHeight
      {
        SparseAppend(blocks, start, walk);
        have, blocks := have + [walk.hash], blocks + [walk];
        if walk.nHeight == 0 {
          break;
        }
        OffsetStep(start.nHeight, |have| - 1, step);
        var height := if walk.nHeight - step > 0 then walk.nHeight - step else 0;
        LowerOnLine(start, walk, height);
        walk := AncestorVia(walk, height);
        if |have| > 10 {
          step := step * 2;
        }
      }
      SparseDescends(blocks, start);
      SparseBlocks(blocks, start);
    }
  }

  /** The entries are ancestors at the heights that the steps lead to. */
  ghost predicate Sparse(blocks: seq<BlockIndex>, start: BlockIndex)
    requires Linked(start)
  {
    forall i :: 0 <= i < |blocks| ==>
      OnLine(blocks[i], start) && blocks[i].nHeight == HeightBelow(start.nHeight, Offset(i))
  }

  lemma SparseBlocks(blocks: seq<BlockIndex>, start: BlockIndex)
    requires Linked(start) && Sparse(blocks, start)
    ensures forall i :: 0 <= i < |blocks| ==>
      && blocks[i] == Ancestor(start, HeightBelow(start.nHeight, Offset(i)))
      && blocks[i].nHeight == HeightBelow(start.nHeight, Offset(i))
  {
  }

  lemma SparseEmpty()
    ensures forall start: BlockIndex | Linked(start) :: Sparse([], start) && OnLine(start, start)
    ensures forall height: nat :: HeightBelow(height, Offset(0)) == height
  {
  }

  lemma SparseAppend(blocks: seq<BlockIndex>, start: BlockIndex, b: BlockIndex)
    requires Linked(start) && Sparse(blocks, start) && OnLine(b, start)
    requires b.nHeight == HeightBelow(start.nHeight, Offset(|blocks|))
    ensures Sparse(blocks + [b], start)
  {
    hide Ancestor, Linked, Offset, HeightBelow, OnLine;
    var more := blocks + [b];
    forall i | 0 <= i < |more|
      ensures OnLine(more[i], start) && more[i].nHeight == HeightBelow(start.nHeight, Offset(i))
    {
      assert i < |blocks| ==> more[i] == blocks[i];
    }
  }

  lemma OffsetStep(height: nat, i: nat, step: nat)
    requires step == (if i <= 10 then 1 else Pow2(i - 10)) && HeightBelow(height, Offset(i)) > 0
    ensures HeightBelow(height, Offset(i + 1)) == HeightBelow(HeightBelow(height, Offset(i)), step)
  {
  }

  lemma SparseDescends(blocks: seq<BlockIndex>, start: BlockIndex)
    requires Linked(start) && Sparse(blocks, start) && blocks != []
    requires forall i :: 0 <= i < |blocks| - 1 ==> blocks[i].nHeight > 0
    ensures forall i :: 0 < i < |blocks| ==> blocks[i].nHeight < blocks[i - 1].nHeight
    ensures |blocks| <= 12 + BitLength(start.nHeight)
  {
    forall i | 0 < i < |blocks| ensures blocks[i].nHeight < blocks[i - 1].nHeight {
      assert blocks[i - 1].nHeight > 0;
      assert Offset(i - 1) < Offset(i);
    }
    if |blocks| >= 2 {
      assert blocks[|blocks| - 2].nHeight > 0;
      OffsetWithin(start.nHeight, |blocks| - 2);
    }
  }

  lemma StepDown(b: BlockIndex, a: BlockIndex)
    requires Linked(b) && OnLine(a, b)
    ensures Linked(a) && (a.pprev != null ==> OnLine(a.pprev, b) && a.pprev.nHeight + 1 == a.nHeight)
    ensures a.pprev == null ==> a.nHeight == 0
  {
    if a.pprev != null {
      AncestorOfAncestor(b, a.nHeight, a.nHeight - 1);
    }
  }

  /** Lines that share a block agree below it. */
  lemma SameBelow(a: BlockIndex, b: BlockIndex, c: BlockIndex)
    requires Linked(a) && Linked(b) && OnLine(c, a) && OnLine(c, b)
    ensures forall h: nat :: h <= c.nHeight ==> Ancestor(a, h) == Ancestor(b, h)
  {
    forall h: nat | h <= c.nHeight ensures Ancestor(a, h) == Ancestor(b, h) {
      AncestorOfAncestor(a, c.nHeight, h);
      AncestorOfAncestor(b, c.nHeight, h);
    }
  }

  method LastCommonAncestor(a: BlockIndex, b: BlockIndex) returns (r: BlockIndex?)
    requires Linked(a) && Linked(b) && SkipsOk(a) && SkipsOk(b)
    ensures LastCommon(r, a, b)
    ensures r == null <==> Ancestor(a, 0) != Ancestor(b, 0)
  {
    var pa: BlockIndex?, pb: BlockIndex? := a, b;
    if a.nHeight > b.nHeight {
      var c, _ := a.GetAncestor(b.nHeight);
      pa := c;
    } else if b.nHeight > a.nHeight {
      var c, _ := b.GetAncestor(a.nHeight);
      pb := c;
    }
    while pa != pb && pa != null && pb != null
      invariant pa != null <==> pb != null
      invariant pa != null ==> OnLine(pa, a) && OnLine(pb, b) && pa.nHeight == pb.nHeight
      invariant forall h: nat :: h <= a.nHeight && h <= b.nHeight && (pa == null || pa.nHeight < h) ==>
        Ancestor(a, h) != Ancestor(b, h)
      decreases if pa == null then 0 else pa.nHeight + 1
    {
      StepDown(a, pa);
      StepDown(b, pb);
      pa := pa.pprev;
      pb := pb.pprev;
    }
    // The source's final assertion.
    assert pa == pb;
    if pa != null {
      SameBelow(a, b, pa);
    }
    r := pa;
  }
}
