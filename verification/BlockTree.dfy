/**
 The block index as a whole: every header known, under its hash (AddToBlockIndex in src/validation.cpp).
 */
module BlockTree {
  import opened Chain

  /** The work of a block and all its ancestors. */
  ghost function WorkOf(b: BlockIndex): nat
    requires Linked(b)
    decreases b.nHeight
  {
    b.proof + if b.pprev == null then 0 else WorkOf(b.pprev)
  }

  /** What a block stores about its line is right, and every skip on it is built. */
  ghost predicate LineOk(b: BlockIndex)
    requires Linked(b)
    reads b.line
  {
    SkipsOk(b) && SkipsBuilt(b) && b.nChainWork == WorkOf(b) && TimesOk(b)
  }

  method NewBlock(hash: nat, time: nat, proof: nat, prev: BlockIndex?) returns (b: BlockIndex)
    requires prev != null ==> Linked(prev) && LineOk(prev)
    ensures fresh(b) && b.hash == hash && b.nTime == time && b.proof == proof && b.pprev == prev
    ensures Linked(b) && LineOk(b)
  {
    b := new BlockIndex(hash, time, proof, prev);
    b.BuildSkip();
    if prev != null {
      TimeMaxNext(b);
    } else {
      assert Ancestor(b, 0) == b;
    }
  }

  ghost predicate Listed(m: map<nat, BlockIndex>, b: BlockIndex) {
    b.hash in m && m[b.hash] == b
  }

  /** The block is listed under its hash, and its predecessor under its own. */
  ghost predicate BlockOk(m: map<nat, BlockIndex>, h: nat)
    requires h in m
    reads m[h].line
  {
    m[h].hash == h && Linked(m[h]) && LineOk(m[h]) && (m[h].pprev != null ==> Listed(m, m[h].pprev))
  }

  ghost function Lines(m: map<nat, BlockIndex>): set<BlockIndex> {
    set h, o | h in m && o in m[h].line :: o
  }

  ghost predicate BlocksOk(m: map<nat, BlockIndex>)
    reads Lines(m)
  {
    forall h :: h in m ==> BlockOk(m, h)
  }

  /** Exactly the blocks with a predecessor are listed under its hash. */
  ghost predicate ChildrenOk(m: map<nat, BlockIndex>, children: set<(nat, BlockIndex)>) {
    && (forall p :: p in children ==> Listed(m, p.1) && p.1.pprev != null && p.0 == p.1.pprev.hash)
    && (forall h :: h in m && m[h].pprev != null ==> (m[h].pprev.hash, m[h]) in children)
  }

  /** The best header has the most work of all that were added as valid. */
  ghost predicate BestOk(m: map<nat, BlockIndex>, candidates: set<BlockIndex>, best: BlockIndex?) {
    && (forall b :: b in candidates ==> Listed(m, b))
    && (best == null <==> candidates == {})
    && (best != null ==> best in candidates && forall b :: b in candidates ==> b.nChainWork <= best.nChainWork)
  }

  lemma EnterBlock(m: map<nat, BlockIndex>, b: BlockIndex)
    requires BlocksOk(m) && b.hash !in m && Linked(b) && LineOk(b) && (b.pprev != null ==> Listed(m, b.pprev))
    ensures BlocksOk(m[b.hash := b])
  {
    var n := m[b.hash := b];
    hide LineOk, Linked;
    forall h | h in n ensures BlockOk(n, h) {
      if h != b.hash {
        assert BlockOk(m, h);
      }
    }
  }

  class Index {
    var mapBlockIndex: map<nat, BlockIndex>
    /** Each block under the hash of its predecessor. */
    var mapPrevBlockIndex: set<(nat, BlockIndex)>
    var bestHeader: BlockIndex?
    /** The headers that were added as valid. */
    ghost var candidates: set<BlockIndex>

    ghost predicate Valid()
      reads this, Lines(mapBlockIndex)
    {
      && BlocksOk(mapBlockIndex) && ChildrenOk(mapBlockIndex, mapPrevBlockIndex)
      && BestOk(mapBlockIndex, candidates, bestHeader)
    }

    constructor ()
      ensures Valid() && mapBlockIndex == map[] && mapPrevBlockIndex == {} && bestHeader == null
    {
      mapBlockIndex, mapPrevBlockIndex, bestHeader, candidates := map[], {}, null, {};
    }

    /** A header that is known is returned as it is; a new one is linked to its predecessor, if that is known.
        A header does not contain its own hash. */
    method AddToBlockIndex(hash: nat, prevHash: nat, time: nat, proof: nat, valid: bool) returns (b: BlockIndex)
      requires Valid() && hash != prevHash
      modifies this
      ensures Valid() && b.hash == hash
      ensures hash in old(mapBlockIndex) ==> b == old(mapBlockIndex)[hash] && unchanged(this)
      ensures hash !in old(mapBlockIndex) ==>
        && fresh(b) && mapBlockIndex == old(mapBlockIndex)[hash := b] && b.nTime == time && b.proof == proof
        && b.pprev == (if prevHash in old(mapBlockIndex) then old(mapBlockIndex)[prevHash] else null)
        && candidates == (old(candidates) + if valid then {b} else {})
        && bestHeader == if valid && (old(bestHeader) == null || old(bestHeader).nChainWork < b.nChainWork) then b
                         else old(bestHeader)
    {
      hide LineOk, Linked, ChildrenOk, BestOk;
      if hash in mapBlockIndex {
        assert BlockOk(mapBlockIndex, hash);
        return mapBlockIndex[hash];
      }
      var prev := if prevHash in mapBlockIndex then mapBlockIndex[prevHash] else null;
      assert prev != null ==> BlockOk(mapBlockIndex, prevHash);
      b := NewBlock(hash, time, proof, prev);
      EnterBlock(mapBlockIndex, b);
      EnterChild(mapBlockIndex, mapPrevBlockIndex, b);
      StillBest(mapBlockIndex, candidates, bestHeader, b);
      mapBlockIndex := mapBlockIndex[hash := b];
      if b.pprev != null {
        mapPrevBlockIndex := mapPrevBlockIndex + {(b.pprev.hash, b)};
      }
      if valid {
        Consider(mapBlockIndex, candidates, bestHeader, b);
        candidates := candidates + {b};
        if bestHeader == null || bestHeader.nChainWork < b.nChainWork {
          bestHeader := b;
        }
      }
    }
  }

  lemma EnterChild(m: map<nat, BlockIndex>, children: set<(nat, BlockIndex)>, b: BlockIndex)
    requires ChildrenOk(m, children) && b.hash !in m
    ensures ChildrenOk(m[b.hash := b], if b.pprev != null then children + {(b.pprev.hash, b)} else children)
  {
  }

  lemma StillBest(m: map<nat, BlockIndex>, candidates: set<BlockIndex>, best: BlockIndex?, b: BlockIndex)
    requires BestOk(m, candidates, best) && b.hash !in m
    ensures BestOk(m[b.hash := b], candidates, best)
  {
  }

  /** A valid header with more work than the best one becomes the best. */
  lemma Consider(m: map<nat, BlockIndex>, candidates: set<BlockIndex>, best: BlockIndex?, b: BlockIndex)
    requires BestOk(m, candidates, best) && Listed(m, b)
    ensures BestOk(m, candidates + {b}, if best == null || best.nChainWork < b.nChainWork then b else best)
  {
  }
}
