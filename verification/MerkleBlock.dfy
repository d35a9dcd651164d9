/**
 The flag bits of a partial Merkle tree as bytes (src/merkleblock.h).
 */
module FlagBytes {
  import opened ByteBits

  predicate BitAt(bytes: seq<bv8>, p: nat)
    requires p < 8 * |bytes|
  {
    BitOf(bytes[p / 8], p % 8)
  }

  /** The bytes that hold these bits, low bit first, padded with zero bits. */
  ghost predicate IsPacking(bytes: seq<bv8>, bits: seq<bool>) {
    && |bytes| == (|bits| + 7) / 8
    && forall p: nat | p < 8 * |bytes| :: BitAt(bytes, p) <==> p < |bits| && bits[p]
  }

  function Unpack(bytes: seq<bv8>): (bits: seq<bool>)
    ensures |bits| == 8 * |bytes|
  {
    seq(8 * |bytes|, p requires 0 <= p < 8 * |bytes| => BitAt(bytes, p))
  }

  /** Packing and unpacking gives the bits back, followed by fewer than eight zeros. */
  lemma PackingRoundTrip(bytes: seq<bv8>, bits: seq<bool>)
    requires IsPacking(bytes, bits)
    ensures |bits| <= |Unpack(bytes)| < |bits| + 8 && bits <= Unpack(bytes)
    ensures forall p :: |bits| <= p < |Unpack(bytes)| ==> !Unpack(bytes)[p]
  {
    forall p: nat | p < 8 * |bytes| ensures Unpack(bytes)[p] == (p < |bits| && bits[p]) {
      assert BitAt(bytes, p) <==> p < |bits| && bits[p];
    }
    assert Unpack(bytes)[..|bits|] == bits;
  }

  method Pack(bits: seq<bool>) returns (bytes: seq<bv8>)
    ensures IsPacking(bytes, bits)
  {
    bytes := seq((|bits| + 7) / 8, _ => 0);
    var p := 0;
    while p < |bits|
      invariant 0 <= p <= |bits| && |bytes| == (|bits| + 7) / 8
      invariant forall q: nat | q < 8 * |bytes| :: BitAt(bytes, q) <==> q < p && bits[q]
    {
      ghost var before := bytes;
      if bits[p] {
        bytes := bytes[p / 8 := bytes[p / 8] | BitMask(p % 8)];
      }
      forall q: nat | q < 8 * |bytes| ensures BitAt(bytes, q) <==> q < p + 1 && bits[q] {
        assert BitAt(before, q) <==> q < p && bits[q];
        SetBit(before[p / 8], p % 8, q % 8);
        SamePlace(p, q);
      }
      p := p + 1;
    }
  }

  lemma SamePlace(p: nat, q: nat)
    ensures p / 8 == q / 8 && p % 8 == q % 8 <==> p == q
  {
  }

  method UnpackBytes(bytes: seq<bv8>) returns (bits: seq<bool>)
    ensures bits == Unpack(bytes)
  {
    bits := [];
    var p := 0;
    while p < 8 * |bytes|
      invariant 0 <= p <= 8 * |bytes| && |bits| == p
      invariant forall q: nat | q < p :: bits[q] == BitAt(bytes, q)
    {
      bits := bits + [bytes[p / 8] & BitMask(p % 8) != 0];
      p := p + 1;
    }
  }
}

/**
 The partial Merkle tree object (src/merkleblock.h, src/merkleblock.cpp): building it from a block's
 transaction ids and a mask, its byte encoding, and extracting the matches again.
 */
module MerkleBlock {
  import opened Wrappers
  import opened MerkleTree
  import opened Arithmetic
  import opened Powers
  import opened FlagBytes

  // ----- Height and root -----

  /** The first height from k on at which the tree has at most one node. */
  function HeightFrom(n: nat, k: nat): (height: nat)
    ensures height >= k && Width(n, height) <= 1
    ensures forall j :: k <= j < height ==> Width(n, j) > 1
    decreases Width(n, k)
  {
    if Width(n, k) <= 1 then k else HeightFrom(n, k + 1)
  }

  function Height(n: nat): (height: nat)
    ensures n >= 1 ==> Width(n, height) == 1
  {
    if n >= 1 then WidthPositive(n, HeightFrom(n, 0)); HeightFrom(n, 0) else HeightFrom(n, 0)
  }

  lemma {:induction false} WidthPositive(n: nat, height: nat)
    requires n >= 1
    ensures Width(n, height) >= 1
  {
    if height > 0 {
      WidthPositive(n, height - 1);
    }
  }

  /** The root stands over all leaves. */
  lemma RootSpans(n: nat)
    requires n >= 1
    ensures First(Height(n), 0) == 0 && End(n, Height(n), 0) == n
  {
    FirstFormula(Height(n), 0);
    LastEnd(n, Height(n));
  }

  function MerkleRoot(h: Hash, t: seq<Digest>): Digest
    requires |t| >= 1
  {
    CalcHash(h, t, Height(|t|), 0)
  }

  /** The flag bits, hashes and matches of the whole tree. */
  function AllBits(mask: seq<bool>): seq<bool>
    requires |mask| >= 1
  {
    Bits(mask, Height(|mask|), 0)
  }

  function AllHashes(h: Hash, t: seq<Digest>, mask: seq<bool>): seq<Digest>
    requires |t| == |mask| >= 1
  {
    Hashes(h, t, mask, Height(|t|), 0)
  }

  function AllMatched(mask: seq<bool>): seq<nat>
    requires |mask| >= 1
  {
    Matched(mask, Height(|mask|), 0)
  }

  // ----- How much is stored -----

  lemma {:induction false} HashesWithinLeaves(h: Hash, t: seq<Digest>, mask: seq<bool>, height: nat, pos: nat)
    requires |t| == |mask| && pos < Width(|t|, height)
    ensures 1 <= |Hashes(h, t, mask, height, pos)| <= End(|t|, height, pos) - First(height, pos)
    decreases height
  {
    RangeOk(|t|, height, pos);
    if height > 0 && ParentOfMatch(mask, height, pos) {
      HashesWithinLeaves(h, t, mask, height - 1, 2 * pos);
      RangeOk(|t|, height - 1, 2 * pos);
      if 2 * pos + 1 < Width(|t|, height - 1) {
        HashesWithinLeaves(h, t, mask, height - 1, 2 * pos + 1);
      }
    }
  }

  lemma {:induction false} HashesWithinMatches(h: Hash, t: seq<Digest>, mask: seq<bool>, height: nat, pos: nat)
    requires |t| == |mask| && pos < Width(|t|, height)
    ensures |Hashes(h, t, mask, height, pos)| <= 1 + |Matched(mask, height, pos)| * height
    decreases height
  {
    NoneMatched(mask, height, pos);
    if height > 0 && ParentOfMatch(mask, height, pos) {
      var l := |Matched(mask, height - 1, 2 * pos)|;
      HashesWithinMatches(h, t, mask, height - 1, 2 * pos);
      if 2 * pos + 1 < Width(|t|, height - 1) {
        var r := |Matched(mask, height - 1, 2 * pos + 1)|;
        HashesWithinMatches(h, t, mask, height - 1, 2 * pos + 1);
        DistributeDepth(l, r, height);
      } else {
        DistributeDepth(l, 0, height);
      }
    }
  }

  lemma DistributeDepth(l: nat, r: nat, height: nat)
    requires height > 0
    ensures (l + r) * height == l * (height - 1) + r * (height - 1) + l + r
  {
  }

  /** Descended nodes that have no right child. */
  function OnlyChildren(mask: seq<bool>, height: nat, pos: nat): nat
    requires pos < Width(|mask|, height)
    decreases height
  {
    if height == 0 || !ParentOfMatch(mask, height, pos) then 0
    else if 2 * pos + 1 < Width(|mask|, height - 1) then
      OnlyChildren(mask, height - 1, 2 * pos) + OnlyChildren(mask, height - 1, 2 * pos + 1)
    else 1 + OnlyChildren(mask, height - 1, 2 * pos)
  }

  /** Every node of the stored tree has a bit and every stored leaf a hash: the exact number of bits. */
  lemma {:induction false} BitCount(h: Hash, t: seq<Digest>, mask: seq<bool>, height: nat, pos: nat)
    requires |t| == |mask| && pos < Width(|t|, height)
    ensures |Bits(mask, height, pos)| == 2 * |Hashes(h, t, mask, height, pos)| - 1 + OnlyChildren(mask, height, pos)
    decreases height
  {
    if height > 0 && ParentOfMatch(mask, height, pos) {
      BitCount(h, t, mask, height - 1, 2 * pos);
      if 2 * pos + 1 < Width(|t|, height - 1) {
        BitCount(h, t, mask, height - 1, 2 * pos + 1);
      }
    }
  }

  /** The stored hashes number at most one per leaf, and at most 1 + matches * height; every hash has
      a bit. */
  lemma StoredBounds(h: Hash, t: seq<Digest>, mask: seq<bool>)
    requires |t| == |mask| >= 1
    ensures |AllHashes(h, t, mask)| <= Min(|t|, 1 + |AllMatched(mask)| * Height(|t|))
    ensures |AllHashes(h, t, mask)| <= |AllBits(mask)|
  {
    HashesWithinLeaves(h, t, mask, Height(|t|), 0);
    HashesWithinMatches(h, t, mask, Height(|t|), 0);
    BitCount(h, t, mask, Height(|t|), 0);
    RootSpans(|t|);
  }

  /** The level below has an even number of nodes, or no leaf under the last node of this one is matched. */
  ghost predicate LevelPaired(mask: seq<bool>, level: nat)
    requires |mask| >= 1 && level >= 1
  {
    WidthPositive(|mask|, level);
    Width(|mask|, level - 1) % 2 == 0 || forall p :: First(level, Width(|mask|, level) - 1) <= p < |mask| ==> !mask[p]
  }

  /** Only the last node of a level can lack a right child. */
  lemma {:induction false} InnerPaired(mask: seq<bool>, height: nat, pos: nat)
    requires pos + 1 < Width(|mask|, height)
    ensures OnlyChildren(mask, height, pos) == 0
    decreases height
  {
    if height > 0 {
      InnerPaired(mask, height - 1, 2 * pos);
      InnerPaired(mask, height - 1, 2 * pos + 1);
    }
  }

  /** The last node of a lower level is under the last node of this one. */
  lemma {:induction false} LastUnderLast(n: nat, level: nat, height: nat)
    requires n >= 1 && level <= height
    ensures Width(n, level) >= 1 && Width(n, height) >= 1
    ensures First(height, Width(n, height) - 1) <= First(level, Width(n, level) - 1)
    decreases height
  {
    WidthPositive(n, level);
    WidthPositive(n, height);
    if level < height {
      hide First;
      LastUnderLast(n, level, height - 1);
      FirstOfLast(height - 1, Width(n, height - 1));
    }
  }

  lemma FirstOfLast(height: nat, w: nat)
    requires w >= 1
    ensures First(height + 1, (w + 1) / 2 - 1) <= First(height, w - 1)
  {
    var v := (w + 1) / 2;
    assert First(height + 1, v - 1) == First(height, 2 * (v - 1));
    hide First, Pow2;
    FirstFormula(height, 2 * (v - 1));
    FirstFormula(height, w - 1);
    ProductMonotone(2 * (v - 1), w - 1, Pow2(height));
  }

  lemma UnmatchedPaired(mask: seq<bool>, height: nat)
    requires |mask| >= 1 && Width(|mask|, height) >= 1
    requires !ParentOfMatch(mask, height, Width(|mask|, height) - 1)
    ensures forall level: nat :: 1 <= level <= height ==> LevelPaired(mask, level)
  {
    var n := |mask|;
    ParentOfMatchRange(mask, height, Width(n, height) - 1);
    LastEnd(n, height);
    forall level: nat | 1 <= level <= height ensures LevelPaired(mask, level) {
      LastUnderLast(n, level, height);
    }
  }

  /** The levels up to a height that are not paired. */
  ghost function Unpaired(mask: seq<bool>, height: nat): nat
    requires |mask| >= 1
  {
    if height == 0 then 0 else Unpaired(mask, height - 1) + if LevelPaired(mask, height) then 0 else 1
  }

  lemma {:induction false} UnpairedWithin(mask: seq<bool>, height: nat)
    requires |mask| >= 1
    ensures Unpaired(mask, height) <= height
    ensures Unpaired(mask, height) == 0 <==> forall level: nat :: 1 <= level <= height ==> LevelPaired(mask, level)
  {
    if height > 0 {
      UnpairedWithin(mask, height - 1);
    }
  }

  /** Each unpaired level has one descended node without a right child, and no other level has any. */
  lemma {:induction false} UnpairedCount(mask: seq<bool>, height: nat)
    requires |mask| >= 1
    ensures Width(|mask|, height) >= 1
    ensures OnlyChildren(mask, height, Width(|mask|, height) - 1) == Unpaired(mask, height)
    decreases height
  {
    var n := |mask|;
    WidthPositive(n, height);
    var last := Width(n, height) - 1;
    if height == 0 {
    } else if !ParentOfMatch(mask, height, last) {
      UnmatchedPaired(mask, height);
      UnpairedWithin(mask, height);
    } else {
      UnpairedCount(mask, height - 1);
      ParentOfMatchRange(mask, height, last);
      LastEnd(n, height);
      if Width(n, height - 1) % 2 == 0 {
        InnerPaired(mask, height - 1, 2 * last);
        assert 2 * last + 1 == Width(n, height - 1) - 1;
        assert LevelPaired(mask, height);
      } else {
        assert !LevelPaired(mask, height);
      }
    }
  }

  /** The documented bound of 2N - 1 bits for N hashes holds exactly when every level with an odd number of
      nodes has no match under the last node of the next one. */
  lemma BitBound(h: Hash, t: seq<Digest>, mask: seq<bool>)
    requires |t| == |mask| >= 1
    ensures |AllBits(mask)| <= 2 * |AllHashes(h, t, mask)| - 1
       <==> forall level: nat :: 1 <= level <= Height(|t|) ==> LevelPaired(mask, level)
  {
    BitCount(h, t, mask, Height(|t|), 0);
    UnpairedCount(mask, Height(|t|));
    UnpairedWithin(mask, Height(|t|));
  }

  /** Three transactions of which the last is matched break it. */
  lemma BitBoundBroken(h: Hash, a: Digest, b: Digest, c: Digest)
    ensures |AllBits([false, false, true])| == 4 && |AllHashes(h, [a, b, c], [false, false, true])| == 2
  {
    var t, mask := [a, b, c], [false, false, true];
    assert Width(3, 1) == 2 && Width(3, 2) == 1;
    assert HeightFrom(3, 1) == 2;
    assert Bits(mask, 1, 0) == [false] && Bits(mask, 0, 2) == [true];
    assert Bits(mask, 1, 1) == [true, true];
    assert |Hashes(h, t, mask, 1, 0)| == 1 && |Hashes(h, t, mask, 1, 1)| == 1;
  }

  // ----- Extracting the matches -----

  /** MaxBlockSize(true) / 60: no block has more transactions. */
  const MAX_TRANSACTIONS: nat := 2000000 / 60

  datatype Outcome = Outcome(root: Digest, ids: seq<Digest>, indices: seq<nat>, bad: bool)

  /** What extraction yields from n, bits and hashes; indices are appended to those given. */
  function Extraction(h: Hash, n: nat, bits: seq<bool>, hashes: seq<Digest>, bad: bool, indices: seq<nat>): Outcome {
    if n == 0 || n > MAX_TRANSACTIONS || |hashes| > n || |bits| < |hashes| then Outcome(NULL_DIGEST, [], indices, bad)
    else
      var (x, d) := Extract(h, n, bits, hashes, Height(n), 0, Cursor(0, 0, [], indices, bad));
      var ok := !d.bad && (d.bitsUsed + 7) / 8 == (|bits| + 7) / 8 && d.hashUsed == |hashes|;
      Outcome(if ok then x else NULL_DIGEST, d.ids, d.indices, d.bad)
  }

  /** All checks pass: the size is plausible, no problem occurred, and all bits and hashes were used. */
  predicate Accepted(h: Hash, n: nat, bits: seq<bool>, hashes: seq<Digest>, bad: bool) {
    && 0 < n <= MAX_TRANSACTIONS && |hashes| <= n && |hashes| <= |bits|
    && var d := Extract(h, n, bits, hashes, Height(n), 0, Cursor(0, 0, [], [], bad)).1;
       !d.bad && (d.bitsUsed + 7) / 8 == (|bits| + 7) / 8 && d.hashUsed == |hashes|
  }

  /** A rejected tree yields the null hash, so that any other root was accepted. */
  lemma RejectedIsNull(h: Hash, n: nat, bits: seq<bool>, hashes: seq<Digest>, bad: bool)
    ensures !Accepted(h, n, bits, hashes, bad) ==> Extraction(h, n, bits, hashes, bad, []).root == NULL_DIGEST
  {
  }

  /** Soundness, for arbitrary bits and hashes: if an accepted tree has the root of a transaction list, then
      what is reported is in the list where it says, or two different pairs with equal hash are found. */
  lemma Soundness(h: Hash, t: seq<Digest>, bits: seq<bool>, hashes: seq<Digest>, bad: bool)
    requires |t| >= 1 && Accepted(h, |t|, bits, hashes, bad)
    requires Extraction(h, |t|, bits, hashes, bad, []).root == MerkleRoot(h, t)
    ensures match FindCollision(h, t, bits, hashes, Height(|t|), 0, Cursor(0, 0, [], [], bad))
      case Some(k) => Collides(h, k)
      case None => var o := Extraction(h, |t|, bits, hashes, bad, []); Honest(t, o.ids, o.indices, 0, |t|)
  {
    RootSpans(|t|);
    var c := Cursor(0, 0, [], [], bad);
    var d := Extract(h, |t|, bits, hashes, Height(|t|), 0, c).1;
    var ids, indices := ExtractSound(h, t, bits, hashes, Height(|t|), 0, c);
    assert [] + ids == ids && [] + indices == indices;
  }

  /** Completeness: build over distinct ids, pack, unpack and extract gives the root and exactly the
      masked ids with their indices, or two different pairs with equal hash are found. */
  lemma Completeness(h: Hash, t: seq<Digest>, mask: seq<bool>, bytes: seq<bv8>)
    requires |t| == |mask| && 1 <= |t| <= 33333 && Distinct(t)
    requires IsPacking(bytes, AllBits(mask))
    ensures Lists(mask, AllMatched(mask), 0, |t|)
    ensures match FindSiblings(h, t, mask, Height(|t|), 0)
      case Some(k) => Collides(h, k)
      case None =>
        Extraction(h, |t|, Unpack(bytes), AllHashes(h, t, mask), false, [])
        == Outcome(MerkleRoot(h, t), Pick(t, AllMatched(mask)), AllMatched(mask), false)
  {
    RootSpans(|t|);
    MatchedExactly(mask, Height(|t|), 0);
    SiblingsCollide(h, t, mask, Height(|t|), 0);
    if FindSiblings(h, t, mask, Height(|t|), 0).None? {
      NoTwinsWhen(h, t, mask, Height(|t|), 0);
      CompleteRun(h, t, mask, bytes);
    }
  }

  lemma CompleteRun(h: Hash, t: seq<Digest>, mask: seq<bool>, bytes: seq<bv8>)
    requires |t| == |mask| && 1 <= |t| <= 33333
    requires IsPacking(bytes, AllBits(mask)) && NoTwins(h, t, mask, Height(|t|), 0)
    ensures Extraction(h, |t|, Unpack(bytes), AllHashes(h, t, mask), false, [])
        == Outcome(MerkleRoot(h, t), Pick(t, AllMatched(mask)), AllMatched(mask), false)
  {
    hide Bits, Hashes, Matched, NoTwins, CalcHash, Extract, Width, Unpack, HeightFrom;
    var bits, hashes := Unpack(bytes), AllHashes(h, t, mask);
    PackingRoundTrip(bytes, AllBits(mask));
    StoredBounds(h, t, mask);
    var d := BuiltCursor(h, t, mask, bits, hashes, Height(|t|), 0, Cursor(0, 0, [], [], false));
    assert [] + Pick(t, AllMatched(mask)) == Pick(t, AllMatched(mask)) && [] + AllMatched(mask) == AllMatched(mask);
  }

  /** A node is the parent of a match when one of the leaves it stands over is matched. */
  lemma ParentOfMatchRange(mask: seq<bool>, height: nat, pos: nat)
    requires pos < Width(|mask|, height)
    ensures End(|mask|, height, pos) <= |mask|
    ensures ParentOfMatch(mask, height, pos)
       <==> exists p :: First(height, pos) <= p < End(|mask|, height, pos) && mask[p]
  {
    RangeOk(|mask|, height, pos);
    NoneMatched(mask, height, pos);
    MatchedExactly(mask, height, pos);
    var xs := Matched(mask, height, pos);
    if xs != [] {
      assert xs[0] in xs;
    }
  }

  lemma BitsUnfold(prefix: seq<bool>, mask: seq<bool>, height: nat, pos: nat)
    requires pos < Width(|mask|, height)
    ensures prefix + Bits(mask, height, pos)
         == if height == 0 || !ParentOfMatch(mask, height, pos) then prefix + [ParentOfMatch(mask, height, pos)]
            else if 2 * pos + 1 < Width(|mask|, height - 1) then
              prefix + [true] + Bits(mask, height - 1, 2 * pos) + Bits(mask, height - 1, 2 * pos + 1)
            else prefix + [true] + Bits(mask, height - 1, 2 * pos)
  {
  }

  lemma HashesUnfold(prefix: seq<Digest>, h: Hash, t: seq<Digest>, mask: seq<bool>, height: nat, pos: nat)
    requires |t| == |mask| && pos < Width(|t|, height)
    ensures prefix + Hashes(h, t, mask, height, pos)
         == if height == 0 || !ParentOfMatch(mask, height, pos) then prefix + [CalcHash(h, t, height, pos)]
            else if 2 * pos + 1 < Width(|t|, height - 1) then
              prefix + Hashes(h, t, mask, height - 1, 2 * pos) + Hashes(h, t, mask, height - 1, 2 * pos + 1)
            else prefix + Hashes(h, t, mask, height - 1, 2 * pos)
  {
  }

  // ----- The object -----

  class PartialMerkleTree {
    const hash: Hash
    var nTransactions: nat
    var vBits: seq<bool>
    var vHash: seq<Digest>
    var fBad: bool

    constructor (hash: Hash)
      ensures this.hash == hash && nTransactions == 0 && vBits == [] && vHash == [] && fBad
    {
      this.hash := hash;
      nTransactions, vBits, vHash, fBad := 0, [], [], true;
    }

    constructor Build(hash: Hash, txids: seq<Digest>, mask: seq<bool>)
      requires |txids| == |mask| >= 1
      ensures this.hash == hash && nTransactions == |txids| && !fBad
      ensures vBits == AllBits(mask) && vHash == AllHashes(hash, txids, mask)
    {
      this.hash := hash;
      nTransactions, vBits, vHash, fBad := |txids|, [], [], false;
      new;
      var height := TreeHeight();
      TraverseAndBuild(height, 0, txids, mask);
      assert [] + AllBits(mask) == AllBits(mask) && [] + AllHashes(hash, txids, mask) == AllHashes(hash, txids, mask);
    }

    /** The number of nodes at a height, by shifts. */
    function CalcTreeWidth(height: nat): (width: nat)
      reads this
      ensures width == Width(nTransactions, height)
    {
      WidthFormula(nTransactions, height);
      (nTransactions + Pow2(height) - 1) / Pow2(height)
    }

    method TreeHeight() returns (height: nat)
      ensures height == Height(nTransactions)
    {
      height := 0;
      while CalcTreeWidth(height) > 1
        invariant HeightFrom(nTransactions, height) == HeightFrom(nTransactions, 0)
        decreases Width(nTransactions, height)
      {
        height := height + 1;
      }
    }

    /** Whether a leaf in pos << height up to (pos + 1) << height is matched. */
    method AnyMatch(height: nat, pos: nat, mask: seq<bool>) returns (found: bool)
      requires |mask| == nTransactions && pos < Width(nTransactions, height)
      ensures found == ParentOfMatch(mask, height, pos)
    {
      FirstFormula(height, pos);
      EndFormula(nTransactions, height, pos);
      ParentOfMatchRange(mask, height, pos);
      RangeOk(nTransactions, height, pos);
      found := false;
      ghost var first, end := First(height, pos), End(nTransactions, height, pos);
      var p := pos * Pow2(height);
      while p < (pos + 1) * Pow2(height) && p < nTransactions
        invariant first <= p <= end
        invariant found <==> exists q :: first <= q < p && mask[q]
      {
        found := found || mask[p];
        p := p + 1;
      }
    }

    method TraverseAndBuild(height: nat, pos: nat, txids: seq<Digest>, mask: seq<bool>)
      requires |txids| == |mask| == nTransactions && pos < Width(nTransactions, height)
      modifies this`vBits, this`vHash
      ensures vBits == old(vBits) + Bits(mask, height, pos)
      ensures vHash == old(vHash) + Hashes(hash, txids, mask, height, pos)
      decreases height
    {
      hide Bits, Hashes, CalcHash, ParentOfMatch;
      BitsUnfold(vBits, mask, height, pos);
      HashesUnfold(vHash, hash, txids, mask, height, pos);
      var found := AnyMatch(height, pos, mask);
      vBits := vBits + [found];
      if height == 0 || !found {
        vHash := vHash + [CalcHash(hash, txids, height, pos)];
      } else {
        TraverseAndBuild(height - 1, 2 * pos, txids, mask);
        if 2 * pos + 1 < CalcTreeWidth(height - 1) {
          TraverseAndBuild(height - 1, 2 * pos + 1, txids, mask);
        }
      }
    }

    method TraverseAndExtract(height: nat, pos: nat, bitsIn: nat, hashIn: nat, idsIn: seq<Digest>, indicesIn: seq<nat>)
      returns (node: Digest, bitsUsed: nat, hashUsed: nat, ids: seq<Digest>, indices: seq<nat>)
      requires pos < Width(nTransactions, height)
      modifies this`fBad
      ensures (node, Cursor(bitsUsed, hashUsed, ids, indices, fBad))
           == Extract(hash, nTransactions, vBits, vHash, height, pos,
                      Cursor(bitsIn, hashIn, idsIn, indicesIn, old(fBad)))
      decreases height
    {
      bitsUsed, hashUsed, ids, indices := bitsIn, hashIn, idsIn, indicesIn;
      if bitsUsed >= |vBits| {
        fBad := true;
        return NULL_DIGEST, bitsUsed, hashUsed, ids, indices;
      }
      var parentOfMatch := vBits[bitsUsed];
      bitsUsed := bitsUsed + 1;
      if height == 0 || !parentOfMatch {
        if hashUsed >= |vHash| {
          fBad := true;
          return NULL_DIGEST, bitsUsed, hashUsed, ids, indices;
        }
        node := vHash[hashUsed];
        hashUsed := hashUsed + 1;
        if height == 0 && parentOfMatch {
          ids, indices := ids + [node], indices + [pos];
        }
      } else {
        var left, right;
        left, bitsUsed, hashUsed, ids, indices :=
          TraverseAndExtract(height - 1, 2 * pos, bitsUsed, hashUsed, ids, indices);
        if 2 * pos + 1 < CalcTreeWidth(height - 1) {
          right, bitsUsed, hashUsed, ids, indices :=
            TraverseAndExtract(height - 1, 2 * pos + 1, bitsUsed, hashUsed, ids, indices);
          if right == left {
            fBad := true;
          }
        } else {
          right := left;
        }
        node := hash(left, right);
      }
    }

    /** The ids are cleared first, the indices only ever appended to. */
    method ExtractMatches(indicesIn: seq<nat>) returns (root: Digest, ids: seq<Digest>, indices: seq<nat>)
      modifies this`fBad
      ensures Outcome(root, ids, indices, fBad) == Extraction(hash, nTransactions, vBits, vHash, old(fBad), indicesIn)
    {
      ids, indices := [], indicesIn;
      if nTransactions == 0 {
        return NULL_DIGEST, ids, indices;
      }
      if nTransactions > MAX_TRANSACTIONS {
        return NULL_DIGEST, ids, indices;
      }
      if |vHash| > nTransactions {
        return NULL_DIGEST, ids, indices;
      }
      if |vBits| < |vHash| {
        return NULL_DIGEST, ids, indices;
      }
      var height := TreeHeight();
      var bitsUsed, hashUsed;
      root, bitsUsed, hashUsed, ids, indices := TraverseAndExtract(height, 0, 0, 0, ids, indices);
      if fBad {
        return NULL_DIGEST, ids, indices;
      }
      if (bitsUsed + 7) / 8 != (|vBits| + 7) / 8 {
        return NULL_DIGEST, ids, indices;
      }
      if hashUsed != |vHash| {
        return NULL_DIGEST, ids, indices;
      }
    }

    method Serialize() returns (n: nat, hashes: seq<Digest>, bytes: seq<bv8>)
      ensures n == nTransactions && hashes == vHash && IsPacking(bytes, vBits)
    {
      bytes := Pack(vBits);
      n, hashes := nTransactions, vHash;
    }

    method Deserialize(n: nat, hashes: seq<Digest>, bytes: seq<bv8>)
      modifies this
      ensures nTransactions == n && vHash == hashes && vBits == Unpack(bytes) && !fBad
    {
      nTransactions, vHash := n, hashes;
      vBits := UnpackBytes(bytes);
      fBad := false;
    }
  }

  /** From one node to another: build over distinct ids, serialize, deserialize into an empty object and
      extract.  The root and exactly the masked ids come out, or two different pairs with equal hash are
      found. */
  method Transfer(hash: Hash, txids: seq<Digest>, mask: seq<bool>)
    returns (root: Digest, ids: seq<Digest>, indices: seq<nat>)
    requires |txids| == |mask| && 1 <= |txids| <= 33333 && Distinct(txids)
    ensures match FindSiblings(hash, txids, mask, Height(|txids|), 0)
      case Some(k) => Collides(hash, k)
      case None =>
        && root == MerkleRoot(hash, txids) && Lists(mask, indices, 0, |txids|)
        && indices == AllMatched(mask) && ids == Pick(txids, AllMatched(mask))
  {
    hide AllBits, AllHashes, AllMatched, MerkleRoot, Height, Extraction, FindSiblings, Distinct, Lists;
    var sent := new PartialMerkleTree.Build(hash, txids, mask);
    var n, hashes, bytes := sent.Serialize();
    var received := new PartialMerkleTree(hash);
    received.Deserialize(n, hashes, bytes);
    Completeness(hash, txids, mask, bytes);
    root, ids, indices := received.ExtractMatches([]);
  }
}
