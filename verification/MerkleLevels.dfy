/**
 The Merkle tree level by level, and exactly which partial trees are accepted (src/merkleblock.cpp).
 */
module MerkleLevels {
  import opened MerkleTree
  import opened MerkleBlock
  import opened FlagBytes

  // ----- The root, level by level -----

  /** Neighbours are hashed together; a last one without a neighbour is hashed with itself. */
  function NextLevel(h: Hash, xs: seq<Digest>): (ys: seq<Digest>)
    ensures |ys| == (|xs| + 1) / 2
  {
    seq((|xs| + 1) / 2, i requires 0 <= i < (|xs| + 1) / 2 =>
      h(xs[2 * i], xs[if 2 * i + 1 < |xs| then 2 * i + 1 else |xs| - 1]))
  }

  function Level(h: Hash, t: seq<Digest>, k: nat): seq<Digest> {
    if k == 0 then t else NextLevel(h, Level(h, t, k - 1))
  }

  lemma NextAt(h: Hash, xs: seq<Digest>, i: nat)
    requires i < |NextLevel(h, xs)|
    ensures 2 * i < |xs| && NextLevel(h, xs)[i] == h(xs[2 * i], xs[if 2 * i + 1 < |xs| then 2 * i + 1 else 2 * i])
  {
  }

  lemma WidthUnfold(n: nat, k: nat, pos: nat)
    requires k > 0 && pos < Width(n, k)
    ensures Width(n, k) == (Width(n, k - 1) + 1) / 2 && 2 * pos < Width(n, k - 1)
  {
  }

  lemma LevelUnfold(h: Hash, t: seq<Digest>, k: nat, pos: nat)
    requires k > 0 && pos < Width(|t|, k) && 2 * pos < Width(|t|, k - 1)
    ensures Level(h, t, k) == NextLevel(h, Level(h, t, k - 1))
    ensures CalcHash(h, t, k, pos) == h(Pair(h, t, k, pos).0, Pair(h, t, k, pos).1)
    ensures Pair(h, t, k, pos).0 == CalcHash(h, t, k - 1, 2 * pos)
    ensures Pair(h, t, k, pos).1 == CalcHash(h, t, k - 1, Neighbour(|t|, k, pos))
  {
  }

  /** The right child, or the left one where there is none. */
  function Neighbour(n: nat, k: nat, pos: nat): (r: nat)
    requires k > 0 && 2 * pos < Width(n, k - 1)
    ensures r < Width(n, k - 1)
  {
    if 2 * pos + 1 < Width(n, k - 1) then 2 * pos + 1 else 2 * pos
  }

  /** The recursive hash of a node is its place in that level. */
  lemma {:induction false} LevelIs(h: Hash, t: seq<Digest>, k: nat, pos: nat)
    requires pos < Width(|t|, k)
    ensures |Level(h, t, k)| == Width(|t|, k) && Level(h, t, k)[pos] == CalcHash(h, t, k, pos)
  {
    hide *;
    if k == 0 {
      LevelBase(h, t, pos);
    } else {
      WidthUnfold(|t|, k, pos);
      LevelUnfold(h, t, k, pos);
      LevelIs(h, t, k - 1, 2 * pos);
      LevelIs(h, t, k - 1, Neighbour(|t|, k, pos));
      NextAt(h, Level(h, t, k - 1), pos);
      NeighbourIs(|t|, k, pos);
    }
  }

  lemma NeighbourIs(n: nat, k: nat, pos: nat)
    requires k > 0 && 2 * pos < Width(n, k - 1)
    ensures Neighbour(n, k, pos) == if 2 * pos + 1 < Width(n, k - 1) then 2 * pos + 1 else 2 * pos
  {
  }

  lemma LevelBase(h: Hash, t: seq<Digest>, pos: nat)
    requires pos < Width(|t|, 0)
    ensures |Level(h, t, 0)| == Width(|t|, 0) && Level(h, t, 0)[pos] == CalcHash(h, t, 0, pos)
  {
  }

  /** The last level is the root alone. */
  lemma RootIsLast(h: Hash, t: seq<Digest>)
    requires |t| >= 1
    ensures Level(h, t, Height(|t|)) == [MerkleRoot(h, t)]
  {
    LevelIs(h, t, Height(|t|), 0);
  }

  // ----- What is accepted -----

  /** No tree of more than 33333 transactions, or of none, is accepted. */
  lemma SizeLimit(h: Hash, n: nat, bits: seq<bool>, hashes: seq<Digest>, bad: bool)
    ensures Accepted(h, n, bits, hashes, bad) ==> 1 <= n <= 33333 && |hashes| <= n && |hashes| <= |bits| && !bad
  {
    if Accepted(h, n, bits, hashes, bad) && bad {
      ExtractGrows(h, n, bits, hashes, Height(n), 0, Cursor(0, 0, [], [], bad));
    }
  }

  /** What the code builds is accepted exactly when no two siblings in it are twins, and then yields the root;
      so a list with a repeated end, which has the root of a shorter one, is not. */
  lemma BuiltAccepted(h: Hash, t: seq<Digest>, mask: seq<bool>, bytes: seq<bv8>)
    requires |t| == |mask| && 1 <= |t| <= 33333 && IsPacking(bytes, AllBits(mask))
    ensures Accepted(h, |t|, Unpack(bytes), AllHashes(h, t, mask), false) <==> NoTwins(h, t, mask, Height(|t|), 0)
  {
    hide *;
    var bits, hashes, c := Unpack(bytes), AllHashes(h, t, mask), Cursor(0, 0, [], [], false);
    PackingRoundTrip(bytes, AllBits(mask));
    PackedLength(bytes, AllBits(mask));
    HashBounds(h, t, mask);
    WholeTree(h, t, mask, bits);
    AcceptedIs(h, |t|, bits, hashes);
    if NoTwins(h, t, mask, Height(|t|), 0) {
      var d := BuiltCursor(h, t, mask, bits, hashes, Height(|t|), 0, c);
      AdvancedFrom(c, t, |AllBits(mask)|, |hashes|, Matched(mask, Height(|t|), 0));
    } else {
      TwinsRejected(h, t, mask, bits, hashes, Height(|t|), 0, c);
    }
  }

  lemma HashBounds(h: Hash, t: seq<Digest>, mask: seq<bool>)
    requires |t| == |mask| >= 1
    ensures |AllHashes(h, t, mask)| <= |t| && |AllHashes(h, t, mask)| <= |AllBits(mask)|
  {
    hide AllHashes, AllBits, AllMatched, Height;
    StoredBounds(h, t, mask);
  }

  lemma PackedLength(bytes: seq<bv8>, bits: seq<bool>)
    requires IsPacking(bytes, bits)
    ensures (|Unpack(bytes)| + 7) / 8 == (|bits| + 7) / 8
  {
    Bytewise(|bytes|);
  }

  lemma Bytewise(n: nat)
    ensures (8 * n + 7) / 8 == n
  {
  }

  lemma WholeTree(h: Hash, t: seq<Digest>, mask: seq<bool>, bits: seq<bool>)
    requires |t| == |mask| >= 1 && AllBits(mask) <= bits
    ensures Width(|t|, Height(|t|)) == 1 && |Bits(mask, Height(|t|), 0)| == |AllBits(mask)|
    ensures At(bits, 0, Bits(mask, Height(|t|), 0)) && At(AllHashes(h, t, mask), 0, Hashes(h, t, mask, Height(|t|), 0))
    ensures |Hashes(h, t, mask, Height(|t|), 0)| == |AllHashes(h, t, mask)|
  {
    hide Bits, Hashes, Width, HeightFrom;
  }

  lemma AcceptedIs(h: Hash, n: nat, bits: seq<bool>, hashes: seq<Digest>)
    requires 1 <= n <= 33333 && Width(n, Height(n)) == 1 && |hashes| <= n && |hashes| <= |bits|
    ensures var d := Extract(h, n, bits, hashes, Height(n), 0, Cursor(0, 0, [], [], false)).1;
      Accepted(h, n, bits, hashes, false)
      <==> !d.bad && (d.bitsUsed + 7) / 8 == (|bits| + 7) / 8 && d.hashUsed == |hashes|
  {
    hide Extract, HeightFrom, Width;
  }

  lemma AdvancedFrom(c: Cursor, t: seq<Digest>, bitCount: nat, hashCount: nat, xs: seq<nat>)
    requires c.bitsUsed == c.hashUsed == 0 && !c.bad && forall i :: 0 <= i < |xs| ==> xs[i] < |t|
    ensures var d := Advanced(c, t, bitCount, hashCount, xs);
      d.bitsUsed == bitCount && d.hashUsed == hashCount && !d.bad
  {
  }

  /** A subtree that extracts without failing does the same with more bits and hashes after its own. */
  lemma {:induction false} ExtractPrefix(h: Hash, n: nat, bits: seq<bool>, hashes: seq<Digest>, moreBits: seq<bool>,
                                         moreHashes: seq<Digest>, height: nat, pos: nat, c: Cursor)
    requires pos < Width(n, height) && !Extract(h, n, bits, hashes, height, pos, c).1.bad
    ensures Extract(h, n, bits + moreBits, hashes + moreHashes, height, pos, c)
         == Extract(h, n, bits, hashes, height, pos, c)
    decreases height
  {
    var allBits, all := bits + moreBits, hashes + moreHashes;
    assert c.bitsUsed < |bits| && allBits[c.bitsUsed] == bits[c.bitsUsed];
    if height == 0 || !bits[c.bitsUsed] {
      assert c.hashUsed < |hashes| && all[c.hashUsed] == hashes[c.hashUsed];
    } else {
      var c1 := c.(bitsUsed := c.bitsUsed + 1);
      var d := Extract(h, n, bits, hashes, height - 1, 2 * pos, c1).1;
      if 2 * pos + 1 < Width(n, height - 1) {
        if d.bad {
          ExtractGrows(h, n, bits, hashes, height - 1, 2 * pos + 1, d);
        }
        ExtractPrefix(h, n, bits, hashes, moreBits, moreHashes, height - 1, 2 * pos, c1);
        ExtractPrefix(h, n, bits, hashes, moreBits, moreHashes, height - 1, 2 * pos + 1, d);
      } else {
        ExtractPrefix(h, n, bits, hashes, moreBits, moreHashes, height - 1, 2 * pos, c1);
      }
    }
  }

  /** Nothing can be added to an accepted tree: one more hash, or one more byte of flags, and it is rejected. */
  lemma NothingLeftOver(h: Hash, n: nat, bits: seq<bool>, hashes: seq<Digest>, moreBits: seq<bool>,
                        moreHashes: seq<Digest>)
    requires Accepted(h, n, bits, hashes, false) && Accepted(h, n, bits + moreBits, hashes + moreHashes, false)
    ensures moreHashes == [] && (|bits + moreBits| + 7) / 8 == (|bits| + 7) / 8
  {
    ExtractPrefix(h, n, bits, hashes, moreBits, moreHashes, Height(n), 0, Cursor(0, 0, [], [], false));
  }
}
