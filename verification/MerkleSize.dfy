/**
 How long a serialized partial Merkle tree is, and when the documented bound on it holds
 (src/merkleblock.h).
 */
module MerkleSize {
  import opened Arithmetic
  import opened Powers
  import opened MerkleTree
  import opened MerkleBlock
  import opened FlagBytes

  /** The length of a compact size (GetSizeOfCompactSize in src/serialize.h). */
  function CompactSizeLength(n: nat): nat {
    if n < 253 then 1 else if n <= 0xFFFF then 3 else if n <= 0xFFFF_FFFF then 5 else 9
  }

  /** The number of transactions, the hashes and the bytes of flags, the last two with their numbers in front. */
  function SerializedSize(hashes: nat, bytes: nat): nat {
    4 + CompactSizeLength(hashes) + 32 * hashes + CompactSizeLength(bytes) + bytes
  }

  /** n / 4, rounded up: 10 + ceil(32.25 * n) is 10 + 32 * n + Quarter(n). */
  function Quarter(n: nat): nat { (n + 3) / 4 }

  predicate WithinGuarantee(hashes: nat, bytes: nat) {
    SerializedSize(hashes, bytes) <= 10 + 32 * hashes + Quarter(hashes)
  }

  // ----- In terms of hashes and flag bits -----

  lemma Eighth(bits: nat, k: nat)
    ensures (bits + 7) / 8 <= k <==> bits <= 8 * k
  {
  }

  lemma QuarterBounds(n: nat)
    ensures n <= 4 * Quarter(n) <= n + 3
  {
  }

  /** A bound on the flag bits that is exactly what the guarantee allows. */
  function Allowed(n: nat, bits: nat): nat {
    8 * Quarter(n) + if n < 253 then 32 else if bits <= 2016 then 16 else 0
  }

  lemma WithinExactly(n: nat, bits: nat)
    requires bits >= 2 * n - 1
    ensures WithinGuarantee(n, (bits + 7) / 8) <==> n <= 0xFFFF && bits <= Allowed(n, bits)
  {
    var b, c := (bits + 7) / 8, Quarter(n);
    QuarterBounds(n);
    Eighth(bits, 252);
    Eighth(bits, c + 4);
    Eighth(bits, c + 2);
    Eighth(bits, c);
    Eighth(bits, 0xFFFF);
    hide Quarter;
    if n > 0xFFFF {
      assert b >= c - 1;
    }
  }

  /** For every list and mask: with n hashes and u unpaired levels, the documented bound on the size holds if
      and only if n is below 2^16 and the 2n - 1 + u flag bits stay within n / 4 bytes, rounded up, and four
      more, two more or none, depending on how long the two counts in front are. */
  lemma SizeGuarantee(h: Hash, t: seq<Digest>, mask: seq<bool>, bytes: seq<bv8>)
    requires |t| == |mask| >= 1 && IsPacking(bytes, AllBits(mask))
    ensures var n, bits := |AllHashes(h, t, mask)|, 2 * |AllHashes(h, t, mask)| - 1 + Unpaired(mask, Height(|t|));
      && n >= 1 && |AllBits(mask)| == bits
      && (WithinGuarantee(n, |bytes|) <==> n <= 0xFFFF && bits <= Allowed(n, bits))
  {
    hide Allowed, WithinGuarantee, Hashes, Bits, OnlyChildren, Unpaired, Height;
    HashesWithinLeaves(h, t, mask, Height(|t|), 0);
    BitCount(h, t, mask, Height(|t|), 0);
    UnpairedCount(mask, Height(|t|));
    WithinExactly(|AllHashes(h, t, mask)|, |AllBits(mask)|);
  }

  lemma HeightWithin(n: nat, k: nat)
    requires 1 <= n <= Pow2(k)
    ensures Height(n) <= k
  {
    WidthBounds(n, k);
    if Width(n, k) > 1 {
      ProductMonotone(2, Width(n, k), Pow2(k));
    }
  }

  /** Among the trees that extraction accepts, it holds exactly when there are at most 2016 flag bits or they
      fit n / 4 bytes, rounded up. */
  lemma SizeOfAccepted(h: Hash, t: seq<Digest>, mask: seq<bool>, bytes: seq<bv8>)
    requires |t| == |mask| && 1 <= |t| <= 33333 && IsPacking(bytes, AllBits(mask))
    ensures var n, u := |AllHashes(h, t, mask)|, Unpaired(mask, Height(|t|));
      WithinGuarantee(n, |bytes|) <==> 2 * n + u <= 2017 || 2 * n + u <= 8 * Quarter(n) + 1
  {
    SizeGuarantee(h, t, mask, bytes);
    StoredBounds(h, t, mask);
    assert Pow2(16) == 0x1_0000 by {
      Pow2Add(8, 8);
      assert Pow2(8) == 0x100;
    }
    HeightWithin(|t|, 16);
    UnpairedWithin(mask, Height(|t|));
    QuarterBounds(|AllHashes(h, t, mask)|);
    hide Quarter, AllHashes, AllBits, Unpaired, Height;
  }

  // ----- When everything is matched -----

  ghost predicate AllTrue(mask: seq<bool>) {
    forall i :: 0 <= i < |mask| ==> mask[i]
  }

  /** The levels below a height that have an odd number of nodes. */
  function OddLevels(n: nat, height: nat): nat {
    if height == 0 then 0 else OddLevels(n, height - 1) + if Width(n, height - 1) % 2 == 1 then 1 else 0
  }

  lemma MatchedEverywhere(mask: seq<bool>, height: nat, pos: nat)
    requires AllTrue(mask) && pos < Width(|mask|, height)
    ensures ParentOfMatch(mask, height, pos)
  {
    ParentOfMatchRange(mask, height, pos);
    RangeOk(|mask|, height, pos);
    assert mask[First(height, pos)];
  }

  lemma {:induction false} HashPerLeaf(h: Hash, t: seq<Digest>, mask: seq<bool>, height: nat, pos: nat)
    requires |t| == |mask| && AllTrue(mask) && pos < Width(|t|, height)
    ensures |Hashes(h, t, mask, height, pos)| == End(|t|, height, pos) - First(height, pos)
    decreases height
  {
    MatchedEverywhere(mask, height, pos);
    if height > 0 {
      HashPerLeaf(h, t, mask, height - 1, 2 * pos);
      RangeOk(|t|, height - 1, 2 * pos);
      if 2 * pos + 1 < Width(|t|, height - 1) {
        HashPerLeaf(h, t, mask, height - 1, 2 * pos + 1);
      }
    }
  }

  lemma {:induction false} OddUnpaired(mask: seq<bool>, height: nat)
    requires |mask| >= 1 && AllTrue(mask)
    ensures Unpaired(mask, height) == OddLevels(|mask|, height)
  {
    if height > 0 {
      OddUnpaired(mask, height - 1);
      WidthPositive(|mask|, height);
      RangeOk(|mask|, height, Width(|mask|, height) - 1);
      assert mask[First(height, Width(|mask|, height) - 1)];
    }
  }

  /** With every transaction matched, whether it holds depends on their number only. */
  lemma SizeAllMatched(h: Hash, t: seq<Digest>, mask: seq<bool>, bytes: seq<bv8>)
    requires |t| == |mask| && 1 <= |t| <= 33333 && AllTrue(mask) && IsPacking(bytes, AllBits(mask))
    ensures var n := |t|; var bits := 2 * n - 1 + OddLevels(n, Height(n));
      && |AllHashes(h, t, mask)| == n && |bytes| == (bits + 7) / 8
      && (WithinGuarantee(n, |bytes|) <==> bits <= 2016 || bits <= 8 * Quarter(n))
  {
    SizeGuarantee(h, t, mask, bytes);
    SizeOfAccepted(h, t, mask, bytes);
    HashPerLeaf(h, t, mask, Height(|t|), 0);
    RootSpans(|t|);
    OddUnpaired(mask, Height(|t|));
  }

  lemma Widths1025()
    ensures Height(1025) == 11 && OddLevels(1025, 11) == 10
  {
    assert Width(1025, 1) == 513 && Width(1025, 2) == 257 && Width(1025, 3) == 129 && Width(1025, 4) == 65;
    assert Width(1025, 5) == 33 && Width(1025, 6) == 17 && Width(1025, 7) == 9 && Width(1025, 8) == 5;
    assert Width(1025, 9) == 3 && Width(1025, 10) == 2 && Width(1025, 11) == 1;
    assert OddLevels(1025, 2) == 2;
    assert OddLevels(1025, 4) == 4;
    assert OddLevels(1025, 6) == 6;
    assert OddLevels(1025, 8) == 8;
    assert OddLevels(1025, 10) == 10;
    HeightUnique(1025, 11);
  }

  lemma HeightUnique(n: nat, k: nat)
    requires k > 0 && Width(n, k) == 1 && Width(n, k - 1) == 2
    ensures Height(n) == k
  {
    WidthsFall(n, Height(n), k - 1);
  }

  lemma {:induction false} WidthsFall(n: nat, j: nat, k: nat)
    ensures j <= k ==> Width(n, k) <= Width(n, j)
    decreases k
  {
    if j < k {
      WidthsFall(n, j, k - 1);
    }
  }

  /** 1025 transactions, all matched: one byte more than the documentation allows. */
  lemma SizeBroken(h: Hash, t: seq<Digest>, mask: seq<bool>, bytes: seq<bv8>)
    requires |t| == |mask| == 1025 && AllTrue(mask) && IsPacking(bytes, AllBits(mask))
    ensures |AllHashes(h, t, mask)| == 1025 && |bytes| == 258
    ensures !WithinGuarantee(1025, 258) && SerializedSize(1025, 258) == 33068 && 10 + 32 * 1025 + Quarter(1025) == 33067
  {
    Widths1025();
    SizeAllMatched(h, t, mask, bytes);
  }
}
