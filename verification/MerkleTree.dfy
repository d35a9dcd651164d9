/**
 Partial Merkle trees (src/merkleblock.h, src/merkleblock.cpp): the encoder and decoder as functions,
 and what they promise each other.  The class that holds one is in MerkleBlock.dfy.

 The pair hash is an arbitrary function.  Where the code relies on it having no collisions, the
 results say: the property holds, or the named search returns two different pairs with equal hash.
 */
module MerkleTree {
  import opened Wrappers
  import opened Arithmetic
  import opened Powers

  /** A 256-bit hash, as a number; 0 is the null hash. */
  type Digest = nat
  type Hash = (Digest, Digest) -> Digest

  const NULL_DIGEST: Digest := 0

  // ----- Shape of the tree -----

  /** Number of nodes at a height over n leaves: each level has half the nodes of the one below,
      rounded up. */
  function Width(n: nat, height: nat): nat {
    if height == 0 then n else (Width(n, height - 1) + 1) / 2
  }

  /** First and one past the last leaf below a node. */
  function First(height: nat, pos: nat): nat {
    if height == 0 then pos else First(height - 1, 2 * pos)
  }

  function End(n: nat, height: nat, pos: nat): nat {
    if height == 0 then pos + 1
    else if 2 * pos + 1 < Width(n, height - 1) then End(n, height - 1, 2 * pos + 1)
    else End(n, height - 1, 2 * pos)
  }

  lemma {:induction false} RangeOk(n: nat, height: nat, pos: nat)
    requires pos < Width(n, height)
    ensures First(height, pos) < End(n, height, pos) <= n
    ensures pos + 1 < Width(n, height) ==> End(n, height, pos) == First(height, pos + 1)
    decreases height
  {
    if height > 0 {
      RangeOk(n, height - 1, 2 * pos);
      if 2 * pos + 1 < Width(n, height - 1) {
        RangeOk(n, height - 1, 2 * pos + 1);
      }
    }
  }

  // ----- The same shape in the program's shifts -----

  lemma QuotientUnique(n: nat, p: nat, a: nat, b: nat)
    requires p >= 1 && n <= a * p < n + p && n <= b * p < n + p
    ensures a == b
  {
    if a < b {
      Above(a, b, p);
    } else if b < a {
      Above(b, a, p);
    }
  }

  lemma HalfBounds(n: nat, p: nat, w: nat)
    requires p >= 1 && n <= w * p < n + p
    ensures n <= (w + 1) / 2 * (2 * p) < n + 2 * p
  {
    var v := (w + 1) / 2;
    ProductMonotone(w, 2 * v, p);
    ProductMonotone(2 * v, w + 1, p);
    Distribute(w, 1, p);
    Associate(v, 2, p);
  }

  lemma {:induction false} WidthBounds(n: nat, height: nat)
    ensures n <= Width(n, height) * Pow2(height) < n + Pow2(height)
  {
    if height > 0 {
      WidthBounds(n, height - 1);
      HalfBounds(n, Pow2(height - 1), Width(n, height - 1));
    }
  }

  /** CalcTreeWidth: (nTransactions + (1 << height) - 1) >> height. */
  lemma WidthFormula(n: nat, height: nat)
    ensures Width(n, height) == (n + Pow2(height) - 1) / Pow2(height)
  {
    WidthBounds(n, height);
    QuotientRemainder(n + Pow2(height) - 1, Pow2(height));
    QuotientUnique(n, Pow2(height), Width(n, height), (n + Pow2(height) - 1) / Pow2(height));
  }

  /** The leaves below a node are pos << height up to (pos + 1) << height, cut off at n. */
  lemma {:induction false} FirstFormula(height: nat, pos: nat)
    ensures First(height, pos) == pos * Pow2(height)
    decreases height
  {
    if height > 0 {
      FirstFormula(height - 1, 2 * pos);
      Associate(pos, 2, Pow2(height - 1));
    }
  }

  lemma EndFormula(n: nat, height: nat, pos: nat)
    requires pos < Width(n, height)
    ensures End(n, height, pos) == Min((pos + 1) * Pow2(height), n)
  {
    RangeOk(n, height, pos);
    WidthBounds(n, height);
    if pos + 1 < Width(n, height) {
      FirstFormula(height, pos + 1);
      RangeOk(n, height, pos + 1);
    } else {
      LastEnd(n, height);
    }
  }

  lemma {:induction false} LastEnd(n: nat, height: nat)
    requires Width(n, height) > 0
    ensures End(n, height, Width(n, height) - 1) == n
  {
    if height > 0 {
      LastEnd(n, height - 1);
    }
  }

  function Min(a: nat, b: nat): nat { if a < b then a else b }

  // ----- The full tree -----

  function CalcHash(h: Hash, t: seq<Digest>, height: nat, pos: nat): Digest
    requires pos < Width(|t|, height)
    decreases height
  {
    if height == 0 then t[pos]
    else
      var left := CalcHash(h, t, height - 1, 2 * pos);
      var right := if 2 * pos + 1 < Width(|t|, height - 1) then CalcHash(h, t, height - 1, 2 * pos + 1) else left;
      h(left, right)
  }

  /** The two digests that are hashed into a node. */
  function Pair(h: Hash, t: seq<Digest>, height: nat, pos: nat): (Digest, Digest)
    requires height > 0 && pos < Width(|t|, height)
  {
    var left := CalcHash(h, t, height - 1, 2 * pos);
    (left, if 2 * pos + 1 < Width(|t|, height - 1) then CalcHash(h, t, height - 1, 2 * pos + 1) else left)
  }

  // ----- Encoding -----

  /** Whether a node is the parent of a matched leaf, or one itself. */
  predicate ParentOfMatch(mask: seq<bool>, height: nat, pos: nat)
    requires pos < Width(|mask|, height)
    decreases height
  {
    if height == 0 then mask[pos]
    else
      || ParentOfMatch(mask, height - 1, 2 * pos)
      || (2 * pos + 1 < Width(|mask|, height - 1) && ParentOfMatch(mask, height - 1, 2 * pos + 1))
  }

  /** The matched leaves below a node, in order. */
  function Matched(mask: seq<bool>, height: nat, pos: nat): (r: seq<nat>)
    requires pos < Width(|mask|, height)
    ensures forall i :: 0 <= i < |r| ==> r[i] < |mask|
    decreases height
  {
    if height == 0 then (if mask[pos] then [pos] else [])
    else
      Matched(mask, height - 1, 2 * pos)
      + if 2 * pos + 1 < Width(|mask|, height - 1) then Matched(mask, height - 1, 2 * pos + 1) else []
  }

  lemma {:induction false} NoneMatched(mask: seq<bool>, height: nat, pos: nat)
    requires pos < Width(|mask|, height)
    ensures ParentOfMatch(mask, height, pos) <==> Matched(mask, height, pos) != []
    decreases height
  {
    if height > 0 {
      NoneMatched(mask, height - 1, 2 * pos);
      if 2 * pos + 1 < Width(|mask|, height - 1) {
        NoneMatched(mask, height - 1, 2 * pos + 1);
      }
    }
  }

  /** xs lists exactly the matched positions of [lo, hi), in order. */
  ghost predicate Lists(mask: seq<bool>, xs: seq<nat>, lo: nat, hi: nat) {
    && hi <= |mask|
    && (forall k :: k in xs <==> lo <= k < hi && mask[k])
    && (forall i, j :: 0 <= i < j < |xs| ==> xs[i] < xs[j])
  }

  lemma ListsJoin(mask: seq<bool>, xs: seq<nat>, ys: seq<nat>, lo: nat, mid: nat, hi: nat)
    requires lo <= mid <= hi && Lists(mask, xs, lo, mid) && Lists(mask, ys, mid, hi)
    ensures Lists(mask, xs + ys, lo, hi)
  {
    forall i, j | 0 <= i < |xs| && 0 <= j < |ys| ensures xs[i] < ys[j] {
      assert xs[i] in xs && ys[j] in ys;
    }
  }

  lemma {:induction false} MatchedExactly(mask: seq<bool>, height: nat, pos: nat)
    requires pos < Width(|mask|, height)
    ensures Lists(mask, Matched(mask, height, pos), First(height, pos), End(|mask|, height, pos))
    decreases height
  {
    RangeOk(|mask|, height, pos);
    if height > 0 {
      MatchedExactly(mask, height - 1, 2 * pos);
      RangeOk(|mask|, height - 1, 2 * pos);
      if 2 * pos + 1 < Width(|mask|, height - 1) {
        MatchedExactly(mask, height - 1, 2 * pos + 1);
        RangeOk(|mask|, height - 1, 2 * pos + 1);
        ListsJoin(mask, Matched(mask, height - 1, 2 * pos), Matched(mask, height - 1, 2 * pos + 1),
                  First(height, pos), First(height - 1, 2 * pos + 1), End(|mask|, height, pos));
      } else {
        assert Matched(mask, height, pos) == Matched(mask, height - 1, 2 * pos);
      }
    }
  }

  /** The flag bits stored for a subtree, depth first. */
  function Bits(mask: seq<bool>, height: nat, pos: nat): seq<bool>
    requires pos < Width(|mask|, height)
    decreases height
  {
    var m := ParentOfMatch(mask, height, pos);
    if height == 0 || !m then [m]
    else
      [m] + (Bits(mask, height - 1, 2 * pos)
             + if 2 * pos + 1 < Width(|mask|, height - 1) then Bits(mask, height - 1, 2 * pos + 1) else [])
  }

  /** The hashes stored for a subtree, depth first. */
  function Hashes(h: Hash, t: seq<Digest>, mask: seq<bool>, height: nat, pos: nat): seq<Digest>
    requires |t| == |mask| && pos < Width(|t|, height)
    decreases height
  {
    if height == 0 || !ParentOfMatch(mask, height, pos) then [CalcHash(h, t, height, pos)]
    else
      Hashes(h, t, mask, height - 1, 2 * pos)
      + if 2 * pos + 1 < Width(|t|, height - 1) then Hashes(h, t, mask, height - 1, 2 * pos + 1) else []
  }

  // ----- Decoding -----

  /** What has been consumed and reported so far. */
  datatype Cursor = Cursor(bitsUsed: nat, hashUsed: nat, ids: seq<Digest>, indices: seq<nat>, bad: bool)

  function Extract(h: Hash, n: nat, bits: seq<bool>, hashes: seq<Digest>, height: nat, pos: nat,
                   c: Cursor): (Digest, Cursor)
    requires pos < Width(n, height)
    decreases height
  {
    if c.bitsUsed >= |bits| then (NULL_DIGEST, c.(bad := true))
    else if height == 0 || !bits[c.bitsUsed] then
      ExtractStored(hashes, pos, height == 0 && bits[c.bitsUsed], c.(bitsUsed := c.bitsUsed + 1))
    else
      var (left, d) := Extract(h, n, bits, hashes, height - 1, 2 * pos, c.(bitsUsed := c.bitsUsed + 1));
      if 2 * pos + 1 < Width(n, height - 1) then
        var (right, e) := Extract(h, n, bits, hashes, height - 1, 2 * pos + 1, d);
        (h(left, right), e.(bad := e.bad || right == left))
      else (h(left, left), d)
  }

  /** Take the next stored hash; a matched leaf is reported. */
  function ExtractStored(hashes: seq<Digest>, pos: nat, matched: bool, c: Cursor): (Digest, Cursor) {
    if c.hashUsed >= |hashes| then (NULL_DIGEST, c.(bad := true))
    else
      var x := hashes[c.hashUsed];
      var d := c.(hashUsed := c.hashUsed + 1);
      (x, if matched then d.(ids := d.ids + [x], indices := d.indices + [pos]) else d)
  }

  // ----- Soundness of the decoder -----

  /** Two different pairs; the lemmas show that they have the same hash. */
  datatype Collision = Collision(a: (Digest, Digest), b: (Digest, Digest))

  predicate Collides(h: Hash, k: Collision) {
    k.a != k.b && h(k.a.0, k.a.1) == h(k.b.0, k.b.1)
  }

  /** Compare what the decoder hashes at each node with what the tree over t hashes there. */
  function FindCollision(h: Hash, t: seq<Digest>, bits: seq<bool>, hashes: seq<Digest>, height: nat, pos: nat,
                         c: Cursor)
    : Option<Collision>
    requires pos < Width(|t|, height)
    decreases height
  {
    if c.bitsUsed >= |bits| || height == 0 || !bits[c.bitsUsed] then None
    else
      var c1 := c.(bitsUsed := c.bitsUsed + 1);
      var (left, d) := Extract(h, |t|, bits, hashes, height - 1, 2 * pos, c1);
      if 2 * pos + 1 < Width(|t|, height - 1) then
        var right := Extract(h, |t|, bits, hashes, height - 1, 2 * pos + 1, d).0;
        if (left, right) != Pair(h, t, height, pos) then Some(Collision((left, right), Pair(h, t, height, pos)))
        else
          var r := FindCollision(h, t, bits, hashes, height - 1, 2 * pos, c1);
          if r.Some? then r else FindCollision(h, t, bits, hashes, height - 1, 2 * pos + 1, d)
      else if (left, left) != Pair(h, t, height, pos) then Some(Collision((left, left), Pair(h, t, height, pos)))
      else FindCollision(h, t, bits, hashes, height - 1, 2 * pos, c1)
  }

  /** Reported ids are those of t at the reported indices, which increase within [lo, hi). */
  ghost predicate Honest(t: seq<Digest>, ids: seq<Digest>, indices: seq<nat>, lo: nat, hi: nat) {
    && |ids| == |indices| && hi <= |t|
    && (forall i :: 0 <= i < |ids| ==> lo <= indices[i] < hi && ids[i] == t[indices[i]])
    && (forall i, j :: 0 <= i < j < |indices| ==> indices[i] < indices[j])
  }

  lemma HonestJoin(t: seq<Digest>, ids: seq<Digest>, xs: seq<nat>, ids': seq<Digest>, xs': seq<nat>, lo: nat,
                   mid: nat, hi: nat)
    requires Honest(t, ids, xs, lo, mid) && Honest(t, ids', xs', mid, hi) && lo <= mid <= hi
    ensures Honest(t, ids + ids', xs + xs', lo, hi)
  {
  }

  lemma {:induction false} ExtractGrows(h: Hash, n: nat, bits: seq<bool>, hashes: seq<Digest>, height: nat, pos: nat,
                                        c: Cursor)
    requires pos < Width(n, height)
    ensures var d := Extract(h, n, bits, hashes, height, pos, c).1;
      c.bad ==> d.bad
    decreases height
  {
    if c.bitsUsed < |bits| && height > 0 && bits[c.bitsUsed] {
      var c1 := c.(bitsUsed := c.bitsUsed + 1);
      ExtractGrows(h, n, bits, hashes, height - 1, 2 * pos, c1);
      var d := Extract(h, n, bits, hashes, height - 1, 2 * pos, c1).1;
      if 2 * pos + 1 < Width(n, height - 1) {
        ExtractGrows(h, n, bits, hashes, height - 1, 2 * pos + 1, d);
      }
    }
  }

  /** What a successful extraction of a subtree reports beyond what was there before. */
  ghost predicate Reports(t: seq<Digest>, c: Cursor, d: Cursor, ids: seq<Digest>, indices: seq<nat>, lo: nat, hi: nat) {
    d.ids == c.ids + ids && d.indices == c.indices + indices && Honest(t, ids, indices, lo, hi)
  }

  /** For arbitrary bits and hashes: a subtree that extracts without failing to the true hash of its
      node reports only true leaves, or a collision is found. */
  lemma {:induction false} ExtractSound(h: Hash, t: seq<Digest>, bits: seq<bool>, hashes: seq<Digest>,
                                        height: nat, pos: nat, c: Cursor)
    returns (ids: seq<Digest>, indices: seq<nat>)
    requires pos < Width(|t|, height)
    requires var (x, d) := Extract(h, |t|, bits, hashes, height, pos, c);
             !d.bad && x == CalcHash(h, t, height, pos)
    ensures match FindCollision(h, t, bits, hashes, height, pos, c)
      case Some(k) => Collides(h, k)
      case None =>
        Reports(t, c, Extract(h, |t|, bits, hashes, height, pos, c).1, ids, indices, First(height, pos),
                End(|t|, height, pos))
    decreases height, 1
  {
    if height == 0 || !bits[c.bitsUsed] {
      RangeOk(|t|, height, pos);
      ids, indices := SoundStored(t, hashes, pos, height == 0 && bits[c.bitsUsed], c.(bitsUsed := c.bitsUsed + 1),
                                  First(height, pos), End(|t|, height, pos));
    } else {
      if 2 * pos + 1 < Width(|t|, height - 1) {
        ids, indices := SoundBoth(h, t, bits, hashes, height, pos, c);
      } else {
        ids, indices := SoundOne(h, t, bits, hashes, height, pos, c);
      }
    }
  }

  lemma SoundStored(t: seq<Digest>, hashes: seq<Digest>, pos: nat, matched: bool, c: Cursor, lo: nat, hi: nat)
    returns (ids: seq<Digest>, indices: seq<nat>)
    requires c.hashUsed < |hashes| && lo < hi <= |t|
    requires matched ==> lo == pos && hashes[c.hashUsed] == t[pos]
    ensures Reports(t, c, ExtractStored(hashes, pos, matched, c).1, ids, indices, lo, hi)
  {
    ids, indices := [], [];
    if matched {
      ids, indices := [hashes[c.hashUsed]], [pos];
    }
  }

  lemma {:induction false} SoundOne(h: Hash, t: seq<Digest>, bits: seq<bool>, hashes: seq<Digest>, height: nat,
                                    pos: nat, c: Cursor)
    returns (ids: seq<Digest>, indices: seq<nat>)
    requires height > 0 && pos < Width(|t|, height) && 2 * pos + 1 >= Width(|t|, height - 1)
    requires c.bitsUsed < |bits| && bits[c.bitsUsed]
    requires var (x, d) := Extract(h, |t|, bits, hashes, height, pos, c);
             !d.bad && x == CalcHash(h, t, height, pos)
    ensures match FindCollision(h, t, bits, hashes, height, pos, c)
      case Some(k) => Collides(h, k)
      case None =>
        Reports(t, c, Extract(h, |t|, bits, hashes, height, pos, c).1, ids, indices, First(height, pos),
                End(|t|, height, pos))
    decreases height, 0
  {
    ids, indices := [], [];
    var c1 := c.(bitsUsed := c.bitsUsed + 1);
    var left := Extract(h, |t|, bits, hashes, height - 1, 2 * pos, c1).0;
    if (left, left) == Pair(h, t, height, pos) {
      ids, indices := ExtractSound(h, t, bits, hashes, height - 1, 2 * pos, c1);
    }
  }

  /** A node with two children, one level at a time. */
  lemma BothUnfold(h: Hash, t: seq<Digest>, bits: seq<bool>, hashes: seq<Digest>, height: nat, pos: nat, c: Cursor)
    requires height > 0 && pos < Width(|t|, height) && 2 * pos + 1 < Width(|t|, height - 1)
    requires c.bitsUsed < |bits| && bits[c.bitsUsed]
    ensures var c1 := c.(bitsUsed := c.bitsUsed + 1);
      var (left, d) := Extract(h, |t|, bits, hashes, height - 1, 2 * pos, c1);
      var (right, e) := Extract(h, |t|, bits, hashes, height - 1, 2 * pos + 1, d);
      && Extract(h, |t|, bits, hashes, height, pos, c) == (h(left, right), e.(bad := e.bad || right == left))
      && Pair(h, t, height, pos) == (CalcHash(h, t, height - 1, 2 * pos), CalcHash(h, t, height - 1, 2 * pos + 1))
      && CalcHash(h, t, height, pos) == h(Pair(h, t, height, pos).0, Pair(h, t, height, pos).1)
      && FindCollision(h, t, bits, hashes, height, pos, c)
         == if (left, right) != Pair(h, t, height, pos) then Some(Collision((left, right), Pair(h, t, height, pos)))
            else if FindCollision(h, t, bits, hashes, height - 1, 2 * pos, c1).Some? then
              FindCollision(h, t, bits, hashes, height - 1, 2 * pos, c1)
            else FindCollision(h, t, bits, hashes, height - 1, 2 * pos + 1, d)
  {
  }

  lemma {:induction false} SoundBoth(h: Hash, t: seq<Digest>, bits: seq<bool>, hashes: seq<Digest>, height: nat,
                                     pos: nat, c: Cursor)
    returns (ids: seq<Digest>, indices: seq<nat>)
    requires height > 0 && pos < Width(|t|, height) && 2 * pos + 1 < Width(|t|, height - 1)
    requires c.bitsUsed < |bits| && bits[c.bitsUsed]
    requires var (x, d) := Extract(h, |t|, bits, hashes, height, pos, c);
             !d.bad && x == CalcHash(h, t, height, pos)
    ensures match FindCollision(h, t, bits, hashes, height, pos, c)
      case Some(k) => Collides(h, k)
      case None =>
        Reports(t, c, Extract(h, |t|, bits, hashes, height, pos, c).1, ids, indices, First(height, pos),
                End(|t|, height, pos))
    decreases height, 0
  {
    hide Extract, CalcHash, FindCollision, Reports, Width, First, End, Pair;
    ids, indices := [], [];
    BothUnfold(h, t, bits, hashes, height, pos, c);
    var c1 := c.(bitsUsed := c.bitsUsed + 1);
    var (left, d) := Extract(h, |t|, bits, hashes, height - 1, 2 * pos, c1);
    var (right, e) := Extract(h, |t|, bits, hashes, height - 1, 2 * pos + 1, d);
    ExtractGrows(h, |t|, bits, hashes, height - 1, 2 * pos + 1, d);
    var pair := Pair(h, t, height, pos);
    if (left, right) == pair {
      var ids1, xs1 := ExtractSound(h, t, bits, hashes, height - 1, 2 * pos, c1);
      var ids2, xs2 := ExtractSound(h, t, bits, hashes, height - 1, 2 * pos + 1, d);
      ids, indices := ids1 + ids2, xs1 + xs2;
      if FindCollision(h, t, bits, hashes, height, pos, c).None? {
        JoinReports(t, c1, d, e, ids1, xs1, ids2, xs2, height, pos);
        SameReports(t, c1, e, c, Extract(h, |t|, bits, hashes, height, pos, c).1, ids, indices, First(height, pos),
                    End(|t|, height, pos));
      }
    }
  }

  lemma SameReports(t: seq<Digest>, c1: Cursor, e: Cursor, c: Cursor, d: Cursor, ids: seq<Digest>, xs: seq<nat>,
                    lo: nat, hi: nat)
    requires Reports(t, c1, e, ids, xs, lo, hi)
    requires c1.ids == c.ids && c1.indices == c.indices && e.ids == d.ids && e.indices == d.indices
    ensures Reports(t, c, d, ids, xs, lo, hi)
  {
  }

  lemma JoinReports(t: seq<Digest>, c: Cursor, d: Cursor, e: Cursor, ids1: seq<Digest>, xs1: seq<nat>,
                    ids2: seq<Digest>, xs2: seq<nat>, height: nat, pos: nat)
    requires height > 0 && pos < Width(|t|, height) && 2 * pos + 1 < Width(|t|, height - 1)
    requires Reports(t, c, d, ids1, xs1, First(height - 1, 2 * pos), End(|t|, height - 1, 2 * pos))
    requires Reports(t, d, e, ids2, xs2, First(height - 1, 2 * pos + 1), End(|t|, height - 1, 2 * pos + 1))
    ensures Reports(t, c, e, ids1 + ids2, xs1 + xs2, First(height, pos), End(|t|, height, pos))
  {
    RangeOk(|t|, height - 1, 2 * pos);
    RangeOk(|t|, height - 1, 2 * pos + 1);
    HonestJoin(t, ids1, xs1, ids2, xs2, First(height, pos), First(height - 1, 2 * pos + 1), End(|t|, height, pos));
  }

  // ----- Completeness: decoding what was encoded -----

  function Pick(t: seq<Digest>, xs: seq<nat>): (r: seq<Digest>)
    requires forall i :: 0 <= i < |xs| ==> xs[i] < |t|
    ensures |r| == |xs| && forall i :: 0 <= i < |xs| ==> r[i] == t[xs[i]]
  {
    seq(|xs|, i requires 0 <= i < |xs| => t[xs[i]])
  }

  ghost predicate Distinct(t: seq<Digest>) {
    forall i, j :: 0 <= i < j < |t| ==> t[i] != t[j]
  }

  /** Go down the left edges of two subtrees until they hash different pairs. */
  function FindTwins(h: Hash, t: seq<Digest>, height: nat, p: nat, q: nat): Option<Collision>
    requires p < Width(|t|, height) && q < Width(|t|, height)
    decreases height
  {
    if height == 0 then None
    else if Pair(h, t, height, p) != Pair(h, t, height, q) then
      Some(Collision(Pair(h, t, height, p), Pair(h, t, height, q)))
    else
      FindTwins(h, t, height - 1, 2 * p, 2 * q)
  }

  /** Over distinct leaves, two nodes of one level can only have equal hashes by a collision. */
  lemma {:induction false} TwinsCollide(h: Hash, t: seq<Digest>, height: nat, p: nat, q: nat)
    requires p < Width(|t|, height) && q < Width(|t|, height) && p != q && Distinct(t)
    requires CalcHash(h, t, height, p) == CalcHash(h, t, height, q)
    ensures FindTwins(h, t, height, p, q).Some? && Collides(h, FindTwins(h, t, height, p, q).value)
    decreases height
  {
    if height > 0 {
      if Pair(h, t, height, p) == Pair(h, t, height, q) {
        TwinsCollide(h, t, height - 1, 2 * p, 2 * q);
      }
    }
  }

  /** Look for equal siblings among the nodes the encoder descends into. */
  function FindSiblings(h: Hash, t: seq<Digest>, mask: seq<bool>, height: nat, pos: nat): Option<Collision>
    requires |t| == |mask| && pos < Width(|t|, height)
    decreases height
  {
    if height == 0 || !ParentOfMatch(mask, height, pos) then None
    else
      var l := FindSiblings(h, t, mask, height - 1, 2 * pos);
      if l.Some? || 2 * pos + 1 >= Width(|t|, height - 1) then l
      else if CalcHash(h, t, height - 1, 2 * pos) == CalcHash(h, t, height - 1, 2 * pos + 1) then
        FindTwins(h, t, height - 1, 2 * pos, 2 * pos + 1)
      else FindSiblings(h, t, mask, height - 1, 2 * pos + 1)
  }

  lemma {:induction false} SiblingsCollide(h: Hash, t: seq<Digest>, mask: seq<bool>, height: nat, pos: nat)
    requires |t| == |mask| && pos < Width(|t|, height) && Distinct(t)
    ensures FindSiblings(h, t, mask, height, pos).Some? ==> Collides(h, FindSiblings(h, t, mask, height, pos).value)
    decreases height
  {
    if height > 0 && ParentOfMatch(mask, height, pos) {
      SiblingsCollide(h, t, mask, height - 1, 2 * pos);
      if 2 * pos + 1 < Width(|t|, height - 1) {
        SiblingsCollide(h, t, mask, height - 1, 2 * pos + 1);
        if CalcHash(h, t, height - 1, 2 * pos) == CalcHash(h, t, height - 1, 2 * pos + 1) {
          TwinsCollide(h, t, height - 1, 2 * pos, 2 * pos + 1);
        }
      }
    }
  }

  /** `part` occurs in `whole` at position k. */
  ghost predicate At<T>(whole: seq<T>, k: nat, part: seq<T>) {
    k + |part| <= |whole| && forall i :: 0 <= i < |part| ==> whole[k + i] == part[i]
  }

  lemma AtSplit<T>(whole: seq<T>, k: nat, a: seq<T>, b: seq<T>)
    requires At(whole, k, a + b)
    ensures At(whole, k, a) && At(whole, k + |a|, b)
  {
    forall i | 0 <= i < |a| ensures whole[k + i] == a[i] {
      assert (a + b)[i] == a[i];
    }
    forall i | 0 <= i < |b| ensures whole[k + |a| + i] == b[i] {
      assert whole[k + (|a| + i)] == (a + b)[|a| + i] == b[i];
    }
  }

  function Advanced(c: Cursor, t: seq<Digest>, bitCount: nat, hashCount: nat, xs: seq<nat>): Cursor
    requires forall i :: 0 <= i < |xs| ==> xs[i] < |t|
  {
    Cursor(c.bitsUsed + bitCount, c.hashUsed + hashCount, c.ids + Pick(t, xs), c.indices + xs, c.bad)
  }

  /** What decoding the encoding of a subtree must yield. */
  ghost predicate Decodes(h: Hash, t: seq<Digest>, mask: seq<bool>, bits: seq<bool>, hashes: seq<Digest>,
                          height: nat, pos: nat, c: Cursor)
    requires |t| == |mask| && pos < Width(|t|, height)
  {
    Extract(h, |t|, bits, hashes, height, pos, c)
    == (CalcHash(h, t, height, pos),
        Advanced(c, t, |Bits(mask, height, pos)|, |Hashes(h, t, mask, height, pos)|, Matched(mask, height, pos)))
  }

  lemma AdvancedTwice(c: Cursor, t: seq<Digest>, b1: nat, h1: nat, xs1: seq<nat>, b2: nat, h2: nat, xs2: seq<nat>)
    requires (forall i :: 0 <= i < |xs1| ==> xs1[i] < |t|) && (forall i :: 0 <= i < |xs2| ==> xs2[i] < |t|)
    ensures Advanced(Advanced(c, t, b1, h1, xs1), t, b2, h2, xs2) == Advanced(c, t, b1 + b2, h1 + h2, xs1 + xs2)
  {
    assert Pick(t, xs1 + xs2) == Pick(t, xs1) + Pick(t, xs2);
    assert c.ids + Pick(t, xs1) + Pick(t, xs2) == c.ids + (Pick(t, xs1) + Pick(t, xs2));
    assert c.indices + xs1 + xs2 == c.indices + (xs1 + xs2);
  }

  // ----- Twins -----

  /** No node that is descended into has two children with the same hash. */
  predicate NoTwins(h: Hash, t: seq<Digest>, mask: seq<bool>, height: nat, pos: nat)
    requires |t| == |mask| && pos < Width(|t|, height)
    decreases height
  {
    height == 0 || !ParentOfMatch(mask, height, pos)
    || (&& NoTwins(h, t, mask, height - 1, 2 * pos)
        && (2 * pos + 1 < Width(|t|, height - 1) ==>
              && NoTwins(h, t, mask, height - 1, 2 * pos + 1)
              && CalcHash(h, t, height - 1, 2 * pos) != CalcHash(h, t, height - 1, 2 * pos + 1)))
  }

  /** Over distinct leaves twins are a collision. */
  lemma {:induction false} NoTwinsWhen(h: Hash, t: seq<Digest>, mask: seq<bool>, height: nat, pos: nat)
    requires |t| == |mask| && pos < Width(|t|, height) && Distinct(t) && FindSiblings(h, t, mask, height, pos).None?
    ensures NoTwins(h, t, mask, height, pos)
    decreases height
  {
    if height > 0 && ParentOfMatch(mask, height, pos) {
      NoTwinsWhen(h, t, mask, height - 1, 2 * pos);
      if 2 * pos + 1 < Width(|t|, height - 1) {
        if CalcHash(h, t, height - 1, 2 * pos) == CalcHash(h, t, height - 1, 2 * pos + 1) {
          TwinsCollide(h, t, height - 1, 2 * pos, 2 * pos + 1);
        }
        NoTwinsWhen(h, t, mask, height - 1, 2 * pos + 1);
      }
    }
  }

  /** Without twins the encoding of a subtree decodes to the node's hash and its matched leaves, using up
      exactly the bits and hashes it was given. */
  lemma {:induction false} ExtractBuilt(h: Hash, t: seq<Digest>, mask: seq<bool>, bits: seq<bool>,
                                        hashes: seq<Digest>, height: nat, pos: nat, c: Cursor)
    requires |t| == |mask| && pos < Width(|t|, height)
    requires At(bits, c.bitsUsed, Bits(mask, height, pos)) && At(hashes, c.hashUsed, Hashes(h, t, mask, height, pos))
    requires NoTwins(h, t, mask, height, pos)
    ensures Decodes(h, t, mask, bits, hashes, height, pos, c)
    decreases height, 2
  {
    if height == 0 || !ParentOfMatch(mask, height, pos) {
      assert bits[c.bitsUsed + 0] == Bits(mask, height, pos)[0];
      assert hashes[c.hashUsed + 0] == Hashes(h, t, mask, height, pos)[0];
      NoneMatched(mask, height, pos);
      StoredAdvances(t, mask, height, pos, c);
    } else if 2 * pos + 1 < Width(|t|, height - 1) {
      BuiltBoth(h, t, mask, bits, hashes, height, pos, c);
    } else {
      BuiltOne(h, t, mask, bits, hashes, height, pos, c);
    }
  }

  lemma StoredAdvances(t: seq<Digest>, mask: seq<bool>, height: nat, pos: nat, c: Cursor)
    requires |t| == |mask| && pos < Width(|t|, height) && (height == 0 || Matched(mask, height, pos) == [])
    ensures var xs := Matched(mask, height, pos);
      Advanced(c, t, 1, 1, xs) ==
         c.(bitsUsed := c.bitsUsed + 1, hashUsed := c.hashUsed + 1,
            ids := if xs == [] then c.ids else c.ids + [t[pos]],
            indices := if xs == [] then c.indices else c.indices + [pos])
  {
    var xs := Matched(mask, height, pos);
    assert Pick(t, xs) == if xs == [] then [] else [t[pos]];
    assert c.ids + [] == c.ids && c.indices + [] == c.indices;
  }

  lemma {:induction false} BuiltOne(h: Hash, t: seq<Digest>, mask: seq<bool>, bits: seq<bool>,
                                    hashes: seq<Digest>, height: nat, pos: nat, c: Cursor)
    requires |t| == |mask| && height > 0 && pos < Width(|t|, height) && ParentOfMatch(mask, height, pos)
    requires 2 * pos + 1 >= Width(|t|, height - 1)
    requires At(bits, c.bitsUsed, Bits(mask, height, pos)) && At(hashes, c.hashUsed, Hashes(h, t, mask, height, pos))
    requires NoTwins(h, t, mask, height, pos)
    ensures Decodes(h, t, mask, bits, hashes, height, pos, c)
    decreases height, 0
  {
    hide Bits, Hashes, Matched, ParentOfMatch, Extract, CalcHash, Width, At, Decodes, NoTwins;
    SplitOne(h, t, mask, bits, hashes, height, pos, c);
    var d := BuiltCursor(h, t, mask, bits, hashes, height - 1, 2 * pos, c.(bitsUsed := c.bitsUsed + 1));
    ExtractOne(h, t, bits, hashes, height, pos, c, d);
    DecodesOne(h, t, mask, bits, hashes, height, pos, c, d);
  }

  lemma SplitOne(h: Hash, t: seq<Digest>, mask: seq<bool>, bits: seq<bool>, hashes: seq<Digest>, height: nat,
                 pos: nat, c: Cursor)
    requires |t| == |mask| && height > 0 && pos < Width(|t|, height) && ParentOfMatch(mask, height, pos)
    requires 2 * pos + 1 >= Width(|t|, height - 1)
    requires At(bits, c.bitsUsed, Bits(mask, height, pos)) && At(hashes, c.hashUsed, Hashes(h, t, mask, height, pos))
    ensures 2 * pos < Width(|t|, height - 1)
    ensures NoTwins(h, t, mask, height, pos) <==> NoTwins(h, t, mask, height - 1, 2 * pos)
    ensures c.bitsUsed < |bits| && bits[c.bitsUsed] && At(bits, c.bitsUsed + 1, Bits(mask, height - 1, 2 * pos))
    ensures At(hashes, c.hashUsed, Hashes(h, t, mask, height - 1, 2 * pos))
  {
    assert Bits(mask, height, pos) == [true] + Bits(mask, height - 1, 2 * pos);
    assert Hashes(h, t, mask, height, pos) == Hashes(h, t, mask, height - 1, 2 * pos);
    AtSplit(bits, c.bitsUsed, [true], Bits(mask, height - 1, 2 * pos));
    assert bits[c.bitsUsed + 0] == [true][0];
  }

  lemma ExtractOne(h: Hash, t: seq<Digest>, bits: seq<bool>, hashes: seq<Digest>, height: nat, pos: nat, c: Cursor,
                   d: Cursor)
    requires height > 0 && pos < Width(|t|, height) && 2 * pos < Width(|t|, height - 1) <= 2 * pos + 1
    requires c.bitsUsed < |bits| && bits[c.bitsUsed]
    requires Extract(h, |t|, bits, hashes, height - 1, 2 * pos, c.(bitsUsed := c.bitsUsed + 1))
      == (CalcHash(h, t, height - 1, 2 * pos), d)
    ensures Extract(h, |t|, bits, hashes, height, pos, c) == (CalcHash(h, t, height, pos), d)
  {
  }

  lemma DecodesOne(h: Hash, t: seq<Digest>, mask: seq<bool>, bits: seq<bool>, hashes: seq<Digest>, height: nat,
                   pos: nat, c: Cursor, d: Cursor)
    requires |t| == |mask| && height > 0 && pos < Width(|t|, height) && 2 * pos < Width(|t|, height - 1) <= 2 * pos + 1
    requires ParentOfMatch(mask, height, pos)
    requires Extract(h, |t|, bits, hashes, height, pos, c) == (CalcHash(h, t, height, pos), d)
    requires d == Advanced(c.(bitsUsed := c.bitsUsed + 1), t, |Bits(mask, height - 1, 2 * pos)|,
                           |Hashes(h, t, mask, height - 1, 2 * pos)|, Matched(mask, height - 1, 2 * pos))
    ensures Decodes(h, t, mask, bits, hashes, height, pos, c)
  {
    hide Bits, Hashes, Matched, Extract, CalcHash, Width, ParentOfMatch, Advanced;
    OneUnfold(h, t, mask, height, pos);
    AdvancedOne(c, t, |Bits(mask, height - 1, 2 * pos)|, |Hashes(h, t, mask, height - 1, 2 * pos)|,
                Matched(mask, height - 1, 2 * pos));
  }

  lemma AdvancedOne(c: Cursor, t: seq<Digest>, bitCount: nat, hashCount: nat, xs: seq<nat>)
    requires forall i :: 0 <= i < |xs| ==> xs[i] < |t|
    ensures Advanced(c.(bitsUsed := c.bitsUsed + 1), t, bitCount, hashCount, xs)
      == Advanced(c, t, 1 + bitCount, hashCount, xs)
  {
  }

  /** A node with one child, one level at a time. */
  lemma OneUnfold(h: Hash, t: seq<Digest>, mask: seq<bool>, height: nat, pos: nat)
    requires |t| == |mask| && height > 0 && pos < Width(|t|, height) && 2 * pos < Width(|t|, height - 1) <= 2 * pos + 1
    requires ParentOfMatch(mask, height, pos)
    ensures |Bits(mask, height, pos)| == 1 + |Bits(mask, height - 1, 2 * pos)|
    ensures Hashes(h, t, mask, height, pos) == Hashes(h, t, mask, height - 1, 2 * pos)
    ensures Matched(mask, height, pos) == Matched(mask, height - 1, 2 * pos)
  {
    assert Bits(mask, height, pos) == [true] + Bits(mask, height - 1, 2 * pos);
  }

  lemma {:induction false} BuiltBoth(h: Hash, t: seq<Digest>, mask: seq<bool>, bits: seq<bool>,
                                     hashes: seq<Digest>, height: nat, pos: nat, c: Cursor)
    requires |t| == |mask| && height > 0 && pos < Width(|t|, height) && ParentOfMatch(mask, height, pos)
    requires 2 * pos + 1 < Width(|t|, height - 1)
    requires At(bits, c.bitsUsed, Bits(mask, height, pos)) && At(hashes, c.hashUsed, Hashes(h, t, mask, height, pos))
    requires NoTwins(h, t, mask, height, pos)
    ensures Decodes(h, t, mask, bits, hashes, height, pos, c)
    decreases height, 1
  {
    hide Bits, Hashes, Matched, ParentOfMatch, Extract, CalcHash, Width, At, Decodes, NoTwins;
    SplitBits(mask, bits, height, pos, c.bitsUsed);
    SplitHashes(h, t, mask, hashes, height, pos, c.hashUsed);
    TwinsBelow(h, t, mask, height, pos);
    var c1 := c.(bitsUsed := c.bitsUsed + 1);
    var d := BuiltCursor(h, t, mask, bits, hashes, height - 1, 2 * pos, c1);
    var e := BuiltCursor(h, t, mask, bits, hashes, height - 1, 2 * pos + 1, d);
    ExtractBoth(h, t, bits, hashes, height, pos, c, d, e);
    JoinDecodes(h, t, mask, bits, hashes, height, pos, c, d, e);
  }

  lemma {:induction false} BuiltCursor(h: Hash, t: seq<Digest>, mask: seq<bool>, bits: seq<bool>,
                                       hashes: seq<Digest>, height: nat, pos: nat, c: Cursor)
    returns (d: Cursor)
    requires |t| == |mask| && pos < Width(|t|, height)
    requires At(bits, c.bitsUsed, Bits(mask, height, pos)) && At(hashes, c.hashUsed, Hashes(h, t, mask, height, pos))
    requires NoTwins(h, t, mask, height, pos)
    ensures Extract(h, |t|, bits, hashes, height, pos, c) == (CalcHash(h, t, height, pos), d)
    ensures d == Advanced(c, t, |Bits(mask, height, pos)|, |Hashes(h, t, mask, height, pos)|,
                          Matched(mask, height, pos))
    decreases height, 3
  {
    ExtractBuilt(h, t, mask, bits, hashes, height, pos, c);
    d := Extract(h, |t|, bits, hashes, height, pos, c).1;
  }

  lemma TwinsBelow(h: Hash, t: seq<Digest>, mask: seq<bool>, height: nat, pos: nat)
    requires |t| == |mask| && height > 0 && pos < Width(|t|, height) && 2 * pos + 1 < Width(|t|, height - 1)
    requires ParentOfMatch(mask, height, pos)
    ensures NoTwins(h, t, mask, height, pos) <==>
      && NoTwins(h, t, mask, height - 1, 2 * pos) && NoTwins(h, t, mask, height - 1, 2 * pos + 1)
      && CalcHash(h, t, height - 1, 2 * pos) != CalcHash(h, t, height - 1, 2 * pos + 1)
  {
  }

  lemma SplitBits(mask: seq<bool>, bits: seq<bool>, height: nat, pos: nat, k: nat)
    requires height > 0 && pos < Width(|mask|, height) && 2 * pos + 1 < Width(|mask|, height - 1)
      && ParentOfMatch(mask, height, pos)
    requires At(bits, k, Bits(mask, height, pos))
    ensures k < |bits| && bits[k] && At(bits, k + 1, Bits(mask, height - 1, 2 * pos))
    ensures At(bits, k + 1 + |Bits(mask, height - 1, 2 * pos)|, Bits(mask, height - 1, 2 * pos + 1))
  {
    var bl, br := Bits(mask, height - 1, 2 * pos), Bits(mask, height - 1, 2 * pos + 1);
    AtSplit(bits, k, [true], bl + br);
    AtSplit(bits, k + 1, bl, br);
    assert bits[k + 0] == [true][0];
  }

  lemma SplitHashes(h: Hash, t: seq<Digest>, mask: seq<bool>, hashes: seq<Digest>, height: nat, pos: nat, k: nat)
    requires |t| == |mask| && height > 0 && pos < Width(|t|, height) && 2 * pos + 1 < Width(|t|, height - 1)
      && ParentOfMatch(mask, height, pos)
    requires At(hashes, k, Hashes(h, t, mask, height, pos))
    ensures At(hashes, k, Hashes(h, t, mask, height - 1, 2 * pos))
    ensures At(hashes, k + |Hashes(h, t, mask, height - 1, 2 * pos)|, Hashes(h, t, mask, height - 1, 2 * pos + 1))
  {
    AtSplit(hashes, k, Hashes(h, t, mask, height - 1, 2 * pos), Hashes(h, t, mask, height - 1, 2 * pos + 1));
  }

  lemma DecodesBoth(h: Hash, t: seq<Digest>, mask: seq<bool>, bits: seq<bool>, hashes: seq<Digest>, height: nat,
                    pos: nat, c: Cursor, e: Cursor)
    requires |t| == |mask| && height > 0 && pos < Width(|t|, height) && 2 * pos + 1 < Width(|t|, height - 1)
    requires ParentOfMatch(mask, height, pos)
    requires Extract(h, |t|, bits, hashes, height, pos, c) == (CalcHash(h, t, height, pos), e)
    requires e == Advanced(c, t, 1 + (|Bits(mask, height - 1, 2 * pos)| + |Bits(mask, height - 1, 2 * pos + 1)|),
                           |Hashes(h, t, mask, height - 1, 2 * pos)| + |Hashes(h, t, mask, height - 1, 2 * pos + 1)|,
                           Matched(mask, height - 1, 2 * pos) + Matched(mask, height - 1, 2 * pos + 1))
    ensures Decodes(h, t, mask, bits, hashes, height, pos, c)
  {
    hide Bits, Hashes, Matched, Extract, CalcHash, Width, ParentOfMatch, Advanced;
    TwoUnfold(h, t, mask, height, pos);
  }

  lemma TwoUnfold(h: Hash, t: seq<Digest>, mask: seq<bool>, height: nat, pos: nat)
    requires |t| == |mask| && height > 0 && pos < Width(|t|, height) && 2 * pos + 1 < Width(|t|, height - 1)
    requires ParentOfMatch(mask, height, pos)
    ensures |Bits(mask, height, pos)| == 1 + (|Bits(mask, height - 1, 2 * pos)| + |Bits(mask, height - 1, 2 * pos + 1)|)
    ensures |Hashes(h, t, mask, height, pos)|
         == |Hashes(h, t, mask, height - 1, 2 * pos)| + |Hashes(h, t, mask, height - 1, 2 * pos + 1)|
    ensures Matched(mask, height, pos) == Matched(mask, height - 1, 2 * pos) + Matched(mask, height - 1, 2 * pos + 1)
  {
    hide CalcHash;
  }

  lemma ExtractBoth(h: Hash, t: seq<Digest>, bits: seq<bool>, hashes: seq<Digest>, height: nat, pos: nat,
                    c: Cursor, d: Cursor, e: Cursor)
    requires height > 0 && pos < Width(|t|, height) && 2 * pos + 1 < Width(|t|, height - 1)
    requires c.bitsUsed < |bits| && bits[c.bitsUsed]
    requires CalcHash(h, t, height - 1, 2 * pos) != CalcHash(h, t, height - 1, 2 * pos + 1)
    requires Extract(h, |t|, bits, hashes, height - 1, 2 * pos, c.(bitsUsed := c.bitsUsed + 1))
      == (CalcHash(h, t, height - 1, 2 * pos), d)
    requires Extract(h, |t|, bits, hashes, height - 1, 2 * pos + 1, d) == (CalcHash(h, t, height - 1, 2 * pos + 1), e)
    ensures Extract(h, |t|, bits, hashes, height, pos, c) == (CalcHash(h, t, height, pos), e)
  {
  }

  lemma JoinDecodes(h: Hash, t: seq<Digest>, mask: seq<bool>, bits: seq<bool>, hashes: seq<Digest>, height: nat,
                    pos: nat, c: Cursor, d: Cursor, e: Cursor)
    requires |t| == |mask| && height > 0 && pos < Width(|t|, height) && 2 * pos + 1 < Width(|t|, height - 1)
    requires ParentOfMatch(mask, height, pos)
    requires Extract(h, |t|, bits, hashes, height, pos, c) == (CalcHash(h, t, height, pos), e)
    requires d == Advanced(c.(bitsUsed := c.bitsUsed + 1), t, |Bits(mask, height - 1, 2 * pos)|,
                           |Hashes(h, t, mask, height - 1, 2 * pos)|, Matched(mask, height - 1, 2 * pos))
    requires e == Advanced(d, t, |Bits(mask, height - 1, 2 * pos + 1)|,
                           |Hashes(h, t, mask, height - 1, 2 * pos + 1)|, Matched(mask, height - 1, 2 * pos + 1))
    ensures Decodes(h, t, mask, bits, hashes, height, pos, c)
  {
    hide Bits, Hashes, Matched, ParentOfMatch, Extract, CalcHash, Width;
    var bl, br := |Bits(mask, height - 1, 2 * pos)|, |Bits(mask, height - 1, 2 * pos + 1)|;
    var hl, hr := |Hashes(h, t, mask, height - 1, 2 * pos)|, |Hashes(h, t, mask, height - 1, 2 * pos + 1)|;
    var xl, xr := Matched(mask, height - 1, 2 * pos), Matched(mask, height - 1, 2 * pos + 1);
    AdvancedTwice(c.(bitsUsed := c.bitsUsed + 1), t, bl, hl, xl, br, hr, xr);
    DecodesBoth(h, t, mask, bits, hashes, height, pos, c, e);
  }

  /** A subtree with twins is marked as bad, although it is encoded as the code does. */
  lemma {:induction false} TwinsRejected(h: Hash, t: seq<Digest>, mask: seq<bool>, bits: seq<bool>,
                                         hashes: seq<Digest>, height: nat, pos: nat, c: Cursor)
    requires |t| == |mask| && pos < Width(|t|, height) && !NoTwins(h, t, mask, height, pos)
    requires At(bits, c.bitsUsed, Bits(mask, height, pos)) && At(hashes, c.hashUsed, Hashes(h, t, mask, height, pos))
    ensures Extract(h, |t|, bits, hashes, height, pos, c).1.bad
    decreases height
  {
    hide *;
    TwinsInner(h, t, mask, height, pos);
    var c1 := c.(bitsUsed := c.bitsUsed + 1);
    if 2 * pos + 1 < Width(|t|, height - 1) {
      SplitBits(mask, bits, height, pos, c.bitsUsed);
      SplitHashes(h, t, mask, hashes, height, pos, c.hashUsed);
      TwinsBelow(h, t, mask, height, pos);
      ExtractPair(h, |t|, bits, hashes, height, pos, c);
      var d := Extract(h, |t|, bits, hashes, height - 1, 2 * pos, c1).1;
      if NoTwins(h, t, mask, height - 1, 2 * pos) {
        var d' := BuiltCursor(h, t, mask, bits, hashes, height - 1, 2 * pos, c1);
        AdvancedIs(c1, t, |Bits(mask, height - 1, 2 * pos)|, |Hashes(h, t, mask, height - 1, 2 * pos)|,
                   Matched(mask, height - 1, 2 * pos));
        if NoTwins(h, t, mask, height - 1, 2 * pos + 1) {
          var e := BuiltCursor(h, t, mask, bits, hashes, height - 1, 2 * pos + 1, d);
        } else {
          TwinsRejected(h, t, mask, bits, hashes, height - 1, 2 * pos + 1, d);
        }
      } else {
        TwinsRejected(h, t, mask, bits, hashes, height - 1, 2 * pos, c1);
        ExtractGrows(h, |t|, bits, hashes, height - 1, 2 * pos + 1, d);
      }
    } else {
      SplitOne(h, t, mask, bits, hashes, height, pos, c);
      ExtractSingle(h, |t|, bits, hashes, height, pos, c);
      TwinsRejected(h, t, mask, bits, hashes, height - 1, 2 * pos, c1);
    }
  }

  lemma AdvancedIs(c: Cursor, t: seq<Digest>, bitCount: nat, hashCount: nat, xs: seq<nat>)
    requires forall i :: 0 <= i < |xs| ==> xs[i] < |t|
    ensures var d := Advanced(c, t, bitCount, hashCount, xs);
      d.bitsUsed == c.bitsUsed + bitCount && d.hashUsed == c.hashUsed + hashCount
  {
  }

  lemma ExtractPair(h: Hash, n: nat, bits: seq<bool>, hashes: seq<Digest>, height: nat, pos: nat, c: Cursor)
    requires height > 0 && pos < Width(n, height) && 2 * pos + 1 < Width(n, height - 1)
    requires c.bitsUsed < |bits| && bits[c.bitsUsed]
    ensures var (left, d) := Extract(h, n, bits, hashes, height - 1, 2 * pos, c.(bitsUsed := c.bitsUsed + 1));
      var (right, e) := Extract(h, n, bits, hashes, height - 1, 2 * pos + 1, d);
      Extract(h, n, bits, hashes, height, pos, c).1.bad <==> e.bad || left == right
  {
  }

  lemma ExtractSingle(h: Hash, n: nat, bits: seq<bool>, hashes: seq<Digest>, height: nat, pos: nat, c: Cursor)
    requires height > 0 && pos < Width(n, height) && 2 * pos < Width(n, height - 1) <= 2 * pos + 1
    requires c.bitsUsed < |bits| && bits[c.bitsUsed]
    ensures Extract(h, n, bits, hashes, height, pos, c).1
         == Extract(h, n, bits, hashes, height - 1, 2 * pos, c.(bitsUsed := c.bitsUsed + 1)).1
  {
  }

  lemma TwinsInner(h: Hash, t: seq<Digest>, mask: seq<bool>, height: nat, pos: nat)
    requires |t| == |mask| && pos < Width(|t|, height) && !NoTwins(h, t, mask, height, pos)
    ensures height > 0 && ParentOfMatch(mask, height, pos) && 2 * pos < Width(|t|, height - 1)
  {
  }
}
