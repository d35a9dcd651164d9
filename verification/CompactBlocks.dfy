/**
 Compact blocks (src/blockencodings.h, src/blockencodings.cpp): laying out the prefilled transactions,
 giving every short id its position, filling in from the pool, and assembling the block.
 */
module CompactBlocks {
  import opened Wrappers

  datatype Tx = Tx(hash: nat, isNull: bool, body: nat)

  /** The index is the distance from the prefilled transaction before it. */
  datatype Prefilled = Prefilled(index: nat, tx: Tx)

  type Slots = seq<Option<Tx>>

  // ----- Prefilled transactions -----

  /** The position of the last of the first i prefilled transactions, or -1. */
  function LastIndex(prefilled: seq<Prefilled>, i: nat): (last: int)
    requires i <= |prefilled|
    ensures last >= i - 1
  {
    if i == 0 then -1 else LastIndex(prefilled, i - 1) + prefilled[i - 1].index + 1
  }

  /** Whether the i-th prefilled transaction passes the checks. */
  predicate PrefillFits(prefilled: seq<Prefilled>, shortIds: nat, i: nat)
    requires i < |prefilled|
  {
    !prefilled[i].tx.isNull && LastIndex(prefilled, i + 1) <= 0xFFFF && LastIndex(prefilled, i + 1) <= shortIds + i
  }

  ghost predicate AllFit(prefilled: seq<Prefilled>, shortIds: nat, n: nat)
    requires n <= |prefilled|
  {
    forall i :: 0 <= i < n ==> PrefillFits(prefilled, shortIds, i)
  }

  /** The positions after the first i prefilled transactions are in place. */
  function Layout(prefilled: seq<Prefilled>, shortIds: nat, i: nat): (s: Slots)
    requires i <= |prefilled| && AllFit(prefilled, shortIds, i)
    ensures |s| == shortIds + |prefilled|
    ensures forall j :: LastIndex(prefilled, i) < j < |s| ==> s[j] == None
  {
    if i == 0 then seq(shortIds + |prefilled|, _ => None)
    else
      assert PrefillFits(prefilled, shortIds, i - 1);
      Layout(prefilled, shortIds, i - 1)[LastIndex(prefilled, i) := Some(prefilled[i - 1].tx)]
  }

  // ----- Free positions -----

  /** The free positions below n, in order. */
  function Free(s: Slots, n: nat): (r: seq<nat>)
    requires n <= |s|
    ensures forall i :: 0 <= i < |r| ==> r[i] < n && s[r[i]] == None
    ensures forall i, j :: 0 <= i < j < |r| ==> r[i] < r[j]
  {
    if n == 0 then [] else Free(s, n - 1) + if s[n - 1] == None then [n - 1] else []
  }

  lemma {:induction false} FreePut(s: Slots, p: nat, tx: Tx, n: nat)
    requires p < |s| && s[p] == None && n <= |s|
    ensures |Free(s[p := Some(tx)], n)| == |Free(s, n)| - if p < n then 1 else 0
  {
    if n > 0 {
      FreePut(s, p, tx, n - 1);
    }
  }

  lemma {:induction false} FreeEmpty(s: Slots, n: nat)
    requires n <= |s| && forall i :: 0 <= i < n ==> s[i] == None
    ensures |Free(s, n)| == n
  {
    if n > 0 {
      FreeEmpty(s, n - 1);
    }
  }

  lemma {:induction false} FreePrefix(s: Slots, m: nat, n: nat)
    requires m <= n <= |s|
    ensures Free(s, m) <= Free(s, n)
  {
    if m < n {
      FreePrefix(s, m, n - 1);
    }
  }

  /** As many positions are free as there are short ids. */
  lemma {:induction false} FreeCount(prefilled: seq<Prefilled>, shortIds: nat, i: nat)
    requires i <= |prefilled| && AllFit(prefilled, shortIds, i)
    ensures |Free(Layout(prefilled, shortIds, i), shortIds + |prefilled|)| == shortIds + |prefilled| - i
  {
    var n := shortIds + |prefilled|;
    if i == 0 {
      FreeEmpty(Layout(prefilled, shortIds, 0), n);
    } else {
      FreeCount(prefilled, shortIds, i - 1);
      assert PrefillFits(prefilled, shortIds, i - 1);
      FreePut(Layout(prefilled, shortIds, i - 1), LastIndex(prefilled, i), prefilled[i - 1].tx, n);
    }
  }

  // ----- Positions of short ids -----

  /** The positions as the 16-bit numbers in which they are kept. */
  function Low16(free: seq<nat>): (r: seq<nat>)
    ensures |r| == |free| && forall i :: 0 <= i < |free| ==> r[i] == free[i] % 0x1_0000
  {
    seq(|free|, i requires 0 <= i < |free| => free[i] % 0x1_0000)
  }

  /** A position beyond the prefilled ones is free, and it is the p-less-prefilled-th one. */
  lemma {:induction false} FreeBeyond(s: Slots, p: nat, n: nat)
    requires p < n <= |s| && s[p] == None
    ensures |Free(s, p)| < |Free(s, n)| && Free(s, n)[|Free(s, p)|] == p
  {
    if p < n - 1 {
      FreeBeyond(s, p, n - 1);
    }
  }

  lemma BeyondIsFree(prefilled: seq<Prefilled>, shortIds: nat, p: nat)
    requires AllFit(prefilled, shortIds, |prefilled|) && 0x1_0000 <= p < shortIds + |prefilled|
    ensures Layout(prefilled, shortIds, |prefilled|)[p] == None
  {
    if prefilled != [] {
      assert PrefillFits(prefilled, shortIds, |prefilled| - 1);
    }
  }

  /** Every short id keeps its own free position exactly when the block has at most 65536 positions; in
      a larger one the id of position 65536 is given position 0. */
  lemma PositionsFit(prefilled: seq<Prefilled>, shortIds: nat)
    requires AllFit(prefilled, shortIds, |prefilled|)
    ensures var l := Layout(prefilled, shortIds, |prefilled|); var free := Free(l, |l|);
      && (Low16(free) == free <==> |l| <= 0x1_0000)
      && (|l| > 0x1_0000 ==> exists i :: 0 <= i < |free| && free[i] == 0x1_0000 && Low16(free)[i] == 0)
  {
    var l := Layout(prefilled, shortIds, |prefilled|);
    var free := Free(l, |l|);
    if |l| > 0x1_0000 {
      BeyondIsFree(prefilled, shortIds, 0x1_0000);
      FreeBeyond(l, 0x1_0000, |l|);
      var i := |Free(l, 0x1_0000)|;
      assert free[i] == 0x1_0000 && Low16(free)[i] == 0;
    } else {
      forall i | 0 <= i < |free| ensures Low16(free)[i] == free[i] {
      }
    }
  }

  /** The i-th short id stands for the i-th free position; a repeated id keeps its last one. */
  function Positions(ids: seq<nat>, free: seq<nat>, n: nat): (m: map<nat, nat>)
    requires n <= |ids| && |ids| <= |free|
    ensures |m| <= n
  {
    if n == 0 then map[] else
      var m := Positions(ids, free, n - 1);
      SizeOfPut(m, ids[n - 1], free[n - 1]);
      m[ids[n - 1] := free[n - 1]]
  }

  lemma {:induction false} PositionsWithin(ids: seq<nat>, free: seq<nat>, n: nat, k: nat) returns (i: nat)
    requires n <= |ids| && |ids| <= |free| && k in Positions(ids, free, n)
    ensures i < n && ids[i] == k && Positions(ids, free, n)[k] == free[i]
  {
    if k == ids[n - 1] {
      i := n - 1;
    } else {
      i := PositionsWithin(ids, free, n - 1, k);
    }
  }

  lemma SizeOfPut(m: map<nat, nat>, k: nat, v: nat)
    ensures |m[k := v]| == if k in m then |m| else |m| + 1
  {
    assert m[k := v].Keys == m.Keys + {k};
    if k in m {
      assert m.Keys + {k} == m.Keys;
    }
  }

  /** When no id was lost, all are different and each has its own free position. */
  lemma {:induction false} NoneLost(ids: seq<nat>, free: seq<nat>, n: nat)
    requires n <= |ids| && |ids| <= |free| && |Positions(ids, free, n)| == n
    ensures forall i :: 0 <= i < n ==> ids[i] in Positions(ids, free, n) && Positions(ids, free, n)[ids[i]] == free[i]
    ensures forall i, j :: 0 <= i < j < n ==> ids[i] != ids[j]
  {
    if n > 0 {
      var m, k := Positions(ids, free, n - 1), ids[n - 1];
      SizeOfPut(m, k, free[n - 1]);
      NoneLost(ids, free, n - 1);
      assert k !in m;
      forall i | 0 <= i < n - 1 ensures ids[i] != k && ids[i] in m[k := free[n - 1]]
        && m[k := free[n - 1]][ids[i]] == free[i] {
        assert ids[i] in m;
      }
    }
  }

  // ----- Filling in from the pool -----

  /** A transaction of the pool or of the extra list, under the hash it is listed with. */
  datatype Source = Source(hash: nat, tx: Tx)

  /** The positions so far, which of them were ever matched, and how many are matched. */
  datatype Scan = Scan(slots: Slots, have: seq<bool>, count: int)

  ghost predicate ScanOk(s: Scan, at: map<nat, nat>) {
    |s.have| == |s.slots| && forall k :: k in at ==> at[k] < |s.slots|
  }

  /** A second match for a short id takes the first one out again. */
  function Offer(s: Scan, at: map<nat, nat>, id: nat, tx: Tx, extra: bool): (r: Scan)
    requires ScanOk(s, at)
    ensures ScanOk(r, at) && |r.slots| == |s.slots|
  {
    if id !in at then s
    else
      var p := at[id];
      if !s.have[p] then Scan(s.slots[p := Some(tx)], s.have[p := true], s.count + 1)
      else if s.slots[p].Some? && (extra ==> s.slots[p].value.hash != tx.hash) then
        s.(slots := s.slots[p := None], count := s.count - 1)
      else s
  }

  /** The scan stops early once every short id is matched. */
  function OfferAll(s: Scan, at: map<nat, nat>, shortId: nat -> nat, sources: seq<Source>, extra: bool,
                    i: nat): (r: Scan)
    requires ScanOk(s, at) && i <= |sources|
    ensures ScanOk(r, at) && |r.slots| == |s.slots|
    decreases |sources| - i
  {
    if i == |sources| then s
    else
      var t := Offer(s, at, shortId(sources[i].hash), sources[i].tx, extra);
      if t.count == |at| then t else OfferAll(t, at, shortId, sources, extra, i + 1)
  }

  /** Positions that no short id stands for are never touched. */
  lemma {:induction false} OthersKept(s: Scan, at: map<nat, nat>, shortId: nat -> nat, sources: seq<Source>,
                                      extra: bool, i: nat, j: nat)
    requires ScanOk(s, at) && i <= |sources| && j < |s.slots| && j !in at.Values
    ensures OfferAll(s, at, shortId, sources, extra, i).slots[j] == s.slots[j]
    decreases |sources| - i
  {
    if i < |sources| {
      var id := shortId(sources[i].hash);
      var t := Offer(s, at, id, sources[i].tx, extra);
      assert id in at ==> at[id] in at.Values;
      if t.count != |at| {
        OthersKept(t, at, shortId, sources, extra, i + 1, j);
      }
    }
  }

  /** What is in a position is what was there, or a transaction with the short id of that position. */
  ghost predicate Sourced(before: Slots, after: Slots, at: map<nat, nat>, shortId: nat -> nat, sources: seq<Source>,
                          j: nat)
    requires j < |before| == |after|
  {
    || after[j] == before[j] || after[j] == None
    || exists i :: 0 <= i < |sources| && shortId(sources[i].hash) in at && at[shortId(sources[i].hash)] == j
                   && after[j] == Some(sources[i].tx)
  }

  lemma {:induction false} AllSourced(before: Slots, s: Scan, at: map<nat, nat>, shortId: nat -> nat,
                                      sources: seq<Source>, extra: bool, i: nat, j: nat)
    requires ScanOk(s, at) && i <= |sources| && j < |s.slots| == |before|
      && Sourced(before, s.slots, at, shortId, sources, j)
    ensures Sourced(before, OfferAll(s, at, shortId, sources, extra, i).slots, at, shortId, sources, j)
    decreases |sources| - i
  {
    if i < |sources| {
      var t := Offer(s, at, shortId(sources[i].hash), sources[i].tx, extra);
      assert Sourced(before, t.slots, at, shortId, sources, j);
      if t.count != |at| {
        AllSourced(before, t, at, shortId, sources, extra, i + 1, j);
      }
    }
  }

  // ----- A block and its own compact form -----

  datatype CompactBlock = CompactBlock(headerNull: bool, shortIds: seq<nat>, prefilled: seq<Prefilled>)

  /** The first transaction, and the coinstake of a proof-of-stake block, are sent whole. */
  function PrefilledCount(stake: bool): nat { if stake then 2 else 1 }

  function ShortIds(vtx: seq<Tx>, shortId: nat -> nat): (ids: seq<nat>)
    ensures |ids| == |vtx| && forall i :: 0 <= i < |vtx| ==> ids[i] == shortId(vtx[i].hash)
  {
    if vtx == [] then [] else ShortIds(vtx[..|vtx| - 1], shortId) + [shortId(vtx[|vtx| - 1].hash)]
  }

  function CompactOf(vtx: seq<Tx>, stake: bool, shortId: nat -> nat): CompactBlock
    requires |vtx| >= PrefilledCount(stake)
  {
    CompactBlock(false, ShortIds(vtx[PrefilledCount(stake)..], shortId),
                 if stake then [Prefilled(0, vtx[0]), Prefilled(0, vtx[1])] else [Prefilled(0, vtx[0])])
  }

  /** Every position is empty or holds the block's transaction. */
  ghost predicate Agrees(s: Slots, vtx: seq<Tx>) {
    |s| == |vtx| && forall j :: 0 <= j < |s| ==> s[j] == None || s[j] == Some(vtx[j])
  }

  /** No source has the short id of a block transaction that it is not. */
  ghost predicate NoClash(sources: seq<Source>, vtx: seq<Tx>, stake: bool, shortId: nat -> nat) {
    forall i, j | 0 <= i < |sources| && PrefilledCount(stake) <= j < |vtx| ::
      shortId(sources[i].hash) == shortId(vtx[j].hash) ==> sources[i].tx == vtx[j]
  }

  /** Each id of the map is that of the block's transaction at its position. */
  ghost predicate Placed(at: map<nat, nat>, vtx: seq<Tx>, stake: bool, shortId: nat -> nat) {
    forall k :: k in at ==> PrefilledCount(stake) <= at[k] < |vtx| && shortId(vtx[at[k]].hash) == k
  }

  lemma {:induction false} OffersAgree(s: Scan, at: map<nat, nat>, shortId: nat -> nat, sources: seq<Source>,
                                       extra: bool, i: nat,
                                       vtx: seq<Tx>, stake: bool)
    requires ScanOk(s, at) && i <= |sources| && Agrees(s.slots, vtx)
    requires NoClash(sources, vtx, stake, shortId) && Placed(at, vtx, stake, shortId)
    ensures Agrees(OfferAll(s, at, shortId, sources, extra, i).slots, vtx)
    decreases |sources| - i
  {
    if i < |sources| {
      var t := Offer(s, at, shortId(sources[i].hash), sources[i].tx, extra);
      assert Agrees(t.slots, vtx);
      if t.count != |at| {
        OffersAgree(t, at, shortId, sources, extra, i + 1, vtx, stake);
      }
    }
  }

  /** Everything InitData computes for a compact block that passes its checks. */
  function Filled(c: CompactBlock, shortId: nat -> nat, pool: seq<Source>, extra: seq<Source>, count: int): (r: Scan)
    requires AllFit(c.prefilled, |c.shortIds|, |c.prefilled|)
    ensures |r.slots| == |c.shortIds| + |c.prefilled|
  {
    var layout := Layout(c.prefilled, |c.shortIds|, |c.prefilled|);
    FreeCount(c.prefilled, |c.shortIds|, |c.prefilled|);
    var at := IdPositions(c);
    IdsInRange(c);
    var s := OfferAll(Scan(layout, seq(|layout|, _ => false), count), at, shortId, pool, false, 0);
    OfferAll(s, at, shortId, extra, true, 0)
  }

  function IdPositions(c: CompactBlock): map<nat, nat>
    requires AllFit(c.prefilled, |c.shortIds|, |c.prefilled|)
  {
    var layout := Layout(c.prefilled, |c.shortIds|, |c.prefilled|);
    FreeCount(c.prefilled, |c.shortIds|, |c.prefilled|);
    Positions(c.shortIds, Low16(Free(layout, |layout|)), |c.shortIds|)
  }

  lemma IdsInRange(c: CompactBlock)
    requires AllFit(c.prefilled, |c.shortIds|, |c.prefilled|)
    ensures forall k :: k in IdPositions(c) ==> IdPositions(c)[k] < |c.shortIds| + |c.prefilled|
  {
    var layout := Layout(c.prefilled, |c.shortIds|, |c.prefilled|);
    FreeCount(c.prefilled, |c.shortIds|, |c.prefilled|);
    var free := Free(layout, |layout|);
    assert |layout| == |c.shortIds| + |c.prefilled|;
    assert IdPositions(c) == Positions(c.shortIds, Low16(free), |c.shortIds|);
    hide Layout, Free, Positions, AllFit, IdPositions;
    LowBelow(free, |layout|);
    PositionsBelow(c.shortIds, Low16(free), |layout|);
  }

  lemma LowBelow(free: seq<nat>, n: nat)
    requires forall i :: 0 <= i < |free| ==> free[i] < n
    ensures forall i :: 0 <= i < |free| ==> Low16(free)[i] < n
  {
  }

  lemma PositionsBelow(ids: seq<nat>, free: seq<nat>, n: nat)
    requires |ids| <= |free| && forall i :: 0 <= i < |free| ==> free[i] < n
    ensures var at := Positions(ids, free, |ids|); forall k :: k in at ==> at[k] < n
  {
    hide Positions;
    var at := Positions(ids, free, |ids|);
    forall k | k in at ensures at[k] < n {
      var i := PositionsWithin(ids, free, |ids|, k);
    }
  }

  /** A block's own compact form passes the checks when its transactions are sound. */
  lemma OwnFits(vtx: seq<Tx>, stake: bool, shortId: nat -> nat)
    requires |vtx| >= PrefilledCount(stake) && (forall i :: 0 <= i < PrefilledCount(stake) ==> !vtx[i].isNull)
    ensures var c := CompactOf(vtx, stake, shortId);
      AllFit(c.prefilled, |c.shortIds|, |c.prefilled|)
  {
    var c := CompactOf(vtx, stake, shortId);
    assert LastIndex(c.prefilled, 1) == 0;
    if stake {
      assert LastIndex(c.prefilled, 2) == 1;
    }
  }

  /** Its layout holds the first transactions and nothing else, so the free positions are the rest in order. */
  lemma OwnLayout(vtx: seq<Tx>, stake: bool, shortId: nat -> nat)
    requires |vtx| >= PrefilledCount(stake) && (forall i :: 0 <= i < PrefilledCount(stake) ==> !vtx[i].isNull)
    ensures var c := CompactOf(vtx, stake, shortId);
      && AllFit(c.prefilled, |c.shortIds|, |c.prefilled|)
      && var l := Layout(c.prefilled, |c.shortIds|, |c.prefilled|);
         |l| == |vtx| && forall j :: 0 <= j < |vtx| ==> l[j] == if j < PrefilledCount(stake) then Some(vtx[j]) else None
  {
    OwnFits(vtx, stake, shortId);
    var c := CompactOf(vtx, stake, shortId);
    var n := |c.shortIds|;
    assert LastIndex(c.prefilled, 1) == 0;
    var l1 := Layout(c.prefilled, n, 1);
    assert l1[0] == Some(vtx[0]);
    if stake {
      assert LastIndex(c.prefilled, 2) == 1;
      assert Layout(c.prefilled, n, 2) == l1[1 := Some(vtx[1])];
    }
  }

  lemma {:induction false} FreeTail(l: Slots, k: nat, n: nat)
    requires k <= n <= |l| && (forall j :: 0 <= j < n ==> (l[j] == None <==> j >= k))
    ensures |Free(l, n)| == n - k && forall i :: 0 <= i < n - k ==> Free(l, n)[i] == k + i
    decreases n
  {
    if n == k {
      FreeNone(l, n);
    } else {
      FreeTail(l, k, n - 1);
    }
  }

  lemma {:induction false} FreeNone(l: Slots, n: nat)
    requires n <= |l| && forall j :: 0 <= j < n ==> l[j] != None
    ensures Free(l, n) == []
  {
    if n > 0 {
      FreeNone(l, n - 1);
    }
  }

  lemma PlacedFrom(ids: seq<nat>, free: seq<nat>, vtx: seq<Tx>, stake: bool, shortId: nat -> nat)
    requires |ids| == |free| && |ids| + PrefilledCount(stake) == |vtx|
    requires forall i :: 0 <= i < |ids| ==>
      ids[i] == shortId(vtx[i + PrefilledCount(stake)].hash) && free[i] == PrefilledCount(stake) + i
    ensures Placed(Positions(ids, free, |ids|), vtx, stake, shortId)
  {
    var at, k := Positions(ids, free, |ids|), PrefilledCount(stake);
    forall id | id in at ensures k <= at[id] < |vtx| && shortId(vtx[at[id]].hash) == id {
      var i := PositionsWithin(ids, free, |ids|, id);
    }
  }

  lemma OwnPositions(vtx: seq<Tx>, stake: bool, shortId: nat -> nat)
    requires |vtx| >= PrefilledCount(stake) && (forall i :: 0 <= i < PrefilledCount(stake) ==> !vtx[i].isNull)
    requires |vtx| <= 0x1_0000
    ensures var c := CompactOf(vtx, stake, shortId);
      AllFit(c.prefilled, |c.shortIds|, |c.prefilled|) && Placed(IdPositions(c), vtx, stake, shortId)
  {
    OwnLayout(vtx, stake, shortId);
    var c, k := CompactOf(vtx, stake, shortId), PrefilledCount(stake);
    var l := Layout(c.prefilled, |c.shortIds|, |c.prefilled|);
    hide Layout, LastIndex, Free, Positions, PrefillFits, Placed, AllFit;
    FreeTail(l, k, |l|);
    PositionsFit(c.prefilled, |c.shortIds|);
    PlacedFrom(c.shortIds, Free(l, |l|), vtx, stake, shortId);
  }

  /** Filling a block's own compact form from sources without clashes finds nothing wrong. */
  lemma OwnFilled(vtx: seq<Tx>, stake: bool, shortId: nat -> nat, pool: seq<Source>, extra: seq<Source>, count: int)
    requires |vtx| >= PrefilledCount(stake) && (forall i :: 0 <= i < PrefilledCount(stake) ==> !vtx[i].isNull)
    requires |vtx| <= 0x1_0000 && NoClash(pool, vtx, stake, shortId) && NoClash(extra, vtx, stake, shortId)
    ensures var c := CompactOf(vtx, stake, shortId);
      AllFit(c.prefilled, |c.shortIds|, |c.prefilled|) && Agrees(Filled(c, shortId, pool, extra, count).slots, vtx)
  {
    OwnPositions(vtx, stake, shortId);
    OwnLayout(vtx, stake, shortId);
    var c := CompactOf(vtx, stake, shortId);
    var at := IdPositions(c);
    var l := Layout(c.prefilled, |c.shortIds|, |c.prefilled|);
    IdsInRange(c);
    hide Layout, IdPositions, OfferAll, CompactOf, Placed, NoClash;
    var s0 := Scan(l, seq(|l|, _ => false), count);
    OffersAgree(s0, at, shortId, pool, false, 0, vtx, stake);
    OffersAgree(OfferAll(s0, at, shortId, pool, false, 0), at, shortId, extra, true, 0, vtx, stake);
  }

  // ----- Assembling the block -----

  /** The transactions at the empty positions among the first n, in order. */
  function MissingOf(s: Slots, vtx: seq<Tx>, n: nat): seq<Tx>
    requires n <= |s| == |vtx|
  {
    if n == 0 then [] else MissingOf(s, vtx, n - 1) + if s[n - 1] == None then [vtx[n - 1]] else []
  }

  /** How many of the first n positions are empty. */
  function EmptyCount(s: Slots, n: nat): nat
    requires n <= |s|
  {
    if n == 0 then 0 else EmptyCount(s, n - 1) + if s[n - 1] == None then 1 else 0
  }

  /** The first n transactions: those available, and the missing ones in turn. */
  function Assembled(s: Slots, missing: seq<Tx>, n: nat): (vtx: seq<Tx>)
    requires n <= |s| && EmptyCount(s, n) <= |missing|
    ensures |vtx| == n
  {
    if n == 0 then []
    else Assembled(s, missing, n - 1) + [if s[n - 1] == None then missing[EmptyCount(s, n) - 1] else s[n - 1].value]
  }

  lemma {:induction false} MissingCount(s: Slots, vtx: seq<Tx>, n: nat)
    requires n <= |s| == |vtx|
    ensures |MissingOf(s, vtx, n)| == EmptyCount(s, n)
  {
    if n > 0 {
      MissingCount(s, vtx, n - 1);
    }
  }

  lemma {:induction false} MissingPrefix(s: Slots, vtx: seq<Tx>, m: nat, n: nat)
    requires m <= n <= |s| == |vtx|
    ensures MissingOf(s, vtx, m) <= MissingOf(s, vtx, n)
  {
    if m < n {
      MissingPrefix(s, vtx, m, n - 1);
    }
  }

  /** Positions that agree with a block, and its missing transactions, assemble to exactly the block. */
  lemma {:induction false} AssembledIsBlock(s: Slots, vtx: seq<Tx>, n: nat)
    requires Agrees(s, vtx) && n <= |s|
    ensures EmptyCount(s, n) <= |MissingOf(s, vtx, |s|)| && Assembled(s, MissingOf(s, vtx, |s|), n) == vtx[..n]
  {
    MissingCount(s, vtx, n);
    MissingPrefix(s, vtx, n, |s|);
    if n > 0 {
      AssembledIsBlock(s, vtx, n - 1);
      MissingCount(s, vtx, n - 1);
      assert vtx[..n] == vtx[..n - 1] + [vtx[n - 1]];
    }
  }

  /** A block's own compact form, filled from sources without clashes and completed with what is then
      missing, is exactly the block. */
  lemma Reconstruction(vtx: seq<Tx>, stake: bool, shortId: nat -> nat, pool: seq<Source>, extra: seq<Source>,
                       count: int)
    requires |vtx| >= PrefilledCount(stake) && (forall i :: 0 <= i < PrefilledCount(stake) ==> !vtx[i].isNull)
    requires |vtx| <= 0x1_0000 && NoClash(pool, vtx, stake, shortId) && NoClash(extra, vtx, stake, shortId)
    ensures var c := CompactOf(vtx, stake, shortId);
      && AllFit(c.prefilled, |c.shortIds|, |c.prefilled|)
      && var s := Filled(c, shortId, pool, extra, count).slots;
         && |s| == |vtx| && |MissingOf(s, vtx, |s|)| == EmptyCount(s, |s|)
         && Assembled(s, MissingOf(s, vtx, |s|), |s|) == vtx
  {
    OwnFilled(vtx, stake, shortId, pool, extra, count);
    var s := Filled(CompactOf(vtx, stake, shortId), shortId, pool, extra, count).slots;
    hide Filled, CompactOf, NoClash;
    MissingCount(s, vtx, |s|);
    AssembledIsBlock(s, vtx, |s|);
    assert vtx[..|vtx|] == vtx;
  }

  lemma {:induction false} DistinctPositions(ids: seq<nat>, free: seq<nat>, n: nat, i: nat)
    requires i < n <= |ids| <= |free| && forall a, b :: 0 <= a < b < |ids| ==> ids[a] != ids[b]
    ensures ids[i] in Positions(ids, free, n) && Positions(ids, free, n)[ids[i]] == free[i]
  {
    if i < n - 1 {
      DistinctPositions(ids, free, n - 1, i);
    }
  }

  ghost predicate DistinctIds(vtx: seq<Tx>, stake: bool, shortId: nat -> nat) {
    forall i, j :: PrefilledCount(stake) <= i < j < |vtx| ==> shortId(vtx[i].hash) != shortId(vtx[j].hash)
  }

  lemma WrappedPosition(vtx: seq<Tx>, stake: bool, shortId: nat -> nat)
    requires |vtx| > 0x1_0000 && (forall i :: 0 <= i < PrefilledCount(stake) ==> !vtx[i].isNull)
    requires DistinctIds(vtx, stake, shortId)
    ensures var c := CompactOf(vtx, stake, shortId);
      && AllFit(c.prefilled, |c.shortIds|, |c.prefilled|)
      && shortId(vtx[0x1_0000].hash) in IdPositions(c) && IdPositions(c)[shortId(vtx[0x1_0000].hash)] == 0
  {
    OwnLayout(vtx, stake, shortId);
    var c, k := CompactOf(vtx, stake, shortId), PrefilledCount(stake);
    var l := Layout(c.prefilled, |c.shortIds|, |c.prefilled|);
    hide Layout, Free, Positions, PrefillFits, AllFit;
    FreeTail(l, k, |l|);
    var low, i := Low16(Free(l, |l|)), 0x1_0000 - k;
    assert low[i] == 0;
    OwnDistinctIds(vtx, stake, shortId);
    DistinctPositions(c.shortIds, low, |c.shortIds|, i);
  }

  lemma OwnDistinctIds(vtx: seq<Tx>, stake: bool, shortId: nat -> nat)
    requires |vtx| >= PrefilledCount(stake) && DistinctIds(vtx, stake, shortId)
    ensures var ids := CompactOf(vtx, stake, shortId).shortIds; forall a, b :: 0 <= a < b < |ids| ==> ids[a] != ids[b]
  {
    var k, rest := PrefilledCount(stake), vtx[PrefilledCount(stake)..];
    var ids := ShortIds(rest, shortId);
    forall a, b | 0 <= a < b < |ids| ensures ids[a] != ids[b] {
      assert rest[a] == vtx[k + a] && rest[b] == vtx[k + b];
    }
  }

  lemma OneOffer(l: Slots, at: map<nat, nat>, shortId: nat -> nat, source: Source)
    requires (forall k :: k in at ==> at[k] < |l|) && shortId(source.hash) in at
    ensures var s := OfferAll(Scan(l, seq(|l|, _ => false), 0), at, shortId, [source], false, 0);
      s.slots[at[shortId(source.hash)]] == Some(source.tx) && OfferAll(s, at, shortId, [], true, 0) == s
  {
    var s0, sources := Scan(l, seq(|l|, _ => false), 0), [source];
    var t := Offer(s0, at, shortId(source.hash), source.tx, false);
    assert OfferAll(t, at, shortId, sources, false, 1) == t;
    assert OfferAll(s0, at, shortId, sources, false, 0) == t;
  }

  /** In a larger block a pool with nothing but the block's own transaction 65536 puts that one in place of
      the first. */
  lemma ReconstructionBroken(vtx: seq<Tx>, stake: bool, shortId: nat -> nat)
    requires |vtx| > 0x1_0000 && (forall i :: 0 <= i < PrefilledCount(stake) ==> !vtx[i].isNull)
    requires DistinctIds(vtx, stake, shortId)
    ensures var c, pool := CompactOf(vtx, stake, shortId), [Source(vtx[0x1_0000].hash, vtx[0x1_0000])];
      && NoClash(pool, vtx, stake, shortId) && AllFit(c.prefilled, |c.shortIds|, |c.prefilled|)
      && Filled(c, shortId, pool, [], 0).slots[0] == Some(vtx[0x1_0000])
  {
    WrappedPosition(vtx, stake, shortId);
    var c := CompactOf(vtx, stake, shortId);
    IdsInRange(c);
    hide Layout, IdPositions, OfferAll, CompactOf, AllFit;
    OneOffer(Layout(c.prefilled, |c.shortIds|, |c.prefilled|), IdPositions(c), shortId,
             Source(vtx[0x1_0000].hash, vtx[0x1_0000]));
  }

  /** Whatever the sources, as long as they do not clash, the filled positions agree with the block. */
  ghost predicate Reconstructs(vtx: seq<Tx>, stake: bool, shortId: nat -> nat)
    requires |vtx| >= PrefilledCount(stake)
  {
    var c := CompactOf(vtx, stake, shortId);
    && AllFit(c.prefilled, |c.shortIds|, |c.prefilled|)
    && forall pool: seq<Source>, extra: seq<Source>, count: int
         | NoClash(pool, vtx, stake, shortId) && NoClash(extra, vtx, stake, shortId)
         :: Agrees(Filled(c, shortId, pool, extra, count).slots, vtx)
  }

  /** For a block with distinct short ids, that holds exactly up to 65536 transactions. */
  lemma ReconstructsExactly(vtx: seq<Tx>, stake: bool, shortId: nat -> nat)
    requires |vtx| >= PrefilledCount(stake) && (forall i :: 0 <= i < PrefilledCount(stake) ==> !vtx[i].isNull)
    requires DistinctIds(vtx, stake, shortId) && (|vtx| > 0x1_0000 ==> vtx[0] != vtx[0x1_0000])
    ensures Reconstructs(vtx, stake, shortId) <==> |vtx| <= 0x1_0000
  {
    OwnFits(vtx, stake, shortId);
    hide Filled, CompactOf, AllFit, NoClash;
    var c := CompactOf(vtx, stake, shortId);
    if |vtx| <= 0x1_0000 {
      forall pool: seq<Source>, extra: seq<Source>, count: int
        | NoClash(pool, vtx, stake, shortId) && NoClash(extra, vtx, stake, shortId)
        ensures Agrees(Filled(c, shortId, pool, extra, count).slots, vtx)
      {
        OwnFilled(vtx, stake, shortId, pool, extra, count);
      }
    } else {
      ReconstructionBroken(vtx, stake, shortId);
      NothingClashes(vtx, stake, shortId);
      var pool := [Source(vtx[0x1_0000].hash, vtx[0x1_0000])];
      assert !Agrees(Filled(c, shortId, pool, [], 0).slots, vtx);
    }
  }

  lemma NothingClashes(vtx: seq<Tx>, stake: bool, shortId: nat -> nat)
    ensures NoClash([], vtx, stake, shortId)
  {
  }
}
