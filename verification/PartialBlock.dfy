/**
 The block being put together from a compact block (src/blockencodings.cpp).
 */
module PartialBlock {
  import opened Wrappers
  import opened Arithmetic
  import opened CompactBlocks

  datatype ReadStatus = Ok | Invalid | Failed | CheckBlockFailed

  /** What the block check says: fine, failed in a way that a wrong transaction could explain, or failed. */
  datatype CheckResult = Passed | CorruptionPossible | Rejected

  method BuildCompact(vtx: seq<Tx>, stake: bool, shortId: nat -> nat) returns (c: CompactBlock)
    requires |vtx| >= PrefilledCount(stake)
    ensures c == CompactOf(vtx, stake, shortId)
  {
    var prefilled := [Prefilled(0, vtx[0])];
    if stake {
      prefilled := prefilled + [Prefilled(0, vtx[1])];
    }
    var ids: seq<nat> := [];
    ghost var rest := vtx[PrefilledCount(stake)..];
    for i := |prefilled| to |vtx|
      invariant ids == ShortIds(rest[..i - |prefilled|], shortId)
    {
      assert rest[..i + 1 - |prefilled|][..i - |prefilled|] == rest[..i - |prefilled|];
      ids := ids + [shortId(vtx[i].hash)];
    }
    assert rest[..|rest|] == rest;
    c := CompactBlock(false, ids, prefilled);
  }

  class PartiallyDownloadedBlock {
    var headerSet: bool
    var txnAvailable: Slots
    var prefilledCount: nat
    var mempoolCount: int

    constructor ()
      ensures !headerSet && txnAvailable == [] && prefilledCount == 0 && mempoolCount == 0
    {
      headerSet, txnAvailable, prefilledCount, mempoolCount := false, [], 0, 0;
    }

    /** Put the prefilled transactions in place, or reject the message. */
    method LayOut(prefilled: seq<Prefilled>, shortIds: nat) returns (ok: bool)
      modifies this`txnAvailable
      ensures ok <==> AllFit(prefilled, shortIds, |prefilled|)
      ensures ok ==> txnAvailable == Layout(prefilled, shortIds, |prefilled|)
    {
      txnAvailable := seq(shortIds + |prefilled|, _ => None);
      var last := -1;
      for i := 0 to |prefilled|
        invariant last == LastIndex(prefilled, i) && AllFit(prefilled, shortIds, i)
        invariant txnAvailable == Layout(prefilled, shortIds, i)
      {
        if prefilled[i].tx.isNull {
          assert !PrefillFits(prefilled, shortIds, i);
          return false;
        }
        last := last + prefilled[i].index + 1;
        if last > 0xFFFF {
          assert !PrefillFits(prefilled, shortIds, i);
          return false;
        }
        if last > shortIds + i {
          assert !PrefillFits(prefilled, shortIds, i);
          return false;
        }
        assert PrefillFits(prefilled, shortIds, i);
        txnAvailable := txnAvailable[last := Some(prefilled[i].tx)];
      }
      ok := true;
    }

    /** Give each short id the next free position, as a 16-bit number.  The scan never leaves the block, and
        its 16-bit offset, which counts the filled positions passed, does not wrap. */
    method AssignPositions(ids: seq<nat>, bucketFull: (map<nat, nat>, nat) -> bool)
      returns (ok: bool, at: map<nat, nat>)
      requires |Free(txnAvailable, |txnAvailable|)| == |ids| && (ids == [] || |txnAvailable| - |ids| <= 0xFFFF)
      ensures ok ==> at == Positions(ids, Low16(Free(txnAvailable, |txnAvailable|)), |ids|)
      ensures ok <==> forall n :: 0 < n <= |ids| ==>
        !bucketFull(Positions(ids, Low16(Free(txnAvailable, |txnAvailable|)), n), ids[n - 1])
    {
      hide Free, Positions;
      ghost var free := Low16(Free(txnAvailable, |txnAvailable|));
      PositionsStart(txnAvailable, ids, free);
      at := map[];
      var offset := 0;
      for i := 0 to |ids|
        invariant 0 <= i + offset <= |txnAvailable| && offset >= 0 && |Free(txnAvailable, i + offset)| == i
        invariant at == Positions(ids, free, i)
        invariant forall n :: 0 < n <= i ==> !bucketFull(Positions(ids, free, n), ids[n - 1])
      {
        offset := NextFree(i, offset);
        PositionsNext(ids, free, i);
        at := at[ids[i] := (i + offset) % 0x1_0000];
        if bucketFull(at, ids[i]) {
          return false, at;
        }
      }
      ok := true;
    }

    /** Step over filled positions. */
    method NextFree(i: nat, start: nat) returns (offset: nat)
      requires i + start <= |txnAvailable| && |txnAvailable| - |Free(txnAvailable, |txnAvailable|)| <= 0xFFFF
      requires |Free(txnAvailable, i + start)| == i < |Free(txnAvailable, |txnAvailable|)|
      ensures i + offset < |txnAvailable| && Free(txnAvailable, |txnAvailable|)[i] == i + offset
      ensures |Free(txnAvailable, i + offset + 1)| == i + 1
    {
      offset := start;
      while txnAvailable[i + offset].Some?
        invariant i + offset < |txnAvailable| && |Free(txnAvailable, i + offset)| == i
        decreases |txnAvailable| - offset
      {
        NotYet(txnAvailable, i + offset);
        offset := offset + 1;
        FilledGrows(txnAvailable, i + offset, |txnAvailable|);
        // The offset is a 16-bit number.
        assert offset <= 0xFFFF;
      }
      FreePrefix(txnAvailable, i + offset + 1, |txnAvailable|);
    }

    /** Offer the transactions of the pool, or of the extra list, one by one. */
    method TakeFrom(sources: seq<Source>, extra: bool, shortId: nat -> nat, at: map<nat, nat>, haveIn: seq<bool>)
      returns (have: seq<bool>)
      requires ScanOk(Scan(txnAvailable, haveIn, mempoolCount), at)
      modifies this`txnAvailable, this`mempoolCount
      ensures Scan(txnAvailable, have, mempoolCount)
           == OfferAll(Scan(old(txnAvailable), haveIn, old(mempoolCount)), at, shortId, sources, extra, 0)
    {
      hide OfferAll;
      have := haveIn;
      ghost var result := OfferAll(Scan(txnAvailable, have, mempoolCount), at, shortId, sources, extra, 0);
      for i := 0 to |sources|
        invariant ScanOk(Scan(txnAvailable, have, mempoolCount), at)
        invariant OfferAll(Scan(txnAvailable, have, mempoolCount), at, shortId, sources, extra, i) == result
      {
        OfferNext(Scan(txnAvailable, have, mempoolCount), at, shortId, sources, extra, i);
        var id := shortId(sources[i].hash);
        if id in at {
          var p := at[id];
          if !have[p] {
            txnAvailable := txnAvailable[p := Some(sources[i].tx)];
            have := have[p := true];
            mempoolCount := mempoolCount + 1;
          } else if txnAvailable[p].Some? && (extra ==> txnAvailable[p].value.hash != sources[i].tx.hash) {
            txnAvailable := txnAvailable[p := None];
            mempoolCount := mempoolCount - 1;
          }
        }
        if mempoolCount == |at| {
          return;
        }
      }
      OfferNone(Scan(txnAvailable, have, mempoolCount), at, shortId, sources, extra);
    }

    /** The bucket test of the hash map is an arbitrary predicate, and so is the size limit.  The scan of the
        source ends exactly for the messages required here; see ScanEndless. */
    method InitData(c: CompactBlock, shortId: nat -> nat, pool: seq<Source>, extra: seq<Source>, maxCount: nat,
                    bucketFull: (map<nat, nat>, nat) -> bool) returns (status: ReadStatus)
      requires !headerSet && txnAvailable == []
      requires c.headerNull || |c.shortIds| + |c.prefilled| > maxCount || Scannable(c)
      modifies this
      ensures status.Invalid? <==>
        || c.headerNull || |c.shortIds| + |c.prefilled| == 0 || |c.shortIds| + |c.prefilled| > maxCount
        || !AllFit(c.prefilled, |c.shortIds|, |c.prefilled|)
      ensures status.Ok? || status.Invalid? || status.Failed?
      ensures status.Failed? && (forall m: map<nat, nat>, id: nat :: !bucketFull(m, id)) ==>
        |IdPositions(c)| != |c.shortIds|
      ensures status.Ok? ==>
        && headerSet && prefilledCount == |c.prefilled| && |IdPositions(c)| == |c.shortIds|
        && txnAvailable == Filled(c, shortId, pool, extra, old(mempoolCount)).slots
        && mempoolCount == Filled(c, shortId, pool, extra, old(mempoolCount)).count
    {
      if c.headerNull || (|c.shortIds| == 0 && |c.prefilled| == 0) {
        return Invalid;
      }
      if |c.shortIds| + |c.prefilled| > maxCount {
        return Invalid;
      }
      headerSet := true;
      var fits := LayOut(c.prefilled, |c.shortIds|);
      if !fits {
        return Invalid;
      }
      prefilledCount := |c.prefilled|;
      status := FillIn(c, shortId, pool, extra, bucketFull);
    }

    /** The rest of InitData, with the prefilled transactions in place. */
    method FillIn(c: CompactBlock, shortId: nat -> nat, pool: seq<Source>, extra: seq<Source>,
                  bucketFull: (map<nat, nat>, nat) -> bool) returns (status: ReadStatus)
      requires AllFit(c.prefilled, |c.shortIds|, |c.prefilled|) && Scannable(c)
      requires txnAvailable == Layout(c.prefilled, |c.shortIds|, |c.prefilled|)
      modifies this`txnAvailable, this`mempoolCount
      ensures status.Ok? || status.Failed?
      ensures status.Failed? && (forall m: map<nat, nat>, id: nat :: !bucketFull(m, id)) ==>
        |IdPositions(c)| != |c.shortIds|
      ensures status.Ok? ==>
        && |IdPositions(c)| == |c.shortIds|
        && txnAvailable == Filled(c, shortId, pool, extra, old(mempoolCount)).slots
        && mempoolCount == Filled(c, shortId, pool, extra, old(mempoolCount)).count
    {
      hide Layout, Free, Positions, OfferAll, AllFit;
      FreeCount(c.prefilled, |c.shortIds|, |c.prefilled|);
      var ok, at := AssignPositions(c.shortIds, bucketFull);
      if !ok {
        return Failed;
      }
      if |at| != |c.shortIds| {
        return Failed;
      }
      assert at == IdPositions(c);
      IdsInRange(c);
      var have := seq(|txnAvailable|, _ => false);
      have := TakeFrom(pool, false, shortId, at, have);
      have := TakeFrom(extra, true, shortId, at, have);
      status := Ok;
    }

    /** Whether what FillBlock will put there is settled, whatever the missing transactions are. */
    method IsTxAvailable(index: nat) returns (available: bool)
      requires headerSet && index < |txnAvailable|
      ensures available <==> Settled(txnAvailable, index)
    {
      available := txnAvailable[index].Some?;
      SettledExactly(txnAvailable, index);
    }

    /** Too few missing transactions leave the block unfinished at the first position they do not reach, with
        what comes before it moved out; otherwise the block is assembled and nothing is left behind. */
    method FillBlock(missing: seq<Tx>, check: seq<Tx> -> CheckResult) returns (status: ReadStatus, vtx: seq<Tx>)
      requires headerSet
      modifies this
      ensures EmptyCount(old(txnAvailable), |old(txnAvailable)|) > |missing| ==>
        var stop := EmptyPosition(old(txnAvailable), |missing|);
        && status.Invalid? && headerSet
        && vtx == Assembled(old(txnAvailable), missing, stop) && txnAvailable == MovedOut(old(txnAvailable), stop)
      ensures EmptyCount(old(txnAvailable), |old(txnAvailable)|) <= |missing| ==>
        && !headerSet && txnAvailable == [] && vtx == Assembled(old(txnAvailable), missing, |old(txnAvailable)|)
        && status == (if EmptyCount(old(txnAvailable), |old(txnAvailable)|) != |missing| then Invalid
                      else match check(vtx)
                        case Passed => Ok
                        case CorruptionPossible => Failed
                        case Rejected => CheckBlockFailed)
    {
      hide EmptyCount, Assembled, MovedOut, EmptyPosition;
      ghost var s := txnAvailable;
      FillStart(s, missing);
      vtx := [];
      var used := 0;
      for i := 0 to |txnAvailable|
        invariant headerSet && |txnAvailable| == |s| && used == EmptyCount(s, i) <= |missing|
        invariant vtx == Assembled(s, missing, i)
        invariant txnAvailable == MovedOut(s, i)
      {
        EmptyGrows(s, i + 1, |s|);
        FillStep(s, missing, i);
        if txnAvailable[i].None? {
          if |missing| <= used {
            PositionIs(s, i);
            return Invalid, vtx;
          }
          vtx := vtx + [missing[used]];
          used := used + 1;
        } else {
          vtx := vtx + [txnAvailable[i].value];
          txnAvailable := txnAvailable[i := None];
        }
      }
      headerSet := false;
      txnAvailable := [];
      if |missing| != used {
        return Invalid, vtx;
      }
      match check(vtx)
      case Passed => status := Ok;
      case CorruptionPossible => status := Failed;
      case Rejected => status := CheckBlockFailed;
    }
  }

  /** Any two sufficient lists of missing transactions give the same transaction at position i. */
  ghost predicate Settled(s: Slots, i: nat)
    requires i < |s|
  {
    forall m1: seq<Tx>, m2: seq<Tx> | EmptyCount(s, |s|) <= |m1| && EmptyCount(s, |s|) <= |m2| ::
      Assembled(s, m1, |s|)[i] == Assembled(s, m2, |s|)[i]
  }

  lemma {:induction false} AssembledAt(s: Slots, missing: seq<Tx>, n: nat, i: nat)
    requires i < n <= |s| && EmptyCount(s, n) <= |missing|
    ensures EmptyCount(s, i + 1) <= EmptyCount(s, n) && (s[i] == None ==> EmptyCount(s, i + 1) > 0)
    ensures Assembled(s, missing, n)[i] == if s[i] == None then missing[EmptyCount(s, i + 1) - 1] else s[i].value
  {
    EmptyGrows(s, i + 1, n);
    if i < n - 1 {
      AssembledAt(s, missing, n - 1, i);
    }
  }

  lemma SettledExactly(s: Slots, i: nat)
    requires i < |s|
    ensures s[i].Some? <==> Settled(s, i)
  {
    hide Assembled, EmptyCount;
    if s[i].Some? {
      forall m1: seq<Tx>, m2: seq<Tx> | EmptyCount(s, |s|) <= |m1| && EmptyCount(s, |s|) <= |m2|
        ensures Assembled(s, m1, |s|)[i] == Assembled(s, m2, |s|)[i]
      {
        AssembledAt(s, m1, |s|, i);
        AssembledAt(s, m2, |s|, i);
      }
    } else {
      var n := EmptyCount(s, |s|);
      var m1, m2 := seq(n, _ => Tx(0, false, 0)), seq(n, _ => Tx(1, false, 0));
      AssembledAt(s, m1, |s|, i);
      AssembledAt(s, m2, |s|, i);
      assert Assembled(s, m1, |s|)[i].hash != Assembled(s, m2, |s|)[i].hash;
    }
  }

  /** The first n positions have given up their transactions. */
  function MovedOut(s: Slots, n: nat): (r: Slots)
    requires n <= |s|
    ensures |r| == |s|
  {
    seq(n, _ => None) + s[n..]
  }

  /** The position of the k-th empty place. */
  function EmptyPosition(s: Slots, k: nat): (p: nat)
    requires k < EmptyCount(s, |s|)
    ensures p < |s| && s[p] == None && EmptyCount(s, p) == k
  {
    EmptyIsFree(s, |s|);
    var p := Free(s, |s|)[k];
    FreeBeyond(s, p, |s|);
    EmptyIsFree(s, p);
    p
  }

  lemma FillStart(s: Slots, missing: seq<Tx>)
    ensures EmptyCount(s, 0) == 0 && Assembled(s, missing, 0) == [] && MovedOut(s, 0) == s
  {
  }

  lemma FillStep(s: Slots, missing: seq<Tx>, i: nat)
    requires i < |s| && EmptyCount(s, i) <= |missing|
    ensures MovedOut(s, i)[i] == s[i] && MovedOut(s, i + 1) == MovedOut(s, i)[i := None]
    ensures EmptyCount(s, i + 1) == EmptyCount(s, i) + if s[i].None? then 1 else 0
    ensures EmptyCount(s, i + 1) <= |missing| ==>
      Assembled(s, missing, i + 1)
      == Assembled(s, missing, i) + [if s[i].None? then missing[EmptyCount(s, i)] else s[i].value]
  {
  }

  lemma PositionIs(s: Slots, p: nat)
    requires p < |s| && s[p] == None && EmptyCount(s, p) < EmptyCount(s, |s|)
    ensures EmptyPosition(s, EmptyCount(s, p)) == p
  {
    FreeBeyond(s, p, |s|);
    EmptyIsFree(s, p);
  }

  lemma {:induction false} EmptyIsFree(s: Slots, n: nat)
    requires n <= |s|
    ensures |Free(s, n)| == EmptyCount(s, n)
  {
    if n > 0 {
      EmptyIsFree(s, n - 1);
    }
  }

  lemma {:induction false} FilledGrows(s: Slots, m: nat, n: nat)
    requires m <= n <= |s|
    ensures m - |Free(s, m)| <= n - |Free(s, n)|
  {
    if m < n {
      FilledGrows(s, m, n - 1);
    }
  }

  lemma {:induction false} FreeRest(s: Slots, m: nat, n: nat)
    requires m <= n <= |s| && forall j :: m <= j < n ==> s[j] == None
    ensures |Free(s, n)| == |Free(s, m)| + n - m
  {
    if m < n {
      FreeRest(s, m, n - 1);
    }
  }

  /** A message that is rejected, or whose 16-bit offset can pass all prefilled transactions. */
  ghost predicate Scannable(c: CompactBlock) {
    AllFit(c.prefilled, |c.shortIds|, |c.prefilled|) ==> c.shortIds == [] || |c.prefilled| <= 0xFFFF
  }

  /** The 16-bit offset after the search has gone on k times. */
  function OffsetAt(k: nat): (r: nat)
    ensures r <= 0xFFFF
  {
    if k == 0 || OffsetAt(k - 1) == 0xFFFF then 0 else OffsetAt(k - 1) + 1
  }

  lemma {:induction false} Rounds(k: nat) returns (q: nat)
    ensures k == q * 0x1_0000 + OffsetAt(k)
  {
    q := 0;
    if k > 0 {
      q := Rounds(k - 1);
      if OffsetAt(k - 1) == 0xFFFF {
        q := q + 1;
      }
    }
  }

  lemma OffsetWraps(k: nat)
    ensures OffsetAt(k) == k % 0x1_0000
  {
    var q := Rounds(k);
    hide OffsetAt;
    DivModUnique(k, 0x1_0000, q, OffsetAt(k));
  }

  /** In any other message the search for the position of the first short id finds a filled one however
      often it goes on: the offset wraps around within positions that are all filled. */
  lemma ScanEndless(c: CompactBlock, k: nat)
    requires AllFit(c.prefilled, |c.shortIds|, |c.prefilled|) && !Scannable(c)
    ensures |c.prefilled| == 0x1_0000 && c.shortIds != [] && OffsetAt(k) == k % 0x1_0000
    ensures Layout(c.prefilled, |c.shortIds|, |c.prefilled|)[OffsetAt(k)].Some?
  {
    OffsetWraps(k);
    LowFilled(c, OffsetAt(k));
  }

  lemma LowFilled(c: CompactBlock, p: nat)
    requires AllFit(c.prefilled, |c.shortIds|, |c.prefilled|) && !Scannable(c) && p <= 0xFFFF
    ensures |c.prefilled| == 0x1_0000 && Layout(c.prefilled, |c.shortIds|, |c.prefilled|)[p].Some?
  {
    var n := |c.prefilled|;
    assert PrefillFits(c.prefilled, |c.shortIds|, n - 1);
    var l := Layout(c.prefilled, |c.shortIds|, n);
    FreeCount(c.prefilled, |c.shortIds|, n);
    forall j | 0x1_0000 <= j < |l| ensures l[j] == None {
      BeyondIsFree(c.prefilled, |c.shortIds|, j);
    }
    FreeRest(l, 0x1_0000, |l|);
    if l[p] == None {
      FreeBeyond(l, p, 0x1_0000);
    }
  }

  /** Such a message: 65536 prefilled transactions one after another, and one short id. */
  function EndlessMessage(): CompactBlock {
    CompactBlock(false, [7], seq(0x1_0000, _ => Prefilled(0, Tx(1, false, 0))))
  }

  lemma {:induction false} LastOfEndless(i: nat)
    requires i <= 0x1_0000
    ensures LastIndex(EndlessMessage().prefilled, i) == i - 1
  {
    if i > 0 {
      LastOfEndless(i - 1);
    }
  }

  /** It passes the checks of the prefilled transactions, and the search does not end on it. */
  lemma EndlessWitness(k: nat)
    ensures var c := EndlessMessage();
      && !c.headerNull && |c.shortIds| + |c.prefilled| == 0x1_0001
      && AllFit(c.prefilled, |c.shortIds|, |c.prefilled|) && !Scannable(c)
      && Layout(c.prefilled, |c.shortIds|, |c.prefilled|)[k % 0x1_0000].Some?
  {
    var c := EndlessMessage();
    forall i | 0 <= i < |c.prefilled| ensures PrefillFits(c.prefilled, |c.shortIds|, i) {
      LastOfEndless(i + 1);
    }
    hide Layout, LastIndex;
    ScanEndless(c, k);
  }

  lemma OfferNext(s: Scan, at: map<nat, nat>, shortId: nat -> nat, sources: seq<Source>, extra: bool, i: nat)
    requires ScanOk(s, at) && i < |sources|
    ensures var t := Offer(s, at, shortId(sources[i].hash), sources[i].tx, extra);
      OfferAll(s, at, shortId, sources, extra, i)
      == if t.count == |at| then t else OfferAll(t, at, shortId, sources, extra, i + 1)
  {
  }

  lemma OfferNone(s: Scan, at: map<nat, nat>, shortId: nat -> nat, sources: seq<Source>, extra: bool)
    requires ScanOk(s, at)
    ensures OfferAll(s, at, shortId, sources, extra, |sources|) == s
  {
  }

  lemma PositionsStart(s: Slots, ids: seq<nat>, free: seq<nat>)
    requires |ids| <= |free|
    ensures |Free(s, 0)| == 0 && Positions(ids, free, 0) == map[]
  {
  }

  lemma PositionsNext(ids: seq<nat>, free: seq<nat>, n: nat)
    requires n < |ids| <= |free|
    ensures Positions(ids, free, n + 1) == Positions(ids, free, n)[ids[n] := free[n]]
  {
  }

  lemma NotYet(s: Slots, p: nat)
    requires p < |s| && s[p].Some? && |Free(s, |s|)| > |Free(s, p)|
    ensures p + 1 < |s| && |Free(s, p + 1)| == |Free(s, p)|
  {
  }

  lemma {:induction false} EmptyGrows(s: Slots, m: nat, n: nat)
    requires m <= n <= |s|
    ensures EmptyCount(s, m) <= EmptyCount(s, n)
  {
    if m < n {
      EmptyGrows(s, m, n - 1);
    }
  }
}
