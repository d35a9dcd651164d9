/**
 A block on its way from one node to another as a compact block: the request for what is missing and the
 answer to it (src/net_processing.cpp), around the objects of PartialBlock.dfy and BlockRequest.dfy.
 */
module BlockRelay {
  import opened Wrappers
  import opened CompactBlocks
  import opened PartialBlock
  import opened BlockRequest

  /** The receiver asks for every position that is not available, in 16-bit numbers. */
  method RequestMissing(b: PartiallyDownloadedBlock) returns (ds: seq<int>)
    requires b.headerSet
    ensures ds == Differences(Low16(Free(b.txnAvailable, |b.txnAvailable|)))
  {
    var indexes: seq<nat> := [];
    for i := 0 to |b.txnAvailable|
      invariant indexes == Low16(Free(b.txnAvailable, i))
    {
      var available := b.IsTxAvailable(i);
      SettledExactly(b.txnAvailable, i);
      if !available {
        indexes := indexes + [i % 0x1_0000];
      }
    }
    ds := EncodeIndexes(indexes);
  }

  /** The sender looks the indexes up, and refuses those beyond the block. */
  method SendBlockTransactions(vtx: seq<Tx>, ds: seq<int>) returns (r: Option<seq<Tx>>)
    requires forall i :: 0 <= i < |ds| ==> ds[i] >= 0
    ensures r.Some? <==> Read(ds).Some? && forall i :: 0 <= i < |ds| ==> Read(ds).value[i] < |vtx|
    ensures r.Some? ==> |r.value| == |ds| && forall i :: 0 <= i < |ds| ==> r.value[i] == vtx[Read(ds).value[i]]
  {
    var indexes := DecodeIndexes(ds);
    if indexes.None? {
      return None;
    }
    var txn: seq<Tx> := [];
    for i := 0 to |ds|
      invariant |txn| == i && forall j :: 0 <= j < i ==> indexes.value[j] < |vtx| && txn[j] == vtx[indexes.value[j]]
    {
      if indexes.value[i] >= |vtx| {
        return None;
      }
      txn := txn + [vtx[indexes.value[i]]];
    }
    r := Some(txn);
  }

  /** The transactions at the free positions are the missing ones. */
  lemma {:induction false} MissingAt(s: Slots, vtx: seq<Tx>, n: nat)
    requires n <= |s| == |vtx|
    ensures |MissingOf(s, vtx, n)| == |Free(s, n)|
    ensures forall i :: 0 <= i < |Free(s, n)| ==> MissingOf(s, vtx, n)[i] == vtx[Free(s, n)[i]]
  {
    if n > 0 {
      MissingAt(s, vtx, n - 1);
    }
  }

  /** The request of a block of at most 65536 positions is read as it was meant. */
  lemma RequestRead(s: Slots)
    requires |s| <= 0x1_0000
    ensures Low16(Free(s, |s|)) == Free(s, |s|) && Read(Differences(Free(s, |s|))) == Some(Free(s, |s|))
    ensures forall i :: 0 <= i < |Free(s, |s|)| ==> Differences(Free(s, |s|))[i] >= 0
  {
    var free := Free(s, |s|);
    assert Low16(free) == free;
    RequestRoundTrip(free);
    forall i | 0 <= i < |free| ensures Differences(free)[i] >= 0 {
      DistanceBack(free, i);
    }
  }

  lemma {:induction false} DistinctCount(ids: seq<nat>, free: seq<nat>, n: nat)
    requires n <= |ids| <= |free| && forall a, b :: 0 <= a < b < |ids| ==> ids[a] != ids[b]
    ensures |Positions(ids, free, n)| == n
  {
    if n > 0 {
      DistinctCount(ids, free, n - 1);
      var m := Positions(ids, free, n - 1);
      SizeOfPut(m, ids[n - 1], free[n - 1]);
      if ids[n - 1] in m {
        var i := PositionsWithin(ids, free, n - 1, ids[n - 1]);
      }
    }
  }

  /** Short ids that differ are never taken for a collision. */
  lemma OwnDistinct(vtx: seq<Tx>, stake: bool, shortId: nat -> nat)
    requires |vtx| >= PrefilledCount(stake) && (forall i :: 0 <= i < PrefilledCount(stake) ==> !vtx[i].isNull)
    requires DistinctIds(vtx, stake, shortId)
    ensures var c := CompactOf(vtx, stake, shortId);
      AllFit(c.prefilled, |c.shortIds|, |c.prefilled|) && |IdPositions(c)| == |c.shortIds|
  {
    OwnFits(vtx, stake, shortId);
    var c := CompactOf(vtx, stake, shortId);
    var l := Layout(c.prefilled, |c.shortIds|, |c.prefilled|);
    FreeCount(c.prefilled, |c.shortIds|, |c.prefilled|);
    hide Layout, Free, Positions, PrefillFits;
    DistinctCount(c.shortIds, Low16(Free(l, |l|)), |c.shortIds|);
  }

  /** The compact block was refused, its short ids were taken to collide, or a block was assembled. */
  datatype Outcome = Refused | Collided | Received(status: ReadStatus, vtx: seq<Tx>)

  /** The whole exchange: compact form, filling from the receiver's sources, request, answer, assembly.  A
      block that is received is the block that was sent, with the verdict of the block check on it. */
  method Relay(vtx: seq<Tx>, stake: bool, shortId: nat -> nat, pool: seq<Source>, extra: seq<Source>, maxCount: nat,
               bucketFull: (map<nat, nat>, nat) -> bool, check: seq<Tx> -> CheckResult) returns (r: Outcome)
    requires PrefilledCount(stake) <= |vtx| <= 0x1_0000
      && (forall i :: 0 <= i < PrefilledCount(stake) ==> !vtx[i].isNull)
    requires NoClash(pool, vtx, stake, shortId) && NoClash(extra, vtx, stake, shortId)
    ensures r.Refused? <==> |vtx| > maxCount
    ensures r.Collided? && DistinctIds(vtx, stake, shortId) ==> exists m: map<nat, nat>, id: nat :: bucketFull(m, id)
    ensures r.Received? ==> r.vtx == vtx && r.status == match check(vtx)
      case Passed => Ok
      case CorruptionPossible => Failed
      case Rejected => CheckBlockFailed
  {
    var c := BuildCompact(vtx, stake, shortId);
    var b := new PartiallyDownloadedBlock();
    OwnFits(vtx, stake, shortId);
    Reconstruction(vtx, stake, shortId, pool, extra, 0);
    if DistinctIds(vtx, stake, shortId) {
      OwnDistinct(vtx, stake, shortId);
    }
    hide Filled, Assembled, MissingOf, EmptyCount, Free, NoClash, AllFit, IdPositions, DistinctIds;
    var status := b.InitData(c, shortId, pool, extra, maxCount, bucketFull);
    if status.Invalid? {
      return Refused;
    }
    if status.Failed? {
      return Collided;
    }
    var s := b.txnAvailable;
    RequestRead(s);
    MissingAt(s, vtx, |s|);
    var ds := RequestMissing(b);
    var answer := SendBlockTransactions(vtx, ds);
    assert answer.value == MissingOf(s, vtx, |s|);
    var verdict, block := b.FillBlock(answer.value, check);
    r := Received(verdict, block);
  }
}
