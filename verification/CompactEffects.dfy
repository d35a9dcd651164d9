/**
 What ends up in each position of a partially downloaded block, from the message and the receiver's
 transactions alone (src/blockencodings.cpp).
 */
module CompactEffects {
  import opened Wrappers
  import opened CompactBlocks

  // ----- Prefilled transactions -----

  /** The sum of the first i distances. */
  function Skipped(prefilled: seq<Prefilled>, i: nat): (n: nat)
    requires i <= |prefilled|
  {
    if i == 0 then 0 else Skipped(prefilled, i - 1) + prefilled[i - 1].index
  }

  lemma {:induction false} LastIs(prefilled: seq<Prefilled>, i: nat)
    requires i <= |prefilled|
    ensures LastIndex(prefilled, i) == Skipped(prefilled, i) + i - 1
  {
    if i > 0 {
      LastIs(prefilled, i - 1);
    }
  }

  /** The i-th prefilled transaction is there, and the distances up to it leave it a 16-bit position within
      the block. */
  predicate InPlace(prefilled: seq<Prefilled>, shortIds: nat, i: nat)
    requires i < |prefilled|
  {
    !prefilled[i].tx.isNull && Skipped(prefilled, i + 1) <= shortIds && Skipped(prefilled, i + 1) + i <= 65535
  }

  /** A message passes the checks exactly when that is so for every prefilled transaction. */
  lemma FitExactly(prefilled: seq<Prefilled>, shortIds: nat)
    ensures AllFit(prefilled, shortIds, |prefilled|)
       <==> forall i: nat :: i < |prefilled| ==> InPlace(prefilled, shortIds, i)
  {
    forall i: nat | i < |prefilled|
      ensures PrefillFits(prefilled, shortIds, i) <==> InPlace(prefilled, shortIds, i)
    {
      LastIs(prefilled, i + 1);
    }
  }

  lemma {:induction false} LaidOut(prefilled: seq<Prefilled>, shortIds: nat, n: nat, j: nat)
    requires n <= |prefilled| && AllFit(prefilled, shortIds, n) && j < n
    ensures 0 <= LastIndex(prefilled, j + 1) < shortIds + |prefilled|
    ensures Layout(prefilled, shortIds, n)[LastIndex(prefilled, j + 1)] == Some(prefilled[j].tx)
  {
    assert PrefillFits(prefilled, shortIds, j) && PrefillFits(prefilled, shortIds, n - 1);
    if j < n - 1 {
      LaidOut(prefilled, shortIds, n - 1, j);
      LastGrows(prefilled, j + 1, n);
    }
  }

  lemma {:induction false} LastGrows(prefilled: seq<Prefilled>, i: nat, j: nat)
    requires i < j <= |prefilled|
    ensures LastIndex(prefilled, i) < LastIndex(prefilled, j)
  {
    if i < j - 1 {
      LastGrows(prefilled, i, j - 1);
    }
  }

  /** The j-th prefilled transaction is at place j plus the distances up to it, and as many places as there
      are short ids stay empty. */
  lemma LayoutExactly(prefilled: seq<Prefilled>, shortIds: nat, j: nat)
    requires AllFit(prefilled, shortIds, |prefilled|) && j < |prefilled|
    ensures var l := Layout(prefilled, shortIds, |prefilled|);
      && j + Skipped(prefilled, j + 1) < |l| && l[j + Skipped(prefilled, j + 1)] == Some(prefilled[j].tx)
      && |l| == shortIds + |prefilled| && |Free(l, |l|)| == shortIds
  {
    LaidOut(prefilled, shortIds, |prefilled|, j);
    LastIs(prefilled, j + 1);
    FreeCount(prefilled, shortIds, |prefilled|);
  }

  /** A block's own compact form holds the coinbase, and the coinstake of a proof-of-stake block, whole and
      without gaps, and the short id of every other transaction, in order. */
  lemma CompactOfExactly(vtx: seq<Tx>, stake: bool, shortId: nat -> nat)
    requires |vtx| >= if stake then 2 else 1
    ensures var c, n := CompactOf(vtx, stake, shortId), if stake then 2 else 1;
      && |c.prefilled| == n && (forall i :: 0 <= i < n ==> c.prefilled[i] == Prefilled(0, vtx[i]))
      && |c.shortIds| == |vtx| - n && (forall i :: 0 <= i < |vtx| - n ==> c.shortIds[i] == shortId(vtx[n + i].hash))
      && !c.headerNull
  {
  }

  // ----- The pool and the extra transactions -----

  /** The transactions among the first n sources that a short id with position p stands for. */
  function Hits(at: map<nat, nat>, shortId: nat -> nat, sources: seq<Source>, n: nat, p: nat): seq<Tx>
    requires n <= |sources|
  {
    if n == 0 then []
    else
      var id := shortId(sources[n - 1].hash);
      Hits(at, shortId, sources, n - 1, p) + if id in at && at[id] == p then [sources[n - 1].tx] else []
  }

  /** Some transaction of the list has another hash. */
  ghost predicate Differs(txs: seq<Tx>, tx: Tx) {
    exists i :: 0 <= i < |txs| && txs[i].hash != tx.hash
  }

  /** A position without hits is as laid out.  Two hits in the pool leave it empty; otherwise it holds the
      first hit, unless an extra one with another hash empties it. */
  ghost function Settle(laid: Option<Tx>, pool: seq<Tx>, extra: seq<Tx>): Option<Tx> {
    if |pool| >= 2 then None
    else if pool == [] && extra == [] then laid
    else if Differs(extra, (pool + extra)[0]) then None
    else Some((pool + extra)[0])
  }

  /** All that decides what is in place after m transactions of the pool and k extra ones. */
  datatype Inputs = Inputs(layout: Slots, at: map<nat, nat>, shortId: nat -> nat, pool: seq<Source>,
                           extra: seq<Source>, count: int)

  ghost function ValueAt(x: Inputs, m: nat, k: nat, p: nat): Option<Tx>
    requires m <= |x.pool| && k <= |x.extra| && p < |x.layout|
  {
    Settle(x.layout[p], Hits(x.at, x.shortId, x.pool, m, p), Hits(x.at, x.shortId, x.extra, k, p))
  }

  ghost predicate HitAt(x: Inputs, m: nat, k: nat, p: nat)
    requires m <= |x.pool| && k <= |x.extra|
  {
    Hits(x.at, x.shortId, x.pool, m, p) != [] || Hits(x.at, x.shortId, x.extra, k, p) != []
  }

  /** The positions that are hit and filled. */
  ghost function Covered(x: Inputs, m: nat, k: nat): set<nat>
    requires m <= |x.pool| && k <= |x.extra|
  {
    set p: nat | p < |x.layout| && HitAt(x, m, k, p) && ValueAt(x, m, k, p).Some?
  }

  ghost predicate After(x: Inputs, m: nat, k: nat, s: Scan) {
    && m <= |x.pool| && k <= |x.extra| && |s.slots| == |s.have| == |x.layout|
    && (forall p: nat :: p < |x.layout| ==> PlaceOk(x, m, k, s, p))
    && s.count == x.count + |Covered(x, m, k)|
  }

  ghost predicate PlaceOk(x: Inputs, m: nat, k: nat, s: Scan, p: nat)
    requires m <= |x.pool| && k <= |x.extra| && |s.slots| == |s.have| == |x.layout| && p < |x.layout|
  {
    s.slots[p] == ValueAt(x, m, k, p) && (s.have[p] <==> HitAt(x, m, k, p))
  }

  ghost predicate InputsOk(x: Inputs) {
    forall id :: id in x.at ==> x.at[id] < |x.layout|
  }

  lemma PoolPlace(x: Inputs, m: nat, s: Scan, p: nat)
    requires InputsOk(x) && m < |x.pool| && |s.slots| == |s.have| == |x.layout| && p < |x.layout|
    requires PlaceOk(x, m, 0, s, p)
    ensures var t := Offer(s, x.at, x.shortId(x.pool[m].hash), x.pool[m].tx, false);
      && PlaceOk(x, m + 1, 0, t, p)
      && var id := x.shortId(x.pool[m].hash);
         && (id !in x.at || x.at[id] != p ==>
               (HitAt(x, m + 1, 0, p) <==> HitAt(x, m, 0, p)) && ValueAt(x, m + 1, 0, p) == ValueAt(x, m, 0, p))
         && (id in x.at && x.at[id] == p ==>
               t.count - s.count == (if t.have[p] && t.slots[p].Some? then 1 else 0)
                                    - if s.have[p] && s.slots[p].Some? then 1 else 0)
  {
  }

  lemma ExtraPlace(x: Inputs, m: nat, k: nat, s: Scan, p: nat)
    requires InputsOk(x) && m <= |x.pool| && k < |x.extra| && |s.slots| == |s.have| == |x.layout| && p < |x.layout|
    requires PlaceOk(x, m, k, s, p)
    ensures var t := Offer(s, x.at, x.shortId(x.extra[k].hash), x.extra[k].tx, true);
      && PlaceOk(x, m, k + 1, t, p)
      && var id := x.shortId(x.extra[k].hash);
         && (id !in x.at || x.at[id] != p ==>
               (HitAt(x, m, k + 1, p) <==> HitAt(x, m, k, p)) && ValueAt(x, m, k + 1, p) == ValueAt(x, m, k, p))
         && (id in x.at && x.at[id] == p ==>
               t.count - s.count == (if t.have[p] && t.slots[p].Some? then 1 else 0)
                                    - if s.have[p] && s.slots[p].Some? then 1 else 0)
  {
    var before, after := Hits(x.at, x.shortId, x.extra, k, p), Hits(x.at, x.shortId, x.extra, k + 1, p);
    var pool := Hits(x.at, x.shortId, x.pool, m, p);
    if before != after {
      var tx := x.extra[k].tx;
      assert after == before + [tx] && after[|before|] == tx;
      assert pool + after == pool + before + [tx];
      if pool + before != [] {
        var first := (pool + before)[0];
        assert (pool + after)[0] == first;
        DiffersMore(before, tx, first);
      } else {
        assert (pool + after)[0] == tx;
        assert !Differs(after, tx);
      }
    }
  }

  lemma DiffersMore(txs: seq<Tx>, tx: Tx, first: Tx)
    ensures Differs(txs + [tx], first) <==> Differs(txs, first) || tx.hash != first.hash
  {
    if Differs(txs, first) {
      var i :| 0 <= i < |txs| && txs[i].hash != first.hash;
      assert (txs + [tx])[i].hash != first.hash;
    }
    assert (txs + [tx])[|txs|] == tx;
  }

  lemma CountChange(a: set<nat>, b: set<nat>, q: nat)
    requires forall p: nat :: p != q ==> (p in a <==> p in b)
    ensures |b| - |a| == (if q in b then 1 else 0) - if q in a then 1 else 0
  {
    if q in a && q !in b {
      assert a == b + {q};
    } else if q in b && q !in a {
      assert b == a + {q};
    } else {
      assert a == b;
    }
  }

  lemma PoolStep(x: Inputs, m: nat, s: Scan)
    requires InputsOk(x) && m < |x.pool| && After(x, m, 0, s)
    ensures ScanOk(s, x.at) && After(x, m + 1, 0, Offer(s, x.at, x.shortId(x.pool[m].hash), x.pool[m].tx, false))
  {
    var id := x.shortId(x.pool[m].hash);
    var t := Offer(s, x.at, id, x.pool[m].tx, false);
    var n := m + 1;
    forall p: nat | p < |x.layout| ensures PlaceOk(x, n, 0, t, p) {
      assert PlaceOk(x, m, 0, s, p);
      PoolPlace(x, m, s, p);
    }
    SameElsewhere(x, m, 0, n, 0, s, t, id);
  }

  lemma ExtraStep(x: Inputs, m: nat, k: nat, s: Scan)
    requires InputsOk(x) && k < |x.extra| && After(x, m, k, s)
    ensures ScanOk(s, x.at) && After(x, m, k + 1, Offer(s, x.at, x.shortId(x.extra[k].hash), x.extra[k].tx, true))
  {
    var id := x.shortId(x.extra[k].hash);
    var t := Offer(s, x.at, id, x.extra[k].tx, true);
    var n := k + 1;
    forall p: nat | p < |x.layout| ensures PlaceOk(x, m, n, t, p) {
      assert PlaceOk(x, m, k, s, p);
      ExtraPlace(x, m, k, s, p);
    }
    SameElsewhere(x, m, k, m, n, s, t, id);
  }

  /** What an offer changes is one position, and the count follows it. */
  lemma SameElsewhere(x: Inputs, m: nat, k: nat, m': nat, k': nat, s: Scan, t: Scan, id: nat)
    requires InputsOk(x) && After(x, m, k, s) && m' <= |x.pool| && k' <= |x.extra|
    requires |t.slots| == |t.have| == |x.layout|
    requires forall p: nat :: p < |x.layout| ==> PlaceOk(x, m', k', t, p)
    requires id !in x.at ==> t == s
    requires id in x.at ==>
      forall p: nat :: p < |x.layout| && p != x.at[id] ==> t.slots[p] == s.slots[p] && t.have[p] == s.have[p]
    requires id in x.at ==>
      t.count - s.count == (if t.have[x.at[id]] && t.slots[x.at[id]].Some? then 1 else 0)
                           - if s.have[x.at[id]] && s.slots[x.at[id]].Some? then 1 else 0
    ensures After(x, m', k', t)
  {
    CoveredIs(x, m, k, s);
    CoveredIs(x, m', k', t);
    if id in x.at {
      CountChange(FilledSet(s), FilledSet(t), x.at[id]);
    }
  }

  ghost function FilledSet(s: Scan): set<nat>
    requires |s.slots| == |s.have|
  {
    set p: nat | p < |s.slots| && s.have[p] && s.slots[p].Some?
  }

  lemma CoveredIs(x: Inputs, m: nat, k: nat, s: Scan)
    requires m <= |x.pool| && k <= |x.extra| && |s.slots| == |s.have| == |x.layout|
    requires forall p: nat :: p < |x.layout| ==> PlaceOk(x, m, k, s, p)
    ensures Covered(x, m, k) == FilledSet(s)
  {
    forall p: nat | p < |x.layout| ensures p in Covered(x, m, k) <==> p in FilledSet(s) {
      assert PlaceOk(x, m, k, s, p);
    }
  }

  // ----- Where the loops stop -----

  /** As many positions are covered as there are short ids. */
  ghost predicate Complete(x: Inputs, m: nat, k: nat)
    requires m <= |x.pool| && k <= |x.extra|
  {
    x.count + |Covered(x, m, k)| == |x.at|
  }

  /** The pool is read up to the first transaction, from the i-th on, after which all are covered. */
  ghost predicate PoolStops(x: Inputs, i: nat, m: nat) {
    && i <= m <= |x.pool| && (forall j: nat :: i < j < m ==> !Complete(x, j, 0))
    && (m < |x.pool| ==> i < m && Complete(x, m, 0))
  }

  ghost predicate ExtraStops(x: Inputs, m: nat, i: nat, k: nat)
    requires m <= |x.pool|
  {
    && i <= k <= |x.extra| && (forall j: nat :: i < j < k ==> !Complete(x, m, j))
    && (k < |x.extra| ==> i < k && Complete(x, m, k))
  }

  lemma {:induction false} PoolRun(x: Inputs, i: nat, s: Scan) returns (m: nat)
    requires InputsOk(x) && i <= |x.pool| && After(x, i, 0, s)
    ensures ScanOk(s, x.at) && PoolStops(x, i, m)
    ensures After(x, m, 0, OfferAll(s, x.at, x.shortId, x.pool, false, i))
    decreases |x.pool| - i
  {
    m := i;
    if i < |x.pool| {
      PoolStep(x, i, s);
      hide After, Offer, Covered;
      var t := Offer(s, x.at, x.shortId(x.pool[i].hash), x.pool[i].tx, false);
      CountIs(x, i + 1, 0, t);
      m := i + 1;
      if t.count != |x.at| {
        m := PoolRun(x, i + 1, t);
      }
    }
  }

  lemma {:induction false} ExtraRun(x: Inputs, m: nat, i: nat, s: Scan) returns (k: nat)
    requires InputsOk(x) && m <= |x.pool| && i <= |x.extra| && After(x, m, i, s)
    ensures ScanOk(s, x.at) && ExtraStops(x, m, i, k)
    ensures After(x, m, k, OfferAll(s, x.at, x.shortId, x.extra, true, i))
    decreases |x.extra| - i
  {
    k := i;
    if i < |x.extra| {
      ExtraStep(x, m, i, s);
      hide After, Offer, Covered;
      var t := Offer(s, x.at, x.shortId(x.extra[i].hash), x.extra[i].tx, true);
      CountIs(x, m, i + 1, t);
      k := i + 1;
      if t.count != |x.at| {
        k := ExtraRun(x, m, i + 1, t);
      }
    }
  }

  lemma CountIs(x: Inputs, m: nat, k: nat, s: Scan)
    requires After(x, m, k, s)
    ensures m <= |x.pool| && k <= |x.extra| && s.count == x.count + |Covered(x, m, k)|
  {
  }

  /** What InitData leaves in every position: the pool is read until all short ids are covered, then the extra
      transactions are, at least one, and each position is settled by its hits among those read. */
  lemma FilledExactly(c: CompactBlock, shortId: nat -> nat, pool: seq<Source>, extra: seq<Source>, count: int)
    returns (m: nat, k: nat)
    requires AllFit(c.prefilled, |c.shortIds|, |c.prefilled|)
    ensures var l := Layout(c.prefilled, |c.shortIds|, |c.prefilled|);
      var x, r := Inputs(l, IdPositions(c), shortId, pool, extra, count), Filled(c, shortId, pool, extra, count);
      && PoolStops(x, 0, m) && ExtraStops(x, m, 0, k)
      && |r.slots| == |l| && (forall p: nat :: p < |l| ==> r.slots[p] == ValueAt(x, m, k, p))
      && r.count == count + |Covered(x, m, k)|
  {
    var l := Layout(c.prefilled, |c.shortIds|, |c.prefilled|);
    var x := Inputs(l, IdPositions(c), shortId, pool, extra, count);
    IdsInRange(c);
    var s0 := Scan(l, seq(|l|, _ => false), count);
    FilledIs(c, x, s0);
    hide Layout, IdPositions, Filled, OfferAll, Complete, AllFit;
    StartIs(x, s0);
    m := PoolRun(x, 0, s0);
    var s := OfferAll(s0, x.at, shortId, pool, false, 0);
    k := ExtraRun(x, m, 0, s);
    AfterIs(x, m, k, OfferAll(s, x.at, shortId, extra, true, 0));
  }

  lemma FilledIs(c: CompactBlock, x: Inputs, s0: Scan)
    requires AllFit(c.prefilled, |c.shortIds|, |c.prefilled|)
    requires x.layout == Layout(c.prefilled, |c.shortIds|, |c.prefilled|) && x.at == IdPositions(c)
    requires s0 == Scan(x.layout, seq(|x.layout|, _ => false), x.count)
    ensures ScanOk(s0, x.at)
    ensures Filled(c, x.shortId, x.pool, x.extra, x.count)
         == OfferAll(OfferAll(s0, x.at, x.shortId, x.pool, false, 0), x.at, x.shortId, x.extra, true, 0)
  {
    IdsInRange(c);
  }

  lemma StartIs(x: Inputs, s: Scan)
    requires s == Scan(x.layout, seq(|x.layout|, _ => false), x.count)
    ensures After(x, 0, 0, s)
  {
    assert Covered(x, 0, 0) == {};
  }

  lemma AfterIs(x: Inputs, m: nat, k: nat, s: Scan)
    requires After(x, m, k, s)
    ensures m <= |x.pool| && k <= |x.extra| && |s.slots| == |x.layout| && s.count == x.count + |Covered(x, m, k)|
    ensures forall p: nat :: p < |x.layout| ==> s.slots[p] == ValueAt(x, m, k, p)
  {
    forall p: nat | p < |x.layout| ensures s.slots[p] == ValueAt(x, m, k, p) {
      assert PlaceOk(x, m, k, s, p);
    }
  }
}
