/**
 The layered cache of unspent transaction outputs (src/coins.h, src/coins.cpp).

 A cache holds entries flagged DIRTY (may differ from the view below) and FRESH
 (the view below has no unspent coin here), and sits either on another cache or on
 the coin database.  The specification of a view is a plain map from outpoints to
 unspent coins.
 */
module Coins {
  import opened Wrappers

  // ----- Values -----

  type Script = seq<bv8>

  const OP_RETURN: bv8 := 0x6a
  const MAX_SCRIPT_SIZE := 10000

  datatype OutPoint = OutPoint(txid: nat, n: nat)

  /** A transaction output; the value -1 is the null output. */
  datatype TxOut = TxOut(value: int, script: Script)

  const NULL_VALUE := -1

  datatype Coin = Coin(out: TxOut, height: nat, coinBase: bool, coinStake: bool) {
    predicate IsSpent() { out.value == NULL_VALUE }

    predicate IsUnspendable() {
      (|out.script| > 0 && out.script[0] == OP_RETURN) || |out.script| > MAX_SCRIPT_SIZE
    }

    /** Heap bytes behind the script: up to 28 bytes are stored in place. */
    function Usage(): nat {
      if |out.script| <= 28 then 0 else (|out.script| + 31) / 16 * 16
    }
  }

  const EMPTY_COIN := Coin(TxOut(NULL_VALUE, []), 0, false, false)

  datatype Entry = Entry(coin: Coin, isDirty: bool, isFresh: bool)

  type CoinMap = map<OutPoint, Coin>
  type Cache = map<OutPoint, Entry>

  // ----- What a cache over a view means -----

  ghost predicate AllUnspent(m: CoinMap) {
    forall k :: k in m ==> !m[k].IsSpent()
  }

  /** The unspent coin seen at k through `cache` laid over `below`. */
  function Visible(cache: Cache, below: CoinMap, k: OutPoint): Option<Coin> {
    if k in cache then (if cache[k].coin.IsSpent() then None else Some(cache[k].coin))
    else if k in below then Some(below[k])
    else None
  }

  /** All of them. */
  ghost function Overlay(cache: Cache, below: CoinMap): (m: CoinMap)
    ensures AllUnspent(below) ==> AllUnspent(m)
  {
    map k | k in cache.Keys + below.Keys && Visible(cache, below, k).Some? :: Visible(cache, below, k).GetOr(EMPTY_COIN)
  }

  /** The documented meaning of the two flags, plus what keeps erasing FRESH entries safe. */
  ghost predicate EntryOk(e: Entry, k: OutPoint, below: CoinMap) {
    && (e.isFresh ==> e.isDirty && !e.coin.IsSpent() && k !in below)
    && (!e.isDirty ==> k in below && below[k] == e.coin)
  }

  ghost predicate LayerOk(cache: Cache, below: CoinMap) {
    forall k :: k in cache ==> EntryOk(cache[k], k, below)
  }

  /** The effect on a plain map of pushing down one entry. */
  ghost function Write(m: CoinMap, k: OutPoint, coin: Coin): CoinMap {
    if coin.IsSpent() then m - {k} else m[k := coin]
  }

  // ----- Memory accounting -----

  ghost function UsageSum(cache: Cache): nat {
    if cache == map[] then 0
    else
      var k :| k in cache;
      cache[k].coin.Usage() + UsageSum(cache - {k})
  }

  lemma {:induction false} UsageRemove(cache: Cache, k: OutPoint)
    requires k in cache
    ensures UsageSum(cache) == cache[k].coin.Usage() + UsageSum(cache - {k})
    decreases |cache|
  {
    var j :| j in cache && UsageSum(cache) == cache[j].coin.Usage() + UsageSum(cache - {j});
    if j != k {
      UsageRemove(cache - {j}, k);
      UsageRemove(cache - {k}, j);
      assert cache - {j} - {k} == cache - {k} - {j};
    }
  }

  /** A script that does not fit in place takes the least multiple of 16 bytes that leaves 16 for the
      allocator. */
  lemma UsageLeast(coin: Coin, u: nat)
    requires u % 16 == 0
    ensures var n := |coin.out.script|;
      if n <= 28 then coin.Usage() == 0 else coin.Usage() <= u <==> n + 16 <= u
  {
  }

  lemma UsagePut(cache: Cache, k: OutPoint, e: Entry)
    ensures UsageSum(cache[k := e])
         == UsageSum(cache) + e.coin.Usage() - (if k in cache then cache[k].coin.Usage() else 0)
  {
    UsageRemove(cache[k := e], k);
    assert cache[k := e] - {k} == cache - {k};
    if k in cache {
      UsageRemove(cache, k);
    } else {
      assert cache - {k} == cache;
    }
  }

  // ----- Single-entry changes to a layer -----

  lemma PutOverlay(cache: Cache, below: CoinMap, k: OutPoint, e: Entry)
    ensures Overlay(cache[k := e], below) == Write(Overlay(cache, below), k, e.coin)
  {
    var l, r := Overlay(cache[k := e], below), Write(Overlay(cache, below), k, e.coin);
    assert forall j :: j in l <==> j in r;
  }

  lemma EmptyOverlay(below: CoinMap)
    ensures Overlay(map[], below) == below && LayerOk(map[], below) && UsageSum(map[]) == 0
  {
  }

  lemma PutLayer(cache: Cache, below: CoinMap, k: OutPoint, e: Entry)
    requires LayerOk(cache, below)
    ensures LayerOk(cache[k := e], below) <==> EntryOk(e, k, below)
  {
    assert cache[k := e][k] == e;
  }

  lemma DropEntry(cache: Cache, below: CoinMap, k: OutPoint)
    requires k !in below
    ensures Overlay(cache - {k}, below) == Overlay(cache, below) - {k}
    ensures LayerOk(cache, below) ==> LayerOk(cache - {k}, below)
  {
    var l, r := Overlay(cache - {k}, below), Overlay(cache, below) - {k};
    assert forall j :: j in l <==> j in r;
    if LayerOk(cache, below) {
      forall j | j in cache - {k} ensures EntryOk((cache - {k})[j], j, below) {
        assert EntryOk(cache[j], j, below);
      }
    }
  }

  /** Forgetting an unmodified entry changes nothing that is visible. */
  lemma CleanEntry(cache: Cache, below: CoinMap, k: OutPoint)
    requires LayerOk(cache, below) && AllUnspent(below) && k in cache && !cache[k].isDirty
    ensures LayerOk(cache - {k}, below) && Overlay(cache - {k}, below) == Overlay(cache, below)
  {
    assert EntryOk(cache[k], k, below);
    assert Overlay(cache - {k}, below).Keys == Overlay(cache, below).Keys;
  }

  /** What AddCoin leaves in the cache. */
  function Added(cache: Cache, k: OutPoint, coin: Coin, overwrite: bool): Cache {
    var was := if k in cache then cache[k] else Entry(EMPTY_COIN, false, false);
    cache[k := Entry(coin, true, was.isFresh || (!overwrite && !was.isDirty))]
  }

  /** Adding an unspent coin is correct exactly when no unspent coin may be silently replaced. */
  lemma AddedIsWrite(cache: Cache, below: CoinMap, k: OutPoint, coin: Coin, overwrite: bool)
    requires LayerOk(cache, below) && AllUnspent(below) && !coin.IsSpent()
    requires !overwrite && k in cache ==> cache[k].coin.IsSpent()
    ensures Overlay(Added(cache, k, coin, overwrite), below) == Write(Overlay(cache, below), k, coin)
    ensures LayerOk(Added(cache, k, coin, overwrite), below) <==> overwrite || k !in Overlay(cache, below)
  {
    assert k in cache ==> EntryOk(cache[k], k, below);
    PutOverlay(cache, below, k, Added(cache, k, coin, overwrite)[k]);
    PutLayer(cache, below, k, Added(cache, k, coin, overwrite)[k]);
  }

  /** What spending leaves of a cached entry. */
  function Spent(cache: Cache, k: OutPoint): Cache
    requires k in cache
  {
    if cache[k].isFresh then cache - {k} else cache[k := Entry(EMPTY_COIN, true, false)]
  }

  lemma SpentIsErase(cache: Cache, below: CoinMap, k: OutPoint)
    requires LayerOk(cache, below) && k in cache
    ensures LayerOk(Spent(cache, k), below)
    ensures Overlay(Spent(cache, k), below) == Overlay(cache, below) - {k}
  {
    assert EntryOk(cache[k], k, below);
    if cache[k].isFresh {
      DropEntry(cache, below, k);
    } else {
      PutOverlay(cache, below, k, Entry(EMPTY_COIN, true, false));
      PutLayer(cache, below, k, Entry(EMPTY_COIN, true, false));
    }
  }

  /** What one DIRTY entry of a child becomes in this layer. */
  function Merged(cache: Cache, k: OutPoint, e: Entry): Cache {
    if k !in cache then
      if e.isFresh && e.coin.IsSpent() then cache else cache[k := Entry(e.coin, true, e.isFresh)]
    else if cache[k].isFresh && e.coin.IsSpent() then cache - {k}
    else cache[k := Entry(e.coin, true, cache[k].isFresh)]
  }

  /** Merging a child entry that is sound for this layer's view writes it through this view,
      keeps this layer sound for the view below, and never meets a misapplied FRESH flag. */
  lemma MergedIsWrite(cache: Cache, below: CoinMap, k: OutPoint, e: Entry)
    requires LayerOk(cache, below) && e.isDirty && EntryOk(e, k, Overlay(cache, below))
    ensures !(e.isFresh && k in cache && !cache[k].coin.IsSpent())
    ensures LayerOk(Merged(cache, k, e), below)
    ensures Overlay(Merged(cache, k, e), below) == Write(Overlay(cache, below), k, e.coin)
  {
    assert k in cache ==> EntryOk(cache[k], k, below);
    if k in cache && cache[k].isFresh && e.coin.IsSpent() {
      DropEntry(cache, below, k);
    } else {
      var e' := Entry(e.coin, true, if k in cache then cache[k].isFresh else e.isFresh);
      PutOverlay(cache, below, k, e');
      PutLayer(cache, below, k, e');
    }
  }

  /** Pushing down one more entry of `child`, clean entries being ignored. */
  lemma PushedStep(child: Cache, todo: set<OutPoint>, below: CoinMap, k: OutPoint)
    requires LayerOk(child, below) && AllUnspent(below) && todo <= child.Keys && k in todo
    ensures Overlay(child - (todo - {k}), below)
         == if child[k].isDirty then Write(Overlay(child - todo, below), k, child[k].coin)
            else Overlay(child - todo, below)
    ensures EntryOk(child[k], k, Overlay(child - todo, below))
  {
    assert EntryOk(child[k], k, below);
    assert child - (todo - {k}) == (child - todo)[k := child[k]];
    PutOverlay(child - todo, below, k, child[k]);
  }

  // ----- The database at the bottom -----

  class CoinsViewDB {
    var coins: CoinMap

    constructor (initial: CoinMap)
      ensures coins == initial
    {
      coins := initial;
    }

    method GetCoin(k: OutPoint) returns (r: Option<Coin>)
      ensures r == if k in coins then Some(coins[k]) else None
    {
      r := if k in coins then Some(coins[k]) else None;
    }

    method BatchWrite(child: Cache)
      requires AllUnspent(coins) && LayerOk(child, coins)
      modifies this
      ensures coins == Overlay(child, old(coins)) && AllUnspent(coins)
    {
      hide Overlay, LayerOk;
      var todo := child.Keys;
      EmptyOverlay(coins);
      assert child - todo == map[];
      while todo != {}
        invariant todo <= child.Keys
        invariant coins == Overlay(child - todo, old(coins))
        decreases |todo|
      {
        var k :| k in todo;
        PushedStep(child, todo, old(coins), k);
        if child[k].isDirty {
          coins := if child[k].coin.IsSpent() then coins - {k} else coins[k := child[k].coin];
        }
        todo := todo - {k};
      }
      assert child - todo == child;
    }
  }

  // ----- A cache over a cache or over the database -----

  datatype Op =
    | Get(k: OutPoint)
    | Have(k: OutPoint)
    | Add(k: OutPoint, coin: Coin, overwrite: bool)
    | Spend(k: OutPoint)
    | Uncache(k: OutPoint)
    | Flush

  /** The same operation on a plain map: only spendable adds and spends have an effect. */
  ghost function Apply(m: CoinMap, op: Op): CoinMap {
    match op
    case Add(k, coin, _) => if coin.IsUnspendable() then m else m[k := coin]
    case Spend(k) => m - {k}
    case _ => m
  }

  ghost function ApplyAll(m: CoinMap, ops: seq<Op>): CoinMap {
    if ops == [] then m else Apply(ApplyAll(m, ops[..|ops| - 1]), ops[|ops| - 1])
  }

  /** What the callers owe: coins added are unspent, and `overwrite` is only false where the
      view has no unspent coin. */
  ghost predicate Allowed(m: CoinMap, op: Op) {
    op.Add? ==> !op.coin.IsSpent() && (op.overwrite || op.coin.IsUnspendable() || op.k !in m)
  }

  ghost predicate AllAllowed(m: CoinMap, ops: seq<Op>) {
    forall i :: 0 <= i < |ops| ==> Allowed(ApplyAll(m, ops[..i]), ops[i])
  }

  datatype Tx = Tx(txid: nat, outs: seq<TxOut>, coinBase: bool, coinStake: bool)

  /** A map after the first `n` outputs of `tx` were added. */
  ghost function WithOutputs(m: CoinMap, tx: Tx, height: nat, n: nat): CoinMap
    requires n <= |tx.outs|
  {
    if n == 0 then m
    else
      var coin := Coin(tx.outs[n - 1], height, tx.coinBase, tx.coinStake);
      Apply(WithOutputs(m, tx, height, n - 1), Add(OutPoint(tx.txid, n - 1), coin, true))
  }

  /** A script that can never be satisfied: it begins with OP_RETURN or is too long. */
  ghost predicate Unsatisfiable(script: Script) {
    (|script| >= 1 && script[0] == 0x6a) || |script| >= 10001
  }

  /** k is one of the first n outputs of tx and may be spent. */
  ghost predicate IsNewOutput(tx: Tx, n: nat, k: OutPoint)
    requires n <= |tx.outs|
  {
    k.txid == tx.txid && k.n < n && !Unsatisfiable(tx.outs[k.n].script)
  }

  /** Every spendable output is found under its own index, and nothing else changes. */
  lemma {:induction false} WithOutputsAt(m: CoinMap, tx: Tx, height: nat, n: nat, k: OutPoint)
    requires n <= |tx.outs|
    ensures k in WithOutputs(m, tx, height, n) <==> k in m || IsNewOutput(tx, n, k)
    ensures IsNewOutput(tx, n, k) ==>
      WithOutputs(m, tx, height, n)[k] == Coin(tx.outs[k.n], height, tx.coinBase, tx.coinStake)
    ensures k in m && !IsNewOutput(tx, n, k) ==> WithOutputs(m, tx, height, n)[k] == m[k]
  {
    if n > 0 {
      WithOutputsAt(m, tx, height, n - 1, k);
    }
  }

  class CoinsViewCache {
    const base: CoinsViewCache?
    const db: CoinsViewDB
    var cacheCoins: Cache
    var cachedCoinsUsage: nat

    ghost const depth: nat
    ghost const Repr: set<object>

    /** The stack below is a finite list of distinct caches ending at the database. */
    ghost predicate Stacked()
      decreases depth
    {
      && this in Repr && db in Repr
      && (base == null ==> Repr == {this, db} && depth == 0)
      && (base != null ==>
            && depth == base.depth + 1
            && this !in base.Repr && Repr == {this} + base.Repr
            && base.db == db && base.Stacked())
    }

    /** The views of every cache below this one and of the database, nearest first. */
    ghost function Lower(): (vs: seq<CoinMap>)
      requires Stacked()
      reads Repr
      ensures |vs| == depth + 1 && vs[depth] == db.coins
      decreases depth, 0
    {
      if base == null then [db.coins] else [base.View()] + base.Lower()
    }

    /** The coins visible through this cache. */
    ghost function View(): CoinMap
      requires Stacked()
      reads Repr
      decreases depth, 1
    {
      Overlay(cacheCoins, Lower()[0])
    }

    ghost predicate Valid()
      reads Repr
      decreases depth
    {
      && Stacked()
      && LayerOk(cacheCoins, Lower()[0])
      && AllUnspent(Lower()[0])
      && cachedCoinsUsage == UsageSum(cacheCoins)
      && (base != null ==> base.Valid())
    }

    constructor OnDatabase(store: CoinsViewDB)
      requires AllUnspent(store.coins)
      ensures Valid() && base == null && db == store && cacheCoins == map[]
      ensures fresh(Repr - {store})
      ensures View() == store.coins
    {
      base, db, cacheCoins, cachedCoinsUsage, depth := null, store, map[], 0, 0;
      Repr := {this, store};
    }

    constructor OnCache(below: CoinsViewCache)
      requires below.Valid()
      ensures Valid() && base == below && db == below.db && cacheCoins == map[]
      ensures fresh(Repr - below.Repr)
      ensures View() == below.View() && Lower() == [below.View()] + below.Lower()
    {
      base, db, cacheCoins, cachedCoinsUsage := below, below.db, map[], 0;
      depth := below.depth + 1;
      Repr := {this} + below.Repr;
    }

    /** Replace this layer's entries, leaving everything below alone. */
    method Store(cache: Cache, usage: nat)
      requires Valid() && usage == UsageSum(cache)
      modifies this
      ensures Valid() <==> LayerOk(cache, old(Lower()[0]))
      ensures cacheCoins == cache
      ensures View() == Overlay(cache, old(Lower()[0])) && Lower() == old(Lower())
    {
      cacheCoins, cachedCoinsUsage := cache, usage;
      assert base != null ==> base.Valid() && base.Lower() == old(base.Lower());
    }

    /** Find the entry for `k`, pulling it from below if an unspent coin is there. */
    method FetchCoin(k: OutPoint) returns (found: bool)
      requires Valid()
      modifies Repr
      ensures Valid() && View() == old(View()) && Lower() == old(Lower())
      ensures found <==> k in cacheCoins
      ensures cacheCoins ==
              if k !in old(cacheCoins) && k in old(Lower()[0])
              then old(cacheCoins)[k := Entry(old(Lower()[0])[k], false, false)]
              else old(cacheCoins)
      decreases depth, 1
    {
      if k in cacheCoins { return true; }
      var tmp := GetBelow(k);
      if tmp.None? { return false; }
      // An entry that is spent below may be considered FRESH.
      var e := Entry(tmp.value, false, tmp.value.IsSpent());
      UsagePut(cacheCoins, k, e);
      PutOverlay(cacheCoins, Lower()[0], k, e);
      PutLayer(cacheCoins, Lower()[0], k, e);
      Store(cacheCoins[k := e], cachedCoinsUsage + tmp.value.Usage());
      found := true;
    }

    /** `base->GetCoin`. */
    method GetBelow(k: OutPoint) returns (r: Option<Coin>)
      requires Valid()
      modifies Repr
      ensures Valid() && View() == old(View()) && Lower() == old(Lower()) && cacheCoins == old(cacheCoins)
      ensures r == if k in old(Lower()[0]) then Some(old(Lower()[0])[k]) else None
      decreases depth, 0
    {
      if base == null {
        r := db.GetCoin(k);
      } else {
        r := base.GetCoin(k);
      }
    }

    method GetCoin(k: OutPoint) returns (r: Option<Coin>)
      requires Valid()
      modifies Repr
      ensures Valid() && View() == old(View()) && Lower() == old(Lower())
      ensures r == if k in old(View()) then Some(old(View())[k]) else None
      decreases depth, 2
    {
      var found := FetchCoin(k);
      r := if found && !cacheCoins[k].coin.IsSpent() then Some(cacheCoins[k].coin) else None;
    }

    method HaveCoin(k: OutPoint) returns (have: bool)
      requires Valid()
      modifies Repr
      ensures Valid() && View() == old(View()) && Lower() == old(Lower())
      ensures have <==> k in old(View())
    {
      var found := FetchCoin(k);
      have := found && !cacheCoins[k].coin.IsSpent();
    }

    /** Adds the coin unless it can never be spent.  The logic_error is raised exactly when a cached
        unspent coin would be replaced without `overwrite`; otherwise the layer stays sound exactly
        when the caller's promise about `overwrite` was true of the whole view. */
    method AddCoin(k: OutPoint, coin: Coin, overwrite: bool) returns (threw: bool)
      requires Valid() && !coin.IsSpent()
      modifies this
      ensures Lower() == old(Lower())
      ensures coin.IsUnspendable() ==> !threw && cacheCoins == old(cacheCoins) && Valid()
      ensures threw <==> !coin.IsUnspendable() && !overwrite
                         && k in old(cacheCoins) && !old(cacheCoins)[k].coin.IsSpent()
      ensures threw ==> cacheCoins == old(cacheCoins)
      ensures !threw && !coin.IsUnspendable() ==>
                && View() == old(View())[k := coin]
                && (Valid() <==> overwrite || k !in old(View()))
    {
      if coin.IsUnspendable() { return false; }
      var was := if k in cacheCoins then cacheCoins[k] else Entry(EMPTY_COIN, false, false);
      var isFresh := false;
      if k in cacheCoins {
        UsageRemove(cacheCoins, k);
      }
      if !overwrite {
        if !was.coin.IsSpent() {
          cachedCoinsUsage := cachedCoinsUsage - was.coin.Usage();
          return true;
        }
        isFresh := !was.isDirty;
      }
      var e := Entry(coin, true, was.isFresh || isFresh);
      AddedIsWrite(cacheCoins, Lower()[0], k, coin, overwrite);
      UsagePut(cacheCoins, k, e);
      Store(cacheCoins[k := e], cachedCoinsUsage - was.coin.Usage() + coin.Usage());
      threw := false;
    }

    method SpendCoin(k: OutPoint) returns (found: bool, moved: Coin)
      requires Valid()
      modifies Repr
      ensures Valid() && View() == old(View()) - {k} && Lower() == old(Lower())
      ensures k in old(View()) ==> found && moved == old(View())[k]
      ensures found <==> k in old(cacheCoins) || k in old(Lower()[0])
    {
      found := FetchCoin(k);
      if !found { return false, EMPTY_COIN; }
      moved := cacheCoins[k].coin;
      SpentIsErase(cacheCoins, Lower()[0], k);
      UsageRemove(cacheCoins, k);
      UsagePut(cacheCoins, k, Entry(EMPTY_COIN, true, false));
      Store(if cacheCoins[k].isFresh then cacheCoins - {k} else cacheCoins[k := Entry(EMPTY_COIN, true, false)],
            cachedCoinsUsage - moved.Usage());
    }

    /** Drops an unmodified entry. */
    method Uncache(k: OutPoint)
      requires Valid()
      modifies this
      ensures Valid() && View() == old(View()) && Lower() == old(Lower())
      ensures cacheCoins == if k in old(cacheCoins) && !old(cacheCoins)[k].isDirty && !old(cacheCoins)[k].isFresh
                            then old(cacheCoins) - {k} else old(cacheCoins)
    {
      if k in cacheCoins && !cacheCoins[k].isDirty && !cacheCoins[k].isFresh {
        UsageRemove(cacheCoins, k);
        CleanEntry(cacheCoins, Lower()[0], k);
        Store(cacheCoins - {k}, cachedCoinsUsage - cacheCoins[k].coin.Usage());
      }
    }

    /** Takes over the modified entries of a cache that sits on this one. */
    method BatchWrite(child: Cache)
      requires Valid() && LayerOk(child, View())
      modifies this
      ensures Valid() && View() == Overlay(child, old(View())) && Lower() == old(Lower())
    {
      ghost var v := View();
      var todo := child.Keys;
      EmptyOverlay(v);
      assert child - todo == map[];
      while todo != {}
        invariant todo <= child.Keys
        invariant Valid() && Lower() == old(Lower())
        invariant View() == Overlay(child - todo, v)
        decreases |todo|
      {
        var k :| k in todo;
        PushedStep(child, todo, v, k);
        if child[k].isDirty {
          MergeOne(k, child[k]);
        }
        todo := todo - {k};
      }
      assert child - todo == child;
    }

    /** The body of the loop above for one modified entry. */
    method MergeOne(k: OutPoint, e: Entry)
      requires Valid() && e.isDirty && EntryOk(e, k, View())
      modifies this
      ensures Valid() && View() == Write(old(View()), k, e.coin) && Lower() == old(Lower())
    {
      MergedIsWrite(cacheCoins, Lower()[0], k, e);
      if k !in cacheCoins {
        // We can ignore it if it is both FRESH and spent in the child.
        if !(e.isFresh && e.coin.IsSpent()) {
          UsagePut(cacheCoins, k, Entry(e.coin, true, e.isFresh));
          Store(cacheCoins[k := Entry(e.coin, true, e.isFresh)], cachedCoinsUsage + e.coin.Usage());
        }
      } else {
        // The logic_error "FRESH flag misapplied" cannot be raised.
        assert !(e.isFresh && !cacheCoins[k].coin.IsSpent());
        UsageRemove(cacheCoins, k);
        if cacheCoins[k].isFresh && e.coin.IsSpent() {
          Store(cacheCoins - {k}, cachedCoinsUsage - cacheCoins[k].coin.Usage());
        } else {
          UsagePut(cacheCoins, k, Entry(e.coin, true, cacheCoins[k].isFresh));
          Store(cacheCoins[k := Entry(e.coin, true, cacheCoins[k].isFresh)],
                cachedCoinsUsage - cacheCoins[k].coin.Usage() + e.coin.Usage());
        }
      }
    }

    /** Pushes this layer's changes down one level: the view just below becomes this view,
        and nothing further down changes. */
    method Flush()
      requires Valid()
      modifies Repr
      ensures Valid() && View() == old(View()) && cacheCoins == map[]
      ensures Lower() == [old(View())] + old(Lower()[1..])
    {
      hide Overlay, LayerOk, UsageSum;
      if base == null {
        db.BatchWrite(cacheCoins);
      } else {
        base.BatchWrite(cacheCoins);
      }
      DropAll();
    }

    /** Once the entries are written below, the view is that of below. */
    method DropAll()
      requires Stacked() && AllUnspent(Lower()[0]) && (base != null ==> base.Valid())
      modifies this
      ensures Valid() && View() == Lower()[0] && Lower() == old(Lower()) && cacheCoins == map[]
    {
      hide Overlay, LayerOk, UsageSum;
      EmptyOverlay(Lower()[0]);
      cacheCoins, cachedCoinsUsage := map[], 0;
    }

    /** Flushing every layer from the top down writes the view into the database. */
    method FlushAll()
      requires Valid()
      modifies Repr
      ensures Valid() && View() == old(View()) && db.coins == old(View())
      ensures forall i :: 0 <= i < |Lower()| ==> Lower()[i] == old(View())
      decreases depth
    {
      Flush();
      if base != null {
        base.FlushAll();
      }
    }

    /** Any run of operations on the top layer refines the same run on a plain map. */
    method Run(ops: seq<Op>)
      requires Valid() && AllAllowed(View(), ops)
      modifies Repr
      ensures Valid() && View() == ApplyAll(old(View()), ops)
    {
      for n := 0 to |ops|
        invariant Valid() && View() == ApplyAll(old(View()), ops[..n])
      {
        assert ops[..n + 1][..n] == ops[..n];
        Step(ops[n]);
      }
      assert ops[..|ops|] == ops;
    }

    method Step(op: Op)
      requires Valid() && Allowed(View(), op)
      modifies Repr
      ensures Valid() && View() == Apply(old(View()), op)
    {
      match op
      case Get(k) => var _ := GetCoin(k);
      case Have(k) => var _ := HaveCoin(k);
      case Add(k, coin, overwrite) =>
        var threw := AddCoin(k, coin, overwrite);
        assert !threw;
      case Spend(k) => var _, _ := SpendCoin(k);
      case Uncache(k) => Uncache(k);
      case Flush => Flush();
    }

    /** Adds every output of a transaction; with `check` the caller owes nothing about the view. */
    method AddCoins(tx: Tx, height: nat, check: bool)
      requires Valid() && forall i :: 0 <= i < |tx.outs| ==> tx.outs[i].value != NULL_VALUE
      requires check || tx.coinBase || forall i :: 0 <= i < |tx.outs| ==> OutPoint(tx.txid, i) !in View()
      modifies Repr
      ensures Valid() && Lower() == old(Lower())
      ensures forall k :: k in View() <==> k in old(View()) || IsNewOutput(tx, |tx.outs|, k)
      ensures forall i: nat :: i < |tx.outs| && !Unsatisfiable(tx.outs[i].script) ==>
        && OutPoint(tx.txid, i) in View()
        && View()[OutPoint(tx.txid, i)] == Coin(tx.outs[i], height, tx.coinBase, tx.coinStake)
      ensures forall k :: k in old(View()) && !IsNewOutput(tx, |tx.outs|, k) ==> View()[k] == old(View())[k]
    {
      ghost var v := View();
      for n := 0 to |tx.outs|
        invariant Valid() && View() == WithOutputs(v, tx, height, n) && Lower() == old(Lower())
      {
        WithOutputsAt(v, tx, height, n, OutPoint(tx.txid, n));
        AddOutput(OutPoint(tx.txid, n), Coin(tx.outs[n], height, tx.coinBase, tx.coinStake), check);
      }
      forall k ensures k in View() <==> k in v || IsNewOutput(tx, |tx.outs|, k)
        ensures IsNewOutput(tx, |tx.outs|, k) ==>
          View()[k] == Coin(tx.outs[k.n], height, tx.coinBase, tx.coinStake)
        ensures k in v && !IsNewOutput(tx, |tx.outs|, k) ==> View()[k] == v[k]
      {
        WithOutputsAt(v, tx, height, |tx.outs|, k);
      }
    }

    method AddOutput(k: OutPoint, coin: Coin, check: bool)
      requires Valid() && !coin.IsSpent()
      requires check || coin.coinBase || k !in View()
      modifies Repr
      ensures Valid() && View() == Apply(old(View()), Add(k, coin, true)) && Lower() == old(Lower())
    {
      var overwrite := coin.coinBase;
      if check {
        overwrite := HaveCoin(k);
      }
      var threw := AddCoin(k, coin, overwrite);
      assert !threw;
    }
  }
}
