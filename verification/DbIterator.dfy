/**
 The merging iterator over a transaction (CDBTransactionIterator in src/dbwrapper.h).  One cursor walks
 the transaction's own writes, the other the parent; the smaller of their keys is the current one.
 */
module DbIterator {
  import opened Wrappers
  import opened DbKeys
  import opened DbTransaction

  /** The iterator of the underlying store. */
  class DatabaseIterator {
    const db: Database
    var pos: Option<Key>

    constructor (db: Database)
      ensures this.db == db && pos == None
    {
      this.db := db;
      pos := None;
    }

    method SeekTo(b: Bound)
      modifies this
      ensures IsNext(db.contents.Keys, b, pos)
    {
      pos := FindNext(db.contents.Keys, b);
    }

    method Next()
      requires pos.Some?
      modifies this
      ensures IsNext(db.contents.Keys, After(old(pos).value), pos)
    {
      pos := FindNext(db.contents.Keys, After(pos.value));
    }
  }

  class TransactionIterator {
    const tx: Transaction
    /** The parent's iterator is `parentIt`, or `dbIt` when that is null. */
    const parentIt: TransactionIterator?
    const dbIt: DatabaseIterator
    var transactionIt: Option<Key>
    var parentKey: Key
    var curIsParent: bool

    /** Both cursors stand at the first of their keys that meets this. */
    ghost var bound: Bound
    ghost const Repr: set<object>

    ghost predicate Linked()
      decreases tx.depth
    {
      && tx.Stacked() && Repr !! tx.Repr
      && this in Repr && dbIt in Repr && dbIt.db == tx.db
      && (tx.parent == null <==> parentIt == null)
      && (parentIt == null ==> Repr == {this, dbIt})
      && (parentIt != null ==>
            && parentIt.tx == tx.parent && parentIt.dbIt == dbIt
            && this !in parentIt.Repr && Repr == {this} + parentIt.Repr
            && parentIt.Linked())
    }

    lemma Apart()
      requires Linked()
      ensures tx.Stacked() && tx in tx.Repr && Repr !! tx.Repr && this in Repr
    {
    }

    ghost function ParentPos(): Option<Key>
      requires Linked()
      reads Repr - {this}
      decreases tx.depth, 0
    {
      if parentIt == null then dbIt.pos else parentIt.Pos()
    }

    /** The current key, if any. */
    ghost function Pos(): Option<Key>
      requires Linked()
      reads Repr
      decreases tx.depth, 1
    {
      if curIsParent then ParentPos() else transactionIt
    }

    /** The parent's keys that this transaction neither deletes nor overwrites. */
    ghost function Shown(): set<Key>
      requires tx.Stacked()
      reads tx.Repr
    {
      tx.Below().Keys - tx.deletes - tx.writes.Keys
    }

    lemma InShown(k: Key)
      requires tx.Stacked()
      ensures k in Shown() <==> k in tx.Below().Keys && k !in tx.deletes && k !in tx.writes
      ensures Shown() <= tx.Below().Keys
    {
    }

    ghost predicate ParentReady()
      requires Linked()
      reads Repr - {this}, tx.Repr
      decreases tx.depth, 0
    {
      parentIt != null ==> parentIt.Ready()
    }

    ghost predicate Ready()
      reads Repr, tx.Repr
      decreases tx.depth, 1
    {
      && Linked() && tx.Valid() && ParentReady()
      && IsNext(tx.writes.Keys, bound, transactionIt)
      && IsNext(Shown(), bound, ParentPos())
      && (ParentPos().Some? ==> parentKey == ParentPos().value)
      && Decided()
    }

    /** The current key is the smaller of the two. */
    ghost predicate Decided()
      requires Linked()
      reads Repr
    {
      && (transactionIt.Some? && ParentPos().None? ==> !curIsParent)
      && (transactionIt.None? && ParentPos().Some? ==> curIsParent)
      && (transactionIt.Some? && ParentPos().Some? ==> (curIsParent <==> !Less(transactionIt.value, parentKey)))
    }

    constructor (tx: Transaction)
      requires tx.Valid()
      ensures Ready() && this.tx == tx && Pos() == None && fresh(Repr)
      decreases tx.depth
    {
      this.tx := tx;
      transactionIt, parentKey, curIsParent, bound := None, [], false, Past;
      if tx.parent == null {
        var it := new DatabaseIterator(tx.db);
        parentIt, dbIt, Repr := null, it, {this, it};
      } else {
        var it := new TransactionIterator(tx.parent);
        parentIt, dbIt, Repr := it, it.dbIt, {this} + it.Repr;
      }
    }

    // ----- The parent's iterator -----

    method ParentValid() returns (valid: bool)
      requires Linked() && ParentReady()
      ensures valid <==> ParentPos().Some?
      decreases tx.depth, 0
    {
      if parentIt == null {
        valid := dbIt.pos.Some?;
      } else {
        valid := parentIt.IsValid();
      }
    }

    method ParentGetKey() returns (k: Key)
      requires Linked() && ParentReady() && ParentPos().Some?
      ensures k == ParentPos().value
      decreases tx.depth, 0
    {
      if parentIt == null {
        k := dbIt.pos.value;
      } else {
        k := parentIt.GetKey();
      }
    }

    method ParentSeekTo(b: Bound)
      requires Linked() && ParentReady()
      modifies Repr - {this}
      ensures ParentReady() && IsNext(tx.Below().Keys, b, ParentPos())
      decreases tx.depth, 0
    {
      if parentIt == null {
        dbIt.SeekTo(b);
      } else {
        parentIt.SeekTo(b);
      }
    }

    method ParentNext()
      requires Linked() && ParentReady() && ParentPos().Some?
      modifies Repr - {this}
      ensures ParentReady() && IsNext(tx.Below().Keys, After(old(ParentPos()).value), ParentPos())
      decreases tx.depth, 0
    {
      if parentIt == null {
        dbIt.Next();
      } else {
        parentIt.Next();
      }
    }

    // ----- The merge -----

    method IsValid() returns (valid: bool)
      requires Ready()
      ensures valid <==> Pos().Some?
      decreases tx.depth, 1
    {
      valid := transactionIt.Some?;
      if !valid {
        valid := ParentValid();
      }
    }

    /** The empty key when there is none. */
    method GetKey() returns (k: Key)
      requires Ready()
      ensures k == if Pos().Some? then Pos().value else []
      decreases tx.depth, 1
    {
      var valid := IsValid();
      if !valid {
        return [];
      }
      if curIsParent {
        k := parentKey;
      } else {
        k := transactionIt.value;
      }
    }

    method GetValue() returns (r: Option<Value>)
      requires Ready()
      ensures r == if Pos().Some? && Pos().value in tx.View() then Some(tx.View()[Pos().value]) else None
    {
      var valid := IsValid();
      if !valid {
        return None;
      }
      if curIsParent {
        r := tx.Read(parentKey);
      } else {
        r := tx.Read(transactionIt.value);
      }
    }

    /** Past a key that is deleted or overwritten. */
    method SkipOne(ghost b: Bound, ghost keys: set<Key>, ghost shown: set<Key>)
      requires Linked() && tx.Valid() && ParentReady() && ParentPos() == Some(parentKey)
      requires tx.Below().Keys == keys && Shown() == shown <= keys && parentKey in keys && parentKey !in shown
      requires Approaches(keys, shown, b, ParentPos())
      modifies Repr - {this}
      ensures ParentReady() && tx.Valid() && tx.Below().Keys == keys && Shown() == shown
      ensures Approaches(keys, shown, b, ParentPos()) && (ParentPos().Some? ==> ParentPos().value in keys)
      ensures |Left(keys, ParentPos())| < |Left(keys, old(ParentPos()))|
      decreases tx.depth, 1
    {
      hide *;
      Apart();
      ParentNext();
      NextSkips(keys, shown, b, parentKey, ParentPos());
      LeftShrinks(keys, parentKey, ParentPos());
      ApproachesIn(keys, shown, b, ParentPos());
    }

    method SkipDeletedAndOverwritten(ghost b: Bound)
      requires Linked() && tx.Valid() && ParentReady()
      requires IsNext(tx.Below().Keys, b, ParentPos())
      modifies Repr - {this}, this`parentKey
      ensures ParentReady() && tx.Valid() && IsNext(Shown(), b, ParentPos())
      ensures ParentPos().Some? ==> parentKey == ParentPos().value
      decreases tx.depth, 2
    {
      hide *;
      Apart();
      ghost var keys, shown := tx.Below().Keys, Shown();
      InShown([]);
      NextApproaches(keys, shown, b, ParentPos());
      var valid := ParentValid();
      while valid
        invariant ParentReady() && tx.Valid() && (valid <==> ParentPos().Some?)
        invariant tx.Below().Keys == keys && Shown() == shown
        invariant Approaches(keys, shown, b, ParentPos())
        invariant ParentPos().Some? ==> ParentPos().value in keys
        decreases |Left(keys, ParentPos())|
      {
        parentKey := ParentGetKey();
        InShown(parentKey);
        if parentKey !in tx.deletes && parentKey !in tx.writes {
          break;
        }
        SkipOne(b, keys, shown);
        valid := ParentValid();
      }
      Arrived(keys, shown, b, ParentPos());
    }

    method DecideCur()
      requires Linked() && ParentReady()
      requires ParentPos().Some? ==> parentKey == ParentPos().value
      modifies this`curIsParent
      ensures Decided()
      decreases tx.depth, 1
    {
      var parentValid := ParentValid();
      if transactionIt.Some? && !parentValid {
        curIsParent := false;
      } else if transactionIt.None? && parentValid {
        curIsParent := true;
      } else if transactionIt.Some? && parentValid {
        if Less(transactionIt.value, parentKey) {
          curIsParent := false;
        } else {
          curIsParent := true;
        }
      }
    }

    /** The current key is the first key of the view that meets the bound. */
    lemma Merged()
      requires Ready()
      ensures IsNext(tx.View().Keys, bound, Pos())
    {
      assert tx.View().Keys == tx.writes.Keys + Shown();
      MergedNext(tx.writes.Keys, Shown(), bound, transactionIt, ParentPos());
    }

    lemma ReadyParts()
      requires Ready()
      ensures Linked() && tx.Valid() && ParentReady()
      ensures ParentPos().Some? ==> parentKey == ParentPos().value
      ensures Pos() == if curIsParent then ParentPos() else transactionIt
    {
    }

    /** Choose the current key once both cursors stand where they should. */
    method Settle(ghost b: Bound)
      requires Linked() && tx.Valid() && ParentReady()
      requires IsNext(tx.writes.Keys, b, transactionIt) && IsNext(Shown(), b, ParentPos())
      requires ParentPos().Some? ==> parentKey == ParentPos().value
      modifies this`curIsParent, this`bound
      ensures Ready() && IsNext(tx.View().Keys, b, Pos())
      decreases tx.depth, 2
    {
      hide IsNext, Less, Meets, Shown;
      Apart();
      DecideCur();
      bound := b;
      Merged();
    }

    method SeekTo(b: Bound)
      requires Ready()
      modifies Repr
      ensures Ready() && IsNext(tx.View().Keys, b, Pos())
      decreases tx.depth, 3
    {
      hide *;
      ReadyParts();
      Apart();
      transactionIt := FindNext(tx.writes.Keys, b);
      ParentSeekTo(b);
      SkipDeletedAndOverwritten(b);
      Settle(b);
    }

    method SeekToFirst()
      requires Ready()
      modifies Repr
      ensures Ready() && IsNext(tx.View().Keys, Start, Pos())
    {
      SeekTo(Start);
    }

    method Seek(k: Key)
      requires Ready()
      modifies Repr
      ensures Ready() && IsNext(tx.View().Keys, From(k), Pos())
    {
      SeekTo(From(k));
    }

    method Next()
      requires Ready()
      modifies Repr
      ensures Ready()
      ensures old(Pos()).None? ==> Pos() == None
      ensures old(Pos()).Some? ==> IsNext(tx.View().Keys, After(old(Pos()).value), Pos())
      decreases tx.depth, 3
    {
      hide *;
      ReadyParts();
      Apart();
      var valid := IsValid();
      if !valid {
        return;
      }
      ghost var cur := Pos().value;
      if curIsParent {
        NextAfterParent();
        ParentNext();
        SkipDeletedAndOverwritten(After(cur));
      } else {
        NextAfterOwn();
        transactionIt := FindNext(tx.writes.Keys, After(transactionIt.value));
      }
      Settle(After(cur));
    }

    lemma NextAfterParent()
      requires Ready() && curIsParent && Pos().Some?
      ensures IsNext(tx.writes.Keys, After(Pos().value), transactionIt)
    {
      if transactionIt.Some? { Trichotomy(transactionIt.value, parentKey); }
      NextAfter(tx.writes.Keys, bound, Pos().value, transactionIt);
    }

    lemma NextAfterOwn()
      requires Ready() && !curIsParent && Pos().Some?
      ensures IsNext(Shown(), After(Pos().value), ParentPos())
    {
      NextAfter(Shown(), bound, Pos().value, ParentPos());
    }

    /** Read the current entry and step on. */
    method Visit() returns (k: Key, v: Option<Value>)
      requires Ready() && Pos().Some?
      modifies Repr
      ensures Ready() && tx.View() == old(tx.View())
      ensures k == old(Pos()).value && IsNext(tx.View().Keys, After(k), Pos())
      ensures k in tx.View() ==> v == Some(tx.View()[k])
    {
      hide *;
      ReadyParts();
      Apart();
      k := GetKey();
      v := GetValue();
      Next();
    }

    /** A client's loop from a bound on, up to a number of entries and to a key at which it stops. */
    method CollectUntil(b: Bound, limit: Option<nat>, stop: Key -> bool)
      returns (ks: seq<Key>, vs: seq<Option<Value>>, ghost end: Option<Key>)
      requires Ready()
      modifies Repr
      ensures Ready() && tx.View() == old(tx.View())
      ensures Gathered(tx.View(), b, limit, stop, ks, vs, end)
      ensures end.Some? ==> stop(end.value) || limit == Some(|ks|)
    {
      hide *;
      ReadyParts();
      Apart();
      ghost var view := tx.View();
      SeekTo(b);
      ks, vs := [], [];
      GatheredNone(view, b, limit, stop, Pos());
      var valid := IsValid();
      while valid && limit != Some(|ks|)
        invariant Ready() && (valid <==> Pos().Some?) && tx.View() == view
        invariant Gathered(view, b, limit, stop, ks, vs, Pos())
        decreases |Left(view.Keys, Pos())|
      {
        var key := GetKey();
        if stop(key) {
          break;
        }
        GatheredIn(view, b, limit, stop, ks, vs, Pos());
        var k, v := Visit();
        GatheredOne(view, b, limit, stop, ks, vs, k, v, Pos());
        LeftShrinks(view.Keys, k, Pos());
        ks, vs := ks + [k], vs + [v];
        valid := IsValid();
      }
      end := Pos();
    }

    /** Without a limit it sees exactly the entries of the view that meet the bound. */
    method Collect(b: Bound) returns (ks: seq<Key>, vs: seq<Option<Value>>)
      requires Ready()
      modifies Repr
      ensures Ready() && tx.View() == old(tx.View())
      ensures forall x :: x in ks <==> x in tx.View() && Meets(b, x)
      ensures forall i, j :: 0 <= i < j < |ks| ==> Less(ks[i], ks[j])
      ensures |vs| == |ks| && forall i :: 0 <= i < |ks| ==> vs[i] == Some(tx.View()[ks[i]])
    {
      hide *;
      ghost var end;
      ReadyParts();
      ks, vs, end := CollectUntil(b, None, _ => false);
      ReadyParts();
      GatheredAll(tx.View(), b, _ => false, ks, vs);
    }
  }

  /** The entries of the view that meet the bound and come before position p, once each and in ascending
      order, within the limit and before any key to stop at. */
  ghost predicate Gathered(view: Contents, b: Bound, limit: Option<nat>, stop: Key -> bool, ks: seq<Key>,
                           vs: seq<Option<Value>>, p: Option<Key>)
  {
    && Collected(view.Keys, b, ks, p)
    && |vs| == |ks| && (forall i :: 0 <= i < |ks| ==> ks[i] in view && vs[i] == Some(view[ks[i]]))
    && (limit.Some? ==> |ks| <= limit.value) && (forall i :: 0 <= i < |ks| ==> !stop(ks[i]))
  }

  lemma GatheredNone(view: Contents, b: Bound, limit: Option<nat>, stop: Key -> bool, p: Option<Key>)
    requires IsNext(view.Keys, b, p)
    ensures Gathered(view, b, limit, stop, [], [], p)
  {
    hide Collected, IsNext;
    CollectNone(view.Keys, b, p);
  }

  lemma GatheredIn(view: Contents, b: Bound, limit: Option<nat>, stop: Key -> bool, ks: seq<Key>,
                   vs: seq<Option<Value>>, p: Option<Key>)
    requires Gathered(view, b, limit, stop, ks, vs, p) && p.Some?
    ensures p.value in view
  {
    CollectedIn(view.Keys, b, ks, p);
  }

  lemma GatheredOne(view: Contents, b: Bound, limit: Option<nat>, stop: Key -> bool, ks: seq<Key>,
                    vs: seq<Option<Value>>, k: Key, v: Option<Value>, q: Option<Key>)
    requires Gathered(view, b, limit, stop, ks, vs, Some(k)) && limit != Some(|ks|) && !stop(k)
    requires IsNext(view.Keys, After(k), q) && k in view && v == Some(view[k])
    ensures Gathered(view, b, limit, stop, ks + [k], vs + [v], q)
  {
    hide Collected, IsNext;
    CollectOne(view.Keys, b, ks, k, q);
  }

  lemma GatheredAll(view: Contents, b: Bound, stop: Key -> bool, ks: seq<Key>, vs: seq<Option<Value>>)
    requires Gathered(view, b, None, stop, ks, vs, None)
    ensures forall x :: x in ks <==> x in view && Meets(b, x)
    ensures forall i, j :: 0 <= i < j < |ks| ==> Less(ks[i], ks[j])
    ensures |vs| == |ks| && forall i :: 0 <= i < |ks| ==> vs[i] == Some(view[ks[i]])
  {
    CollectedAll(view.Keys, b, ks);
  }
}
