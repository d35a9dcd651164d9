/**
 Transactions layered on a key-value database (CDBTransaction and CDBTransactionIterator in
 src/dbwrapper.h): buffered writes and deletes over a parent, which may be a transaction itself,
 and an iterator that merges the two.
 */
module DbTransaction {
  import opened Wrappers
  import opened DbKeys

  /** A serialized value; its size is what GetSerializeSize returns. */
  type Value = seq<Byte>
  type Contents = map<Key, Value>

  /** The contents seen through a layer of deletes and writes. */
  function Overlaid(base: Contents, writes: Contents, deletes: set<Key>): Contents {
    (base - deletes) + writes
  }

  /** Only an empty overlay leaves every map as it is. */
  lemma CleanExactly(writes: Contents, deletes: set<Key>)
    ensures writes == map[] && deletes == {} <==> forall base: Contents :: Overlaid(base, writes, deletes) == base
  {
    if k :| k in writes {
      assert k in Overlaid(map[], writes, deletes);
    } else if k :| k in deletes {
      assert k !in Overlaid(map[k := []], writes, deletes);
    } else {
      assert writes == map[] && deletes == {};
      forall base: Contents ensures Overlaid(base, writes, deletes) == base {
      }
    }
  }

  // ----- Memory accounting -----

  ghost function WritesUsage(w: Contents): nat
    decreases |w|
  {
    if w == map[] then 0
    else
      var k :| k in w;
      |k| + |w[k]| + WritesUsage(w - {k})
  }

  ghost function DeletesUsage(d: set<Key>): nat
    decreases |d|
  {
    if d == {} then 0
    else
      var k :| k in d;
      |k| + DeletesUsage(d - {k})
  }

  lemma {:induction false} WritesUsageRemove(w: Contents, k: Key)
    requires k in w
    ensures WritesUsage(w) == |k| + |w[k]| + WritesUsage(w - {k})
    decreases |w|
  {
    var j :| j in w && WritesUsage(w) == |j| + |w[j]| + WritesUsage(w - {j});
    if j != k {
      WritesUsageRemove(w - {j}, k);
      WritesUsageRemove(w - {k}, j);
      assert w - {j} - {k} == w - {k} - {j};
    }
  }

  lemma {:induction false} DeletesUsageRemove(d: set<Key>, k: Key)
    requires k in d
    ensures DeletesUsage(d) == |k| + DeletesUsage(d - {k})
    decreases |d|
  {
    var j :| j in d && DeletesUsage(d) == |j| + DeletesUsage(d - {j});
    if j != k {
      DeletesUsageRemove(d - {j}, k);
      DeletesUsageRemove(d - {k}, j);
      assert d - {j} - {k} == d - {k} - {j};
    }
  }

  lemma WritesUsagePut(w: Contents, k: Key, v: Value)
    ensures WritesUsage(w[k := v]) == WritesUsage(w - {k}) + |k| + |v|
  {
    WritesUsageRemove(w[k := v], k);
    assert w[k := v] - {k} == w - {k};
  }

  lemma DeletesUsageAdd(d: set<Key>, k: Key)
    ensures DeletesUsage(d + {k}) == DeletesUsage(d - {k}) + |k|
  {
    DeletesUsageRemove(d + {k}, k);
    assert d + {k} - {k} == d - {k};
  }

  // ----- The store at the bottom -----

  class Database {
    var contents: Contents

    constructor ()
      ensures contents == map[]
    {
      contents := map[];
    }

    method Read(k: Key) returns (r: Option<Value>)
      ensures r == if k in contents then Some(contents[k]) else None
    {
      r := if k in contents then Some(contents[k]) else None;
    }

    method Write(k: Key, v: Value)
      modifies this
      ensures contents == old(contents)[k := v]
    {
      contents := contents[k := v];
    }

    method Erase(k: Key)
      modifies this
      ensures contents == old(contents) - {k}
    {
      contents := contents - {k};
    }
  }

  // ----- Runs of updates on a plain map -----

  datatype Op = Put(key: Key, value: Value) | Delete(key: Key)

  function Apply(m: Contents, op: Op): Contents {
    match op
    case Put(k, v) => m[k := v]
    case Delete(k) => m - {k}
  }

  function ApplyAll(m: Contents, ops: seq<Op>): Contents {
    if ops == [] then m else Apply(ApplyAll(m, ops[..|ops| - 1]), ops[|ops| - 1])
  }

  // ----- Transactions -----

  class Transaction {
    /** The parent is `parent`, or `db` when that is null; likewise the commit target. */
    const parent: Transaction?
    const db: Database
    const target: Transaction?
    const sink: Database
    var writes: Contents
    var deletes: set<Key>
    var memoryUsage: int

    ghost const depth: nat
    ghost const Repr: set<object>

    ghost predicate Stacked()
      decreases depth
    {
      && this in Repr && db in Repr
      && (parent == null ==> Repr == {this, db} && depth == 0)
      && (parent != null ==>
            && depth == parent.depth + 1
            && this !in parent.Repr && Repr == {this} + parent.Repr
            && parent.db == db && parent.Stacked())
    }

    /** No key is both written and deleted, and the usage is the exact sum. */
    ghost predicate Counted()
      reads this
    {
      writes.Keys !! deletes && memoryUsage == WritesUsage(writes) + DeletesUsage(deletes)
    }

    ghost predicate Valid()
      reads Repr
    {
      Stacked() && forall t: Transaction :: t in Repr ==> t.Counted()
    }

    ghost function Below(): Contents
      requires Stacked()
      reads Repr
      decreases depth, 0
    {
      if parent == null then db.contents else parent.View()
    }

    ghost function View(): Contents
      requires Stacked()
      reads Repr
      decreases depth, 1
    {
      Overlaid(Below(), writes, deletes)
    }

    ghost function TargetView(): Contents
      requires TargetStacked()
      reads sink, if target == null then {} else target.Repr
    {
      if target == null then sink.contents else target.View()
    }

    ghost predicate TargetStacked() {
      target != null ==> target.Stacked() && this !in target.Repr
    }

    ghost predicate TargetValid()
      reads if target == null then {} else target.Repr
    {
      TargetStacked() && (target != null ==> target.Valid())
    }

    constructor OnDatabase(db: Database, target: Transaction?, sink: Database)
      ensures Valid() && View() == db.contents && fresh(Repr - {db})
      ensures this.db == db && parent == null && this.target == target && this.sink == sink
      ensures target != null && target.Valid() ==> TargetValid()
    {
      parent, this.db, this.target, this.sink := null, db, target, sink;
      writes, deletes, memoryUsage := map[], {}, 0;
      depth, Repr := 0, {this, db};
    }

    constructor OnTransaction(parent: Transaction, target: Transaction?, sink: Database)
      requires parent.Valid()
      ensures Valid() && View() == parent.View() && fresh(Repr - parent.Repr)
      ensures this.parent == parent && this.target == target && this.sink == sink
      ensures target != null && target.Valid() ==> TargetValid()
    {
      this.parent, db, this.target, this.sink := parent, parent.db, target, sink;
      writes, deletes, memoryUsage := map[], {}, 0;
      depth, Repr := parent.depth + 1, {this} + parent.Repr;
    }

    /** One assignment of this layer's buffers. */
    method Store(w: Contents, d: set<Key>, usage: int)
      requires Valid() && w.Keys !! d && usage == WritesUsage(w) + DeletesUsage(d)
      modifies this
      ensures Valid() && writes == w && deletes == d && memoryUsage == usage
      ensures Below() == old(Below()) && View() == Overlaid(old(Below()), w, d)
    {
      writes, deletes, memoryUsage := w, d, usage;
    }

    method Write(k: Key, v: Value)
      requires Valid()
      modifies this
      ensures Valid() && View() == old(View())[k := v] && Below() == old(Below())
      ensures writes == old(writes)[k := v] && deletes == old(deletes) - {k}
    {
      var usage, d, w := memoryUsage, deletes, writes;
      assert Counted();
      assert k !in w ==> w - {k} == w;
      assert k !in d ==> d - {k} == d;
      if k in d {
        DeletesUsageRemove(d, k);
        usage := usage - |k|;
      }
      if k in w {
        WritesUsageRemove(w, k);
        usage := usage - (|k| + |w[k]|);
      }
      WritesUsagePut(w, k, v);
      WriteOverlaid(Below(), w, d, k, v);
      Store(w[k := v], d - {k}, usage + |k| + |v|);
    }

    method Erase(k: Key)
      requires Valid()
      modifies this
      ensures Valid() && View() == old(View()) - {k} && Below() == old(Below())
      ensures writes == old(writes) - {k} && deletes == old(deletes) + {k}
    {
      var usage, d, w := memoryUsage, deletes, writes;
      assert Counted();
      assert k !in w ==> w - {k} == w;
      assert k !in d ==> d - {k} == d;
      if k in w {
        WritesUsageRemove(w, k);
        usage := usage - (|k| + |w[k]|);
      }
      if k !in d {
        usage := usage + |k|;
      } else {
        assert d + {k} == d;
      }
      DeletesUsageAdd(d, k);
      EraseOverlaid(Below(), w, d, k);
      Store(w - {k}, d + {k}, usage);
    }

    method Read(k: Key) returns (r: Option<Value>)
      requires Valid()
      ensures r == if k in View() then Some(View()[k]) else None
      decreases depth
    {
      if k in deletes {
        return None;
      }
      if k in writes {
        return Some(writes[k]);
      }
      if parent == null {
        r := db.Read(k);
      } else {
        r := parent.Read(k);
      }
    }

    method Exists(k: Key) returns (found: bool)
      requires Valid()
      ensures found <==> k in View()
      decreases depth
    {
      if k in deletes {
        return false;
      }
      if k in writes {
        return true;
      }
      if parent == null {
        found := k in db.contents;
      } else {
        found := parent.Exists(k);
      }
    }

    method Clear()
      requires Valid()
      modifies this
      ensures Valid() && View() == Below() == old(Below())
      ensures writes == map[] && deletes == {} && memoryUsage == 0
    {
      Store(map[], {}, 0);
    }

    /** A transaction is clean exactly when it shows every parent as it is. */
    method IsClean() returns (clean: bool)
      ensures clean <==> forall base: Contents :: Overlaid(base, writes, deletes) == base
    {
      clean := writes == map[] && deletes == {};
      CleanExactly(writes, deletes);
    }

    /** The sign test of the source never fires. */
    method GetMemoryUsage() returns (usage: nat)
      requires Valid()
      ensures usage == WritesUsage(writes) + DeletesUsage(deletes)
    {
      assert Counted();
      usage := memoryUsage;
    }

    /** Any run of updates shows what the same run does to a plain map, and leaves the parent alone. */
    method Run(ops: seq<Op>)
      requires Valid()
      modifies this
      ensures Valid() && View() == ApplyAll(old(View()), ops) && Below() == old(Below())
    {
      for n := 0 to |ops|
        invariant Valid() && View() == ApplyAll(old(View()), ops[..n]) && Below() == old(Below())
      {
        assert ops[..n + 1][..n] == ops[..n];
        match ops[n]
        case Put(k, v) => Write(k, v);
        case Delete(k) => Erase(k);
      }
      assert ops[..|ops|] == ops;
    }

    method TargetErase(k: Key)
      requires Valid() && TargetValid()
      modifies sink, if target == null then {} else {target}
      ensures Valid() && TargetValid() && TargetView() == old(TargetView()) - {k}
      ensures target != null ==> unchanged(sink)
    {
      if target == null {
        sink.Erase(k);
      } else {
        target.Erase(k);
      }
    }

    method TargetWrite(k: Key, v: Value)
      requires Valid() && TargetValid()
      modifies sink, if target == null then {} else {target}
      ensures Valid() && TargetValid() && TargetView() == old(TargetView())[k := v]
      ensures target != null ==> unchanged(sink)
    {
      if target == null {
        sink.Write(k, v);
      } else {
        target.Write(k, v);
      }
    }

    method CommitDeletes()
      requires Valid() && TargetValid()
      modifies sink, if target == null then {} else {target}
      ensures Valid() && TargetValid() && TargetView() == old(TargetView()) - deletes
      ensures target != null ==> unchanged(sink)
    {
      ghost var v := TargetView();
      var todo := deletes;
      assert v - (deletes - todo) == v;
      while todo != {}
        invariant todo <= deletes
        invariant Valid() && TargetValid() && TargetView() == v - (deletes - todo)
        invariant target != null ==> unchanged(sink)
        decreases |todo|
      {
        var k :| k in todo;
        TargetErase(k);
        EraseOne(v, deletes, todo, k);
        todo := todo - {k};
      }
      assert deletes - todo == deletes;
    }

    method CommitWrites()
      requires Valid() && TargetValid()
      modifies sink, if target == null then {} else {target}
      ensures Valid() && TargetValid() && TargetView() == old(TargetView()) + writes
      ensures target != null ==> unchanged(sink)
    {
      ghost var v := TargetView();
      var w := writes;
      var todo := w.Keys;
      WriteStart(v, w);
      hide Written;
      while todo != {}
        invariant todo <= w.Keys && w == writes
        invariant Valid() && TargetValid() && TargetView() == Written(v, w, todo)
        invariant target != null ==> unchanged(sink)
        decreases |todo|
      {
        var k :| k in todo;
        TargetWrite(k, w[k]);
        WriteOne(v, w, todo, k);
        todo := todo - {k};
      }
      WriteEnd(v, w);
    }

    /** Replays the deletes and then the writes on the target.  A target that showed what the parent
        shows now shows what this transaction showed; when it is the parent, this view does not change. */
    method Commit()
      requires Valid() && TargetValid()
      modifies this, sink, if target == null then {} else {target}
      ensures Valid() && TargetValid()
      ensures writes == map[] && deletes == {} && memoryUsage == 0
      ensures TargetView() == Overlaid(old(TargetView()), old(writes), old(deletes))
      ensures old(TargetView() == Below()) ==> TargetView() == old(View())
      ensures (if parent == null then target == null && sink == db else target == parent) ==> View() == old(View())
    {
      CommitDeletes();
      CommitWrites();
      Clear();
    }
  }

  lemma EraseOne(v: Contents, d: set<Key>, todo: set<Key>, k: Key)
    requires k in todo && todo <= d
    ensures v - (d - todo) - {k} == v - (d - (todo - {k}))
  {
  }

  /** All writes but those still to be done. */
  ghost function Written(v: Contents, w: Contents, todo: set<Key>): Contents { v + (w - todo) }

  lemma WriteStart(v: Contents, w: Contents)
    ensures Written(v, w, w.Keys) == v
  {
  }

  lemma WriteOne(v: Contents, w: Contents, todo: set<Key>, k: Key)
    requires k in todo && todo <= w.Keys
    ensures Written(v, w, todo)[k := w[k]] == Written(v, w, todo - {k})
  {
  }

  lemma WriteEnd(v: Contents, w: Contents)
    ensures Written(v, w, {}) == v + w
  {
    assert w - {} == w;
  }

  lemma WriteOverlaid(base: Contents, w: Contents, d: set<Key>, k: Key, v: Value)
    ensures Overlaid(base, w[k := v], d - {k}) == Overlaid(base, w, d)[k := v]
  {
  }

  lemma EraseOverlaid(base: Contents, w: Contents, d: set<Key>, k: Key)
    ensures Overlaid(base, w - {k}, d + {k}) == Overlaid(base, w, d) - {k}
  {
  }
}
