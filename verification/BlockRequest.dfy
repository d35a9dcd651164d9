/**
 The differential coding of the request for missing transactions (BlockTransactionsRequest in
 src/blockencodings.h).
 */
module BlockRequest {
  import opened Wrappers

  ghost predicate Increasing(xs: seq<nat>) {
    forall i, j :: 0 <= i < j < |xs| ==> xs[i] < xs[j]
  }

  /** The distance of an index from the one after its predecessor.  A negative distance is written as a
      huge 64-bit number, which the reader rejects like any other above 16 bits. */
  function Distance(xs: seq<nat>, i: nat): int
    requires i < |xs|
  {
    xs[i] as int - if i == 0 then 0 else xs[i - 1] as int + 1
  }

  function Differences(xs: seq<nat>): (ds: seq<int>)
    ensures |ds| == |xs| && forall i :: 0 <= i < |xs| ==> ds[i] == Distance(xs, i)
  {
    seq(|xs|, i requires 0 <= i < |xs| => Distance(xs, i))
  }

  function Mod16(x: int): (r: nat)
    ensures r <= 0xFFFF
  {
    x % 0x1_0000
  }

  /** The 16-bit offset that follows the indexes. */
  function OffsetAfter(xs: seq<nat>): nat {
    if xs == [] then 0 else Mod16(xs[|xs| - 1] + 1)
  }

  /** Reading the first n distances back, in 16 bits: None where the source throws. */
  function Restored(ds: seq<int>, n: nat): (r: Option<seq<nat>>)
    requires n <= |ds|
    ensures r.Some? ==> |r.value| == n && forall i :: 0 <= i < n ==> r.value[i] <= 0xFFFF
  {
    if n == 0 then Some([])
    else
      match Restored(ds, n - 1)
      case None => None
      case Some(xs) =>
        var d := ds[n - 1];
        if d < 0 || d + OffsetAfter(xs) > 0xFFFF then None else Some(xs + [d + OffsetAfter(xs)])
  }

  /** The whole message. */
  function Read(ds: seq<int>): Option<seq<nat>> { Restored(ds, |ds|) }

  lemma DistanceBack(xs: seq<nat>, i: nat)
    requires i < |xs| && Increasing(xs) && (forall j :: 0 <= j < |xs| ==> xs[j] <= 0xFFFF)
    ensures 0 <= Distance(xs, i) && Distance(xs, i) + OffsetAfter(xs[..i]) == xs[i]
  {
    if i > 0 {
      assert xs[i - 1] < xs[i] && xs[..i][i - 1] == xs[i - 1];
    }
  }

  lemma {:induction false} RestoredDifferences(xs: seq<nat>, ds: seq<int>, n: nat)
    requires n <= |xs| == |ds| && Increasing(xs) && forall i :: 0 <= i < |xs| ==> xs[i] <= 0xFFFF
    requires forall i :: 0 <= i < |xs| ==> ds[i] == Distance(xs, i)
    ensures Restored(ds, n) == Some(xs[..n])
  {
    if n > 0 {
      hide Restored, Distance, OffsetAfter, Increasing, Reach;
      RestoredDifferences(xs, ds, n - 1);
      DistanceBack(xs, n - 1);
      RestoredNext(ds, n);
      Appended(xs, n);
    }
  }

  lemma Appended(xs: seq<nat>, n: nat)
    requires 0 < n <= |xs|
    ensures xs[..n] == xs[..n - 1] + [xs[n - 1]]
  {
  }

  /** Increasing lists of 16-bit indexes survive the round trip. */
  lemma RequestRoundTrip(xs: seq<nat>)
    requires Increasing(xs) && forall i :: 0 <= i < |xs| ==> xs[i] <= 0xFFFF
    ensures Read(Differences(xs)) == Some(xs)
  {
    RestoredDifferences(xs, Differences(xs), |xs|);
    assert xs[..|xs|] == xs;
  }

  /** How far the first n distances reach: each index takes its distance and one more place. */
  function Reach(ds: seq<int>, n: nat): int
    requires n <= |ds|
  {
    if n == 0 then 0 else Reach(ds, n - 1) + ds[n - 1] + 1
  }

  /** A distance that does not carry past a multiple of 2^16. */
  predicate StaysBelow(ds: seq<int>, i: nat)
    requires i < |ds|
  {
    0 <= ds[i] <= 0xFFFF - Mod16(Reach(ds, i))
  }

  lemma {:induction false} RestoredOffset(ds: seq<int>, n: nat)
    requires n <= |ds| && Restored(ds, n).Some?
    ensures OffsetAfter(Restored(ds, n).value) == Mod16(Reach(ds, n))
  {
    if n > 0 {
      RestoredNext(ds, n);
      RestoredOffset(ds, n - 1);
      hide Restored, Reach, OffsetAfter, Mod16;
      OffsetNext(Restored(ds, n - 1).value, Reach(ds, n - 1), ds[n - 1]);
    }
  }

  lemma {:induction false} RestoredAccepts(ds: seq<int>, n: nat)
    requires n <= |ds|
    ensures Restored(ds, n).Some? <==> forall i: nat :: i < n ==> StaysBelow(ds, i)
  {
    if n > 0 {
      RestoredNext(ds, n);
      RestoredAccepts(ds, n - 1);
      hide Restored, Reach, OffsetAfter, Mod16;
      if Restored(ds, n - 1).Some? {
        RestoredOffset(ds, n - 1);
        assert Restored(ds, n).Some? <==> StaysBelow(ds, n - 1);
      }
    }
  }

  lemma {:induction false} RestoredAt(ds: seq<int>, n: nat, i: nat)
    requires i < n <= |ds| && Restored(ds, n).Some?
    ensures Restored(ds, n).value[i] == Mod16(Reach(ds, i)) + ds[i]
  {
    RestoredNext(ds, n);
    hide Restored, Reach, OffsetAfter, Mod16;
    if i == n - 1 {
      RestoredOffset(ds, i);
    } else {
      RestoredAt(ds, n - 1, i);
    }
  }

  lemma RestoredNext(ds: seq<int>, n: nat)
    requires 0 < n <= |ds|
    ensures Reach(ds, n) == Reach(ds, n - 1) + ds[n - 1] + 1
    ensures Restored(ds, n - 1).None? ==> Restored(ds, n).None?
    ensures Restored(ds, n - 1).Some? ==>
      var xs, d := Restored(ds, n - 1).value, ds[n - 1];
      Restored(ds, n) == if d < 0 || d + OffsetAfter(xs) > 0xFFFF then None else Some(xs + [d + OffsetAfter(xs)])
  {
  }

  lemma OffsetNext(xs: seq<nat>, reach: int, d: int)
    requires OffsetAfter(xs) == Mod16(reach) && d >= 0
    ensures OffsetAfter(xs + [d + OffsetAfter(xs)]) == Mod16(reach + d + 1)
  {
  }

  /** The reader accepts exactly the messages whose distances never carry past a multiple of 2^16, and each
      index is the reach before it modulo 2^16 plus its distance. */
  lemma ReadExactly(ds: seq<int>)
    ensures Read(ds).Some? <==> forall i: nat :: i < |ds| ==> StaysBelow(ds, i)
    ensures Read(ds).Some? ==>
      |Read(ds).value| == |ds| && forall i: nat :: i < |ds| ==> Read(ds).value[i] == Mod16(Reach(ds, i)) + ds[i]
  {
    RestoredAccepts(ds, |ds|);
    if Read(ds).Some? {
      forall i: nat | i < |ds| ensures Read(ds).value[i] == Mod16(Reach(ds, i)) + ds[i] {
        RestoredAt(ds, |ds|, i);
      }
    }
  }

  /** As long as the distances stay within 16 bits, the indexes increase up to their reach. */
  lemma {:induction false} RestoredWithin(ds: seq<int>, n: nat)
    requires n <= |ds| && Restored(ds, n).Some? && Reach(ds, n) <= 0x1_0000
    ensures var xs := Restored(ds, n).value; Increasing(xs) && (n > 0 ==> xs[n - 1] == Reach(ds, n) - 1)
  {
    if n > 0 {
      RestoredWithin(ds, n - 1);
    }
  }

  /** A longer message has an index 65535 that is not its last, and the next one starts over. */
  lemma {:induction false} RestoredBeyond(ds: seq<int>, n: nat)
    requires n <= |ds| && Restored(ds, n).Some? && Reach(ds, n) > 0x1_0000
    ensures !Increasing(Restored(ds, n).value)
  {
    var us, xs := Restored(ds, n - 1).value, Restored(ds, n).value;
    if Reach(ds, n - 1) > 0x1_0000 {
      RestoredBeyond(ds, n - 1);
      var i, j :| 0 <= i < j < |us| && us[i] >= us[j];
      assert xs[i] >= xs[j];
    } else {
      RestoredWithin(ds, n - 1);
      assert xs[n - 2] == us[n - 2] == 0xFFFF;
      assert xs[n - 2] >= xs[n - 1];
    }
  }

  /** What is read back is increasing exactly when the distances of the message do not reach beyond 2^16. */
  lemma ReadIncreasing(ds: seq<int>)
    requires Read(ds).Some?
    ensures Increasing(Read(ds).value) <==> Reach(ds, |ds|) <= 0x1_0000
  {
    if Reach(ds, |ds|) <= 0x1_0000 {
      RestoredWithin(ds, |ds|);
    } else {
      RestoredBeyond(ds, |ds|);
    }
  }

  /** Beyond it the indexes need not increase: two of them, the second below the first. */
  lemma WrappedRequest()
    ensures Read([0xFFFF, 0]) == Some([0xFFFF, 0]) && !Increasing([0xFFFF, 0])
  {
    var ds: seq<int>, xs: seq<nat> := [0xFFFF, 0], [0xFFFF, 0];
    RestoredNext(ds, 1);
    RestoredNext(ds, 2);
    assert Restored(ds, 0).value + [0xFFFF] == xs[..1];
    assert OffsetAfter(xs[..1]) == 0 && xs[..1] + [0] == xs;
    assert !(xs[0] < xs[1]);
  }

  method EncodeIndexes(xs: seq<nat>) returns (ds: seq<int>)
    ensures ds == Differences(xs)
  {
    ds := [];
    for i := 0 to |xs|
      invariant ds == Differences(xs)[..i]
    {
      ds := ds + [Distance(xs, i)];
    }
  }

  /** The two loops of the reader: first every distance, then the running offset. */
  method DecodeIndexes(ds: seq<int>) returns (r: Option<seq<nat>>)
    requires forall i :: 0 <= i < |ds| ==> ds[i] >= 0
    ensures r == Read(ds)
  {
    for i := 0 to |ds| {
      if ds[i] > 0xFFFF {
        assert Restored(ds, i + 1) == None;
        NotRestored(ds, i + 1, |ds|);
        return None;
      }
    }
    var xs: seq<nat> := [];
    var offset := 0;
    for j := 0 to |ds|
      invariant Restored(ds, j) == Some(xs) && offset == OffsetAfter(xs)
    {
      if ds[j] + offset > 0xFFFF {
        NotRestored(ds, j + 1, |ds|);
        return None;
      }
      xs := xs + [ds[j] + offset];
      offset := (xs[j] + 1) % 0x1_0000;
    }
    r := Some(xs);
  }

  lemma {:induction false} NotRestored(ds: seq<int>, m: nat, n: nat)
    requires m <= n <= |ds| && Restored(ds, m) == None
    ensures Restored(ds, n) == None
  {
    if m < n {
      NotRestored(ds, m, n - 1);
    }
  }
}
