/**
 Serialized database keys in byte order, and what it means to be the next key of a set
 (DataStreamCmp and the ordered containers of src/dbwrapper.h).
 */
module DbKeys {
  import opened Wrappers

  newtype Byte = x: int | 0 <= x < 256
  type Key = seq<Byte>

  /** std::lexicographical_compare on unsigned bytes. */
  predicate Less(a: Key, b: Key) {
    |b| > 0 && (|a| == 0 || a[0] < b[0] || (a[0] == b[0] && Less(a[1..], b[1..])))
  }

  lemma {:induction false} LessIrreflexive(a: Key)
    ensures !Less(a, a)
  {
    if |a| > 0 {
      LessIrreflexive(a[1..]);
    }
  }

  lemma {:induction false} LessTransitive(a: Key, b: Key, c: Key)
    requires Less(a, b) && Less(b, c)
    ensures Less(a, c)
  {
    if |a| > 0 && a[0] == b[0] == c[0] {
      LessTransitive(a[1..], b[1..], c[1..]);
    }
  }

  lemma {:induction false} LessTotal(a: Key, b: Key)
    requires a != b
    ensures Less(a, b) || Less(b, a)
  {
    if |a| > 0 && |b| > 0 && a[0] == b[0] {
      assert a == [a[0]] + a[1..] && b == [b[0]] + b[1..];
      LessTotal(a[1..], b[1..]);
    }
  }

  /** Whichever way two keys compare. */
  lemma Trichotomy(a: Key, b: Key)
    ensures a == b ==> !Less(a, b)
    ensures a != b ==> (Less(a, b) <==> !Less(b, a))
  {
    LessIrreflexive(a);
    if a != b {
      LessTotal(a, b);
      if Less(a, b) && Less(b, a) {
        LessTransitive(a, b, a);
      }
    }
  }

  /** The keys agree on their first n bytes, and then a ends, or has the smaller byte. */
  ghost predicate FirstDifference(a: Key, b: Key, n: nat) {
    n <= |a| && n < |b| && a[..n] == b[..n] && (n == |a| || a[n] < b[n])
  }

  /** That is what comes first means. */
  lemma {:induction false} LessExactly(a: Key, b: Key)
    ensures Less(a, b) <==> exists n: nat :: FirstDifference(a, b, n)
  {
    if Less(a, b) {
      if |a| == 0 || a[0] < b[0] {
        assert FirstDifference(a, b, 0);
      } else {
        LessExactly(a[1..], b[1..]);
        var n: nat :| FirstDifference(a[1..], b[1..], n);
        assert a[..n + 1] == [a[0]] + a[1..][..n] && b[..n + 1] == [b[0]] + b[1..][..n];
        assert FirstDifference(a, b, n + 1);
      }
    } else if n: nat :| FirstDifference(a, b, n) {
      if n > 0 {
        assert a[..n][0] == a[0] && b[..n][0] == b[0];
        assert a[1..][..n - 1] == a[..n][1..] && b[1..][..n - 1] == b[..n][1..];
        assert FirstDifference(a[1..], b[1..], n - 1);
        LessExactly(a[1..], b[1..]);
      }
    }
  }

  /** Where an iterator is asked to stand. */
  datatype Bound = Start | From(key: Key) | After(key: Key) | Past

  predicate Meets(b: Bound, k: Key) {
    match b
    case Start => true
    case From(f) => !Less(k, f)
    case After(f) => Less(f, k)
    case Past => false
  }

  /** A key above one that meets a bound meets it too. */
  lemma MeetsUpward(b: Bound, k: Key, x: Key)
    requires Meets(b, k) && Less(k, x)
    ensures Meets(b, x)
  {
    match b
    case Start =>
    case From(f) =>
      if Less(x, f) { LessTransitive(k, x, f); }
    case After(f) => LessTransitive(f, k, x);
  }

  /** Everything, the key and what is above it, what is above it, nothing. */
  lemma MeetsExactly(f: Key, k: Key)
    ensures Meets(Start, k) && !Meets(Past, k)
    ensures Meets(From(f), k) <==> k == f || exists n: nat :: FirstDifference(f, k, n)
    ensures Meets(After(f), k) <==> exists n: nat :: FirstDifference(f, k, n)
  {
    Trichotomy(f, k);
    LessExactly(f, k);
  }

  ghost predicate NotBelow(r: Option<Key>, x: Key) {
    r.Some? && (x == r.value || Less(r.value, x))
  }

  /** r is the smallest key of s that meets the bound. */
  ghost predicate IsNext(s: set<Key>, b: Bound, r: Option<Key>) {
    && (r.Some? ==> r.value in s && Meets(b, r.value))
    && forall x :: x in s && Meets(b, x) ==> NotBelow(r, x)
  }

  /** std::map::lower_bound, begin and increment, by searching the keys. */
  method FindNext(s: set<Key>, b: Bound) returns (r: Option<Key>)
    ensures IsNext(s, b, r)
  {
    r := None;
    var rest := s;
    while rest != {}
      invariant rest <= s
      invariant IsNext(s - rest, b, r)
      decreases |rest|
    {
      var k :| k in rest;
      ghost var was := r;
      if Meets(b, k) && (r.None? || Less(k, r.value)) {
        r := Some(k);
      }
      NextWith(s - rest, b, was, k);
      rest := rest - {k};
      assert s - rest == (s - (rest + {k})) + {k};
    }
    assert s - rest == s;
  }

  lemma NextWith(s: set<Key>, b: Bound, r: Option<Key>, k: Key)
    requires IsNext(s, b, r)
    ensures IsNext(s + {k}, b, if Meets(b, k) && (r.None? || Less(k, r.value)) then Some(k) else r)
  {
    var q := if Meets(b, k) && (r.None? || Less(k, r.value)) then Some(k) else r;
    forall x | x in s + {k} && Meets(b, x) ensures NotBelow(q, x) {
      if x == k {
        if r.Some? { Trichotomy(k, r.value); }
      } else {
        assert NotBelow(r, x);
        if q != r && x != r.value { LessTransitive(k, r.value, x); }
      }
    }
  }

  /** The keys of s from r on. */
  ghost function Left(s: set<Key>, r: Option<Key>): set<Key> {
    set x | x in s && NotBelow(r, x)
  }

  lemma LeftShrinks(s: set<Key>, k: Key, r: Option<Key>)
    requires k in s && IsNext(s, After(k), r)
    ensures Left(s, r) == Left(s, Some(k)) - {k} && k in Left(s, Some(k))
    ensures |Left(s, r)| < |Left(s, Some(k))|
  {
    forall x ensures x in Left(s, r) <==> x in Left(s, Some(k)) - {k} {
      if x in s && NotBelow(r, x) {
        if x != r.value { LessTransitive(k, r.value, x); }
        LessIrreflexive(k);
      }
      if x in s && Less(k, x) { assert NotBelow(r, x); }
    }
  }

  /** The smaller of two iterators over disjoint sets is the next key of the union. */
  lemma MergedNext(s: set<Key>, t: set<Key>, b: Bound, p: Option<Key>, q: Option<Key>)
    requires s !! t && IsNext(s, b, p) && IsNext(t, b, q)
    ensures IsNext(s + t, b, if p.Some? && (q.None? || Less(p.value, q.value)) then p else q)
  {
    var r := if p.Some? && (q.None? || Less(p.value, q.value)) then p else q;
    if p.Some? && q.Some? { Trichotomy(p.value, q.value); }
    forall x | x in s + t && Meets(b, x) ensures NotBelow(r, x) {
      if x in s {
        assert NotBelow(p, x);
        if r != p && x != p.value { LessTransitive(q.value, p.value, x); }
      } else {
        assert NotBelow(q, x);
        if r != q && x != q.value { LessTransitive(p.value, q.value, x); }
      }
    }
  }

  /** An iterator that stands beyond a key that meets the bound also stands after that key. */
  lemma NextAfter(s: set<Key>, b: Bound, k: Key, p: Option<Key>)
    requires IsNext(s, b, p) && Meets(b, k) && (p.Some? ==> Less(k, p.value))
    ensures IsNext(s, After(k), p)
  {
    forall x | x in s && Less(k, x) ensures NotBelow(p, x) {
      MeetsUpward(b, k, x);
    }
  }

  /** While keys of s outside t are stepped over: p is in s, and no wanted key of t is before it. */
  ghost predicate Approaches(s: set<Key>, t: set<Key>, b: Bound, p: Option<Key>) {
    && (p.Some? ==> p.value in s && Meets(b, p.value))
    && forall x :: x in t && Meets(b, x) ==> NotBelow(p, x)
  }

  lemma NextApproaches(s: set<Key>, t: set<Key>, b: Bound, p: Option<Key>)
    requires t <= s && IsNext(s, b, p)
    ensures Approaches(s, t, b, p)
  {
  }

  lemma NextSkips(s: set<Key>, t: set<Key>, b: Bound, k: Key, q: Option<Key>)
    requires Approaches(s, t, b, Some(k)) && k !in t && IsNext(s, After(k), q) && t <= s
    ensures Approaches(s, t, b, q)
  {
    forall x | x in t && Meets(b, x) ensures NotBelow(q, x) {
      assert NotBelow(Some(k), x);
    }
    if q.Some? { MeetsUpward(b, k, q.value); }
  }

  lemma ApproachesIn(s: set<Key>, t: set<Key>, b: Bound, p: Option<Key>)
    requires Approaches(s, t, b, p)
    ensures p.Some? ==> p.value in s
  {
  }

  lemma Arrived(s: set<Key>, t: set<Key>, b: Bound, p: Option<Key>)
    requires Approaches(s, t, b, p) && (p.Some? ==> p.value in t)
    ensures IsNext(t, b, p)
  {
  }

  // ----- Collecting what an iterator visits -----

  /** ks are the keys of s that meet the bound and come before position p, in ascending order. */
  ghost predicate Collected(s: set<Key>, b: Bound, ks: seq<Key>, p: Option<Key>) {
    && (p.Some? ==> p.value in s && Meets(b, p.value))
    && (forall x :: x in ks <==> x in s && Meets(b, x) && !NotBelow(p, x))
    && (forall i, j :: 0 <= i < j < |ks| ==> Less(ks[i], ks[j]))
  }

  lemma CollectNone(s: set<Key>, b: Bound, p: Option<Key>)
    requires IsNext(s, b, p)
    ensures Collected(s, b, [], p)
  {
  }

  lemma CollectedAll(s: set<Key>, b: Bound, ks: seq<Key>)
    requires Collected(s, b, ks, None)
    ensures forall x :: x in ks <==> x in s && Meets(b, x)
    ensures forall i, j :: 0 <= i < j < |ks| ==> Less(ks[i], ks[j])
  {
  }

  lemma CollectedIn(s: set<Key>, b: Bound, ks: seq<Key>, p: Option<Key>)
    requires Collected(s, b, ks, p) && p.Some?
    ensures p.value in s
  {
  }

  lemma CollectOne(s: set<Key>, b: Bound, ks: seq<Key>, k: Key, q: Option<Key>)
    requires Collected(s, b, ks, Some(k)) && IsNext(s, After(k), q)
    ensures Collected(s, b, ks + [k], q)
  {
    if q.Some? { MeetsUpward(b, k, q.value); }
    forall x ensures x in ks + [k] <==> x in s && Meets(b, x) && !NotBelow(q, x) {
      CollectedBefore(s, b, ks, k, q, x);
    }
    forall i | 0 <= i < |ks| ensures Less(ks[i], k) {
      assert ks[i] in ks;
      Trichotomy(ks[i], k);
    }
  }

  lemma CollectedBefore(s: set<Key>, b: Bound, ks: seq<Key>, k: Key, q: Option<Key>, x: Key)
    requires Collected(s, b, ks, Some(k)) && IsNext(s, After(k), q)
    ensures x in ks + [k] <==> x in s && Meets(b, x) && !NotBelow(q, x)
  {
    Trichotomy(x, k);
    if q.Some? {
      Trichotomy(x, q.value);
      if Less(x, k) { LessTransitive(x, k, q.value); }
      if Less(k, x) && x in s { assert NotBelow(q, x); }
      if NotBelow(q, x) && x != q.value { LessTransitive(k, q.value, x); }
    }
  }
}
