/**
 The Bech32 alphabet and its reverse table (src/bech32.cpp).
 */
module Bech32Alphabet {
  import opened Bech32Values

  const CHARSET: string := "qpzry9x8" + "gf2tvdw0" + "s3jn54kh" + "ce6mua7l"

  function CharOf(v: Value): char { CHARSET[v] }

  const DIGITS_ROW: seq<int> := [15, -1, 10, 17, 21, 20, 26, 30,  7,  5, -1, -1, -1, -1, -1, -1]
  const LETTERS_ROW: seq<int> := [-1, 29, -1, 24, 13, 25,  9,  8, 23, -1, 18, 22, 31, 27, 19, -1]
  const LATE_LETTERS_ROW: seq<int> := [1,  0,  3, 16, 11, 28, 12, 14,  6,  4,  2, -1, -1, -1, -1, -1]

  /** The table from character codes to values; -1 where there is none.  Both cases of a letter have the
      same value. */
  function CharsetRev(c: nat): int
    requires c < 128
  {
    if c < 48 then -1
    else if c < 64 then DIGITS_ROW[c - 48]
    else if c < 80 then LETTERS_ROW[c - 64]
    else if c < 96 then LATE_LETTERS_ROW[c - 80]
    else if c < 112 then LETTERS_ROW[c - 96]
    else LATE_LETTERS_ROW[c - 112]
  }

  predicate IsUpper(c: nat) { 65 <= c <= 90 }
  predicate IsLower(c: nat) { 97 <= c <= 122 }
  predicate Printable(c: nat) { 33 <= c <= 126 }

  /** The characters that may occur at all, and the two cases. */
  lemma CharClasses(c: char)
    ensures Printable(c as nat) <==> '!' <= c <= '~'
    ensures IsUpper(c as nat) <==> 'A' <= c <= 'Z'
    ensures IsLower(c as nat) <==> 'a' <= c <= 'z'
  {
  }

  function LowerCase(c: nat): nat { if IsUpper(c) then c + 32 else c }

  /** The code of a value's character: printable, neither upper case nor '1', and the table inverts it. */
  lemma CodeOf(v: Value)
    ensures var c := CharOf(v) as nat;
      c < 128 && CharsetRev(c) == v && Printable(c) && !IsUpper(c) && c != 49
  {
    if v == 0 {} else if v == 1 {} else if v == 2 {} else if v == 3 {} else if v == 4 {} else if v == 5 {} else
    if v == 6 {} else if v == 7 {} else if v == 8 {} else if v == 9 {} else if v == 10 {} else if v == 11 {} else
    if v == 12 {} else if v == 13 {} else if v == 14 {} else if v == 15 {} else if v == 16 {} else
    if v == 17 {} else if v == 18 {} else if v == 19 {} else if v == 20 {} else if v == 21 {} else
    if v == 22 {} else if v == 23 {} else if v == 24 {} else if v == 25 {} else if v == 26 {} else
    if v == 27 {} else if v == 28 {} else if v == 29 {} else if v == 30 {} else if v == 31 {}
  }

  lemma EitherCase(c: nat)
    requires c < 128
    ensures LowerCase(c) < 128 && CharsetRev(LowerCase(c)) == CharsetRev(c)
  {
  }

  /** What the table says is the place of the character, in lower case. */
  lemma TableInverse(c: nat)
    requires c < 128 && CharsetRev(c) != -1
    ensures 0 <= CharsetRev(c) < 32 && CharOf(CharsetRev(c)) as nat == LowerCase(c)
  {
    EitherCase(c);
    LowerInverse(LowerCase(c));
  }

  lemma LowerInverse(c: nat)
    requires c < 128 && !IsUpper(c) && CharsetRev(c) != -1
    ensures 0 <= CharsetRev(c) < 32 && CharOf(CharsetRev(c)) as nat == c
  {
    if c == 48 {} else if c == 49 {} else if c == 50 {} else if c == 51 {} else if c == 52 {} else
    if c == 53 {} else if c == 54 {} else if c == 55 {} else if c == 56 {} else if c == 57 {} else
    if c == 58 {} else if c == 59 {} else if c == 60 {} else if c == 61 {} else if c == 62 {} else
    if c == 63 {} else if c == 64 {} else if c == 91 {} else if c == 92 {} else if c == 93 {} else
    if c == 94 {} else if c == 95 {} else if c == 96 {} else if c == 97 {} else if c == 98 {} else
    if c == 99 {} else if c == 100 {} else if c == 101 {} else if c == 102 {} else if c == 103 {} else
    if c == 104 {} else if c == 105 {} else if c == 106 {} else if c == 107 {} else if c == 108 {} else
    if c == 109 {} else if c == 110 {} else if c == 111 {} else if c == 112 {} else if c == 113 {} else
    if c == 114 {} else if c == 115 {} else if c == 116 {} else if c == 117 {} else if c == 118 {} else
    if c == 119 {} else if c == 120 {} else if c == 121 {} else if c == 122 {} else if c == 123 {} else
    if c == 124 {} else if c == 125 {} else if c == 126 {}
  }

  /** Hence a character stands for v exactly when its lower case is v's character. */
  lemma RevExactly(c: nat, v: Value)
    requires c < 128
    ensures CharsetRev(c) == v <==> CharOf(v) as nat == LowerCase(c)
  {
    hide CharsetRev, CharOf;
    CodeOf(v);
    EitherCase(c);
    if CharsetRev(c) == v {
      TableInverse(c);
    }
  }
}

/**
 Bech32 text (src/bech32.cpp).
 */
module Bech32 {
  import opened Wrappers
  import opened Bech32Values
  import opened Bech32Alphabet
  import opened Bech32Checksum
  import D = Bech32Distance

  // ----- Encoding -----

  ghost predicate Bytes(s: string) {
    forall i :: 0 <= i < |s| ==> s[i] as nat < 256
  }

  /** The high bits of every character, a zero, and the low bits of every character. */
  function ExpandedHrp(hrp: string): (vs: seq<Value>)
    requires Bytes(hrp)
    ensures |vs| == 2 * |hrp| + 1
  {
    seq(|hrp|, i requires 0 <= i < |hrp| && Bytes(hrp) => hrp[i] as nat / 32)
    + [0]
    + seq(|hrp|, i requires 0 <= i < |hrp| => hrp[i] as nat % 32)
  }

  function Checksum(hrp: string, values: seq<Value>): seq<Value>
    requires Bytes(hrp)
  {
    Groups(Xor(PolyModSpec(ExpandedHrp(hrp) + values + SIX_ZEROS), One()))
  }

  predicate Verifies(hrp: string, values: seq<Value>)
    requires Bytes(hrp)
  {
    PolyModSpec(ExpandedHrp(hrp) + values) == One()
  }

  function Chars(values: seq<Value>): (t: string)
    ensures |t| == |values| && forall i :: 0 <= i < |t| ==> t[i] == CharOf(values[i])
  {
    seq(|values|, i requires 0 <= i < |values| => CharOf(values[i]))
  }

  function Encoded(hrp: string, values: seq<Value>): string
    requires Bytes(hrp)
  {
    hrp + ['1'] + Chars(values + Checksum(hrp, values))
  }

  /** The checksum of any values verifies. */
  lemma ChecksumVerifies(hrp: string, values: seq<Value>)
    requires Bytes(hrp)
    ensures Verifies(hrp, values + Checksum(hrp, values))
  {
    hide Groups, PolyModSpec, ExpandedHrp;
    var e := ExpandedHrp(hrp) + values;
    ChecksumMakesOne(e);
    assert ExpandedHrp(hrp) + (values + Checksum(hrp, values)) == e + Checksum(hrp, values);
  }

  /** A change within six consecutive values of a verified sequence never verifies. */
  lemma BurstFails(hrp: string, before: seq<Value>, a: seq<Value>, b: seq<Value>, after: seq<Value>)
    requires Bytes(hrp) && |a| == |b| <= 6 && a != b
    requires Verifies(hrp, before + a + after)
    ensures !Verifies(hrp, before + b + after)
  {
    hide Remainder, ExpandedHrp;
    var e := ExpandedHrp(hrp);
    BurstDetected(One(), e + before, a, b, after);
    assert e + before + a + after == e + (before + a + after);
    assert e + before + b + after == e + (before + b + after);
  }

  /** In particular a change of a single value. */
  lemma SingleErrorFails(hrp: string, values: seq<Value>, k: nat, v: Value)
    requires Bytes(hrp) && k < |values| && values[k] != v && Verifies(hrp, values)
    ensures !Verifies(hrp, values[k := v])
  {
    hide Verifies;
    assert values == values[..k] + [values[k]] + values[k + 1..];
    assert values[k := v] == values[..k] + [v] + values[k + 1..];
    BurstFails(hrp, values[..k], [values[k]], [v], values[k + 1..]);
  }

  /** The positions at which two sequences differ. */
  ghost function Differing(u: seq<Value>, v: seq<Value>): set<nat>
    requires |u| == |v|
  {
    set p: nat | p < |u| && u[p] != v[p]
  }

  lemma ThreeOf(ps: set<nat>) returns (x: nat, y: nat, z: nat)
    requires |ps| == 3
    ensures x in ps && y in ps && z in ps && x != y && x != z && y != z
    ensures forall p :: p in ps ==> p == x || p == y || p == z
  {
    x :| x in ps;
    var rest := ps - {x};
    assert |rest| == 2;
    y :| y in rest;
    var last := rest - {y};
    assert |last| == 1;
    z :| z in last;
    var none := last - {z};
    assert |none| == 0;
    forall p | p in ps ensures p == x || p == y || p == z {
      assert p !in none;
    }
  }

  /** Up to three positions are among three given ones. */
  lemma PickThree(ps: set<nat>, n: nat) returns (i: nat, j: nat, k: nat)
    requires |ps| <= 3 && n >= 3 && forall p :: p in ps ==> p < n
    ensures i < j < k < n && forall p :: p in ps ==> p == i || p == j || p == k
    decreases 3 - |ps|
  {
    if |ps| == 3 {
      var x, y, z := ThreeOf(ps);
      i := if x < y && x < z then x else if y < z then y else z;
      k := if x > y && x > z then x else if y > z then y else z;
      j := x + y + z - i - k;
    } else {
      var e := Missing(ps);
      i, j, k := PickThree(ps + {e}, n);
    }
  }

  lemma Missing(ps: set<nat>) returns (e: nat)
    requires |ps| < 3
    ensures e < 3 && e !in ps
  {
    var first: set<nat> := {0, 1, 2};
    if first <= ps {
      SubsetSize(first, ps);
    }
    e :| e in first && e !in ps;
  }

  lemma SubsetSize(a: set<nat>, b: set<nat>)
    requires a <= b
    ensures |a| <= |b|
  {
    assert b == a + (b - a);
  }

  lemma ThreeParts(u: seq<Value>, i: nat, j: nat, k: nat)
    requires i < j < k < |u|
    ensures u == u[..i] + D.Three([u[i], u[j], u[k]], u[i + 1..j], u[j + 1..k]) + u[k + 1..]
  {
    assert [u[i]] + (u[i + 1..j] + [u[j]]) == u[i..j + 1];
    assert u[i..j + 1] + (u[j + 1..k] + [u[k]]) == u[i..k + 1];
  }

  /** A sequence that differs from a verified one in up to three of at most 1023 values never verifies. */
  lemma UpToThreeFail(hrp: string, u: seq<Value>, v: seq<Value>)
    requires Bytes(hrp) && |u| == |v| <= 1023 && u != v && |Differing(u, v)| <= 3 && Verifies(hrp, u)
    ensures !Verifies(hrp, v)
  {
    hide ExpandedHrp;
    if |u| <= 6 {
      assert [] + u + [] == u && [] + v + [] == v;
      BurstFails(hrp, [], u, v, []);
    } else {
      var i, j, k := PickThree(Differing(u, v), |u|);
      AtThreeFail(hrp, u, v, i, j, k);
    }
  }

  lemma SameElsewhere(u: seq<Value>, v: seq<Value>, i: nat, j: nat, k: nat)
    requires |u| == |v| && i < j < k < |u|
    requires forall p: nat :: p in Differing(u, v) ==> p == i || p == j || p == k
    ensures u[..i] == v[..i] && u[i + 1..j] == v[i + 1..j] && u[j + 1..k] == v[j + 1..k] && u[k + 1..] == v[k + 1..]
  {
    forall p: nat | p < |u| && p != i && p != j && p != k ensures u[p] == v[p] {
      assert p !in Differing(u, v);
    }
  }

  lemma AtThreeFail(hrp: string, u: seq<Value>, v: seq<Value>, i: nat, j: nat, k: nat)
    requires Bytes(hrp) && |u| == |v| && i < j < k < |u| && k - i < 1023 && u != v && Verifies(hrp, u)
    requires forall p: nat :: p in Differing(u, v) ==> p == i || p == j || p == k
    ensures !Verifies(hrp, v)
  {
    hide Verifies, D.Three;
    SameElsewhere(u, v, i, j, k);
    ThreeParts(u, i, j, k);
    ThreeParts(v, i, j, k);
    ThreeFail(hrp, u[..i], [u[i], u[j], u[k]], [v[i], v[j], v[k]], u[i + 1..j], u[j + 1..k], u[k + 1..]);
  }

  lemma ThreeFail(hrp: string, before: seq<Value>, a: seq<Value>, b: seq<Value>, mid1: seq<Value>, mid2: seq<Value>,
                  after: seq<Value>)
    requires Bytes(hrp) && |a| == |b| == 3 && a != b && |mid1| + |mid2| + 3 <= 1023
    requires Verifies(hrp, before + D.Three(a, mid1, mid2) + after)
    ensures !Verifies(hrp, before + D.Three(b, mid1, mid2) + after)
  {
    hide ExpandedHrp, Remainder, D.Three;
    var e, x, y := ExpandedHrp(hrp), D.Three(a, mid1, mid2), D.Three(b, mid1, mid2);
    D.ThreeErrors(One(), e + before, a, b, mid1, mid2, after);
    assert e + before + x + after == e + (before + x + after);
    assert e + before + y + after == e + (before + y + after);
  }

  /** The last six values of a verified sequence are the checksum of the others. */
  lemma ChecksumUnique(hrp: string, values: seq<Value>)
    requires Bytes(hrp) && |values| >= 6 && Verifies(hrp, values)
    ensures values[|values| - 6..] == Checksum(hrp, values[..|values| - 6])
  {
    hide Verifies, Checksum;
    var v, a := values[..|values| - 6], values[|values| - 6..];
    ChecksumVerifies(hrp, v);
    ChecksumLength(hrp, v);
    var b := Checksum(hrp, v);
    assert values == v + a + [] && v + b == v + b + [];
    if a != b {
      BurstFails(hrp, v, a, b, []);
    }
  }

  lemma ChecksumLength(hrp: string, values: seq<Value>)
    requires Bytes(hrp)
    ensures |Checksum(hrp, values)| == 6
  {
  }

  // ----- What decodes -----

  function LowerChar(c: char): char { if 'A' <= c <= 'Z' then (c as int + 32) as char else c }

  function Lower(s: string): (t: string)
    ensures |t| == |s| && forall i :: 0 <= i < |s| ==> t[i] == LowerChar(s[i])
  {
    seq(|s|, i requires 0 <= i < |s| => LowerChar(s[i]))
  }

  ghost predicate AllPrintable(s: string) {
    forall i :: 0 <= i < |s| ==> Printable(s[i] as nat)
  }

  ghost predicate MixedCase(s: string) {
    (exists i :: 0 <= i < |s| && IsLower(s[i] as nat)) && (exists i :: 0 <= i < |s| && IsUpper(s[i] as nat))
  }

  lemma PrintableBytes(s: string)
    requires AllPrintable(s)
    ensures Bytes(s) && Bytes(Lower(s))
  {
  }

  /** s is the encoding of (hrp, values), in either case, within the length limit. */
  ghost predicate Stands(s: string, hrp: string, values: seq<Value>) {
    && AllPrintable(s) && !MixedCase(s) && |s| <= 90
    && hrp != [] && Bytes(hrp) && Lower(s) == Encoded(hrp, values)
  }

  /** Decoding what was encoded: prefixes of printable characters without upper case. */
  lemma EncodedStands(hrp: string, values: seq<Value>)
    requires hrp != [] && AllPrintable(hrp) && (forall i :: 0 <= i < |hrp| ==> !IsUpper(hrp[i] as nat))
    requires |hrp| + 1 + |values| + 6 <= 90
    ensures Bytes(hrp) && Stands(Encoded(hrp, values), hrp, values)
  {
    hide Checksum, CharOf;
    PrintableBytes(hrp);
    var all := values + Checksum(hrp, values);
    ChecksumLength(hrp, values);
    var s := Encoded(hrp, values);
    forall i | 0 <= i < |s| ensures Printable(s[i] as nat) && !IsUpper(s[i] as nat) {
      if i > |hrp| {
        CodeOf(all[i - |hrp| - 1]);
        assert s[i] == CharOf(all[i - |hrp| - 1]);
      }
    }
    assert Lower(s) == s;
  }

  /** The data part has no '1', so the last '1' ends the prefix. */
  lemma LastOne(s: string, hrp: string, values: seq<Value>)
    requires Stands(s, hrp, values)
    ensures |hrp| + 7 + |values| == |s| && s[|hrp|] == '1'
    ensures forall i :: |hrp| < i < |s| ==> s[i] != '1'
    ensures Lower(s[..|hrp|]) == hrp
    ensures forall i :: 0 <= i < |values| + 6 ==>
      LowerChar(s[|hrp| + 1 + i]) == CharOf((values + Checksum(hrp, values))[i])
  {
    hide Checksum, CharOf;
    ChecksumLength(hrp, values);
    var all := values + Checksum(hrp, values);
    var t := Encoded(hrp, values);
    assert t[|hrp|] == '1' && LowerChar(s[|hrp|]) == '1';
    forall i | |hrp| < i < |s| ensures s[i] != '1' {
      CodeOf(all[i - |hrp| - 1]);
      assert t[i] == CharOf(all[i - |hrp| - 1]) == LowerChar(s[i]);
    }
    forall i | 0 <= i < |all| ensures LowerChar(s[|hrp| + 1 + i]) == CharOf(all[i]) {
      assert t[|hrp| + 1 + i] == CharOf(all[i]);
    }
    assert Lower(s[..|hrp|]) == hrp;
  }

  /** Where the last '1' is, or -1. */
  ghost predicate IsLastOne(s: string, pos: int) {
    && -1 <= pos < |s| && (pos >= 0 ==> s[pos] == '1')
    && forall i :: pos < i < |s| ==> s[i] != '1'
  }

  /** The values of the characters behind the separator. */
  ghost predicate DataIs(s: string, pos: nat, values: seq<Value>)
    requires AllPrintable(s) && pos < |s|
  {
    |values| == |s| - 1 - pos && forall i :: 0 <= i < |values| ==> CharsetRev(s[pos + 1 + i] as nat) == values[i]
  }

  lemma LowerCode(c: char)
    requires Printable(c as nat)
    ensures LowerChar(c) as nat == LowerCase(c as nat)
  {
  }

  lemma LowerRev(c: char, v: Value)
    requires Printable(c as nat) && LowerChar(c) == CharOf(v)
    ensures CharsetRev(c as nat) == v
  {
    LowerCode(c);
    RevExactly(c as nat, v);
  }

  lemma DataAt(s: string, pos: nat, values: seq<Value>, i: nat)
    requires AllPrintable(s) && pos < |s| && DataIs(s, pos, values) && i < |s| - 1 - pos
    ensures CharsetRev(s[i + pos + 1] as nat) == values[i] != -1
  {
    hide CharsetRev;
    assert s[pos + 1 + i] == s[i + pos + 1];
  }

  /** A string that stands for something has its separator where it should, and the data it should. */
  lemma StandsMeans(s: string, hrp: string, values: seq<Value>, pos: int)
    requires Stands(s, hrp, values) && IsLastOne(s, pos)
    ensures pos == |hrp| && pos + 7 <= |s|
    ensures Lower(s[..pos]) == hrp && DataIs(s, pos, values + Checksum(hrp, values))
  {
    hide *;
    StandsPrintable(s, hrp, values);
    LastOne(s, hrp, values);
    LastOneIs(s, pos, |hrp|);
    ChecksumLength(hrp, values);
    forall i: nat | i < |values| + 6
      ensures |hrp| + 1 + i < |s| && s[|hrp| + 1 + i] as nat < 128
      ensures CharsetRev(s[|hrp| + 1 + i] as nat) == (values + Checksum(hrp, values))[i]
    {
      StandsAt(s, hrp, values, i);
    }
    DataFrom(s, |hrp|, values + Checksum(hrp, values));
  }

  lemma LastOneIs(s: string, pos: int, p: nat)
    requires IsLastOne(s, pos) && p < |s| && s[p] == '1' && forall i :: p < i < |s| ==> s[i] != '1'
    ensures pos == p
  {
  }

  lemma StandsPrintable(s: string, hrp: string, values: seq<Value>)
    requires Stands(s, hrp, values)
    ensures AllPrintable(s) && Bytes(hrp)
  {
  }

  lemma StandsAt(s: string, hrp: string, values: seq<Value>, i: nat)
    requires Stands(s, hrp, values) && i < |values| + 6
    ensures |Checksum(hrp, values)| == 6 && |hrp| + 1 + i < |s| && s[|hrp| + 1 + i] as nat < 128
    ensures CharsetRev(s[|hrp| + 1 + i] as nat) == (values + Checksum(hrp, values))[i]
  {
    hide Checksum, CharOf, Lower, CharsetRev, LowerChar;
    LastOne(s, hrp, values);
    ChecksumLength(hrp, values);
    var all := values + Checksum(hrp, values);
    assert LowerChar(s[|hrp| + 1 + i]) == CharOf(all[i]);
    LowerRev(s[|hrp| + 1 + i], all[i]);
  }

  lemma DataFrom(s: string, pos: nat, values: seq<Value>)
    requires AllPrintable(s) && pos < |s| && |values| == |s| - 1 - pos
    requires forall i: nat :: i < |values| ==> CharsetRev(s[pos + 1 + i] as nat) == values[i]
    ensures DataIs(s, pos, values)
  {
  }

  /** Conversely, a separator, data and a checksum that verifies are an encoding. */
  lemma VerifiedStands(s: string, pos: nat, values: seq<Value>)
    requires AllPrintable(s) && !MixedCase(s) && |s| <= 90 && 0 < pos && pos + 7 <= |s| && s[pos] == '1'
    requires DataIs(s, pos, values) && Bytes(Lower(s[..pos])) && Verifies(Lower(s[..pos]), values)
    ensures Stands(s, Lower(s[..pos]), values[..|values| - 6])
  {
    hide Checksum, CharOf, CharsetRev, Verifies;
    var hrp, v := Lower(s[..pos]), values[..|values| - 6];
    ChecksumUnique(hrp, values);
    assert values == v + Checksum(hrp, v);
    var t := Encoded(hrp, v);
    forall i | 0 <= i < |s| ensures LowerChar(s[i]) == t[i] {
      if i > pos {
        LowerCode(s[i]);
        RevExactly(s[i] as nat, values[i - pos - 1]);
        assert CharsetRev(s[pos + 1 + (i - pos - 1)] as nat) == values[i - pos - 1];
        assert t[i] == CharOf(values[i - pos - 1]);
      }
    }
    assert Lower(s) == t;
  }

  // ----- The operations -----

  method ExpandHRP(hrp: string) returns (ret: seq<Value>)
    requires Bytes(hrp)
    ensures ret == ExpandedHrp(hrp)
    ensures |ret| == 2 * |hrp| + 1 && ret[|hrp|] == 0
    ensures forall i :: 0 <= i < |hrp| ==> ret[i] == hrp[i] as nat / 32 && ret[|hrp| + 1 + i] == hrp[i] as nat % 32
  {
    var n := |hrp|;
    var a := new Value[2 * n + 1](_ => 0);
    for i := 0 to n
      invariant forall j :: 0 <= j < i ==> a[j] == hrp[j] as nat / 32 && a[j + n + 1] == hrp[j] as nat % 32
      invariant a[n] == 0
    {
      a[i] := hrp[i] as nat / 32;
      a[i + n + 1] := hrp[i] as nat % 32;
    }
    a[n] := 0;
    ret := a[..];
  }

  method VerifyChecksum(hrp: string, values: seq<Value>) returns (ok: bool)
    requires Bytes(hrp)
    ensures ok <==> Verifies(hrp, values)
  {
    var e := ExpandHRP(hrp);
    var c := PolyMod(e + values);
    ok := c == One();
  }

  method CreateChecksum(hrp: string, values: seq<Value>) returns (ret: seq<Value>)
    requires Bytes(hrp)
    ensures ret == Checksum(hrp, values)
  {
    hide PolyModSpec, Group, ExpandedHrp;
    var e := ExpandHRP(hrp);
    var mod := PolyMod(e + values + SIX_ZEROS);
    mod := Xor(mod, One());
    ret := [];
    for i := 0 to 6
      invariant ret == Groups(mod)[..i]
    {
      ret := ret + [Group(mod, i)];
    }
  }

  method Encode(hrp: string, values: seq<Value>) returns (ret: string)
    requires Bytes(hrp)
    ensures ret == Encoded(hrp, values)
  {
    hide Checksum, CharOf;
    var checksum := CreateChecksum(hrp, values);
    var combined := values + checksum;
    ret := hrp + ['1'];
    for i := 0 to |combined|
      invariant ret == hrp + ['1'] + Chars(combined)[..i]
    {
      ret := ret + [CharOf(combined[i])];
    }
  }

  /** Succeeds exactly on the strings that stand for something, with what they stand for. */
  method Decode(s: string) returns (r: Option<(string, seq<Value>)>)
    ensures r.Some? ==> Stands(s, r.value.0, r.value.1)
    ensures r.None? ==> forall hrp, values :: !Stands(s, hrp, values)
  {
    hide Checksum, CharOf, CharsetRev, Verifies;
    var fine := CheckCase(s);
    if !fine {
      return None;
    }
    var pos := FindLastOne(s);
    if |s| > 90 || pos == -1 || pos == 0 || pos + 7 > |s| {
      NoSeparator(s, pos);
      return None;
    }
    var values := ReadData(s, pos);
    if values.None? {
      return None;
    }
    var hrp := LowerAll(s[..pos]);
    PrintableBytes(s[..pos]);
    var ok := VerifyChecksum(hrp, values.value);
    if !ok {
      NotVerified(s, pos, values.value);
      return None;
    }
    VerifiedStands(s, pos, values.value);
    r := Some((hrp, values.value[..|values.value| - 6]));
  }

  /** All characters are in range, and not in both cases. */
  method CheckCase(s: string) returns (fine: bool)
    ensures fine <==> AllPrintable(s) && !MixedCase(s)
  {
    var lower, upper := false, false;
    for i := 0 to |s|
      invariant forall j :: 0 <= j < i ==> Printable(s[j] as nat)
      invariant lower <==> exists j :: 0 <= j < i && IsLower(s[j] as nat)
      invariant upper <==> exists j :: 0 <= j < i && IsUpper(s[j] as nat)
    {
      var c := s[i] as nat;
      if c < 33 || c > 126 {
        return false;
      }
      if c >= 97 && c <= 122 {
        lower := true;
      }
      if c >= 65 && c <= 90 {
        upper := true;
      }
    }
    fine := !(lower && upper);
  }

  method FindLastOne(s: string) returns (pos: int)
    ensures IsLastOne(s, pos)
  {
    pos := |s| - 1;
    while pos >= 0 && s[pos] != '1'
      invariant -1 <= pos < |s| && forall i :: pos < i < |s| ==> s[i] != '1'
    {
      pos := pos - 1;
    }
  }

  method ReadData(s: string, pos: nat) returns (values: Option<seq<Value>>)
    requires AllPrintable(s) && IsLastOne(s, pos)
    ensures values.Some? ==> DataIs(s, pos, values.value)
    ensures values.None? ==> forall hrp, v :: !Stands(s, hrp, v)
  {
    hide CharsetRev, CharOf, Checksum;
    var ret: seq<Value> := [];
    for i := 0 to |s| - 1 - pos
      invariant |ret| == i && forall j :: 0 <= j < i ==> CharsetRev(s[pos + 1 + j] as nat) == ret[j]
    {
      var rev := CharsetRev(s[i + pos + 1] as nat);
      if rev == -1 {
        NoData(s, pos, i);
        return None;
      }
      TableInverse(s[i + pos + 1] as nat);
      ret := ret + [rev];
    }
    values := Some(ret);
  }

  method LowerAll(s: string) returns (t: string)
    ensures t == Lower(s)
  {
    t := [];
    for i := 0 to |s|
      invariant t == Lower(s)[..i]
    {
      t := t + [LowerChar(s[i])];
    }
  }

  // ----- Why a string is rejected -----

  lemma NoSeparator(s: string, pos: int)
    requires IsLastOne(s, pos) && (|s| > 90 || pos <= 0 || pos + 7 > |s|)
    ensures forall hrp, values :: !Stands(s, hrp, values)
  {
    forall hrp, values ensures !Stands(s, hrp, values) {
      if Stands(s, hrp, values) {
        StandsMeans(s, hrp, values, pos);
      }
    }
  }

  lemma NoData(s: string, pos: nat, i: nat)
    requires AllPrintable(s) && IsLastOne(s, pos) && i < |s| - 1 - pos && CharsetRev(s[i + pos + 1] as nat) == -1
    ensures forall hrp, values :: !Stands(s, hrp, values)
  {
    hide CharsetRev;
    forall hrp, values ensures !Stands(s, hrp, values) {
      if Stands(s, hrp, values) {
        DataReadable(s, hrp, values, pos, i);
      }
    }
  }

  lemma DataReadable(s: string, hrp: string, values: seq<Value>, pos: nat, i: nat)
    requires Stands(s, hrp, values) && IsLastOne(s, pos) && i < |s| - 1 - pos
    ensures CharsetRev(s[i + pos + 1] as nat) != -1
  {
    StandsMeans(s, hrp, values, pos);
    DataAt(s, pos, values + Checksum(hrp, values), i);
    hide *;
  }

  lemma NotVerified(s: string, pos: nat, data: seq<Value>)
    requires AllPrintable(s) && IsLastOne(s, pos) && DataIs(s, pos, data)
    requires Bytes(Lower(s[..pos])) && !Verifies(Lower(s[..pos]), data)
    ensures forall hrp, values :: !Stands(s, hrp, values)
  {
    hide CharsetRev, Checksum, Verifies;
    forall hrp, values ensures !Stands(s, hrp, values) {
      if Stands(s, hrp, values) {
        StandsMeans(s, hrp, values, pos);
        SameData(s, pos, data, values + Checksum(hrp, values));
        ChecksumVerifies(hrp, values);
      }
    }
  }

  lemma SameData(s: string, pos: nat, a: seq<Value>, b: seq<Value>)
    requires AllPrintable(s) && pos < |s| && DataIs(s, pos, a) && DataIs(s, pos, b)
    ensures a == b
  {
    forall i | 0 <= i < |a| ensures a[i] == b[i] {
      assert CharsetRev(s[pos + 1 + i] as nat) == a[i];
    }
  }

  /** A string stands for at most one prefix and data, so decoding an encoding returns what was encoded. */
  lemma StandsUnique(s: string, hrp: string, values: seq<Value>, hrp': string, values': seq<Value>)
    requires Stands(s, hrp, values) && Stands(s, hrp', values')
    ensures hrp == hrp' && values == values'
  {
    hide Checksum, CharsetRev, CharOf;
    LastOne(s, hrp, values);
    LastOne(s, hrp', values');
    var pos := |hrp|;
    StandsMeans(s, hrp, values, pos);
    StandsMeans(s, hrp', values', pos);
    SameData(s, pos, values + Checksum(hrp, values), values' + Checksum(hrp', values'));
    ChecksumLength(hrp, values);
    ChecksumLength(hrp', values');
    assert values == (values + Checksum(hrp, values))[..|s| - 7 - pos];
    assert values' == (values' + Checksum(hrp', values'))[..|s| - 7 - pos];
  }

  lemma RoundTrip(hrp: string, values: seq<Value>, hrp': string, values': seq<Value>)
    requires hrp != [] && AllPrintable(hrp) && (forall i :: 0 <= i < |hrp| ==> !IsUpper(hrp[i] as nat))
    requires |hrp| + 1 + |values| + 6 <= 90
    ensures Bytes(hrp) && (Stands(Encoded(hrp, values), hrp', values') <==> hrp' == hrp && values' == values)
  {
    hide Stands;
    EncodedStands(hrp, values);
    if Stands(Encoded(hrp, values), hrp', values') {
      StandsUnique(Encoded(hrp, values), hrp, values, hrp', values');
    }
  }
}
