/**
 Comparing limbs, the length of a number in bits, and the bits of a quotient that is built from the
 top (src/arith_uint256.cpp).
 */
module LimbBits {
  import opened Arithmetic
  import opened Powers
  import opened Limbs
  import opened LimbShifts

  // ----- Comparison -----

  lemma {:induction false} SameAbove(x: seq<Limb>, y: seq<Limb>, i: nat, n: nat)
    requires |x| == |y| && i <= n <= |x| && forall j :: i <= j < n ==> x[j] == y[j]
    ensures Val(y, n) - Val(x, n) == Val(y, i) - Val(x, i)
    decreases n
  {
    if i < n {
      SameAbove(x, y, i, n - 1);
    }
  }

  /** The highest limb in which two numbers differ decides. */
  lemma CompareAt(x: seq<Limb>, y: seq<Limb>, i: nat)
    requires |x| == |y| && i < |x| && x[i] < y[i] && forall j :: i < j < |x| ==> x[j] == y[j]
    ensures Val(x, |x|) < Val(y, |y|)
  {
    hide Val, BasePow;
    ValBound(x, i);
    ValNext(x, i);
    ValNext(y, i);
    Above(x[i], y[i], BasePow(i));
    SameAbove(x, y, i + 1, |x|);
  }

  lemma NonzeroAt(s: seq<Limb>, i: nat)
    requires i < |s| && s[i] > 0
    ensures Val(s, |s|) >= BasePow(i)
  {
    hide Val, BasePow;
    ValNext(s, i);
    ProductMonotone(1, s[i], BasePow(i));
    ValGrows(s, i + 1, |s|);
  }

  lemma {:induction false} ValGrows(s: seq<Limb>, i: nat, n: nat)
    requires i <= n <= |s|
    ensures Val(s, i) <= Val(s, n)
  {
    if i < n {
      ValGrows(s, i, n - 1);
      ProductMonotone(0, s[n - 1], BasePow(n - 1));
    }
  }

  lemma {:induction false} ZeroAbove(s: seq<Limb>, i: nat, n: nat)
    requires i <= n <= |s| && forall j :: i <= j < n ==> s[j] == 0
    ensures Val(s, n) == Val(s, i)
  {
    if i < n {
      ZeroAbove(s, i, n - 1);
    }
  }

  // ----- Length in bits -----


  predicate BitSet(x: nat, k: nat) { Quotient(x, Pow2(k)) % 2 == 1 }

  /** Bit k of a number below 2^(k+1). */
  lemma TopBit(x: nat, k: nat)
    requires x < Pow2(k + 1)
    ensures BitSet(x, k) <==> x >= Pow2(k)
  {
    var p := Pow2(k);
    if x >= p {
      DivModUnique(x, p, 1, x - p);
    } else {
      DivModUnique(x, p, 0, x);
    }
  }

  lemma TopLimb(s: seq<Limb>, pos: nat, k: nat)
    requires pos < |s| && (forall j :: pos < j < |s| ==> s[j] == 0)
    requires Pow2(k) <= s[pos] < Pow2(k + 1)
    ensures IsBitLength(Val(s, |s|), 32 * pos + k + 1)
  {
    hide Val, BasePow, Pow2;
    ZeroAbove(s, pos + 1, |s|);
    ValNext(s, pos);
    ValBound(s, pos);
    BasePowIs(pos);
    Pow2Add(k, 32 * pos);
    Pow2Add(k + 1, 32 * pos);
    ProductMonotone(Pow2(k), s[pos], BasePow(pos));
    Above(s[pos], Pow2(k + 1), BasePow(pos));
  }

  // ----- Setting the bits of a quotient from the top -----

  /** All bits below bit t are clear. */
  ghost predicate ClearBelow(s: seq<Limb>, t: nat) {
    && (forall j :: 0 <= j < |s| && j < t / 32 ==> s[j] == 0)
    && (t / 32 < |s| ==> s[t / 32] % Pow2(t % 32) == 0)
  }

  lemma ClearAll(s: seq<Limb>, t: nat)
    requires forall j :: 0 <= j < |s| ==> s[j] == 0
    ensures ClearBelow(s, t)
  {
    DivModUnique(0, Pow2(t % 32), 0, 0);
  }

  /** Limb and bit of position t: what the limb is while the bits up to t are clear. */
  lemma LimbClear(s: seq<Limb>, t: nat)
    requires t / 32 < |s| && ClearBelow(s, t + 1)
    ensures s[t / 32] % Pow2(t % 32 + 1) == 0
    ensures forall j :: 0 <= j < t / 32 ==> s[j] == 0
  {
    if t % 32 == 31 {
      assert (t + 1) / 32 == t / 32 + 1;
      DivModUnique(0, Pow2(32), 0, 0);
    }
  }

  lemma SetBitLimb(x: Limb, c: nat) returns (q: nat)
    requires c < 32 && x % Pow2(c + 1) == 0
    ensures BitOr(x, Pow2(c)) == x + Pow2(c) < BASE
    ensures x == q * Pow2(c) && x + Pow2(c) == (q + 1) * Pow2(c)
  {
    var p := Pow2(c);
    QuotientRemainder(x, 2 * p);
    var h := x / (2 * p);
    Twice(h, p);
    Associate(2, h, p);
    q := 2 * h;
    Distribute(q, 1, p);
    BitOrDisjoint(p, h, c + 1);
    Room(x, h, c + 1);
  }

  lemma Room(x: Limb, h: nat, d: nat)
    requires 1 <= d <= 32 && x == h * Pow2(d)
    ensures x + Pow2(d) <= BASE
  {
    Pow2Bytes();
    Pow2Add(32 - d, d);
    if h < Pow2(32 - d) {
      Above(h, Pow2(32 - d), Pow2(d));
    } else {
      ProductMonotone(Pow2(32 - d), h, Pow2(d));
    }
  }

  lemma ClearLower(s: seq<Limb>, t: nat, q: nat)
    requires t / 32 < |s| && (forall j :: 0 <= j < t / 32 ==> s[j] == 0) && s[t / 32] == q * Pow2(t % 32)
    ensures ClearBelow(s, t)
  {
    DivModUnique(s[t / 32], Pow2(t % 32), q, 0);
  }

  /** Setting bit t while it and all lower bits are clear adds 2^t. */
  lemma SetBitAt(s: seq<Limb>, t: nat)
    requires t / 32 < |s| && ClearBelow(s, t + 1)
    ensures var x := BitOr(s[t / 32], Pow2(t % 32));
      && x < BASE && Val(s[t / 32 := x], |s|) == Val(s, |s|) + Pow2(t)
      && ClearBelow(s[t / 32 := x], t)
    ensures ClearBelow(s, t)
  {
    hide Val, BasePow, Pow2, BitOr, ClearBelow;
    var k, c := t / 32, t % 32;
    LimbClear(s, t);
    var q := SetBitLimb(s[k], c);
    var x := BitOr(s[k], Pow2(c));
    ValPut(s, k, x, |s|);
    ShiftPower(t);
    ClearLower(s, t, q);
    ClearLower(s[k := x], t, q + 1);
  }
}
