/**
 Shifting limbs: what the limb-wise shifts of src/arith_uint256.cpp do to the value.
 */
module LimbShifts {
  import opened Arithmetic
  import opened Powers
  import opened Limbs

  lemma SplitBase(s: nat)
    requires s < 32
    ensures Pow2(32 - s) * Pow2(s) == BASE
  {
    Pow2Bytes();
    Pow2Add(32 - s, s);
  }

  // ----- Left -----

  /** x << s in 32 bits, and what is shifted out of it. */
  function ShlLow(x: Limb, s: nat): Limb
    requires s < 32
  {
    x * Pow2(s) % BASE
  }

  function ShlHigh(x: Limb, s: nat): nat
    requires s < 32
  {
    Quotient(x, Pow2(32 - s))
  }

  lemma HighBound(x: Limb, s: nat)
    requires s < 32
    ensures ShlHigh(x, s) < Pow2(s) <= BASE
  {
    SplitBase(s);
    assert Pow2(s) * Pow2(32 - s) == Pow2(32 - s) * Pow2(s);
    QuotientBelow(x, Pow2(32 - s), Pow2(s));
    Pow2Bytes();
    Pow2Monotone(s, 32);
  }

  lemma ShlParts(x: Limb, s: nat)
    requires s < 32
    ensures x * Pow2(s) == ShlLow(x, s) + ShlHigh(x, s) * BASE
    ensures ShlLow(x, s) == x % Pow2(32 - s) * Pow2(s) && ShlHigh(x, s) < Pow2(s)
    ensures ShlLow(x, s) + Pow2(s) <= BASE
  {
    var r, p := Pow2(32 - s), Pow2(s);
    SplitBase(s);
    HighBound(x, s);
    QuotientRemainder(x, r);
    Distribute(x / r * r, x % r, p);
    Associate(x / r, r, p);
    ProductMonotone(x % r + 1, r, p);
    Distribute(x % r, 1, p);
    DivModUnique(x * p, BASE, x / r, x % r * p);
  }

  /** Limb j of the result of shifting by k limbs and s bits. */
  function ShlLimb(a: seq<Limb>, k: nat, s: nat, j: nat): (r: Limb)
    requires s < 32 && j < |a|
  {
    var low := if j >= k then ShlLow(a[j - k], s) else 0;
    var high := if j > k then ShlHigh(a[j - k - 1], s) else 0;
    LimbFits(a, k, s, j);
    low + high
  }

  lemma LimbFits(a: seq<Limb>, k: nat, s: nat, j: nat)
    requires s < 32 && j < |a|
    ensures (if j >= k then ShlLow(a[j - k], s) else 0) + (if j > k then ShlHigh(a[j - k - 1], s) else 0) < BASE
  {
    if j >= k { ShlParts(a[j - k], s); }
    if j > k { ShlParts(a[j - k - 1], s); }
  }

  function ShlCarry(a: seq<Limb>, k: nat, s: nat, n: nat): nat
    requires s < 32 && n <= |a|
  {
    if n > k then ShlHigh(a[n - k - 1], s) else 0
  }

  lemma {:induction false} ShlVal(a: seq<Limb>, r: seq<Limb>, k: nat, s: nat, n: nat)
    requires s < 32 && |r| == |a| && k <= n <= |a|
    requires forall j :: 0 <= j < |r| ==> r[j] == ShlLimb(a, k, s, j)
    ensures Val(r, n) + ShlCarry(a, k, s, n) * BasePow(n) == Val(a, n - k) * (Pow2(s) * BasePow(k))
    decreases n
  {
    if n == k {
      ValZero(r, n);
    } else {
      ShlVal(a, r, k, s, n - 1);
      ShlStep(a, r, k, s, n);
    }
  }

  lemma ShlStep(a: seq<Limb>, r: seq<Limb>, k: nat, s: nat, n: nat)
    requires s < 32 && |r| == |a| && k < n <= |a| && r[n - 1] == ShlLimb(a, k, s, n - 1)
    requires Val(r, n - 1) + ShlCarry(a, k, s, n - 1) * BasePow(n - 1) == Val(a, n - 1 - k) * (Pow2(s) * BasePow(k))
    ensures Val(r, n) + ShlCarry(a, k, s, n) * BasePow(n) == Val(a, n - k) * (Pow2(s) * BasePow(k))
  {
    var x, p, q := a[n - 1 - k], BasePow(n - 1), Pow2(s);
    var low, high, c := ShlLow(x, s), ShlHigh(x, s), ShlCarry(a, k, s, n - 1);
    ValNext(r, n - 1);
    ValNext(a, n - 1 - k);
    ShlParts(x, s);
    BasePowAdd(n - 1 - k, k);
    assert BasePow(n) == BASE * p;
    assert r[n - 1] == low + c;
    hide *;
    Distribute(low, c, p);
    Distribute(low, high * BASE, p);
    Associate(high, BASE, p);
    Distribute(Val(a, n - 1 - k), x * BasePow(n - 1 - k), q * BasePow(k));
    Regroup(x, BasePow(n - 1 - k), q, BasePow(k));
  }

  lemma Regroup(x: nat, u: nat, q: nat, w: nat)
    ensures x * u * (q * w) == x * q * (u * w)
  {
    calc {
      x * u * (q * w);
    ==  { Associate(x, u, q * w); }
      x * (u * (q * w));
    ==  { Associate(u, q, w); Associate(q, u, w); assert u * q == q * u; }
      x * (q * (u * w));
    ==  { Associate(x, q, u * w); }
      x * q * (u * w);
    }
  }

  /** Shifting left multiplies, modulo the width. */
  lemma ShlCorrect(a: seq<Limb>, r: seq<Limb>, shift: nat)
    requires |r| == |a| && forall j :: 0 <= j < |r| ==> r[j] == ShlLimb(a, shift / 32, shift % 32, j)
    ensures Val(r, |r|) == Val(a, |a|) * Pow2(shift) % BasePow(|a|)
  {
    ShiftPower(shift);
    if shift / 32 <= |a| {
      ShlWithin(a, r, shift);
    } else {
      ShlBeyond(a, r, shift);
    }
  }

  lemma ShiftPower(shift: nat)
    ensures Pow2(shift) == Pow2(shift % 32) * BasePow(shift / 32)
  {
    BasePowIs(shift / 32);
    Pow2Add(shift % 32, 32 * (shift / 32));
  }

  lemma ShlWithin(a: seq<Limb>, r: seq<Limb>, shift: nat)
    requires |r| == |a| && forall j :: 0 <= j < |r| ==> r[j] == ShlLimb(a, shift / 32, shift % 32, j)
    requires shift / 32 <= |a| && Pow2(shift) == Pow2(shift % 32) * BasePow(shift / 32)
    ensures Val(r, |r|) == Val(a, |a|) * Pow2(shift) % BasePow(|a|)
  {
    hide *;
    var k, s, n, m := shift / 32, shift % 32, |a|, BasePow(|a|);
    var q, c, u := Pow2(s), ShlCarry(a, k, s, n), Upper(a, n - k);
    ValBound(r, n);
    ShlVal(a, r, k, s, n);
    ValSplit(a, n - k);
    BasePowAdd(n - k, k);
    ShlWhole(Val(a, n - k), u, BasePow(n - k), q, BasePow(k));
    Distribute(u * q, c, m);
    DivModUnique(Val(a, n) * Pow2(shift), m, u * q + c, Val(r, n));
  }

  lemma ShlZero(a: seq<Limb>, r: seq<Limb>, shift: nat)
    requires |r| == |a| && forall j :: 0 <= j < |r| ==> r[j] == ShlLimb(a, shift / 32, shift % 32, j)
    requires shift / 32 > |a|
    ensures Val(r, |r|) == 0
  {
    ValZero(r, |r|);
  }

  lemma ShlBeyond(a: seq<Limb>, r: seq<Limb>, shift: nat)
    requires |r| == |a| && forall j :: 0 <= j < |r| ==> r[j] == ShlLimb(a, shift / 32, shift % 32, j)
    requires shift / 32 > |a|
    ensures Val(r, |r|) == Val(a, |a|) * Pow2(shift) % BasePow(|a|)
  {
    hide *;
    var n, m := |a|, BasePow(|a|);
    ShlZero(a, r, shift);
    BasePowIs(n);
    Pow2Add(shift - 32 * n, 32 * n);
    var q := Val(a, n) * Pow2(shift - 32 * n);
    Associate(Val(a, n), Pow2(shift - 32 * n), m);
    DivModUnique(Val(a, n) * Pow2(shift), m, q, 0);
  }

  lemma ShlWhole(low: nat, u: nat, p: nat, q: nat, w: nat)
    ensures (low + u * p) * (q * w) == low * (q * w) + u * q * (p * w)
  {
    Distribute(low, u * p, q * w);
    Regroup(u, p, q, w);
  }

  // ----- Right -----

  /** x << (32 - s) in 32 bits, where s may be 0. */
  function ShrHigh(x: Limb, s: nat): Limb
    requires s < 32
  {
    x * Pow2(32 - s) % BASE
  }

  function ShrLow(x: Limb, s: nat): nat
    requires s < 32
  {
    Quotient(x, Pow2(s))
  }

  lemma ShrParts(x: Limb, s: nat)
    requires s < 32
    ensures ShrHigh(x, s) == x % Pow2(s) * Pow2(32 - s) && ShrHigh(x, s) + Pow2(32 - s) <= BASE
    ensures ShrLow(x, s) < Pow2(32 - s) && x == ShrLow(x, s) * Pow2(s) + x % Pow2(s)
  {
    SplitBase(s);
    hide Pow2;
    ShrSplit(x, Pow2(s), Pow2(32 - s));
  }

  /** Multiplying by r and dividing by p * r moves the remainder by p up. */
  lemma ShrSplit(x: nat, p: nat, r: nat)
    requires p > 0 && r > 0 && r * p == BASE && x < BASE
    ensures x * r % BASE == x % p * r && x % p * r + r <= BASE
    ensures x / p < r && x == x / p * p + x % p
  {
    var q, v := x / p, x % p;
    QuotientBelow(x, p, r);
    QuotientRemainder(x, p);
    assert x * r == q * BASE + v * r by {
      Distribute(q * p, v, r);
      Associate(q, p, r);
    }
    ProductMonotone(v + 1, p, r);
    Distribute(v, 1, r);
    DivModUnique(x * r, BASE, q, v * r);
  }

  /** Limb j of the result of shifting by k limbs and s bits. */
  function ShrLimb(a: seq<Limb>, k: nat, s: nat, j: nat): (r: Limb)
    requires s < 32 && j < |a|
  {
    var low := if j + k < |a| then ShrLow(a[j + k], s) else 0;
    var high := if j + k + 1 < |a| then ShrHigh(a[j + k + 1], s) else 0;
    RightFits(a, k, s, j);
    low + high
  }

  lemma RightFits(a: seq<Limb>, k: nat, s: nat, j: nat)
    requires s < 32 && j < |a|
    ensures (if j + k < |a| then ShrLow(a[j + k], s) else 0)
      + (if j + k + 1 < |a| then ShrHigh(a[j + k + 1], s) else 0) < BASE
  {
    if j + k < |a| { ShrParts(a[j + k], s); }
    if j + k + 1 < |a| { ShrParts(a[j + k + 1], s); }
  }

  lemma {:induction false} UpperZero(r: seq<Limb>, j: nat)
    requires j <= |r| && forall i :: j <= i < |r| ==> r[i] == 0
    ensures Upper(r, j) == 0
    decreases |r| - j
  {
    if j < |r| {
      UpperZero(r, j + 1);
    }
  }

  lemma UpperMod(a: seq<Limb>, i: nat, s: nat)
    requires s < 32 && i <= |a|
    ensures Upper(a, i) % Pow2(s) == if i < |a| then a[i] % Pow2(s) else 0
  {
    if i < |a| {
      var u := Upper(a, i + 1);
      SplitBase(s);
      Associate(u, Pow2(32 - s), Pow2(s));
      ModAdd(a[i], u * Pow2(32 - s), Pow2(s));
    } else {
      DivModUnique(0, Pow2(s), 0, 0);
    }
  }

  lemma {:induction false} ShrUpper(a: seq<Limb>, r: seq<Limb>, k: nat, s: nat, j: nat)
    requires s < 32 && |r| == |a| && j + k <= |a|
    requires forall i :: 0 <= i < |r| ==> r[i] == ShrLimb(a, k, s, i)
    ensures Upper(r, j) == Upper(a, j + k) / Pow2(s)
    decreases |a| - j
  {
    if j + k == |a| {
      UpperZero(r, j);
      DivModUnique(0, Pow2(s), 0, 0);
    } else {
      ShrUpper(a, r, k, s, j + 1);
      UpperMod(a, j + k + 1, s);
      ShrStep(a, r, k, s, j);
    }
  }

  lemma ShrStep(a: seq<Limb>, r: seq<Limb>, k: nat, s: nat, j: nat)
    requires s < 32 && |r| == |a| && j + k < |a| && r[j] == ShrLimb(a, k, s, j)
    requires Upper(r, j + 1) == Upper(a, j + k + 1) / Pow2(s)
    requires Upper(a, j + k + 1) % Pow2(s) == if j + k + 1 < |a| then a[j + k + 1] % Pow2(s) else 0
    ensures Upper(r, j) == Upper(a, j + k) / Pow2(s)
  {
    var x, p, w := a[j + k], Pow2(s), Pow2(32 - s);
    var X := Upper(a, j + k + 1);
    SplitBase(s);
    ShrParts(x, s);
    if j + k + 1 < |a| { ShrParts(a[j + k + 1], s); }
    assert r[j] == x / p + X % p * w;
    assert Upper(r, j) == r[j] + BASE * (X / p);
    assert Upper(a, j + k) == x + BASE * X;
    ShrNumber(x, X, p, w);
  }

  lemma ShrNumber(x: nat, X: nat, p: nat, w: nat)
    requires p > 0 && w * p == BASE
    ensures (x + BASE * X) / p == x / p + X % p * w + BASE * (X / p)
  {
    QuotientRemainder(x, p);
    QuotientRemainder(X, p);
    var q := x / p + X % p * w + BASE * (X / p);
    calc {
      q * p;
    ==  { Distribute(x / p + X % p * w, BASE * (X / p), p); Distribute(x / p, X % p * w, p); }
      x / p * p + X % p * w * p + BASE * (X / p) * p;
    ==  { Associate(X % p, w, p); Associate(BASE, X / p, p); }
      x / p * p + X % p * BASE + BASE * (X / p * p);
    ==
      x - x % p + BASE * X;
    }
    DivModUnique(x + BASE * X, p, q, x % p);
  }

  /** Shifting right divides, rounding down. */
  lemma ShrCorrect(a: seq<Limb>, r: seq<Limb>, shift: nat)
    requires |r| == |a| && forall j :: 0 <= j < |r| ==> r[j] == ShrLimb(a, shift / 32, shift % 32, j)
    ensures Val(r, |r|) == Val(a, |a|) / Pow2(shift)
  {
    if shift / 32 <= |a| {
      ShrWithin(a, r, shift);
    } else {
      ShrBeyond(a, r, shift);
    }
  }

  lemma ValIsUpper(r: seq<Limb>)
    ensures Val(r, |r|) == Upper(r, 0)
  {
    ValSplit(r, 0);
  }

  lemma ShrWithin(a: seq<Limb>, r: seq<Limb>, shift: nat)
    requires |r| == |a| && forall j :: 0 <= j < |r| ==> r[j] == ShrLimb(a, shift / 32, shift % 32, j)
    requires shift / 32 <= |a|
    ensures Val(r, |r|) == Val(a, |a|) / Pow2(shift)
  {
    hide *;
    var k, s := shift / 32, shift % 32;
    ShiftPower(shift);
    ValIsUpper(r);
    ValSplit(a, k);
    ValBound(a, k);
    ShrUpper(a, r, k, s, 0);
    DivideSplit(Val(a, k), Upper(a, k), BasePow(k), Pow2(s));
  }

  lemma DivideSplit(low: nat, u: nat, b: nat, p: nat)
    requires p > 0 && low < b
    ensures p * b > 0 && (low + u * b) / (p * b) == u / p
  {
    QuotientRemainder(u, p);
    var q, v := u / p, u % p;
    ProductMonotone(1, p, b);
    ProductMonotone(v + 1, p, b);
    Distribute(v, 1, b);
    Distribute(q * p, v, b);
    Associate(q, p, b);
    DivModUnique(low + u * b, p * b, q, v * b + low);
  }

  lemma ShrBeyond(a: seq<Limb>, r: seq<Limb>, shift: nat)
    requires |r| == |a| && forall j :: 0 <= j < |r| ==> r[j] == ShrLimb(a, shift / 32, shift % 32, j)
    requires shift / 32 > |a|
    ensures Val(r, |r|) == Val(a, |a|) / Pow2(shift)
  {
    ValZero(r, |r|);
    ValBound(a, |a|);
    BasePowIs(|a|);
    Pow2Monotone(32 * |a|, shift);
    DivModUnique(Val(a, |a|), Pow2(shift), 0, Val(a, |a|));
  }

  // ----- Building the shifted limbs one operand limb at a time -----

  /** Limb j after the first i limbs of a have been shifted into place. */
  function ShlPartial(a: seq<Limb>, k: nat, s: nat, i: nat, j: nat): nat
    requires s < 32 && j < |a| && i <= |a|
  {
    (if k <= j < i + k then ShlLow(a[j - k], s) else 0) + if k < j <= i + k then ShlHigh(a[j - k - 1], s) else 0
  }

  function ShrPartial(a: seq<Limb>, k: nat, s: nat, i: nat, j: nat): nat
    requires s < 32 && j < |a| && i <= |a|
  {
    (if j + k < i then ShrLow(a[j + k], s) else 0) + if j + k + 1 < i then ShrHigh(a[j + k + 1], s) else 0
  }

  ghost predicate ShlUpTo(a: seq<Limb>, k: nat, s: nat, i: nat, r: seq<Limb>)
    requires s < 32 && i <= |a| && |r| == |a|
  {
    forall j :: 0 <= j < |a| ==> r[j] == ShlPartial(a, k, s, i, j)
  }

  ghost predicate ShrUpTo(a: seq<Limb>, k: nat, s: nat, i: nat, r: seq<Limb>)
    requires s < 32 && i <= |a| && |r| == |a|
  {
    forall j :: 0 <= j < |a| ==> r[j] == ShrPartial(a, k, s, i, j)
  }

  lemma ShlStarts(a: seq<Limb>, k: nat, s: nat, r: seq<Limb>)
    requires s < 32 && |r| == |a| && forall j :: 0 <= j < |r| ==> r[j] == 0
    ensures ShlUpTo(a, k, s, 0, r) && ShrUpTo(a, k, s, 0, r)
  {
  }

  /** The two limbs that limb i touches, and what they hold before and after. */
  lemma ShlRound(a: seq<Limb>, k: nat, s: nat, i: nat, r: seq<Limb>)
    requires s < 32 && i < |a| && |r| == |a| && ShlUpTo(a, k, s, i, r)
    ensures ShlHigh(a[i], s) < BASE && (s == 0 ==> ShlHigh(a[i], s) == 0)
    ensures i + k + 1 < |a| ==> r[i + k + 1] == 0 && BitOr(0, ShlHigh(a[i], s)) == ShlHigh(a[i], s)
    ensures i + k < |a| ==> BitOr(r[i + k], ShlLow(a[i], s)) == r[i + k] + ShlLow(a[i], s) < BASE
  {
    NothingOut(a[i]);
    HighBound(a[i], s);
    BitOrZero(ShlHigh(a[i], s));
    if i + k < |a| {
      if i > 0 { HighBound(a[i - 1], s); }
      assert r[i + k] == ShlPartial(a, k, s, i, i + k);
      OrShl(r[i + k], a[i], s);
    }
  }

  lemma ShlAdvance(a: seq<Limb>, k: nat, s: nat, i: nat, r: seq<Limb>, t: seq<Limb>)
    requires s < 32 && i < |a| && |r| == |a| == |t| && ShlUpTo(a, k, s, i, r)
    requires forall j :: 0 <= j < |a| ==>
      t[j] == r[j] + (if j == i + k then ShlLow(a[i], s) else 0) + if j == i + k + 1 then ShlHigh(a[i], s) else 0
    ensures ShlUpTo(a, k, s, i + 1, t)
  {
    hide ShlLow, ShlHigh;
    forall j | 0 <= j < |a| ensures t[j] == ShlPartial(a, k, s, i + 1, j) {
      assert r[j] == ShlPartial(a, k, s, i, j);
    }
  }

  lemma ShlDone(a: seq<Limb>, shift: nat, r: seq<Limb>)
    requires |r| == |a| && ShlUpTo(a, shift / 32, shift % 32, |a|, r)
    ensures Val(r, |r|) == Val(a, |a|) * Pow2(shift) % BasePow(|a|)
  {
    hide ShlLow, ShlHigh, Val, BasePow, Pow2;
    forall j | 0 <= j < |r| ensures r[j] == ShlLimb(a, shift / 32, shift % 32, j) {
      assert r[j] == ShlPartial(a, shift / 32, shift % 32, |a|, j);
    }
    ShlCorrect(a, r, shift);
  }

  lemma ShrRound(a: seq<Limb>, k: nat, s: nat, i: nat, r: seq<Limb>)
    requires s < 32 && i < |a| && |r| == |a| && ShrUpTo(a, k, s, i, r)
    ensures ShrLow(a[i], s) < BASE && (s == 0 ==> ShrHigh(a[i], s) == 0)
    ensures i >= k ==> r[i - k] == 0 && BitOr(0, ShrLow(a[i], s)) == ShrLow(a[i], s)
    ensures i >= k + 1 ==> BitOr(r[i - k - 1], ShrHigh(a[i], s)) == r[i - k - 1] + ShrHigh(a[i], s) < BASE
  {
    NothingOut(a[i]);
    LowFits(a[i], s);
    BitOrZero(ShrLow(a[i], s));
    if i >= k + 1 {
      ShrParts(a[i - 1], s);
      assert r[i - k - 1] == ShrPartial(a, k, s, i, i - k - 1);
      OrShr(r[i - k - 1], a[i], s);
    }
  }

  lemma LowFits(x: Limb, s: nat)
    requires s < 32
    ensures ShrLow(x, s) < BASE
  {
    ShrParts(x, s);
    Pow2Bytes();
    Pow2Monotone(32 - s, 32);
  }

  lemma ShrAdvance(a: seq<Limb>, k: nat, s: nat, i: nat, r: seq<Limb>, t: seq<Limb>)
    requires s < 32 && i < |a| && |r| == |a| == |t| && ShrUpTo(a, k, s, i, r)
    requires forall j :: 0 <= j < |a| ==>
      t[j] == r[j] + (if j == i - k then ShrLow(a[i], s) else 0) + if j == i - k - 1 then ShrHigh(a[i], s) else 0
    ensures ShrUpTo(a, k, s, i + 1, t)
  {
    hide ShrLow, ShrHigh;
    forall j | 0 <= j < |a| ensures t[j] == ShrPartial(a, k, s, i + 1, j) {
      assert r[j] == ShrPartial(a, k, s, i, j);
    }
  }

  lemma ShrDone(a: seq<Limb>, shift: nat, r: seq<Limb>)
    requires |r| == |a| && ShrUpTo(a, shift / 32, shift % 32, |a|, r)
    ensures Val(r, |r|) == Val(a, |a|) / Pow2(shift)
  {
    hide ShrLow, ShrHigh, Val, BasePow, Pow2;
    forall j | 0 <= j < |r| ensures r[j] == ShrLimb(a, shift / 32, shift % 32, j) {
      assert r[j] == ShrPartial(a, shift / 32, shift % 32, |a|, j);
    }
    ShrCorrect(a, r, shift);
  }

  lemma NothingOut(x: Limb)
    ensures ShlHigh(x, 0) == 0 && ShrHigh(x, 0) == 0
  {
    ShlParts(x, 0);
    ShrParts(x, 0);
    assert Pow2(0) == 1;
  }

  /** The bits moved in and the bits moved up do not meet. */
  lemma OrShl(high: nat, x: Limb, s: nat)
    requires s < 32 && high < Pow2(s)
    ensures BitOr(high, ShlLow(x, s)) == high + ShlLow(x, s) < BASE
  {
    ShlParts(x, s);
    BitOrDisjoint(high, x % Pow2(32 - s), s);
  }

  lemma OrShr(low: nat, x: Limb, s: nat)
    requires s < 32 && low < Pow2(32 - s)
    ensures BitOr(low, ShrHigh(x, s)) == low + ShrHigh(x, s) < BASE
  {
    ShrParts(x, s);
    BitOrDisjoint(low, x % Pow2(s), 32 - s);
  }
}
