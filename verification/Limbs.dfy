/**
 Numbers as little-endian 32-bit limbs: the arithmetic behind src/arith_uint256.h and
 src/arith_uint256.cpp.
 */
module Limbs {
  import opened Arithmetic
  import opened Powers

  const BASE: nat := 0x1_0000_0000
  type Limb = x: nat | x < 0x1_0000_0000

  // ----- Powers -----

  lemma Pow2Bytes()
    ensures Pow2(8) == 0x100 && Pow2(15) == 0x8000 && Pow2(16) == 0x1_0000 && Pow2(23) == 0x80_0000
    ensures Pow2(24) == 0x100_0000 && Pow2(32) == BASE
  {
    assert Pow2(7) == 128;
    Pow2Add(8, 7);
    Pow2Add(8, 8);
    Pow2Add(8, 15);
    Pow2Add(8, 16);
    Pow2Add(16, 16);
  }

  /** BASE to the n. */
  function BasePow(n: nat): (p: nat)
    ensures p >= 1
  {
    if n == 0 then 1 else BASE * BasePow(n - 1)
  }

  lemma {:induction false} BasePowIs(n: nat)
    ensures BasePow(n) == Pow2(32 * n)
  {
    Pow2Bytes();
    if n > 0 {
      BasePowIs(n - 1);
      Pow2Add(32, 32 * (n - 1));
    }
  }

  lemma {:induction false} BasePowAdd(a: nat, b: nat)
    ensures BasePow(a + b) == BasePow(a) * BasePow(b)
  {
    if a > 0 {
      BasePowAdd(a - 1, b);
      Associate(BASE, BasePow(a - 1), BasePow(b));
    }
  }

  // ----- Values -----

  /** The value of the first n limbs. */
  function Val(s: seq<Limb>, n: nat): nat
    requires n <= |s|
  {
    if n == 0 then 0 else Val(s, n - 1) + s[n - 1] * BasePow(n - 1)
  }

  lemma {:induction false} ValBound(s: seq<Limb>, n: nat)
    requires n <= |s|
    ensures Val(s, n) < BasePow(n)
  {
    if n > 0 {
      ValBound(s, n - 1);
      ProductMonotone(s[n - 1], BASE - 1, BasePow(n - 1));
      Distribute(BASE, 1, BasePow(n - 1));
    }
  }

  lemma {:induction false} ValAgree(s: seq<Limb>, t: seq<Limb>, n: nat)
    requires n <= |s| && n <= |t| && forall i :: 0 <= i < n ==> s[i] == t[i]
    ensures Val(s, n) == Val(t, n)
  {
    if n > 0 {
      ValAgree(s, t, n - 1);
    }
  }

  lemma {:induction false} ValPut(s: seq<Limb>, i: nat, x: Limb, n: nat)
    requires i < |s| && n <= |s|
    ensures Val(s[i := x], n) == Val(s, n) + if i < n then (x - s[i]) * BasePow(i) else 0
  {
    if n > 0 {
      ValPut(s, i, x, n - 1);
      if i == n - 1 {
        Distribute(x, s[i], BasePow(i));
      }
    }
  }

  /** One carry step: the limb keeps the low half and the carry moves the rest up. */
  lemma CarryStep(n: nat, i: nat)
    ensures n % BASE * BasePow(i) + n / BASE * BasePow(i + 1) == n * BasePow(i)
  {
    var p := BasePow(i);
    QuotientRemainder(n, BASE);
    Distribute(n / BASE * BASE, n % BASE, p);
    Associate(n / BASE, BASE, p);
  }

  /** The 64-bit intermediate of a multiplication step, and its halves. */
  function MulAdd(carry: nat, x: nat, a: nat, b: nat): nat { carry + x + a * b }
  function LowHalf(n: nat): Limb { n % BASE }
  function HighHalf(n: nat): nat { n / BASE }

  /** It fits 64 bits, and its upper half is a limb again. */
  lemma MulAddFits(carry: nat, x: nat, a: nat, b: nat)
    requires carry < BASE && x < BASE && a < BASE && b < BASE
    ensures MulAdd(carry, x, a, b) < BASE * BASE && HighHalf(MulAdd(carry, x, a, b)) < BASE
  {
    ProductMonotone(a, BASE - 1, b);
    QuotientBelow(carry + x + a * b, BASE, BASE);
  }

  // ----- Bitwise or -----

  function BitOr(x: nat, y: nat): nat {
    if x == 0 && y == 0 then 0 else (if x % 2 == 1 || y % 2 == 1 then 1 else 0) + 2 * BitOr(x / 2, y / 2)
  }

  lemma {:induction false} BitOrZero(y: nat)
    ensures BitOr(0, y) == y
  {
    if y > 0 {
      BitOrZero(y / 2);
    }
  }

  lemma BitOrEven(x: nat, z: nat)
    ensures BitOr(x, 2 * z) == x % 2 + 2 * BitOr(x / 2, z)
  {
  }

  /** Numbers without common bits: one below 2^k, the other a multiple of it. */
  lemma {:induction false} BitOrDisjoint(x: nat, q: nat, k: nat)
    requires x < Pow2(k)
    ensures BitOr(x, q * Pow2(k)) == x + q * Pow2(k) == BitOr(q * Pow2(k), x)
  {
    BitOrCommutes(x, q * Pow2(k));
    if k == 0 {
      BitOrZero(q * Pow2(k));
    } else {
      BitOrDisjoint(x / 2, q, k - 1);
      Twice(q, Pow2(k - 1));
      hide BitOr;
      BitOrEven(x, q * Pow2(k - 1));
    }
  }

  /** Bits from k on are not touched by a number below 2^k. */
  lemma {:induction false} BitOrHigh(a: nat, b: nat, h: nat, k: nat)
    requires a < Pow2(k) && b < Pow2(k)
    ensures BitOr(a + h * Pow2(k), b) == BitOr(a, b) + h * Pow2(k)
  {
    if k == 0 {
      BitOrZero(h);
      BitOrCommutes(h, 0);
    } else {
      BitOrHigh(a / 2, b / 2, h, k - 1);
      BitOrDoubled(a, b, h, Pow2(k - 1));
    }
  }

  lemma BitOrDoubled(a: nat, b: nat, h: nat, p: nat)
    requires BitOr(a / 2 + h * p, b / 2) == BitOr(a / 2, b / 2) + h * p
    ensures BitOr(a + h * (2 * p), b) == BitOr(a, b) + h * (2 * p)
  {
    hide *;
    Twice(h, p);
    BitOrAbove(a, b, h * p);
  }

  lemma BitOrAbove(a: nat, b: nat, z: nat)
    requires BitOr(a / 2 + z, b / 2) == BitOr(a / 2, b / 2) + z
    ensures BitOr(a + 2 * z, b) == BitOr(a, b) + 2 * z
  {
    assert (a + 2 * z) / 2 == a / 2 + z && (a + 2 * z) % 2 == a % 2;
  }

  lemma {:induction false} BitOrCommutes(x: nat, y: nat)
    ensures BitOr(x, y) == BitOr(y, x)
    decreases x + y
  {
    if x > 0 || y > 0 {
      BitOrCommutes(x / 2, y / 2);
    }
  }

  // ----- Addition -----

  lemma AddStep(s: seq<Limb>, x: seq<Limb>, y: seq<Limb>, i: nat, carry: nat)
    requires |s| == |x| == |y| && i < |s| && s[i] == x[i]
    requires Val(s, i) + carry * BasePow(i) == Val(x, i) + Val(y, i)
    ensures var n := carry + x[i] + y[i];
      Val(s[i := n % BASE], i + 1) + n / BASE * BasePow(i + 1) == Val(x, i + 1) + Val(y, i + 1)
  {
    var n := carry + x[i] + y[i];
    var p := BasePow(i);
    ValAgree(s, s[i := n % BASE], i);
    CarryStep(n, i);
    Distribute(carry + x[i], y[i], p);
    Distribute(carry, x[i], p);
  }

  // ----- Complement -----

  lemma {:induction false} ComplementVal(s: seq<Limb>, t: seq<Limb>, n: nat)
    requires |s| == |t| && n <= |s| && forall i :: 0 <= i < n ==> t[i] == BASE - 1 - s[i]
    ensures Val(t, n) == BasePow(n) - 1 - Val(s, n)
  {
    if n > 0 {
      ComplementVal(s, t, n - 1);
      Distribute(BASE - 1, s[n - 1], BasePow(n - 1));
      Distribute(BASE, 1, BasePow(n - 1));
    }
  }

  /** A run of i full limbs, and of i zero limbs. */
  lemma {:induction false} ValFull(s: seq<Limb>, i: nat)
    requires i <= |s| && forall j :: 0 <= j < i ==> s[j] == BASE - 1
    ensures Val(s, i) == BasePow(i) - 1
  {
    if i > 0 {
      ValFull(s, i - 1);
      Distribute(BASE, 1, BasePow(i - 1));
    }
  }

  lemma {:induction false} ValZero(s: seq<Limb>, i: nat)
    requires i <= |s| && forall j :: 0 <= j < i ==> s[j] == 0
    ensures Val(s, i) == 0
  {
    if i > 0 {
      ValZero(s, i - 1);
    }
  }

  // ----- Upper limbs -----

  /** The value of the limbs from k on. */
  function Upper(s: seq<Limb>, k: nat): nat
    requires k <= |s|
    decreases |s| - k
  {
    if k == |s| then 0 else s[k] + BASE * Upper(s, k + 1)
  }

  lemma {:induction false} ValSplit(s: seq<Limb>, k: nat)
    requires k <= |s|
    ensures Val(s, |s|) == Val(s, k) + Upper(s, k) * BasePow(k)
    decreases |s| - k
  {
    if k < |s| {
      var u, p := Upper(s, k + 1), BasePow(k);
      ValSplit(s, k + 1);
      Distribute(s[k], BASE * u, p);
      Associate(u, BASE, p);
      assert BASE * u * p == u * BASE * p;
    }
  }

  // ----- Multiplication -----

  lemma MulStep(s: seq<Limb>, y: seq<Limb>, i: nat, j: nat, carry: nat, a: Limb, before: nat)
    requires |s| == |y| && i + j < |s|
    requires Val(s, |s|) + carry * BasePow(i + j) == before + a * Val(y, i) * BasePow(j)
    ensures var n := MulAdd(carry, s[i + j], a, y[i]);
      Val(s[i + j := LowHalf(n)], |s|) + HighHalf(n) * BasePow(i + j + 1) == before + a * Val(y, i + 1) * BasePow(j)
  {
    hide Val, BasePow;
    var k := i + j;
    var n, p := carry + s[k] + a * y[i], BasePow(k);
    ValPut(s, k, n % BASE, |s|);
    CarryStep(n, k);
    Distribute(n % BASE, s[k], p);
    Distribute(carry + s[k], a * y[i], p);
    Distribute(carry, s[k], p);
    MulColumn(y, i, j, a);
  }

  lemma MulColumn(y: seq<Limb>, i: nat, j: nat, a: Limb)
    requires i < |y|
    ensures a * Val(y, i + 1) * BasePow(j) == a * Val(y, i) * BasePow(j) + a * y[i] * BasePow(i + j)
  {
    var v, w, q := Val(y, i), y[i] * BasePow(i), BasePow(j);
    assert Val(y, i + 1) == v + w;
    calc {
      a * (v + w) * q;
    ==  { Distribute(v, w, a); assert a * (v + w) == (v + w) * a; }
      (a * v + a * w) * q;
    ==  { Distribute(a * v, a * w, q); }
      a * v * q + a * w * q;
    }
    Associate(a, y[i], BasePow(i));
    Associate(a * y[i], BasePow(i), q);
    BasePowAdd(i, j);
  }

  /** After a row the product has grown by a whole multiple of the modulus less than it should. */
  lemma MulRow(x: seq<Limb>, y: seq<Limb>, j: nat, after: nat, before: nat, carry: nat, q: nat) returns (q': nat)
    requires |x| == |y| && j < |x|
    requires after + carry * BasePow(|x|) == before + x[j] * Val(y, |y| - j) * BasePow(j)
    requires before + q * BasePow(|x|) == Val(x, j) * Val(y, |y|)
    ensures after + q' * BasePow(|x|) == Val(x, j + 1) * Val(y, |y|)
  {
    hide Upper;
    var n, m := |x|, BasePow(|x|);
    var a, u, low := x[j], Upper(y, n - j), Val(y, n - j);
    ValSplit(y, n - j);
    BasePowAdd(n - j, j);
    var Y := Val(y, n);
    RowProduct(a, u, low, BasePow(n - j), BasePow(j));
    Distribute(Val(x, j), a * BasePow(j), Y);
    q' := q + carry + a * u;
    Distribute(q + carry, a * u, m);
    Distribute(q, carry, m);
  }

  lemma RowProduct(a: nat, u: nat, low: nat, p: nat, r: nat)
    ensures a * r * (low + u * p) == a * low * r + a * u * (p * r)
  {
    calc {
      a * r * (low + u * p);
    ==  { Distribute(low, u * p, a * r); assert a * r * (low + u * p) == (low + u * p) * (a * r); }
      low * (a * r) + u * p * (a * r);
    ==  { assert low * (a * r) == a * low * r; }
      a * low * r + u * p * (a * r);
    ==  { assert u * p * (a * r) == a * u * (p * r); }
      a * low * r + a * u * (p * r);
    }
  }

  /** Multiplication by one limb. */
  lemma ScaleStep(s: seq<Limb>, x: seq<Limb>, i: nat, carry: nat, b: Limb)
    requires |s| == |x| && i < |s|
    requires Val(s, i) + carry * BasePow(i) == b * Val(x, i)
    ensures var n := MulAdd(carry, 0, b, x[i]);
      Val(s[i := LowHalf(n)], i + 1) + HighHalf(n) * BasePow(i + 1) == b * Val(x, i + 1)
  {
    var n, p := carry + b * x[i], BasePow(i);
    ValNext(s[i := n % BASE], i);
    ValNext(x, i);
    ValAgree(s, s[i := n % BASE], i);
    CarryStep(n, i);
    hide Val, BasePow;
    Distribute(carry, b * x[i], p);
    Scaled(b, Val(x, i), x[i], p);
  }

  lemma ValNext(s: seq<Limb>, i: nat)
    requires i < |s|
    ensures Val(s, i + 1) == Val(s, i) + s[i] * BasePow(i)
  {
  }

  lemma Scaled(b: nat, v: nat, x: nat, p: nat)
    ensures b * (v + x * p) == b * v + b * x * p
  {
    Associate(b, x, p);
    Distribute(v, x * p, b);
  }
}
