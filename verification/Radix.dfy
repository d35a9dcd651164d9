/**
 Numbers as big-endian digits, and how many digits of one radix hold a number of another: the arithmetic
 behind src/base58.cpp.
 */
module Radix {
  import opened Arithmetic

  // ----- Powers -----

  function Pow(b: nat, n: nat): nat {
    if n == 0 then 1 else b * Pow(b, n - 1)
  }

  lemma {:induction false} PowPositive(b: nat, n: nat)
    requires b > 0
    ensures Pow(b, n) > 0
  {
    if n > 0 {
      PowPositive(b, n - 1);
      ProductMonotone(1, b, Pow(b, n - 1));
    }
  }

  lemma {:induction false} PowAdd(b: nat, m: nat, n: nat)
    ensures Pow(b, m + n) == Pow(b, m) * Pow(b, n)
  {
    if m > 0 {
      PowAdd(b, m - 1, n);
      Associate(b, Pow(b, m - 1), Pow(b, n));
    }
  }

  lemma {:induction false} PowPow(b: nat, m: nat, n: nat)
    ensures Pow(Pow(b, m), n) == Pow(b, m * n)
  {
    if n > 0 {
      PowPow(b, m, n - 1);
      PowAdd(b, m, m * (n - 1));
      Distribute(n - 1, 1, m);
      assert m * n == m + m * (n - 1);
    }
  }

  lemma ProductBoth(a: nat, b: nat, c: nat, d: nat)
    requires a <= b && c <= d
    ensures a * c <= b * d
  {
    ProductMonotone(a, b, c);
    ProductMonotone(c, d, b);
    assert b * c == c * b && b * d == d * b;
  }

  lemma {:induction false} PowMonotone(a: nat, b: nat, n: nat)
    requires a <= b
    ensures Pow(a, n) <= Pow(b, n)
  {
    if n > 0 {
      PowMonotone(a, b, n - 1);
      ProductBoth(a, b, Pow(a, n - 1), Pow(b, n - 1));
    }
  }

  lemma {:induction false} PowGrows(b: nat, m: nat, n: nat)
    requires b > 1 && m < n
    ensures Pow(b, m) < Pow(b, n)
  {
    PowPositive(b, n - 1);
    ProductMonotone(2, b, Pow(b, n - 1));
    if m < n - 1 {
      PowGrows(b, m, n - 1);
    }
  }

  /** If D digits of radix a fit in N digits of radix b, then n digits fit in n * N / D + 1. */
  lemma EnoughDigits(a: nat, b: nat, N: nat, D: nat, n: nat)
    requires b > 1 && D > 0 && Pow(a, D) <= Pow(b, N)
    ensures Pow(a, n) < Pow(b, n * N / D + 1)
  {
    hide Pow;
    var k := n * N / D + 1;
    if Pow(b, k) <= Pow(a, n) {
      PowMonotone(Pow(b, k), Pow(a, n), D);
      PowPow(b, k, D);
      PowPow(a, n, D);
      PowPow(a, D, n);
      assert n * D == D * n;
      PowMonotone(Pow(a, D), Pow(b, N), n);
      PowPow(b, N, n);
      QuotientRemainder(n * N, D);
      Distribute(n * N / D, 1, D);
      assert N * n == n * N;
      PowGrows(b, N * n, k * D);
      assert false;
    }
  }

  /** 138 digits of base 58 hold 100 bytes, and 733 bytes hold 1000 digits of base 58. */
  lemma EncodeRatio()
    ensures Pow(256, 100) <= Pow(58, 138)
  {
    assert Pow(256, 4) == 0x1_0000_0000 && Pow(58, 6) == 38068692544;
    PowAdd(256, 4, 4);
    PowAdd(58, 6, 5);
    assert Pow(58, 5) == 656356768;
    Ratio(256, 8, 58, 11, 12);
    PowAdd(256, 8 * 12, 4);
    PowAdd(58, 11 * 12, 6);
    ProductBoth(Pow(256, 96), Pow(58, 132), Pow(256, 4), Pow(58, 6));
  }

  lemma Ratio(a: nat, m: nat, b: nat, n: nat, k: nat)
    requires Pow(a, m) <= Pow(b, n)
    ensures Pow(a, m * k) <= Pow(b, n * k)
  {
    PowMonotone(Pow(a, m), Pow(b, n), k);
    PowPow(a, m, k);
    PowPow(b, n, k);
  }

  lemma DecodeRatio()
    ensures Pow(58, 1000) <= Pow(256, 733)
  {
    assert Pow(58, 6) == 38068692544 && Pow(256, 5) == 0x100_0000_0000;
    Tight();
    Ratio(58, 71, 256, 52, 14);
    PowAdd(58, 71 * 14, 6);
    PowAdd(256, 52 * 14, 5);
    ProductBoth(Pow(58, 994), Pow(256, 728), Pow(58, 6), Pow(256, 5));
  }

  lemma SmallPowers()
    ensures Pow(58, 7) == 2207984167552 && Pow(58, 8) == 128063081718016 && Pow(256, 4) == 4294967296
  {
  }

  /** From b^m and b^n to b^(m + n), on given numbers. */
  lemma Multiplied(b: nat, m: nat, x: nat, n: nat, y: nat)
    requires Pow(b, m) == x && Pow(b, n) == y
    ensures Pow(b, m + n) == x * y
  {
    PowAdd(b, m, n);
  }

  lemma Tight()
    ensures Pow(58, 71) <= Pow(256, 52)
  {
    SmallPowers();
    hide Pow;
    Multiplied(58, 8, 128063081718016, 8, 128063081718016);
    Multiplied(58, 16, 16400152899115243850138976256, 16, 16400152899115243850138976256);
    Multiplied(58, 32, 268965015114358137726910587140455987105619365599731777536, 32,
               268965015114358137726910587140455987105619365599731777536);
    Multiplied(58, 64,
      72342179355466901471258927612150153907721848234316445933056526044582001260898145151856420451025374266490194231296,
      7, 2207984167552);
    Multiplied(256, 4, 4294967296, 4, 4294967296);
    Multiplied(256, 8, 18446744073709551616, 8, 18446744073709551616);
    Multiplied(256, 16, 340282366920938463463374607431768211456, 16, 340282366920938463463374607431768211456);
    Multiplied(256, 32, 115792089237316195423570985008687907853269984665640564039457584007913129639936, 16,
               340282366920938463463374607431768211456);
    Multiplied(256, 48,
      0x1000000000000000000000000000000000000000000000000000000000000000000000000000000000000000000000000,
      4, 4294967296);
  }

  // ----- Digits -----

  ghost predicate AllBelow(s: seq<nat>, r: nat) {
    forall i :: 0 <= i < |s| ==> s[i] < r
  }

  /** The number that big-endian digits stand for. */
  function Num(s: seq<nat>, r: nat): nat {
    if s == [] then 0 else Num(s[..|s| - 1], r) * r + s[|s| - 1]
  }

  lemma {:induction false} NumBound(s: seq<nat>, r: nat)
    requires AllBelow(s, r)
    ensures Num(s, r) < Pow(r, |s|)
  {
    if s != [] {
      NumBound(s[..|s| - 1], r);
      Above(Num(s[..|s| - 1], r), Pow(r, |s| - 1), r);
      assert Pow(r, |s| - 1) * r == r * Pow(r, |s| - 1);
    }
  }

  /** The digits of a number, without leading zeros. */
  function Digits(v: nat, r: nat): seq<nat>
    requires r > 1
  {
    if v == 0 then [] else QuotientSmaller(v, r); Digits(Quotient(v, r), r) + [v % r]
  }

  lemma QuotientSmaller(v: nat, r: nat)
    requires v > 0 && r > 1
    ensures v / r < v
  {
    QuotientRemainder(v, r);
    ProductMonotone(2, r, v / r);
    assert r * (v / r) == v / r * r;
  }

  /** In-range digits that do not start with zero. */
  ghost predicate Canonical(s: seq<nat>, r: nat) {
    AllBelow(s, r) && (s != [] ==> s[0] != 0)
  }

  lemma {:induction false} DigitsOfNumber(v: nat, r: nat)
    requires r > 1
    ensures Canonical(Digits(v, r), r) && Num(Digits(v, r), r) == v
  {
    if v > 0 {
      QuotientSmaller(v, r);
      DigitsOfNumber(v / r, r);
      QuotientRemainder(v, r);
      assert Digits(v, r)[..|Digits(v, r)| - 1] == Digits(v / r, r);
      if Digits(v / r, r) == [] {
        assert v / r == 0;
      }
    }
  }

  lemma {:induction false} CanonicalPositive(s: seq<nat>, r: nat)
    requires Canonical(s, r) && s != []
    ensures Num(s, r) > 0
  {
    if |s| > 1 {
      CanonicalPositive(s[..|s| - 1], r);
      ProductMonotone(1, r, Num(s[..|s| - 1], r));
      assert r * Num(s[..|s| - 1], r) == Num(s[..|s| - 1], r) * r;
    }
  }

  /** There is only one canonical way to write a number. */
  lemma {:induction false} NumberOfDigits(s: seq<nat>, r: nat)
    requires r > 1 && Canonical(s, r)
    ensures Digits(Num(s, r), r) == s
  {
    if s != [] {
      var t := s[..|s| - 1];
      NumberOfDigits(t, r);
      CanonicalPositive(s, r);
      DivModUnique(Num(s, r), r, Num(t, r), s[|s| - 1]);
      assert s == t + [s[|s| - 1]];
    }
  }

  // ----- The low digits of a buffer -----

  /** The value of the last i digits. */
  function Low(s: seq<nat>, r: nat, i: nat): nat
    requires i <= |s|
  {
    if i == 0 then 0 else Low(s, r, i - 1) + s[|s| - i] * Pow(r, i - 1)
  }

  lemma {:induction false} NumSplit(s: seq<nat>, r: nat, i: nat)
    requires i <= |s|
    ensures Num(s, r) == Num(s[..|s| - i], r) * Pow(r, i) + Low(s, r, i)
  {
    if i == 0 {
      assert s[..|s|] == s;
    } else {
      NumSplit(s, r, i - 1);
      var t := s[..|s| - (i - 1)];
      assert t[..|t| - 1] == s[..|s| - i];
      var a, d, p := Num(s[..|s| - i], r), s[|s| - i], Pow(r, i - 1);
      Distribute(a * r, d, p);
      Associate(a, r, p);
    }
  }

  lemma LowIsNum(s: seq<nat>, r: nat)
    ensures Low(s, r, |s|) == Num(s, r)
  {
    NumSplit(s, r, |s|);
    assert s[..0] == [];
  }

  lemma {:induction false} LowAgree(s: seq<nat>, t: seq<nat>, r: nat, i: nat)
    requires |s| == |t| && i <= |s| && forall j :: |s| - i <= j < |s| ==> s[j] == t[j]
    ensures Low(s, r, i) == Low(t, r, i)
  {
    if i > 0 {
      LowAgree(s, t, r, i - 1);
    }
  }

  lemma {:induction false} LowZero(s: seq<nat>, r: nat, i: nat, n: nat)
    requires i <= n <= |s| && forall j :: |s| - n <= j < |s| - i ==> s[j] == 0
    ensures Low(s, r, n) == Low(s, r, i)
    decreases n
  {
    if i < n {
      LowZero(s, r, i, n - 1);
    }
  }

  /** One step of the carry loop that multiplies by `factor`. */
  lemma CarryDigit(s: seq<nat>, t: seq<nat>, x: seq<nat>, r: nat, i: nat, carry: nat, factor: nat, add: nat)
    requires r > 0 && |s| == |t| == |x| && i < |s| && s[|s| - 1 - i] == x[|s| - 1 - i]
    requires forall j :: 0 <= j < |s| && j != |s| - 1 - i ==> t[j] == s[j]
    requires t[|s| - 1 - i] == (carry + factor * x[|s| - 1 - i]) % r
    requires Low(s, r, i) + carry * Pow(r, i) == factor * Low(x, r, i) + add
    ensures Low(t, r, i + 1) + (carry + factor * x[|s| - 1 - i]) / r * Pow(r, i + 1) == factor * Low(x, r, i + 1) + add
  {
    var d, p := x[|s| - 1 - i], Pow(r, i);
    var n := carry + factor * d;
    LowAgree(s, t, r, i);
    assert Low(t, r, i + 1) == Low(t, r, i) + n % r * p;
    assert Low(x, r, i + 1) == Low(x, r, i) + d * p;
    assert Pow(r, i + 1) == r * p;
    hide Low, Pow;
    CarryNumber(n, r, p);
    FactorDigit(factor, Low(x, r, i), d, p);
    Distribute(carry, factor * d, p);
  }

  lemma CarryNumber(n: nat, r: nat, p: nat)
    requires r > 0
    ensures n % r * p + n / r * (r * p) == n * p
  {
    QuotientRemainder(n, r);
    Distribute(n / r * r, n % r, p);
    Associate(n / r, r, p);
  }

  lemma FactorDigit(f: nat, v: nat, d: nat, p: nat)
    ensures f * (v + d * p) == f * v + f * d * p
  {
    Associate(f, d, p);
    Distribute(v, d * p, f);
  }

  // ----- Leading elements -----

  /** How many elements at the front equal x. */
  function Leading<T(==)>(s: seq<T>, x: T): (n: nat)
    ensures n <= |s| && (forall i :: 0 <= i < n ==> s[i] == x) && (n < |s| ==> s[n] != x)
  {
    if s == [] || s[0] != x then 0 else 1 + Leading(s[1..], x)
  }

  lemma LeadingUnique<T>(s: seq<T>, x: T, n: nat)
    requires n <= |s| && (forall i :: 0 <= i < n ==> s[i] == x) && (n < |s| ==> s[n] != x)
    ensures Leading(s, x) == n
  {
    var k := Leading(s, x);
  }

  lemma {:induction false} NumSkipsZeros(s: seq<nat>, r: nat, k: nat)
    requires k <= |s| && forall i :: 0 <= i < k ==> s[i] == 0
    ensures Num(s, r) == Num(s[k..], r)
    decreases |s|
  {
    if |s| > k {
      NumSkipsZeros(s[..|s| - 1], r, k);
      assert s[k..][..|s[k..]| - 1] == s[..|s| - 1][k..];
    } else if k > 0 {
      NumSkipsZeros(s[..|s| - 1], r, k - 1);
      assert s[..|s| - 1][k - 1..] == [] && s[k..] == [];
    }
  }

  /** A buffer without its leading zeros is the number's digits. */
  lemma StrippedIsDigits(s: seq<nat>, r: nat, k: nat)
    requires r > 1 && AllBelow(s, r) && k <= |s|
    requires (forall i :: 0 <= i < k ==> s[i] == 0) && (k < |s| ==> s[k] != 0)
    ensures s[k..] == Digits(Num(s, r), r)
  {
    NumSkipsZeros(s, r, k);
    NumberOfDigits(s[k..], r);
  }
}
