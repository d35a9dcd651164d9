/**
 The heights that the skip list of the block index leads to (src/chain.cpp), and single rounds of a walk
 along it.  SkipWalk.dfy counts the rounds.
 */
module SkipHeights {
  import opened Arithmetic
  import opened Powers

  // ----- Clearing the lowest one -----

  /** Bitwise and. */
  function And(a: nat, b: nat): nat
    decreases a
  {
    if a == 0 then 0 else (if a % 2 == 1 && b % 2 == 1 then 1 else 0) + 2 * And(a / 2, b / 2)
  }

  /** n & (n - 1) */
  function InvertLowestOne(n: nat): (r: nat)
    ensures n > 0 ==> r < n
  {
    if n == 0 then 0 else AndPredecessor(n); And(n, n - 1)
  }

  lemma {:induction false} AndSelf(n: nat)
    ensures And(n, n) == n
  {
    if n > 0 {
      AndSelf(n / 2);
    }
  }

  lemma {:induction false} AndPredecessor(n: nat)
    requires n > 0
    ensures And(n, n - 1) < n
  {
    if n % 2 == 1 {
      AndSelf(n / 2);
      assert (n - 1) / 2 == n / 2;
    } else {
      AndPredecessor(n / 2);
      assert (n - 1) / 2 == n / 2 - 1;
    }
  }

  /** Any height strictly lower is acceptable. */
  function GetSkipHeight(height: nat): (r: nat)
    ensures height > 0 ==> r < height
  {
    if height < 2 then 0
    else if height % 2 == 1 then InvertLowestOne(InvertLowestOne(height - 1)) + 1
    else InvertLowestOne(height)
  }

  /** An odd number loses 1, an even one twice what its half loses. */
  lemma InvertOdd(q: nat)
    ensures InvertLowestOne(2 * q + 1) == 2 * q
  {
    AndSelf(q);
  }

  lemma InvertEven(q: nat)
    requires q > 0
    ensures InvertLowestOne(2 * q) == 2 * InvertLowestOne(q)
  {
    assert (2 * q - 1) / 2 == q - 1 && (2 * q) / 2 == q;
  }

  lemma InvertTwo(q: nat)
    ensures InvertLowestOne(4 * q + 2) == 4 * q
  {
    InvertEven(2 * q + 1);
    InvertOdd(q);
  }

  lemma InvertFour(q: nat)
    ensures InvertLowestOne(8 * q + 4) == 8 * q
  {
    hide InvertLowestOne;
    InvertEven(4 * q + 2);
    InvertTwo(q);
  }

  lemma InvertQuarter(q: nat)
    requires q > 0
    ensures InvertLowestOne(4 * q) == 4 * InvertLowestOne(q)
  {
    hide InvertLowestOne;
    InvertEven(2 * q);
    InvertEven(q);
  }

  lemma InvertEighth(q: nat)
    requires q > 0
    ensures InvertLowestOne(8 * q) == 8 * InvertLowestOne(q)
  {
    hide InvertLowestOne;
    InvertEven(4 * q);
    InvertQuarter(q);
  }

  lemma InvertNothing()
    ensures InvertLowestOne(0) == 0
  {
  }

  lemma PowTwice(a: nat, m: nat)
    requires Pow2(m) > 1
    ensures m > 0 && Pow2(m) == 2 * Pow2(m - 1) && a * Pow2(m) == 2 * (a * Pow2(m - 1))
  {
    Twice(a, Pow2(m - 1));
  }

  /** Bits below 2^m are cleared without touching those above. */
  lemma {:induction false} InvertBelow(a: nat, m: nat, x: nat)
    requires 0 < x < Pow2(m)
    ensures InvertLowestOne(a * Pow2(m) + x) == a * Pow2(m) + InvertLowestOne(x)
    decreases m
  {
    hide InvertLowestOne, Pow2;
    PowTwice(a, m);
    if x % 2 == 0 {
      InvertBelow(a, m - 1, x / 2);
    }
    InvertHalf(a * Pow2(m - 1), x);
  }

  lemma InvertHalf(z: nat, x: nat)
    requires x > 0 && (x % 2 == 0 ==> InvertLowestOne(z + x / 2) == z + InvertLowestOne(x / 2))
    ensures InvertLowestOne(2 * z + x) == 2 * z + InvertLowestOne(x)
  {
    hide InvertLowestOne;
    var y := x / 2;
    if x % 2 == 1 {
      assert x == 2 * y + 1;
      InvertOdd(y);
      InvertOdd(z + y);
    } else {
      assert x == 2 * y;
      InvertEven(y);
      InvertEven(z + y);
    }
  }

  /** Below zeros the lowest one is that of what is above them. */
  lemma {:induction false} InvertAbove(a: nat, m: nat)
    requires a > 0
    ensures InvertLowestOne(a * Pow2(m)) == InvertLowestOne(a) * Pow2(m)
    decreases m
  {
    if m > 0 {
      var q := Pow2(m - 1);
      assert Pow2(m) == 2 * q;
      InvertAbove(a, m - 1);
      hide InvertLowestOne, Pow2;
      Twice(a, q);
      Twice(InvertLowestOne(a), q);
      ProductMonotone(1, a, q);
      InvertEven(a * q);
    }
  }

  // ----- The walk -----

  /** One round of GetAncestor: the skip, unless the predecessor's skip is better than the skip's
      predecessor. */
  function Next(w: nat, h: nat): (r: nat)
    requires h < w
    ensures h <= r < w
  {
    var s, sp := GetSkipHeight(w), GetSkipHeight(w - 1);
    if s == h || (s > h && !(sp < s - 2 && sp >= h)) then s else w - 1
  }

  function Steps(w: nat, h: nat): nat
    requires h <= w
    decreases w
  {
    if w == h then 0 else 1 + Steps(Next(w, h), h)
  }

  lemma SkipAtEven(v: nat)
    requires v >= 1
    ensures GetSkipHeight(2 * v) == InvertLowestOne(2 * v)
  {
  }

  lemma SkipAtOdd(v: nat)
    requires v >= 1
    ensures GetSkipHeight(2 * v + 1) == InvertLowestOne(InvertLowestOne(2 * v)) + 1
  {
  }

  // ----- Where the walk is: above its target first in bit b -----

  /** The number whose bits from b + 1 on are those of a, and the same with bit b set. */
  function Base(a: nat, b: nat): nat { a * (2 * Pow2(b)) }
  function Top(a: nat, b: nat): nat { Base(a, b) + Pow2(b) }

  lemma BaseIs(a: nat, b: nat)
    ensures Pow2(b + 1) == 2 * Pow2(b) && Base(a, b) == 2 * a * Pow2(b) == a * Pow2(b + 1)
    ensures Top(a, b) == Base(a, b) + Pow2(b) == (2 * a + 1) * Pow2(b)
  {
    var p := Pow2(b);
    assert Pow2(b + 1) == 2 * p;
    hide Pow2;
    Associate(2, a, p);
    Twice(a, p);
    Distribute(2 * a, 1, p);
  }

  lemma TopInvert(a: nat, b: nat)
    ensures InvertLowestOne(Top(a, b)) == Base(a, b)
  {
    hide InvertLowestOne, Pow2, Base, Top;
    BaseIs(a, b);
    InvertAbove(2 * a + 1, b);
    InvertOdd(a);
  }

  lemma BaseInvert(a: nat, b: nat)
    ensures a == 0 ==> Base(a, b) == 0
    ensures a > 0 ==> InvertLowestOne(Base(a, b)) + 2 * Pow2(b) <= Base(a, b)
  {
    BaseIs(a, b);
    if a > 0 {
      hide InvertLowestOne, Pow2, Base;
      InvertAbove(a, b + 1);
      Above(InvertLowestOne(a), a, Pow2(b + 1));
    }
  }

  lemma WithinInvert(a: nat, b: nat, x: nat)
    requires 0 < x < Pow2(b)
    ensures InvertLowestOne(Top(a, b) + x) == Top(a, b) + InvertLowestOne(x)
  {
    hide InvertLowestOne, Pow2, Base, Top;
    BaseIs(a, b);
    InvertBelow(2 * a + 1, b, x);
  }

  /** From bit 3 on, the top is a multiple of 8 and well above the base. */
  lemma TopEighths(a: nat, b: nat) returns (u: nat)
    requires b >= 3
    ensures u >= 1 && Top(a, b) == 8 * u && Top(a, b) >= Base(a, b) + 8 && Pow2(b) >= 8
  {
    var q := Pow2(b - 3);
    assert Pow2(b) == 2 * Pow2(b - 1) == 4 * Pow2(b - 2) == 8 * q;
    u := (2 * a + 1) * q;
    BaseIs(a, b);
    hide Pow2, Base, Top;
    Associate(2 * a + 1, 8, q);
    Associate(8, 2 * a + 1, q);
    ProductMonotone(1, 2 * a + 1, q);
  }

  lemma SkipEven(a: nat, b: nat, q: nat)
    requires b >= 3 && 0 < 2 * q < Pow2(b)
    ensures GetSkipHeight(Top(a, b) + 2 * q) == Top(a, b) + InvertLowestOne(2 * q)
  {
    hide InvertLowestOne, Base, Top, Pow2, GetSkipHeight;
    var u := TopEighths(a, b);
    SkipAtEven(4 * u + q);
    WithinInvert(a, b, 2 * q);
  }

  lemma SkipOdd(a: nat, b: nat, q: nat)
    requires b >= 3 && 0 < 2 * q < Pow2(b)
    ensures GetSkipHeight(Top(a, b) + 2 * q + 1) == InvertLowestOne(Top(a, b) + InvertLowestOne(2 * q)) + 1
  {
    hide InvertLowestOne, Base, Top, Pow2, GetSkipHeight;
    var u := TopEighths(a, b);
    SkipAtOdd(4 * u + q);
    WithinInvert(a, b, 2 * q);
  }

  lemma SkipTop(a: nat, b: nat)
    requires b >= 3
    ensures GetSkipHeight(Top(a, b)) == Base(a, b)
  {
    hide InvertLowestOne, Base, Top, Pow2, GetSkipHeight;
    var u := TopEighths(a, b);
    SkipAtEven(4 * u);
    TopInvert(a, b);
  }

  lemma SkipNextToTop(a: nat, b: nat, h: nat)
    requires b >= 3 && Base(a, b) <= h < Top(a, b)
    ensures GetSkipHeight(Top(a, b) + 1) >= h ==> GetSkipHeight(Top(a, b) + 1) == Base(a, b) + 1 >= h
  {
    hide InvertLowestOne, Base, Top, Pow2, GetSkipHeight;
    var u := TopEighths(a, b);
    SkipAtOdd(4 * u);
    TopInvert(a, b);
    BaseInvert(a, b);
    InvertNothing();
  }

  // ----- Single rounds, x above the top -----

  /** x = 0: the base if that is the target, else the predecessor. */
  lemma FromTop(a: nat, b: nat, h: nat)
    requires b >= 3 && Base(a, b) <= h < Top(a, b)
    ensures Next(Top(a, b), h) == if h == Base(a, b) then h else Top(a, b) - 1
  {
    hide GetSkipHeight, Base, Top, Pow2;
    SkipTop(a, b);
  }

  /** x = 8q: the skip. */
  lemma FromZeros(a: nat, b: nat, q: nat, h: nat)
    requires b >= 3 && 0 < 8 * q < Pow2(b) && Base(a, b) <= h < Top(a, b)
    ensures Next(Top(a, b) + 8 * q, h) == Top(a, b) + 8 * InvertLowestOne(q)
  {
    hide InvertLowestOne, GetSkipHeight, Base, Top, Pow2;
    SkipEven(a, b, 4 * q);
    InvertEighth(q);
    SkipOdd(a, b, 4 * q - 1);
    InvertTwo(2 * q - 1);
    InvertFour(q - 1);
    WithinInvert(a, b, 8 * (q - 1) + 4);
  }

  /** x = 8q + 4 with more ones: the predecessor has the better skip. */
  lemma FromFour(a: nat, b: nat, q: nat, h: nat)
    requires b >= 3 && q > 0 && 8 * q + 4 < Pow2(b) && Base(a, b) <= h < Top(a, b)
    ensures Next(Top(a, b) + (8 * q + 4), h) == Top(a, b) + 8 * q + 3
  {
    hide InvertLowestOne, GetSkipHeight, Base, Top, Pow2;
    SkipEven(a, b, 4 * q + 2);
    InvertFour(q);
    SkipOdd(a, b, 4 * q + 1);
    InvertTwo(2 * q);
    WithinInvert(a, b, 8 * q);
    InvertEighth(q);
  }

  /** x = 4q + 2 with two more ones: likewise. */
  lemma FromTwo(a: nat, b: nat, q: nat, h: nat)
    requires b >= 3 && q > 0 && 4 * q + 2 < Pow2(b) && InvertLowestOne(q) > 0 && Base(a, b) <= h < Top(a, b)
    ensures Next(Top(a, b) + (4 * q + 2), h) == Top(a, b) + 4 * q + 1
  {
    hide InvertLowestOne, GetSkipHeight, Base, Top, Pow2;
    var r := InvertLowestOne(q);
    SkipEven(a, b, 2 * q + 1);
    InvertTwo(q);
    SkipOdd(a, b, 2 * q);
    InvertQuarter(q);
    WithinInvert(a, b, 4 * r);
    InvertQuarter(r);
  }

  /** x = 2q + 1 with two more ones: both are skipped. */
  lemma FromOne(a: nat, b: nat, q: nat, h: nat)
    requires b >= 3 && q > 0 && 2 * q < Pow2(b) && InvertLowestOne(q) > 0 && Base(a, b) <= h < Top(a, b)
    ensures Next(Top(a, b) + (2 * q + 1), h) == Top(a, b) + 2 * InvertLowestOne(InvertLowestOne(q)) + 1
  {
    hide InvertLowestOne, GetSkipHeight, Base, Top, Pow2;
    var r := InvertLowestOne(q);
    SkipEven(a, b, q);
    SkipOdd(a, b, q);
    InvertEven(q);
    WithinInvert(a, b, 2 * r);
    InvertEven(r);
  }

  // ----- Single rounds near the top: the target decides, if it is at the base -----

  lemma FromLoneTwo(a: nat, b: nat, h: nat)
    requires b >= 3 && Base(a, b) <= h < Top(a, b)
    ensures var r := Next(Top(a, b) + 2, h);
      || r == Top(a, b)
      || (h <= Base(a, b) + 1 && r == Top(a, b) + 1 && GetSkipHeight(Top(a, b) + 1) >= h)
  {
    hide InvertLowestOne, GetSkipHeight, Base, Top, Pow2;
    var u := TopEighths(a, b);
    SkipEven(a, b, 1);
    InvertTwo(0);
    SkipNextToTop(a, b, h);
  }

  lemma FromLoneFour(a: nat, b: nat, h: nat)
    requires b >= 3 && Base(a, b) <= h < Top(a, b)
    ensures var r := Next(Top(a, b) + 4, h); r == Top(a, b) || (h <= Base(a, b) + 1 && r == Top(a, b) + 3)
  {
    hide InvertLowestOne, GetSkipHeight, Base, Top, Pow2;
    var u := TopEighths(a, b);
    SkipEven(a, b, 2);
    InvertFour(0);
    SkipOdd(a, b, 1);
    InvertTwo(0);
    TopInvert(a, b);
  }

  lemma FromTwoLone(a: nat, b: nat, q: nat, h: nat)
    requires b >= 3 && q > 0 && 4 * q + 2 < Pow2(b) && InvertLowestOne(q) == 0 && Base(a, b) <= h < Top(a, b)
    ensures var r := Next(Top(a, b) + (4 * q + 2), h);
      r == Top(a, b) + 4 * q || (h <= Base(a, b) + 1 && r == Top(a, b) + 4 * q + 1)
  {
    hide InvertLowestOne, GetSkipHeight, Base, Top, Pow2;
    SkipEven(a, b, 2 * q + 1);
    InvertTwo(q);
    SkipOdd(a, b, 2 * q);
    InvertQuarter(q);
    TopInvert(a, b);
  }

  lemma FromOneLone(a: nat, b: nat, q: nat, h: nat)
    requires b >= 3 && q > 0 && 2 * q < Pow2(b) && InvertLowestOne(q) == 0 && Base(a, b) <= h < Top(a, b)
    ensures Next(Top(a, b) + (2 * q + 1), h) == if h <= Base(a, b) + 1 then Base(a, b) + 1 else Top(a, b) + 2 * q
  {
    hide InvertLowestOne, GetSkipHeight, Base, Top, Pow2;
    var u := TopEighths(a, b);
    SkipEven(a, b, q);
    SkipOdd(a, b, q);
    InvertEven(q);
    TopInvert(a, b);
  }

  lemma FromNextToTop(a: nat, b: nat, h: nat)
    requires b >= 3 && Base(a, b) <= h < Top(a, b)
    ensures var r := Next(Top(a, b) + 1, h);
      if GetSkipHeight(Top(a, b) + 1) >= h then r == Base(a, b) + 1 >= h else r == Top(a, b)
  {
    hide InvertLowestOne, GetSkipHeight, Base, Top, Pow2;
    SkipNextToTop(a, b, h);
    SkipTop(a, b);
  }
}
