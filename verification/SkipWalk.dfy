/**
 How many rounds a walk along the skip list takes (GetAncestor in src/chain.cpp).
 */
module SkipWalk {
  import opened Arithmetic
  import opened Powers
  import opened SkipHeights

  lemma StepsOnce(w: nat, h: nat)
    requires h < w
    ensures Steps(w, h) == 1 + Steps(Next(w, h), h)
  {
  }

  lemma StepsNone(h: nat)
    ensures Steps(h, h) == 0
  {
  }

  /** At the base, or one above it. */
  lemma AtBase(d: nat, h: nat)
    requires d <= h <= d + 1
    ensures Steps(d + 1, h) <= 1
  {
    if h == d {
      StepsOnce(d + 1, d);
    }
  }

  // ----- Within a block of eight -----

  /** The skips of the heights 8 * c up to 8 * c + 7. */
  lemma EightSkips(c: nat)
    ensures GetSkipHeight(8 * c + 2) == GetSkipHeight(8 * c + 4) == 8 * c
    ensures GetSkipHeight(8 * c + 6) == 8 * c + 4 && GetSkipHeight(8 * c + 7) == 8 * c + 1
    ensures var s := InvertLowestOne(8 * c) + 1;
      GetSkipHeight(8 * c + 3) == GetSkipHeight(8 * c + 5) == s && if c == 0 then s == 1 else s <= 8 * c - 7
  {
    hide InvertLowestOne, GetSkipHeight;
    SkipAtEven(4 * c + 1);
    SkipAtOdd(4 * c + 1);
    InvertTwo(2 * c);
    SkipAtEven(4 * c + 2);
    SkipAtOdd(4 * c + 2);
    InvertFour(c);
    SkipAtEven(4 * c + 3);
    SkipAtOdd(4 * c + 3);
    InvertTwo(2 * c + 1);
    InvertNothing();
    if c > 0 {
      InvertEighth(c);
    }
  }

  /** Rounds within a block of eight; near the start of the chain some of them differ. */
  function EightRound(x: nat, y: nat, near: bool): (r: nat)
    requires y < x <= 7 && (near ==> y <= 1)
    ensures y <= r < x
  {
    match x
    case 1 => 0
    case 2 => if y == 0 then 0 else 1
    case 3 => if near then 1 else 2
    case 4 => if y == 0 then 0 else 3
    case 5 => if near then 1 else 4
    case 6 => if y == 5 || near then 5 else 4
    case _ => if y <= 1 then 1 else 6
  }

  lemma EightNext(c: nat, x: nat, y: nat)
    requires y < x <= 7
    ensures Next(8 * c + x, 8 * c + y) == 8 * c + EightRound(x, y, c == 0 && y <= 1)
  {
    EightSkips(c);
    hide InvertLowestOne, GetSkipHeight;
  }

  /** The most rounds from x to y. */
  function EightBound(x: nat, y: nat, near: bool): (n: nat)
    requires y <= x <= 7 && (near ==> y <= 1)
    ensures n <= 4
  {
    if x == y then 0
    else match x
      case 1 => 1
      case 2 => 1
      case 3 => if y == 2 then 1 else 2
      case 4 => if y == 0 then 1 else 4 - y
      case 5 => if near || y == 0 then 2 else 5 - y
      case 6 => if y >= 4 then 1 else if near || y == 0 then 3 else 5 - y
      case _ => if y <= 1 then 2 else if y <= 4 then 6 - y else 7 - y
  }

  lemma EightBoundRound(x: nat, y: nat, near: bool)
    requires y < x <= 7 && (near ==> y <= 1)
    ensures 1 + EightBound(EightRound(x, y, near), y, near) <= EightBound(x, y, near)
  {
  }

  lemma {:induction false} EightSteps(c: nat, x: nat, y: nat)
    requires y <= x <= 7
    ensures Steps(8 * c + x, 8 * c + y) <= EightBound(x, y, c == 0 && y <= 1)
    decreases x
  {
    if y < x {
      StepsOnce(8 * c + x, 8 * c + y);
      EightNext(c, x, y);
      hide Steps, Next, EightBound, EightRound;
      EightBoundRound(x, y, c == 0 && y <= 1);
      EightSteps(c, EightRound(x, y, c == 0 && y <= 1), y);
    }
  }

  // ----- Ones and endings -----

  function Ones(n: nat): nat { if n == 0 then 0 else n % 2 + Ones(n / 2) }

  lemma OnesLow(q: nat)
    ensures Ones(2 * q) == Ones(q) && Ones(2 * q + 1) == Ones(q) + 1
  {
  }

  lemma OnesOfQuarter(q: nat)
    ensures Ones(4 * q) == Ones(q) && Ones(4 * q + 1) == Ones(4 * q + 2) == Ones(q) + 1
  {
    hide Ones;
    OnesLow(q);
    OnesLow(2 * q);
    OnesLow(2 * q + 1);
  }

  lemma OnesOfEighth(q: nat)
    ensures Ones(8 * q) == Ones(q) && Ones(8 * q + 4) == Ones(q) + 1 && Ones(8 * q + 3) == Ones(q) + 2
  {
    hide Ones;
    OnesOfQuarter(q);
    OnesLow(4 * q);
    OnesLow(4 * q + 1);
    OnesLow(4 * q + 2);
  }

  /** Clearing the lowest one takes one one away. */
  lemma {:induction false} OnesInvert(n: nat)
    requires n > 0
    ensures Ones(n) >= 1 && Ones(InvertLowestOne(n)) == Ones(n) - 1
    ensures InvertLowestOne(n) == 0 <==> Ones(n) == 1
  {
    var q := n / 2;
    hide InvertLowestOne, Ones;
    OnesLow(q);
    OnesZero(q);
    if n % 2 == 1 {
      assert n == 2 * q + 1;
      InvertOdd(q);
    } else {
      assert n == 2 * q;
      InvertEven(q);
      OnesInvert(q);
      OnesLow(InvertLowestOne(q));
    }
  }

  lemma {:induction false} OnesZero(n: nat)
    ensures Ones(n) == 0 <==> n == 0
  {
    if n > 0 {
      OnesZero(n / 2);
    }
  }

  lemma {:induction false} OnesBound(x: nat, b: nat)
    requires x < Pow2(b)
    ensures Ones(x) <= b
    decreases b
  {
    if x > 0 {
      OnesBound(x / 2, b - 1);
    }
  }

  /** How a number ends in binary: in 1, in 000, in 100, or in 10. */
  datatype Ending = InOne | InZeros | InFour | InTwo

  function EndingOf(x: nat): Ending {
    if x % 2 == 1 then InOne
    else if x / 2 % 2 == 1 then InTwo
    else if x / 2 / 2 % 2 == 1 then InFour
    else InZeros
  }

  lemma EndsInOne(q: nat)
    ensures EndingOf(2 * q + 1) == InOne && !EndingOf(2 * q).InOne?
  {
  }

  lemma EndsInZeros(q: nat)
    ensures EndingOf(8 * q) == InZeros
  {
  }

  lemma EndsInFour(q: nat)
    ensures EndingOf(8 * q + 4) == InFour
  {
  }

  lemma EndsInTwo(q: nat)
    ensures EndingOf(4 * q + 2) == InTwo
  {
  }

  lemma OfOne(x: nat) returns (q: nat)
    requires EndingOf(x).InOne?
    ensures x == 2 * q + 1
  {
    q := x / 2;
  }

  lemma OfZeros(x: nat) returns (q: nat)
    requires EndingOf(x).InZeros?
    ensures x == 8 * q
  {
    var y := x / 2;
    var z := y / 2;
    q := z / 2;
    assert x == 2 * y && y == 2 * z;
  }

  lemma OfFour(x: nat) returns (q: nat)
    requires EndingOf(x).InFour?
    ensures x == 8 * q + 4
  {
    var y := x / 2;
    var z := y / 2;
    q := z / 2;
    assert x == 2 * y && y == 2 * z;
  }

  lemma OfTwo(x: nat) returns (q: nat)
    requires EndingOf(x).InTwo?
    ensures x == 4 * q + 2
  {
    var y := x / 2;
    q := y / 2;
    assert x == 2 * y;
  }

  // ----- The descent to a top -----

  /** Rounds until the walk leaves the top, by the ones below it. */
  function DescentOf(e: Ending, ones: nat): nat {
    match e
    case InOne => (ones + 4) / 2
    case InZeros => ones + 1
    case InFour => if ones <= 1 then ones + 1 else 1 + (ones + 5) / 2
    case InTwo => if ones <= 2 then ones + 1 else 1 + (ones + 4) / 2
  }

  function Descent(x: nat): nat { DescentOf(EndingOf(x), Ones(x)) }

  lemma SmallDescents()
    ensures Ones(0) == 0 && Descent(0) == 1 && Descent(1) == Descent(2) == Descent(4) == 2
  {
    assert Ones(1) == 1 && Ones(2) == 1 && Ones(4) == 1;
  }

  /** A round above the top brings it nearer, or the target is at the base and close. */
  ghost predicate Descends(a: nat, b: nat, x: nat, h: nat)
    requires Base(a, b) <= h < Top(a, b) && x > 0
  {
    var r := Next(Top(a, b) + x, h);
    || (Top(a, b) <= r < Top(a, b) + x && 1 + Descent(r - Top(a, b)) <= Descent(x))
    || (h <= Base(a, b) + 1 && Steps(r, h) <= 2)
  }

  lemma RoundNextToTop(a: nat, b: nat, h: nat)
    requires b >= 3 && Base(a, b) <= h < Top(a, b)
    ensures Descends(a, b, 1, h)
  {
    hide GetSkipHeight, Base, Top, Pow2, Next, Steps, Descent;
    SmallDescents();
    FromNextToTop(a, b, h);
    if Next(Top(a, b) + 1, h) == Base(a, b) + 1 {
      AtBase(Base(a, b), h);
    }
  }

  lemma RoundOne(a: nat, b: nat, q: nat, h: nat)
    requires b >= 3 && q > 0 && 2 * q < Pow2(b) && Base(a, b) <= h < Top(a, b)
    ensures Descends(a, b, 2 * q + 1, h)
  {
    hide InvertLowestOne, GetSkipHeight, Base, Top, Pow2, Next, Steps, EndingOf, Ones;
    OnesInvert(q);
    OnesLow(q);
    EndsInOne(q);
    if InvertLowestOne(q) == 0 {
      FromOneLone(a, b, q, h);
      if h <= Base(a, b) + 1 {
        AtBase(Base(a, b), h);
      }
    } else {
      FromOne(a, b, q, h);
      OnesInvert(InvertLowestOne(q));
      OnesLow(InvertLowestOne(InvertLowestOne(q)));
      EndsInOne(InvertLowestOne(InvertLowestOne(q)));
    }
  }

  lemma RoundZeros(a: nat, b: nat, q: nat, h: nat)
    requires b >= 3 && 0 < 8 * q < Pow2(b) && Base(a, b) <= h < Top(a, b)
    ensures Descends(a, b, 8 * q, h)
  {
    hide InvertLowestOne, GetSkipHeight, Base, Top, Pow2, Next, Steps, EndingOf, Ones;
    FromZeros(a, b, q, h);
    EndsInZeros(q);
    EndsInZeros(InvertLowestOne(q));
    OnesOfEighth(q);
    OnesOfEighth(InvertLowestOne(q));
    OnesInvert(q);
  }

  lemma RoundLone(a: nat, b: nat, x: nat, h: nat)
    requires b >= 3 && (x == 2 || x == 4) && Base(a, b) <= h < Top(a, b)
    ensures Descends(a, b, x, h)
  {
    hide InvertLowestOne, GetSkipHeight, Base, Top, Pow2, Next, Steps, Descent;
    var u := TopEighths(a, b);
    SmallDescents();
    var r := Next(Top(a, b) + x, h);
    if x == 2 {
      FromLoneTwo(a, b, h);
      FromNextToTop(a, b, h);
    } else {
      FromLoneFour(a, b, h);
      InvertOdd(0);
      FromOneLone(a, b, 1, h);
    }
    if r != Top(a, b) {
      StepsOnce(r, h);
      AtBase(Base(a, b), h);
    }
  }

  lemma RoundFour(a: nat, b: nat, q: nat, h: nat)
    requires b >= 3 && q > 0 && 8 * q + 4 < Pow2(b) && Base(a, b) <= h < Top(a, b)
    ensures Descends(a, b, 8 * q + 4, h)
  {
    hide InvertLowestOne, GetSkipHeight, Base, Top, Pow2, Next, Steps, EndingOf, Ones;
    FromFour(a, b, q, h);
    EndsInFour(q);
    EndsInOne(4 * q + 1);
    OnesOfEighth(q);
    OnesZero(q);
  }

  lemma RoundTwo(a: nat, b: nat, q: nat, h: nat)
    requires b >= 3 && q > 0 && 4 * q + 2 < Pow2(b) && Base(a, b) <= h < Top(a, b)
    ensures Descends(a, b, 4 * q + 2, h)
  {
    hide InvertLowestOne, GetSkipHeight, Base, Top, Pow2, Next, Steps, EndingOf, Ones;
    EndsInTwo(q);
    OnesOfQuarter(q);
    OnesInvert(q);
    EndsInOne(2 * q);
    if InvertLowestOne(q) > 0 {
      FromTwo(a, b, q, h);
    } else {
      FromTwoLone(a, b, q, h);
      if Next(Top(a, b) + (4 * q + 2), h) != Top(a, b) + 4 * q {
        InvertEven(q);
        FromOneLone(a, b, 2 * q, h);
        StepsOnce(Top(a, b) + 4 * q + 1, h);
        AtBase(Base(a, b), h);
      }
    }
  }

  lemma RoundAbove(a: nat, b: nat, x: nat, h: nat)
    requires b >= 3 && 0 < x < Pow2(b) && Base(a, b) <= h < Top(a, b)
    ensures Descends(a, b, x, h)
  {
    hide InvertLowestOne, GetSkipHeight, Base, Top, Pow2, Next, Steps, Ones, Descends, Descent, EndingOf;
    match EndingOf(x)
    case InOne =>
      var q := OfOne(x);
      if x == 1 { RoundNextToTop(a, b, h); } else { RoundOne(a, b, q, h); }
    case InZeros =>
      var q := OfZeros(x);
      RoundZeros(a, b, q, h);
    case InFour =>
      var q := OfFour(x);
      if x == 4 { RoundLone(a, b, x, h); } else { RoundFour(a, b, q, h); }
    case InTwo =>
      var q := OfTwo(x);
      if x == 2 { RoundLone(a, b, x, h); } else { RoundTwo(a, b, q, h); }
  }

  function Max(a: nat, b: nat): nat { if a < b then b else a }

  /** At most so many ones are possible below 2^b with this ending. */
  function MostOnes(e: Ending, b: nat): nat
    requires b >= 3
  {
    match e
    case InOne => b
    case InZeros => b - 3
    case InFour => b - 2
    case InTwo => b - 1
  }

  lemma Pow2Parts(b: nat)
    requires b >= 3
    ensures Pow2(b) == 4 * Pow2(b - 2) == 8 * Pow2(b - 3)
  {
    assert Pow2(b) == 2 * Pow2(b - 1);
  }

  lemma OnesWithin(x: nat, b: nat)
    requires b >= 3 && x < Pow2(b)
    ensures Ones(x) <= MostOnes(EndingOf(x), b)
  {
    hide Ones, Pow2, EndingOf;
    Pow2Parts(b);
    match EndingOf(x)
    case InOne =>
      OnesBound(x, b);
    case InZeros =>
      var q := OfZeros(x);
      OnesOfEighth(q);
      OnesBound(q, b - 3);
    case InFour =>
      var q := OfFour(x);
      OnesOfEighth(q);
      OnesBound(q, b - 3);
    case InTwo =>
      var q := OfTwo(x);
      OnesOfQuarter(q);
      OnesBound(q, b - 2);
  }

  lemma DescentBound(x: nat, b: nat)
    requires b >= 3 && x < Pow2(b)
    ensures Descent(x) <= Max(b - 2, (b + 5) / 2)
  {
    hide Ones, Pow2, EndingOf;
    OnesWithin(x, b);
  }

  lemma DescentOnes(b: nat)
    requires b >= 1
    ensures Descent(Pow2(b) - 1) == (b + 4) / 2
  {
    var q := Pow2(b - 1);
    assert Pow2(b) == 2 * q;
    OnesAll(b);
    hide Ones, Pow2, EndingOf;
    EndsInOne(q - 1);
  }

  lemma {:induction false} OnesAll(b: nat)
    ensures Ones(Pow2(b) - 1) == b
  {
    if b > 0 {
      OnesAll(b - 1);
      OnesLow(Pow2(b - 1) - 1);
    }
  }

  // ----- The whole walk -----

  /** Rounds from a number whose lowest b bits are ones to one that differs in these only. */
  function Rest(b: nat): nat {
    if b <= 3 then 4 else Rest(b - 1) + (b + 3) / 2
  }

  lemma RestNext(b: nat)
    ensures Rest(3) == 4 && Rest(b) >= 4 && (b > 3 ==> Rest(b) == Rest(b - 1) + (b + 3) / 2)
  {
  }

  /** From x above a top to a target below it. */
  lemma {:induction false} FromAbove(a: nat, b: nat, x: nat, h: nat)
    requires b >= 3 && x < Pow2(b) && Base(a, b) <= h < Top(a, b)
    ensures Steps(Top(a, b) + x, h) <= Descent(x) + Rest(b)
    decreases b, 1, x
  {
    hide InvertLowestOne, GetSkipHeight, Base, Top, Pow2, Next, Steps, Ones, Rest, Descent;
    StepsOnce(Top(a, b) + x, h);
    RestNext(b);
    if x == 0 {
      FromTop(a, b, h);
      SmallDescents();
      StepsNone(h);
      if h != Base(a, b) {
        BaseIs(a, b);
        AllOnes(2 * a, b, h);
      }
    } else {
      RoundAbove(a, b, x, h);
      var r := Next(Top(a, b) + x, h);
      if Top(a, b) <= r {
        FromAbove(a, b, r - Top(a, b), h);
      }
    }
  }

  /** From all ones in the lowest b bits to a target that differs in these only. */
  lemma {:induction false} AllOnes(c: nat, b: nat, h: nat)
    requires b >= 3 && c * Pow2(b) <= h < c * Pow2(b) + Pow2(b)
    ensures Steps(c * Pow2(b) + Pow2(b) - 1, h) <= Rest(b)
    decreases b, 0
  {
    hide Steps, Pow2, Base, Top, Rest, Descent;
    RestNext(b);
    if b == 3 {
      EightOnes(c, h);
    } else {
      var q := Pow2(b - 1);
      BaseIs(c, b - 1);
      if h >= Top(c, b - 1) {
        AllOnes(2 * c + 1, b - 1, h);
      } else {
        FromAbove(c, b - 1, q - 1, h);
        DescentOnes(b - 1);
      }
    }
  }

  lemma EightOnes(c: nat, h: nat)
    requires c * Pow2(3) <= h < c * Pow2(3) + Pow2(3)
    ensures Steps(c * Pow2(3) + Pow2(3) - 1, h) <= 4
  {
    assert Pow2(3) == 2 * Pow2(2) == 8;
    hide Steps;
    EightSteps(c, 7, h - 8 * c);
  }

  /** The most rounds between two heights below 2^k. */
  function WalkBound(k: nat): nat { if k <= 3 then 4 else Max(k - 3, (k + 4) / 2) + Rest(k - 1) }

  lemma WalkBoundGrows(k: nat)
    ensures WalkBound(k) <= WalkBound(k + 1)
  {
  }

  /** Two heights in the same aligned block of 2^k, from the first blocks on or anywhere above them. */
  lemma {:induction false} WithinBlock(c: nat, k: nat, w: nat, h: nat)
    requires k >= 3 && c * Pow2(k) <= h <= w < c * Pow2(k) + Pow2(k)
    ensures Steps(w, h) <= WalkBound(k)
    decreases k
  {
    hide Steps, Rest, Descent, Base, Top;
    if k == 3 {
      assert Pow2(3) == 2 * Pow2(2) == 8;
      EightSteps(c, w - 8 * c, h - 8 * c);
    } else {
      hide Pow2;
      BaseIs(c, k - 1);
      WalkBoundGrows(k - 1);
      if w < Top(c, k - 1) {
        WithinBlock(2 * c, k - 1, w, h);
      } else if h >= Top(c, k - 1) {
        WithinBlock(2 * c + 1, k - 1, w, h);
      } else {
        FromAbove(c, k - 1, w - Top(c, k - 1), h);
        DescentBound(w - Top(c, k - 1), k - 1);
      }
    }
  }

  /** Below 2^k. */
  lemma WalkWithin(k: nat, w: nat, h: nat)
    requires k >= 3 && h <= w < Pow2(k)
    ensures Steps(w, h) <= WalkBound(k)
  {
    hide Steps, WalkBound, Pow2;
    WithinBlock(0, k, w, h);
  }

  lemma {:induction false} RestSquare(k: nat)
    requires k >= 3
    ensures 4 * Rest(k) <= k * k + 8 * k - 17
  {
    if k > 3 {
      RestSquare(k - 1);
      Distribute(k - 1, 1, k - 1);
    }
  }

  /** The number of rounds grows at most with the square of the number of bits. */
  lemma WalkBoundSquare(k: nat)
    requires k >= 4
    ensures 4 * WalkBound(k) <= k * k + 10 * k
  {
    RestSquare(k - 1);
    Distribute(k - 1, 1, k - 1);
  }

  /** Going back from any height up to 2^18 takes at most 110 rounds. */
  lemma WalkOf110(w: nat, h: nat)
    requires h <= w <= 0x4_0000
    ensures Steps(w, h) <= 110
  {
    Pow2At18();
    RestAt18();
    hide Steps, Pow2, Rest, Descent, Base, Top;
    if w < 0x4_0000 {
      WalkWithin(18, w, h);
    } else if h == w {
      StepsNone(h);
    } else {
      BaseIs(0, 18);
      SmallDescents();
      FromAbove(0, 18, 0, h);
    }
  }

  lemma Pow2At18()
    ensures Pow2(18) == 0x4_0000
  {
    assert Pow2(6) == 64;
    Pow2Add(6, 6);
    Pow2Add(12, 6);
  }

  lemma RestAt18()
    ensures Rest(17) == 95 && Rest(18) == 105
  {
    assert Rest(8) == 25;
    assert Rest(13) == 59;
  }
}
