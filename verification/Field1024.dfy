/**
 Bit vectors as elements of the field with 1024 elements: polynomials over bits modulo
 y^10 + y^8 + y^5 + y + 1.
 */
module FieldBits {
  type Element = bv10

  function Plus(a: Element, b: Element): Element { a ^ b }

  function Up(a: Element): Element { a << 1 }

  function Carry(a: Element): Element { if a & 0x200 != 0 then 0x123 else 0 }

  /** Multiplication by y. */
  function Y(a: Element): Element { Plus(Up(a), Carry(a)) }

  function Chosen(b: bool, e: Element): Element { if b then e else 0 }

  predicate Bit(a: Element, i: nat)
    requires i < 10
  {
    (a >> i) & 1 == 1
  }

  lemma PlusAssoc(a: Element, b: Element, c: Element)
    ensures Plus(Plus(a, b), c) == Plus(a, Plus(b, c))
  {
  }

  lemma PlusComm(a: Element, b: Element)
    ensures Plus(a, b) == Plus(b, a)
  {
  }

  lemma PlusRegroup(a: Element, b: Element, c: Element, d: Element)
    ensures Plus(Plus(a, b), Plus(c, d)) == Plus(Plus(a, c), Plus(b, d))
  {
    hide Plus;
    PlusAssoc(a, b, Plus(c, d));
    PlusAssoc(b, c, d);
    PlusComm(b, c);
    PlusAssoc(c, b, d);
    PlusAssoc(a, c, Plus(b, d));
  }

  lemma PlusFacts(a: Element, b: Element)
    ensures Plus(a, a) == 0 && Plus(a, 0) == a && Plus(0, a) == a && Plus(a, b) == Plus(b, a)
    ensures Plus(a, Plus(a, b)) == b && (Plus(a, b) == 0 <==> a == b)
  {
  }

  lemma Paired(a: Element, b: Element, c: Element, d: Element)
    requires Plus(a, b) == Plus(c, d)
    ensures Plus(a, c) == Plus(b, d)
  {
  }

  lemma PlusCancel(a: Element, b: Element, c: Element)
    requires Plus(a, c) == Plus(b, c)
    ensures a == b
  {
  }

  lemma UpLinear(a: Element, b: Element)
    ensures Up(Plus(a, b)) == Plus(Up(a), Up(b))
  {
  }

  lemma CarryLinear(a: Element, b: Element)
    ensures Carry(Plus(a, b)) == Plus(Carry(a), Carry(b))
  {
  }

  lemma YLinear(a: Element, b: Element)
    ensures Y(Plus(a, b)) == Plus(Y(a), Y(b))
  {
    hide Plus, Up, Carry;
    UpLinear(a, b);
    CarryLinear(a, b);
    PlusRegroup(Up(a), Up(b), Carry(a), Carry(b));
  }

  lemma YZero(a: Element)
    ensures Y(a) == 0 <==> a == 0
  {
  }

  lemma XorBit(a: bv10, b: bv10, i: nat)
    requires i < 10
    ensures ((a ^ b) >> i) & 1 == ((a >> i) & 1) ^ ((b >> i) & 1)
    ensures (a >> i) & 1 == 0 || (a >> i) & 1 == 1
    ensures (b >> i) & 1 == 0 || (b >> i) & 1 == 1
  {
  }

  lemma BitPlus(a: Element, b: Element, i: nat)
    requires i < 10
    ensures Bit(Plus(a, b), i) == (Bit(a, i) != Bit(b, i))
  {
    XorBit(a, b, i);
  }

  lemma ChosenPlus(a: bool, b: bool, e: Element)
    ensures Chosen(a != b, e) == Plus(Chosen(a, e), Chosen(b, e))
  {
    PlusFacts(e, 0);
    PlusFacts(0, 0);
    hide Plus;
    if a && b {
    } else if a || b {
    } else {
    }
  }

  lemma YChosen(b: bool, e: Element)
    ensures Y(Chosen(b, e)) == Chosen(b, Y(e))
  {
  }

  /** The bits of an element, as they stand. */
  lemma BitsIn(a: Element)
    ensures Bit(a, 0) == (a & 0x1 != 0)
    ensures Bit(a, 1) == (a & 0x2 != 0)
    ensures Bit(a, 2) == (a & 0x4 != 0)
    ensures Bit(a, 3) == (a & 0x8 != 0)
    ensures Bit(a, 4) == (a & 0x10 != 0)
    ensures Bit(a, 5) == (a & 0x20 != 0)
    ensures Bit(a, 6) == (a & 0x40 != 0)
    ensures Bit(a, 7) == (a & 0x80 != 0)
    ensures Bit(a, 8) == (a & 0x100 != 0)
    ensures Bit(a, 9) == (a & 0x200 != 0)
  {
  }

  /** Adding bit after bit. */
  lemma LowUpTo(a: Element)
    ensures Plus(a & 0x0, Chosen(Bit(a, 0), 0x1)) == a & 0x1
    ensures Plus(a & 0x1, Chosen(Bit(a, 1), 0x2)) == a & 0x3
    ensures Plus(a & 0x3, Chosen(Bit(a, 2), 0x4)) == a & 0x7
    ensures Plus(a & 0x7, Chosen(Bit(a, 3), 0x8)) == a & 0xf
    ensures Plus(a & 0xf, Chosen(Bit(a, 4), 0x10)) == a & 0x1f
  {
  }

  lemma AndUpTo(a: bv10)
    ensures (a & 0x1f) ^ (if (a >> 5) & 1 == 1 then 0x20 else 0) == a & 0x3f
    ensures (a & 0x3f) ^ (if (a >> 6) & 1 == 1 then 0x40 else 0) == a & 0x7f
    ensures (a & 0x7f) ^ (if (a >> 7) & 1 == 1 then 0x80 else 0) == a & 0xff
    ensures (a & 0xff) ^ (if (a >> 8) & 1 == 1 then 0x100 else 0) == a & 0x1ff
    ensures (a & 0x1ff) ^ (if (a >> 9) & 1 == 1 then 0x200 else 0) == a & 0x3ff
  {
  }

  lemma HighUpTo(a: Element)
    ensures Plus(a & 0x1f, Chosen(Bit(a, 5), 0x20)) == a & 0x3f
    ensures Plus(a & 0x3f, Chosen(Bit(a, 6), 0x40)) == a & 0x7f
    ensures Plus(a & 0x7f, Chosen(Bit(a, 7), 0x80)) == a & 0xff
    ensures Plus(a & 0xff, Chosen(Bit(a, 8), 0x100)) == a & 0x1ff
    ensures Plus(a & 0x1ff, Chosen(Bit(a, 9), 0x200)) == a & 0x3ff
  {
    AndUpTo(a);
  }
}

/**
 Multiplication by powers of y, sums of chosen elements, and squaring.
 */
module FieldPowers {
  import opened FieldBits

  // ----- Multiplication by y -----

  /** Multiplication by y^n. */
  function YPow(a: Element, n: nat): Element {
    if n == 0 then a else Y(YPow(a, n - 1))
  }

  lemma {:induction false} YPowLinear(a: Element, b: Element, n: nat)
    ensures YPow(Plus(a, b), n) == Plus(YPow(a, n), YPow(b, n))
  {
    hide Y, Plus;
    if n > 0 {
      YPowLinear(a, b, n - 1);
      YLinear(YPow(a, n - 1), YPow(b, n - 1));
    }
  }

  lemma {:induction false} YPowAdd(a: Element, m: nat, n: nat)
    ensures YPow(YPow(a, m), n) == YPow(a, m + n)
  {
    hide Y;
    if n > 0 {
      YPowAdd(a, m, n - 1);
    }
  }

  lemma {:induction false} YPowZero(a: Element, n: nat)
    ensures YPow(a, n) == 0 <==> a == 0
  {
    hide Y;
    if n > 0 {
      YPowZero(a, n - 1);
      YZero(YPow(a, n - 1));
    }
  }

  /** y^n */
  function Pow(n: nat): Element { YPow(1, n) }

  // ----- Linear combinations -----

  /** The sum of those of the first k elements that the bits of a choose. */
  function Comb(a: Element, c: seq<Element>, k: nat): Element
    requires k <= 10 && k <= |c|
  {
    if k == 0 then 0 else Plus(Comb(a, c, k - 1), Chosen(Bit(a, k - 1), c[k - 1]))
  }

  lemma {:induction false} CombLinear(a: Element, b: Element, c: seq<Element>, k: nat)
    requires k <= 10 && k <= |c|
    ensures Comb(Plus(a, b), c, k) == Plus(Comb(a, c, k), Comb(b, c, k))
  {
    hide Bit, Plus, Chosen;
    if k == 0 {
      PlusFacts(0, 0);
    } else {
      CombLinear(a, b, c, k - 1);
      BitPlus(a, b, k - 1);
      var s, t := Chosen(Bit(a, k - 1), c[k - 1]), Chosen(Bit(b, k - 1), c[k - 1]);
      ChosenPlus(Bit(a, k - 1), Bit(b, k - 1), c[k - 1]);
      PlusRegroup(Comb(a, c, k - 1), s, Comb(b, c, k - 1), t);
    }
  }

  /** Multiplication by y of a combination. */
  lemma {:induction false} CombY(a: Element, c: seq<Element>, d: seq<Element>, k: nat)
    requires k <= 10 && k <= |c| && k <= |d| && forall i :: 0 <= i < k ==> d[i] == Y(c[i])
    ensures Y(Comb(a, c, k)) == Comb(a, d, k)
  {
    hide Y, Bit, Plus, Chosen;
    YZero(0);
    if k > 0 {
      CombY(a, c, d, k - 1);
      YLinear(Comb(a, c, k - 1), Chosen(Bit(a, k - 1), c[k - 1]));
      YChosen(Bit(a, k - 1), c[k - 1]);
    }
  }

  // ----- Squaring -----

  const SQUARES: seq<Element> := [0x1, 0x4, 0x10, 0x40, 0x100, 0x123, 0x1af, 0x39f, 0x119, 0x147]

  function Square(a: Element): Element {
    var s0 := Plus(0, Chosen(a & 0x1 != 0, 0x1));
    var s1 := Plus(s0, Chosen(a & 0x2 != 0, 0x4));
    var s2 := Plus(s1, Chosen(a & 0x4 != 0, 0x10));
    var s3 := Plus(s2, Chosen(a & 0x8 != 0, 0x40));
    var s4 := Plus(s3, Chosen(a & 0x10 != 0, 0x100));
    var s5 := Plus(s4, Chosen(a & 0x20 != 0, 0x123));
    var s6 := Plus(s5, Chosen(a & 0x40 != 0, 0x1af));
    var s7 := Plus(s6, Chosen(a & 0x80 != 0, 0x39f));
    var s8 := Plus(s7, Chosen(a & 0x100 != 0, 0x119));
    Plus(s8, Chosen(a & 0x200 != 0, 0x147))
  }

  lemma SquareByBits(a: Element)
    ensures Square(a) == Comb(a, SQUARES, 10)
  {
    hide Plus, Chosen, Bit, Comb;
    CombStart(a, SQUARES);
    BitsIn(a);
    CombNext(a, SQUARES, 0);
    CombNext(a, SQUARES, 1);
    CombNext(a, SQUARES, 2);
    CombNext(a, SQUARES, 3);
    CombNext(a, SQUARES, 4);
    CombNext(a, SQUARES, 5);
    CombNext(a, SQUARES, 6);
    CombNext(a, SQUARES, 7);
    CombNext(a, SQUARES, 8);
    CombNext(a, SQUARES, 9);
  }

  const UNITS: seq<Element> := [0x1, 0x2, 0x4, 0x8, 0x10, 0x20, 0x40, 0x80, 0x100, 0x200]

  lemma CombStart(a: Element, c: seq<Element>)
    ensures Comb(a, c, 0) == 0
  {
  }

  lemma CombNext(a: Element, c: seq<Element>, k: nat)
    requires k < 10 && k < |c|
    ensures Comb(a, c, k + 1) == Plus(Comb(a, c, k), Chosen(Bit(a, k), c[k]))
  {
  }

  lemma LowHalf(a: Element)
    ensures Comb(a, UNITS, 5) == a & 0x1f
  {
    hide Plus, Chosen, Bit, Comb;
    CombStart(a, UNITS);
    LowUpTo(a);
    CombNext(a, UNITS, 0);
    CombNext(a, UNITS, 1);
    CombNext(a, UNITS, 2);
    CombNext(a, UNITS, 3);
    CombNext(a, UNITS, 4);
  }

  lemma HighHalf(a: Element)
    requires Comb(a, UNITS, 5) == a & 0x1f
    ensures Comb(a, UNITS, 10) == a & 0x3ff
  {
    hide Plus, Chosen, Bit, Comb;
    HighUpTo(a);
    CombNext(a, UNITS, 5);
    CombNext(a, UNITS, 6);
    CombNext(a, UNITS, 7);
    CombNext(a, UNITS, 8);
    CombNext(a, UNITS, 9);
  }

  /** Every element is the sum of its bits. */
  lemma Expanded(a: Element)
    ensures a == Comb(a, UNITS, 10)
  {
    hide Comb;
    LowHalf(a);
    HighHalf(a);
  }

  const SHIFTED: seq<Element> := [0x2, 0x4, 0x8, 0x10, 0x20, 0x40, 0x80, 0x100, 0x200, 0x123]
  const SHIFTED_SQUARES: seq<Element> := [0x4, 0x10, 0x40, 0x100, 0x123, 0x1af, 0x39f, 0x119, 0x147, 0x3f]

  lemma UnitsTimesY()
    ensures Y(0x1) == 0x2
    ensures Y(0x2) == 0x4
    ensures Y(0x4) == 0x8
    ensures Y(0x8) == 0x10
    ensures Y(0x10) == 0x20
    ensures Y(0x20) == 0x40
    ensures Y(0x40) == 0x80
    ensures Y(0x80) == 0x100
    ensures Y(0x100) == 0x200
    ensures Y(0x200) == 0x123
  {
  }

  lemma YByBits(a: Element)
    ensures Y(a) == Comb(a, SHIFTED, 10)
  {
    hide Y, Comb;
    UnitsTimesY();
    Expanded(a);
    CombY(a, UNITS, SHIFTED, 10);
  }

  lemma SquareLinear(a: Element, b: Element)
    ensures Square(Plus(a, b)) == Plus(Square(a), Square(b))
  {
    hide Plus, Square, Comb;
    SquareByBits(a);
    SquareByBits(b);
    SquareByBits(Plus(a, b));
    CombLinear(a, b, SQUARES, 10);
  }

  lemma SquareChosen(b: bool, e: Element)
    ensures Square(Chosen(b, e)) == Chosen(b, Square(e))
  {
    hide Square;
    SquareSmall();
  }

  lemma {:induction false} CombSquare(a: Element, c: seq<Element>, d: seq<Element>, k: nat)
    requires k <= 10 && k <= |c| && k <= |d| && forall i :: 0 <= i < k ==> d[i] == Square(c[i])
    ensures Square(Comb(a, c, k)) == Comb(a, d, k)
  {
    hide Bit, Plus, Chosen, Square;
    SquareSmall();
    if k > 0 {
      CombSquare(a, c, d, k - 1);
      SquareLinear(Comb(a, c, k - 1), Chosen(Bit(a, k - 1), c[k - 1]));
      SquareChosen(Bit(a, k - 1), c[k - 1]);
    }
  }

  lemma SquareSmall()
    ensures Square(0) == 0 && Square(1) == 1
  {
  }

  lemma LowSquaresShifted()
    ensures Square(0x2) == 0x4 && Square(0x4) == 0x10 && Square(0x8) == 0x40 && Square(0x10) == 0x100
    ensures Square(0x20) == 0x123
  {
  }

  lemma HighSquaresShifted()
    ensures Square(0x40) == 0x1af && Square(0x80) == 0x39f && Square(0x100) == 0x119 && Square(0x200) == 0x147
    ensures Square(0x123) == 0x3f
  {
  }

  lemma SquaresShifted()
    ensures forall i :: 0 <= i < 10 ==> SHIFTED_SQUARES[i] == Square(SHIFTED[i])
  {
    hide Square;
    LowSquaresShifted();
    HighSquaresShifted();
  }

  const Y_SQUARES: seq<Element> := [0x2, 0x8, 0x20, 0x80, 0x200, 0x246, 0x35e, 0x21d, 0x232, 0x28e]

  lemma SquaresOnce()
    ensures Y(0x1) == 0x2
    ensures Y(0x4) == 0x8
    ensures Y(0x10) == 0x20
    ensures Y(0x40) == 0x80
    ensures Y(0x100) == 0x200
    ensures Y(0x123) == 0x246
    ensures Y(0x1af) == 0x35e
    ensures Y(0x39f) == 0x21d
    ensures Y(0x119) == 0x232
    ensures Y(0x147) == 0x28e
  {
  }

  lemma SquaresTwice()
    ensures Y(0x2) == 0x4
    ensures Y(0x8) == 0x10
    ensures Y(0x20) == 0x40
    ensures Y(0x80) == 0x100
    ensures Y(0x200) == 0x123
    ensures Y(0x246) == 0x1af
    ensures Y(0x35e) == 0x39f
    ensures Y(0x21d) == 0x119
    ensures Y(0x232) == 0x147
    ensures Y(0x28e) == 0x3f
  {
  }

  lemma SquaresTimesY()
    ensures forall i :: 0 <= i < 10 ==> Y_SQUARES[i] == Y(SQUARES[i]) && SHIFTED_SQUARES[i] == Y(Y_SQUARES[i])
  {
    hide Y;
    SquaresOnce();
    SquaresTwice();
  }

  /** Squaring turns multiplication by y into multiplication by y^2. */
  lemma SquareY(a: Element)
    ensures Square(Y(a)) == Y(Y(Square(a)))
  {
    hide Y, Comb, Plus, Bit, Chosen, Square;
    SquareByBits(a);
    YByBits(a);
    SquaresShifted();
    SquaresTimesY();
    CombSquare(a, SHIFTED, SHIFTED_SQUARES, 10);
    CombY(a, SQUARES, Y_SQUARES, 10);
    CombY(a, Y_SQUARES, SHIFTED_SQUARES, 10);
  }

  lemma PowNext(n: nat)
    ensures Pow(n + 1) == Y(Pow(n))
  {
  }

  lemma {:induction false} PowSquare(n: nat)
    ensures Pow(2 * n) == Square(Pow(n))
  {
    hide Y, Square;
    if n == 0 {
      SquareSmall();
    } else {
      PowSquare(n - 1);
      SquareY(Pow(n - 1));
      PowNext(n - 1);
      PowNext(2 * n - 2);
      PowNext(2 * n - 1);
    }
  }

  // ----- The order of y -----

  lemma PowOne()
    ensures Pow(0) == 1 && Pow(1) == 2
  {
  }

  lemma Doubled(n: nat, p: Element, q: Element)
    requires Pow(n) == p && Square(p) == q
    ensures Pow(2 * n) == q
  {
    hide Square;
    PowSquare(n);
  }

  lemma DoubledNext(n: nat, p: Element, q: Element)
    requires Pow(n) == p && Y(Square(p)) == q
    ensures Pow(2 * n + 1) == q
  {
    hide Square, Y;
    PowSquare(n);
  }

  lemma Pow15()
    ensures Pow(15) == 0x21d
  {
    hide Pow;
    PowOne();
    DoubledNext(1, 0x2, 0x8);
    DoubledNext(3, 0x8, 0x80);
    DoubledNext(7, 0x80, 0x21d);
  }

  lemma Pow127()
    ensures Pow(127) == 0x1a3
  {
    hide Pow;
    Pow15();
    DoubledNext(15, 0x21d, 0x2c);
    DoubledNext(31, 0x2c, 0x2e6);
    DoubledNext(63, 0x2e6, 0x1a3);
  }

  lemma PowAll()
    ensures Pow(1023) == 0x1
  {
    hide Pow;
    Pow127();
    DoubledNext(127, 0x1a3, 0x263);
    DoubledNext(255, 0x263, 0x39c);
    DoubledNext(511, 0x39c, 0x1);
  }

  lemma Pow21()
    ensures Pow(21) == 0x7e
  {
    hide Pow;
    PowOne();
    Doubled(1, 0x2, 0x4);
    DoubledNext(2, 0x4, 0x20);
    Doubled(5, 0x20, 0x123);
    DoubledNext(10, 0x123, 0x7e);
  }

  lemma Pow341()
    ensures Pow(341) == 0x36
  {
    hide Pow;
    Pow21();
    Doubled(21, 0x7e, 0x1d8);
    DoubledNext(42, 0x1d8, 0x1f1);
    Doubled(85, 0x1f1, 0x30b);
    DoubledNext(170, 0x30b, 0x36);
  }

  lemma Pow11()
    ensures Pow(11) == 0x246
  {
    hide Pow;
    PowOne();
    Doubled(1, 0x2, 0x4);
    DoubledNext(2, 0x4, 0x20);
    DoubledNext(5, 0x20, 0x246);
  }

  lemma Pow93()
    ensures Pow(93) == 0x36a
  {
    hide Pow;
    Pow11();
    DoubledNext(11, 0x246, 0x1f8);
    Doubled(23, 0x1f8, 0x34a);
    DoubledNext(46, 0x34a, 0x36a);
  }

  lemma Pow33()
    ensures Pow(33) == 0xb0
  {
    hide Pow;
    PowOne();
    Doubled(1, 0x2, 0x4);
    Doubled(2, 0x4, 0x10);
    Doubled(4, 0x10, 0x100);
    Doubled(8, 0x100, 0x119);
    DoubledNext(16, 0x119, 0xb0);
  }
}

/**
 The numbers of the elements.
 */
module FieldNumbers {
  import opened FieldBits

  function NumberOf(a: Element): nat { a as nat }

  lemma NumberFacts(a: Element, b: Element)
    ensures NumberOf(a) < 1024 && (NumberOf(a) == NumberOf(b) ==> a == b) && (a == 0 <==> NumberOf(a) == 0)
  {
    assert (NumberOf(a) as bv10) == a && (NumberOf(b) as bv10) == b;
  }
}

/**
 y has order 1023, so that all elements but 0 are its powers, and what follows for sums of multiples of its
 powers.
 */
module Field1024 {
  import opened Arithmetic
  import opened FieldBits
  import opened FieldPowers
  import opened FieldNumbers

  lemma SameMultiple(a: Element, b: Element, n: nat)
    requires YPow(a, n) == YPow(b, n)
    ensures a == b
  {
    hide YPow, Plus;
    YPowLinear(a, b, n);
    YPowZero(Plus(a, b), n);
    PlusFacts(a, b);
    PlusFacts(YPow(a, n), YPow(b, n));
  }

  lemma PeriodLess(a: nat, b: nat)
    requires b <= a && Pow(a) == 1 && Pow(b) == 1
    ensures Pow(a - b) == 1
  {
    YPowAdd(1, b, a - b);
  }

  lemma {:induction false} PeriodTimes(g: nat, k: nat)
    requires Pow(g) == 1
    ensures Pow(k * g) == 1
  {
    if k == 0 {
      PowOne();
    } else {
      PeriodTimes(g, k - 1);
      Distribute(k - 1, 1, g);
      YPowAdd(1, (k - 1) * g, g);
    }
  }

  /** Two exponents with power 1 have a common divisor with power 1. */
  lemma {:induction false} PeriodDivisor(a: nat, b: nat) returns (g: nat, i: nat, j: nat)
    requires a > 0 && b > 0 && Pow(a) == 1 && Pow(b) == 1
    ensures Pow(g) == 1 && a == i * g && b == j * g
    decreases a + b
  {
    hide Pow;
    if a == b {
      g, i, j := a, 1, 1;
    } else if a > b {
      PeriodLess(a, b);
      g, i, j := PeriodDivisor(a - b, b);
      Distribute(i, j, g);
      i := i + j;
    } else {
      PeriodLess(b, a);
      g, i, j := PeriodDivisor(a, b - a);
      Distribute(j, i, g);
      j := j + i;
    }
  }

  lemma FactorBelow(i: nat, g: nat)
    requires 1 <= g <= 31 && i * g == 1023
    ensures i % 3 == 0 || i % 11 == 0 || i % 31 == 0
  {
    assert g == 1 || g == 2 || g == 3 || g == 4 || g == 5 || g == 6 || g == 7 || g == 8 || g == 9 || g == 10 || g == 11
      || g == 12 || g == 13 || g == 14 || g == 15 || g == 16 || g == 17 || g == 18 || g == 19 || g == 20 || g == 21
      || g == 22 || g == 23 || g == 24 || g == 25 || g == 26 || g == 27 || g == 28 || g == 29 || g == 30 || g == 31;
  }

  lemma FactorAbove(i: nat, g: nat)
    requires 2 <= i <= 31 && i * g == 1023
    ensures i == 3 || i == 11 || i == 31
  {
    assert i == 2 || i == 3 || i == 4 || i == 5 || i == 6 || i == 7 || i == 8 || i == 9 || i == 10 || i == 11
      || i == 12 || i == 13 || i == 14 || i == 15 || i == 16 || i == 17 || i == 18 || i == 19 || i == 20 || i == 21
      || i == 22 || i == 23 || i == 24 || i == 25 || i == 26 || i == 27 || i == 28 || i == 29 || i == 30 || i == 31;
  }

  /** 1023 is 3 * 11 * 31. */
  lemma PrimeFactor(i: nat, g: nat)
    requires i >= 2 && i * g == 1023
    ensures i % 3 == 0 || i % 11 == 0 || i % 31 == 0
  {
    if g <= 31 {
      FactorBelow(i, g);
    } else if i <= 31 {
      FactorAbove(i, g);
    } else {
      ProductMonotone(32, i, g);
    }
  }

  lemma PeriodPart(i: nat, g: nat, p: nat)
    requires p > 0 && i % p == 0 && Pow(g) == 1
    ensures exists n: nat :: p * n == i * g && Pow(n) == 1
  {
    var k := i / p;
    assert i == p * k;
    PeriodTimes(g, k);
    Associate(p, k, g);
  }

  /** y has order 1023. */
  lemma PowNotOne(d: nat)
    requires 0 < d < 1023
    ensures Pow(d) != 1
  {
    hide Pow;
    if Pow(d) == 1 {
      PowAll();
      Pow341();
      Pow93();
      Pow33();
      var g, i, j := PeriodDivisor(1023, d);
      if i < 2 {
        assert g == 1023;
        MultipleAway(j, g);
      } else {
        PrimeFactor(i, g);
        if i % 3 == 0 {
          PeriodPart(i, g, 3);
        } else if i % 11 == 0 {
          PeriodPart(i, g, 11);
        } else {
          PeriodPart(i, g, 31);
        }
      }
    }
  }

  lemma PowDistinct(i: nat, j: nat)
    requires i < j < 1023
    ensures Pow(i) != Pow(j)
  {
    if Pow(i) == Pow(j) {
      YPowAdd(1, j - i, i);
      hide YPow;
      SameMultiple(Pow(j - i), 1, i);
      PowNotOne(j - i);
    }
  }

  // ----- Every element but 0 is a power of y -----

  ghost function Orbit(n: nat): set<nat> { set k: nat | k < n :: NumberOf(Pow(k)) }

  lemma {:induction false} OrbitSize(n: nat)
    requires n <= 1023
    ensures |Orbit(n)| == n
  {
    hide Pow, NumberOf;
    if n == 0 {
      assert Orbit(0) == {};
    } else {
      OrbitSize(n - 1);
      var x := NumberOf(Pow(n - 1));
      assert Orbit(n) == Orbit(n - 1) + {x};
      if x in Orbit(n - 1) {
        var k: nat :| k < n - 1 && NumberOf(Pow(k)) == x;
        NumberFacts(Pow(k), Pow(n - 1));
        PowDistinct(k, n - 1);
      }
    }
  }

  ghost function Positive(n: nat): set<nat>
    ensures forall k: nat :: k in Positive(n) <==> 0 < k <= n
  {
    if n == 0 then {} else Positive(n - 1) + {n}
  }

  lemma {:induction false} PositiveSize(n: nat)
    ensures |Positive(n)| == n
  {
    if n > 0 {
      PositiveSize(n - 1);
    }
  }

  lemma SameSize(a: set<nat>, b: set<nat>)
    requires a <= b && |a| == |b|
    ensures a == b
  {
    var rest := b - a;
    assert b == a + rest && |b| == |a| + |rest|;
  }

  lemma IsPower(w: Element) returns (k: nat)
    requires w != 0
    ensures k < 1023 && Pow(k) == w
  {
    hide Pow, NumberOf;
    OrbitSize(1023);
    PositiveSize(1023);
    forall x | x in Orbit(1023) ensures x in Positive(1023) {
      var i: nat :| i < 1023 && NumberOf(Pow(i)) == x;
      NumberFacts(Pow(i), 0);
      PowNonzero(i);
    }
    SameSize(Orbit(1023), Positive(1023));
    NumberFacts(w, 0);
    assert NumberOf(w) in Orbit(1023);
    k :| k < 1023 && NumberOf(Pow(k)) == NumberOf(w);
    NumberFacts(Pow(k), w);
  }

  lemma PowNonzero(n: nat)
    ensures Pow(n) != 0
  {
    YPowZero(1, n);
  }

  /** Multiplication by y^d, for d below the order, leaves only 0 as it is. */
  lemma NotFixed(w: Element, d: nat)
    requires 0 < d < 1023 && YPow(w, d) == w
    ensures w == 0
  {
    if w != 0 {
      var k := IsPower(w);
      YPowAdd(1, k, d);
      YPowAdd(1, d, k);
      hide YPow;
      SameMultiple(Pow(d), 1, k);
      PowNotOne(d);
    }
  }

  // ----- Three terms -----

  lemma {:induction false} TwiceLess(v: Element, p: nat)
    ensures var w := Plus(YPow(v, p), v); Plus(YPow(v, 2 * p), v) == Plus(YPow(w, p), w)
  {
    hide YPow, Plus;
    var u := YPow(v, p);
    YPowAdd(v, p, p);
    YPowLinear(u, v, p);
    PlusRegroup(YPow(u, p), u, u, v);
    PlusFacts(u, v);
    PlusRegroup(YPow(u, p), u, v, u);
    PlusRegroup(YPow(u, p), v, u, u);
    PlusFacts(Plus(YPow(u, p), v), 0);
  }

  /** Three multiples of different powers of y that cancel together with their first and second multiples by
      these powers are all zero. */
  lemma ThreeTerms(a: Element, b: Element, c: Element, p: nat, q: nat)
    requires 0 < q < p < 1023
    requires Plus(Plus(a, b), c) == 0
    requires Plus(Plus(YPow(a, p), YPow(b, q)), c) == 0
    requires Plus(Plus(YPow(a, 2 * p), YPow(b, 2 * q)), c) == 0
    ensures a == 0 && b == 0 && c == 0
  {
    hide YPow, Plus;
    var u, v := Plus(YPow(a, p), a), Plus(YPow(b, q), b);
    PlusFacts(Plus(a, b), c);
    PlusFacts(Plus(YPow(a, p), YPow(b, q)), c);
    PlusFacts(Plus(YPow(a, 2 * p), YPow(b, 2 * q)), c);
    Paired(YPow(a, p), YPow(b, q), a, b);
    Paired(YPow(a, 2 * p), YPow(b, 2 * q), a, b);
    TwiceLess(a, p);
    TwiceLess(b, q);
    assert u == v;
    PlusCancel(YPow(u, p), YPow(u, q), u);
    YPowAdd(u, q, p - q);
    NotFixed(YPow(u, q), p - q);
    YPowZero(u, q);
    PlusFacts(YPow(a, p), a);
    PlusFacts(YPow(b, q), b);
    NotFixed(a, p);
    NotFixed(b, q);
    PlusFacts(0, 0);
  }

}
