/**
 How many wrong values a Bech32 checksum is sure to detect (src/bech32.cpp).  The generator has the roots y^24,
 y^25 and y^26 in the field with 1024 elements, which makes the code a BCH code: evaluating remainders there
 turns a step into a multiplication, and three wrong values into three terms that cannot cancel.
 */
module Bech32Roots {
  import opened FieldBits
  import opened FieldPowers

  // ----- Multiplication by y^24, y^25 and y^26 -----

  const POWERS_24: seq<Element> := [0x3f0, 0x2c3, 0xa5, 0x14a, 0x294, 0xb, 0x16, 0x2c, 0x58, 0xb0]

  function Times24(a: Element): Element {
    var s0 := Plus(0, Chosen(a & 0x1 != 0, 0x3f0));
    var s1 := Plus(s0, Chosen(a & 0x2 != 0, 0x2c3));
    var s2 := Plus(s1, Chosen(a & 0x4 != 0, 0xa5));
    var s3 := Plus(s2, Chosen(a & 0x8 != 0, 0x14a));
    var s4 := Plus(s3, Chosen(a & 0x10 != 0, 0x294));
    var s5 := Plus(s4, Chosen(a & 0x20 != 0, 0xb));
    var s6 := Plus(s5, Chosen(a & 0x40 != 0, 0x16));
    var s7 := Plus(s6, Chosen(a & 0x80 != 0, 0x2c));
    var s8 := Plus(s7, Chosen(a & 0x100 != 0, 0x58));
    Plus(s8, Chosen(a & 0x200 != 0, 0xb0))
  }

  lemma {:induction false} CombYPow(a: Element, c: seq<Element>, d: seq<Element>, n: nat, k: nat)
    requires k <= 10 && k <= |c| && k <= |d| && forall i :: 0 <= i < k ==> d[i] == YPow(c[i], n)
    ensures YPow(Comb(a, c, k), n) == Comb(a, d, k)
  {
    hide YPow, Bit, Plus, Chosen;
    YPowZero(0, n);
    if k > 0 {
      CombYPow(a, c, d, n, k - 1);
      YPowLinear(Comb(a, c, k - 1), Chosen(Bit(a, k - 1), c[k - 1]), n);
      YPowChosen(Bit(a, k - 1), c[k - 1], n);
    }
  }

  lemma YPowChosen(b: bool, e: Element, n: nat)
    ensures YPow(Chosen(b, e), n) == Chosen(b, YPow(e, n))
  {
    YPowZero(0, n);
  }

  lemma Pow24()
    ensures Pow(24) == 0x3f0
  {
    hide Pow;
    PowOne();
    DoubledNext(1, 0x2, 0x8);
    Doubled(3, 0x8, 0x40);
    Doubled(6, 0x40, 0x1af);
    Doubled(12, 0x1af, 0x3f0);
  }

  lemma PowerSteps()
    ensures Y(0x3f0) == 0x2c3
    ensures Y(0x2c3) == 0xa5
    ensures Y(0xa5) == 0x14a
    ensures Y(0x14a) == 0x294
    ensures Y(0x294) == 0xb
    ensures Y(0xb) == 0x16
    ensures Y(0x16) == 0x2c
    ensures Y(0x2c) == 0x58
    ensures Y(0x58) == 0xb0
  {
  }

  /** y^24 up to y^33. */
  lemma PowersFrom24()
    ensures forall i: nat :: i < 10 ==> POWERS_24[i] == Pow(24 + i)
  {
    hide Pow, Y;
    Pow24();
    PowerSteps();
    PowNext(24);
    PowNext(25);
    PowNext(26);
    PowNext(27);
    PowNext(28);
    PowNext(29);
    PowNext(30);
    PowNext(31);
    PowNext(32);
  }

  lemma UnitsArePowers()
    ensures forall i: nat :: i < 10 ==> UNITS[i] == Pow(i)
  {
    hide Pow, Y;
    PowOne();
    UnitsTimesY();
    PowNext(0);
    PowNext(1);
    PowNext(2);
    PowNext(3);
    PowNext(4);
    PowNext(5);
    PowNext(6);
    PowNext(7);
    PowNext(8);
  }

  lemma Times24ByBits(a: Element)
    ensures Times24(a) == Comb(a, POWERS_24, 10)
  {
    hide Plus, Chosen, Bit, Comb;
    CombStart(a, POWERS_24);
    BitsIn(a);
    CombNext(a, POWERS_24, 0);
    CombNext(a, POWERS_24, 1);
    CombNext(a, POWERS_24, 2);
    CombNext(a, POWERS_24, 3);
    CombNext(a, POWERS_24, 4);
    CombNext(a, POWERS_24, 5);
    CombNext(a, POWERS_24, 6);
    CombNext(a, POWERS_24, 7);
    CombNext(a, POWERS_24, 8);
    CombNext(a, POWERS_24, 9);
  }

  lemma YPowNext(a: Element, n: nat)
    ensures YPow(a, n + 1) == Y(YPow(a, n))
  {
  }

  /** The exponent is a parameter so that it is not unfolded. */
  lemma Times24Is(a: Element, n: nat)
    requires n == 24
    ensures YPow(a, n) == Times24(a) && YPow(a, n + 1) == Y(Times24(a)) && YPow(a, n + 2) == Y(Y(Times24(a)))
  {
    hide Times24, Comb, Y, YPow;
    PowersFrom24();
    UnitsArePowers();
    forall i: nat | i < 10 ensures POWERS_24[i] == YPow(UNITS[i], n) {
      YPowAdd(1, i, n);
    }
    Expanded(a);
    CombYPow(a, UNITS, POWERS_24, n, 10);
    Times24ByBits(a);
    YPowNext(a, n);
    YPowNext(a, n + 1);
  }

  // ----- The powers of the roots, times the powers of a root of a^5 + a^3 + 1 -----

  datatype Row = Row(e0: Element, e1: Element, e2: Element, e3: Element, e4: Element)

  function RowTimes(r: Row, n: nat): Row {
    Row(YPow(r.e0, n), YPow(r.e1, n), YPow(r.e2, n), YPow(r.e3, n), YPow(r.e4, n))
  }

  /** A root of the generator, by its exponent above 24. */
  type Root = s: nat | s < 3

  /** Row g: the g-th power of a root, times the powers of the root of a^5 + a^3 + 1 that stands for {2}. */
  function Power(s: Root, g: nat): Row {
    if g == 0 then Row(0x1, 0xe, 0x54, 0x358, 0xbf)
    else match s
      case 0 =>
        if g == 1 then Row(0x3f0, 0x32c, 0x227, 0x320, 0x26f)
        else if g == 2 then Row(0x24d, 0x10c, 0x12d, 0xe3, 0x71)
        else if g == 3 then Row(0x2b9, 0x1b7, 0x24c, 0x102, 0x179)
        else if g == 4 then Row(0xb9, 0x37d, 0x149, 0x29b, 0x6b)
        else if g == 5 then Row(0x9, 0x7e, 0x2f4, 0x271, 0x64)
        else Row(0x2ba, 0x1a5, 0x2b0, 0x1c9, 0xb8)
      case 1 =>
        if g == 1 then Row(0x2c3, 0x37b, 0x16d, 0x363, 0x1fd)
        else if g == 2 then Row(0x372, 0x113, 0x197, 0x38c, 0x1c4)
        else if g == 3 then Row(0x144, 0x2dd, 0x3cf, 0x256, 0x18e)
        else if g == 4 then Row(0x1d6, 0x2, 0x1c, 0xa8, 0x393)
        else if g == 5 then Row(0x120, 0xa5, 0x3d5, 0x2da, 0x3e5)
        else Row(0xa6, 0x3c7, 0x226, 0x32e, 0x23b)
      case _ =>
        if g == 1 then Row(0xa5, 0x3d5, 0x2da, 0x3e5, 0x3fa)
        else if g == 2 then Row(0x2ad, 0x16f, 0x37f, 0x155, 0x233)
        else if g == 3 then Row(0x66, 0x264, 0xb2, 0x31f, 0x315)
        else if g == 4 then Row(0x3aa, 0x20, 0x1c0, 0xc6, 0x187)
        else if g == 5 then Row(0x27d, 0x2c, 0x188, 0x336, 0x2ab)
        else Row(0x98, 0x2b3, 0x1db, 0x44, 0x3b8)
  }

  function Multiplied(s: Root, a: Element): Element {
    if s == 0 then Times24(a) else if s == 1 then Y(Times24(a)) else Y(Y(Times24(a)))
  }

  lemma MultipliedIs(s: Root, a: Element, n: nat)
    requires n == 24
    ensures YPow(a, n + s) == Multiplied(s, a)
  {
    hide Times24, Y, YPow;
    Times24Is(a, n);
  }

  lemma Products24A()
    ensures Multiplied(0, 0x1) == 0x3f0
    ensures Multiplied(0, 0xe) == 0x32c
    ensures Multiplied(0, 0x54) == 0x227
    ensures Multiplied(0, 0x358) == 0x320
    ensures Multiplied(0, 0xbf) == 0x26f
    ensures Multiplied(0, 0x3f0) == 0x24d
    ensures Multiplied(0, 0x32c) == 0x10c
    ensures Multiplied(0, 0x227) == 0x12d
    ensures Multiplied(0, 0x320) == 0xe3
    ensures Multiplied(0, 0x26f) == 0x71
  {
  }

  lemma Products24B()
    ensures Multiplied(0, 0x24d) == 0x2b9
    ensures Multiplied(0, 0x10c) == 0x1b7
    ensures Multiplied(0, 0x12d) == 0x24c
    ensures Multiplied(0, 0xe3) == 0x102
    ensures Multiplied(0, 0x71) == 0x179
    ensures Multiplied(0, 0x2b9) == 0xb9
    ensures Multiplied(0, 0x1b7) == 0x37d
    ensures Multiplied(0, 0x24c) == 0x149
    ensures Multiplied(0, 0x102) == 0x29b
    ensures Multiplied(0, 0x179) == 0x6b
  {
  }

  lemma Products24C()
    ensures Multiplied(0, 0xb9) == 0x9
    ensures Multiplied(0, 0x37d) == 0x7e
    ensures Multiplied(0, 0x149) == 0x2f4
    ensures Multiplied(0, 0x29b) == 0x271
    ensures Multiplied(0, 0x6b) == 0x64
    ensures Multiplied(0, 0x9) == 0x2ba
    ensures Multiplied(0, 0x7e) == 0x1a5
    ensures Multiplied(0, 0x2f4) == 0x2b0
    ensures Multiplied(0, 0x271) == 0x1c9
    ensures Multiplied(0, 0x64) == 0xb8
  {
  }

  lemma Products25A()
    ensures Multiplied(1, 0x1) == 0x2c3
    ensures Multiplied(1, 0xe) == 0x37b
    ensures Multiplied(1, 0x54) == 0x16d
    ensures Multiplied(1, 0x358) == 0x363
    ensures Multiplied(1, 0xbf) == 0x1fd
    ensures Multiplied(1, 0x2c3) == 0x372
    ensures Multiplied(1, 0x37b) == 0x113
    ensures Multiplied(1, 0x16d) == 0x197
    ensures Multiplied(1, 0x363) == 0x38c
    ensures Multiplied(1, 0x1fd) == 0x1c4
  {
  }

  lemma Products25B()
    ensures Multiplied(1, 0x372) == 0x144
    ensures Multiplied(1, 0x113) == 0x2dd
    ensures Multiplied(1, 0x197) == 0x3cf
    ensures Multiplied(1, 0x38c) == 0x256
    ensures Multiplied(1, 0x1c4) == 0x18e
    ensures Multiplied(1, 0x144) == 0x1d6
    ensures Multiplied(1, 0x2dd) == 0x2
    ensures Multiplied(1, 0x3cf) == 0x1c
    ensures Multiplied(1, 0x256) == 0xa8
    ensures Multiplied(1, 0x18e) == 0x393
  {
  }

  lemma Products25C()
    ensures Multiplied(1, 0x1d6) == 0x120
    ensures Multiplied(1, 0x2) == 0xa5
    ensures Multiplied(1, 0x1c) == 0x3d5
    ensures Multiplied(1, 0xa8) == 0x2da
    ensures Multiplied(1, 0x393) == 0x3e5
    ensures Multiplied(1, 0x120) == 0xa6
    ensures Multiplied(1, 0xa5) == 0x3c7
    ensures Multiplied(1, 0x3d5) == 0x226
    ensures Multiplied(1, 0x2da) == 0x32e
    ensures Multiplied(1, 0x3e5) == 0x23b
  {
  }

  lemma Products26A()
    ensures Multiplied(2, 0x1) == 0xa5
    ensures Multiplied(2, 0xe) == 0x3d5
    ensures Multiplied(2, 0x54) == 0x2da
    ensures Multiplied(2, 0x358) == 0x3e5
    ensures Multiplied(2, 0xbf) == 0x3fa
    ensures Multiplied(2, 0xa5) == 0x2ad
    ensures Multiplied(2, 0x3d5) == 0x16f
    ensures Multiplied(2, 0x2da) == 0x37f
    ensures Multiplied(2, 0x3e5) == 0x155
    ensures Multiplied(2, 0x3fa) == 0x233
  {
  }

  lemma Products26B()
    ensures Multiplied(2, 0x2ad) == 0x66
    ensures Multiplied(2, 0x16f) == 0x264
    ensures Multiplied(2, 0x37f) == 0xb2
    ensures Multiplied(2, 0x155) == 0x31f
    ensures Multiplied(2, 0x233) == 0x315
    ensures Multiplied(2, 0x66) == 0x3aa
    ensures Multiplied(2, 0x264) == 0x20
    ensures Multiplied(2, 0xb2) == 0x1c0
    ensures Multiplied(2, 0x31f) == 0xc6
    ensures Multiplied(2, 0x315) == 0x187
  {
  }

  lemma Products26C()
    ensures Multiplied(2, 0x3aa) == 0x27d
    ensures Multiplied(2, 0x20) == 0x2c
    ensures Multiplied(2, 0x1c0) == 0x188
    ensures Multiplied(2, 0xc6) == 0x336
    ensures Multiplied(2, 0x187) == 0x2ab
    ensures Multiplied(2, 0x27d) == 0x98
    ensures Multiplied(2, 0x2c) == 0x2b3
    ensures Multiplied(2, 0x188) == 0x1db
    ensures Multiplied(2, 0x336) == 0x44
    ensures Multiplied(2, 0x2ab) == 0x3b8
  {
  }

  lemma PowerNext24(g: nat)
    requires g < 6
    ensures var r, t := Power(0, g), Power(0, g + 1);
      && Multiplied(0, r.e0) == t.e0 && Multiplied(0, r.e1) == t.e1 && Multiplied(0, r.e2) == t.e2
      && Multiplied(0, r.e3) == t.e3 && Multiplied(0, r.e4) == t.e4
  {
    hide Multiplied;
    if g < 2 {
      Products24A();
    } else if g < 4 {
      Products24B();
    } else {
      Products24C();
    }
  }

  lemma PowerNext25(g: nat)
    requires g < 6
    ensures var r, t := Power(1, g), Power(1, g + 1);
      && Multiplied(1, r.e0) == t.e0 && Multiplied(1, r.e1) == t.e1 && Multiplied(1, r.e2) == t.e2
      && Multiplied(1, r.e3) == t.e3 && Multiplied(1, r.e4) == t.e4
  {
    hide Multiplied;
    if g < 2 {
      Products25A();
    } else if g < 4 {
      Products25B();
    } else {
      Products25C();
    }
  }

  lemma PowerNext26(g: nat)
    requires g < 6
    ensures var r, t := Power(2, g), Power(2, g + 1);
      && Multiplied(2, r.e0) == t.e0 && Multiplied(2, r.e1) == t.e1 && Multiplied(2, r.e2) == t.e2
      && Multiplied(2, r.e3) == t.e3 && Multiplied(2, r.e4) == t.e4
  {
    hide Multiplied;
    if g < 2 {
      Products26A();
    } else if g < 4 {
      Products26B();
    } else {
      Products26C();
    }
  }

  /** Each row is the one before times the root. */
  lemma PowerNext(s: Root, g: nat, n: nat)
    requires g < 6 && n == 24
    ensures Power(s, g + 1) == RowTimes(Power(s, g), n + s)
  {
    hide Multiplied, YPow, Power;
    var r := Power(s, g);
    MultipliedIs(s, r.e0, n);
    MultipliedIs(s, r.e1, n);
    MultipliedIs(s, r.e2, n);
    MultipliedIs(s, r.e3, n);
    MultipliedIs(s, r.e4, n);
    if s == 0 {
      PowerNext24(g);
    } else if s == 1 {
      PowerNext25(g);
    } else {
      PowerNext26(g);
    }
  }
}

/**
 Remainders evaluated at the roots of the generator, and what it makes of three wrong values.
 */
module Bech32Distance {
  import opened Powers
  import opened Arithmetic
  import opened Bech32Values
  import opened Bech32Checksum
  import opened FieldBits
  import opened FieldPowers
  import opened Field1024
  import opened Bech32Roots

  // ----- Evaluation -----

  /** A 5-bit coefficient times the power in a row. */
  function Five(r: Row, b0: bool, b1: bool, b2: bool, b3: bool, b4: bool): Element {
    Plus(Plus(Plus(Plus(Chosen(b0, r.e0), Chosen(b1, r.e1)), Chosen(b2, r.e2)), Chosen(b3, r.e3)), Chosen(b4, r.e4))
  }

  function Term(r: Row, c: Word, p: nat): Element
    requires p <= 25
  {
    Five(r, c[p], c[p + 1], c[p + 2], c[p + 3], c[p + 4])
  }

  function Sum6(t0: Element, t1: Element, t2: Element, t3: Element, t4: Element, t5: Element): Element {
    Plus(Plus(Plus(Plus(Plus(t0, t1), t2), t3), t4), t5)
  }

  /** The value of a remainder at y^(24 + s). */
  function Eval(s: Root, c: Word): Element {
    Sum6(Term(Power(s, 0), c, 0), Term(Power(s, 1), c, 5), Term(Power(s, 2), c, 10),
         Term(Power(s, 3), c, 15), Term(Power(s, 4), c, 20), Term(Power(s, 5), c, 25))
  }

  lemma FiveXor(r: Row, a0: bool, a1: bool, a2: bool, a3: bool, a4: bool, b0: bool, b1: bool, b2: bool, b3: bool,
                b4: bool)
    ensures Five(r, a0 != b0, a1 != b1, a2 != b2, a3 != b3, a4 != b4)
         == Plus(Five(r, a0, a1, a2, a3, a4), Five(r, b0, b1, b2, b3, b4))
  {
    hide Plus, Chosen;
    ChosenPlus(a0, b0, r.e0);
    ChosenPlus(a1, b1, r.e1);
    ChosenPlus(a2, b2, r.e2);
    ChosenPlus(a3, b3, r.e3);
    ChosenPlus(a4, b4, r.e4);
    var x1, y1 := Plus(Chosen(a0, r.e0), Chosen(a1, r.e1)), Plus(Chosen(b0, r.e0), Chosen(b1, r.e1));
    PlusRegroup(Chosen(a0, r.e0), Chosen(b0, r.e0), Chosen(a1, r.e1), Chosen(b1, r.e1));
    PlusRegroup(x1, y1, Chosen(a2, r.e2), Chosen(b2, r.e2));
    var x2, y2 := Plus(x1, Chosen(a2, r.e2)), Plus(y1, Chosen(b2, r.e2));
    PlusRegroup(x2, y2, Chosen(a3, r.e3), Chosen(b3, r.e3));
    PlusRegroup(Plus(x2, Chosen(a3, r.e3)), Plus(y2, Chosen(b3, r.e3)), Chosen(a4, r.e4), Chosen(b4, r.e4));
  }

  lemma TermXor(r: Row, a: Word, b: Word, p: nat)
    requires p <= 25
    ensures Term(r, Xor(a, b), p) == Plus(Term(r, a, p), Term(r, b, p))
  {
    hide Plus, Five, Xor;
    XorAt(a, b, p);
    XorAt(a, b, p + 1);
    XorAt(a, b, p + 2);
    XorAt(a, b, p + 3);
    XorAt(a, b, p + 4);
    FiveXor(r, a[p], a[p + 1], a[p + 2], a[p + 3], a[p + 4], b[p], b[p + 1], b[p + 2], b[p + 3], b[p + 4]);
  }

  lemma SumPlus(a0: Element, a1: Element, a2: Element, a3: Element, a4: Element, a5: Element,
                b0: Element, b1: Element, b2: Element, b3: Element, b4: Element, b5: Element)
    ensures Sum6(Plus(a0, b0), Plus(a1, b1), Plus(a2, b2), Plus(a3, b3), Plus(a4, b4), Plus(a5, b5))
         == Plus(Sum6(a0, a1, a2, a3, a4, a5), Sum6(b0, b1, b2, b3, b4, b5))
  {
    hide Plus;
    var x1, y1 := Plus(a0, a1), Plus(b0, b1);
    var x2, y2 := Plus(x1, a2), Plus(y1, b2);
    var x3, y3 := Plus(x2, a3), Plus(y2, b3);
    var x4, y4 := Plus(x3, a4), Plus(y3, b4);
    PlusRegroup(a0, b0, a1, b1);
    PlusRegroup(x1, y1, a2, b2);
    PlusRegroup(x2, y2, a3, b3);
    PlusRegroup(x3, y3, a4, b4);
    PlusRegroup(x4, y4, a5, b5);
  }

  /** Evaluation is linear. */
  lemma EvalXor(s: Root, a: Word, b: Word)
    ensures Eval(s, Xor(a, b)) == Plus(Eval(s, a), Eval(s, b))
  {
    hide Plus, Term, Sum6, Power, Xor;
    TermXor(Power(s, 0), a, b, 0);
    TermXor(Power(s, 1), a, b, 5);
    TermXor(Power(s, 2), a, b, 10);
    TermXor(Power(s, 3), a, b, 15);
    TermXor(Power(s, 4), a, b, 20);
    TermXor(Power(s, 5), a, b, 25);
    SumPlus(Term(Power(s, 0), a, 0), Term(Power(s, 1), a, 5), Term(Power(s, 2), a, 10),
            Term(Power(s, 3), a, 15), Term(Power(s, 4), a, 20), Term(Power(s, 5), a, 25),
            Term(Power(s, 0), b, 0), Term(Power(s, 1), b, 5), Term(Power(s, 2), b, 10),
            Term(Power(s, 3), b, 15), Term(Power(s, 4), b, 20), Term(Power(s, 5), b, 25));
  }

  // ----- A step multiplies by the root -----

  lemma FiveTimes(r: Row, n: nat, b0: bool, b1: bool, b2: bool, b3: bool, b4: bool)
    ensures YPow(Five(r, b0, b1, b2, b3, b4), n) == Five(RowTimes(r, n), b0, b1, b2, b3, b4)
  {
    hide Plus, Chosen, YPow;
    YPowChosen(b0, r.e0, n);
    YPowChosen(b1, r.e1, n);
    YPowChosen(b2, r.e2, n);
    YPowChosen(b3, r.e3, n);
    YPowChosen(b4, r.e4, n);
    var x1 := Plus(Chosen(b0, r.e0), Chosen(b1, r.e1));
    var x2 := Plus(x1, Chosen(b2, r.e2));
    var x3 := Plus(x2, Chosen(b3, r.e3));
    YPowLinear(Chosen(b0, r.e0), Chosen(b1, r.e1), n);
    YPowLinear(x1, Chosen(b2, r.e2), n);
    YPowLinear(x2, Chosen(b3, r.e3), n);
    YPowLinear(x3, Chosen(b4, r.e4), n);
  }

  lemma SumTimes(t0: Element, t1: Element, t2: Element, t3: Element, t4: Element, t5: Element, n: nat)
    ensures YPow(Sum6(t0, t1, t2, t3, t4, t5), n)
         == Sum6(YPow(t0, n), YPow(t1, n), YPow(t2, n), YPow(t3, n), YPow(t4, n), YPow(t5, n))
  {
    hide Plus, YPow;
    var x1 := Plus(t0, t1);
    var x2 := Plus(x1, t2);
    var x3 := Plus(x2, t3);
    var x4 := Plus(x3, t4);
    YPowLinear(t0, t1, n);
    YPowLinear(x1, t2, n);
    YPowLinear(x2, t3, n);
    YPowLinear(x3, t4, n);
    YPowLinear(x4, t5, n);
  }

  lemma TermTimes(s: Root, g: nat, c: Word, n: nat)
    requires g < 6 && n == 24
    ensures YPow(Term(Power(s, g), c, 5 * g), n + s) == Term(Power(s, g + 1), c, 5 * g)
  {
    hide Five, YPow, Power;
    var p := 5 * g;
    PowerNext(s, g, n);
    FiveTimes(Power(s, g), n + s, c[p], c[p + 1], c[p + 2], c[p + 3], c[p + 4]);
  }

  /** The value times the root, term by term. */
  lemma EvalTimes(s: Root, c: Word, n: nat)
    requires n == 24
    ensures YPow(Eval(s, c), n + s)
         == Sum6(Term(Power(s, 1), c, 0), Term(Power(s, 2), c, 5), Term(Power(s, 3), c, 10),
                 Term(Power(s, 4), c, 15), Term(Power(s, 5), c, 20), Term(Power(s, 6), c, 25))
  {
    hide Term, YPow, Power, Sum6;
    TermTimes(s, 0, c, n);
    TermTimes(s, 1, c, n);
    TermTimes(s, 2, c, n);
    TermTimes(s, 3, c, n);
    TermTimes(s, 4, c, n);
    TermTimes(s, 5, c, n);
    SumTimes(Term(Power(s, 0), c, 0), Term(Power(s, 1), c, 5), Term(Power(s, 2), c, 10),
             Term(Power(s, 3), c, 15), Term(Power(s, 4), c, 20), Term(Power(s, 5), c, 25), n + s);
  }

  lemma FiveNone(r: Row)
    ensures Five(r, false, false, false, false, false) == 0
  {
  }

  lemma TermUpLow(r: Row, c: Word)
    ensures Term(r, ShiftUp(c), 0) == 0
  {
    hide Five;
    FiveNone(r);
  }

  lemma TermUpHigh(r: Row, c: Word, p: nat)
    requires 5 <= p <= 25
    ensures Term(r, ShiftUp(c), p) == Term(r, c, p - 5)
  {
    hide Five;
    var d := ShiftUp(c);
    assert d[p] == c[p - 5] && d[p + 1] == c[p - 4] && d[p + 2] == c[p - 3] && d[p + 3] == c[p - 2]
      && d[p + 4] == c[p - 1];
  }

  /** Shifting leaves out the highest term. */
  lemma EvalUp(s: Root, c: Word)
    ensures Plus(Eval(s, ShiftUp(c)), Term(Power(s, 6), c, 25))
         == Sum6(Term(Power(s, 1), c, 0), Term(Power(s, 2), c, 5), Term(Power(s, 3), c, 10),
                 Term(Power(s, 4), c, 15), Term(Power(s, 5), c, 20), Term(Power(s, 6), c, 25))
  {
    hide Term, Power, Plus, ShiftUp;
    TermUpLow(Power(s, 0), c);
    TermUpHigh(Power(s, 1), c, 5);
    TermUpHigh(Power(s, 2), c, 10);
    TermUpHigh(Power(s, 3), c, 15);
    TermUpHigh(Power(s, 4), c, 20);
    TermUpHigh(Power(s, 5), c, 25);
    PlusFacts(Term(Power(s, 1), c, 0), 0);
  }

  // ----- The fold is what the highest term becomes -----

  function Part(b: bool, w: Word): Word { if b then w else Zero() }

  function FoldWord(c: Word): Word {
    Xor(Xor(Xor(Xor(Part(c[25], MultipleWord(0)), Part(c[26], MultipleWord(1))), Part(c[27], MultipleWord(2))),
            Part(c[28], MultipleWord(3))), Part(c[29], MultipleWord(4)))
  }

  lemma TimesIs(c: Word)
    ensures Times(c) == Xor(ShiftUp(c), FoldWord(c))
  {
    hide Coefficient;
    forall i | 0 <= i < 30 ensures Times(c)[i] == Xor(ShiftUp(c), FoldWord(c))[i] {
      TimesAt(c, i);
      FoldAt(c, i);
    }
  }

  lemma FoldAt(c: Word, i: nat)
    requires i < 30
    ensures FoldWord(c)[i] == Folded(c, i)
  {
    hide Coefficient;
  }

  lemma TermZero(r: Row, p: nat)
    requires p <= 25
    ensures Term(r, Zero(), p) == 0
  {
    hide Five;
    FiveNone(r);
  }

  lemma EvalZero(s: Root)
    ensures Eval(s, Zero()) == 0
  {
    hide Power, Plus, Term;
    TermZero(Power(s, 0), 0);
    TermZero(Power(s, 1), 5);
    TermZero(Power(s, 2), 10);
    TermZero(Power(s, 3), 15);
    TermZero(Power(s, 4), 20);
    TermZero(Power(s, 5), 25);
    PlusFacts(0, 0);
  }

  lemma EvalPart(s: Root, b: bool, w: Word)
    ensures Eval(s, Part(b, w)) == Chosen(b, Eval(s, w))
  {
    hide Eval;
    EvalZero(s);
  }

  lemma MultipleBits0()
    ensures !Coefficient(0, 0) && Coefficient(0, 1) && !Coefficient(0, 2) && !Coefficient(0, 3) && Coefficient(0, 4)
    ensures Coefficient(0, 5) && !Coefficient(0, 6) && Coefficient(0, 7) && Coefficient(0, 8) && Coefficient(0, 9)
    ensures Coefficient(0, 10) && !Coefficient(0, 11) && Coefficient(0, 12) && !Coefficient(0, 13) && Coefficient(0, 14)
    ensures !Coefficient(0, 15) && !Coefficient(0, 16) && Coefficient(0, 17) && !Coefficient(0, 18)
      && Coefficient(0, 19)
    ensures !Coefficient(0, 20) && Coefficient(0, 21) && Coefficient(0, 22) && !Coefficient(0, 23) && Coefficient(0, 24)
    ensures Coefficient(0, 25) && !Coefficient(0, 26) && Coefficient(0, 27) && Coefficient(0, 28) && Coefficient(0, 29)
  {
    Pow2Table();
    hide Pow2;
  }

  lemma MultipleBits1()
    ensures Coefficient(1, 0) && !Coefficient(1, 1) && Coefficient(1, 2) && Coefficient(1, 3) && !Coefficient(1, 4)
    ensures Coefficient(1, 5) && Coefficient(1, 6) && !Coefficient(1, 7) && !Coefficient(1, 8) && Coefficient(1, 9)
    ensures Coefficient(1, 10) && Coefficient(1, 11) && !Coefficient(1, 12) && !Coefficient(1, 13)
      && !Coefficient(1, 14)
    ensures Coefficient(1, 15) && !Coefficient(1, 16) && !Coefficient(1, 17) && !Coefficient(1, 18)
      && !Coefficient(1, 19)
    ensures Coefficient(1, 20) && !Coefficient(1, 21) && Coefficient(1, 22) && !Coefficient(1, 23)
      && !Coefficient(1, 24)
    ensures Coefficient(1, 25) && Coefficient(1, 26) && !Coefficient(1, 27) && !Coefficient(1, 28) && Coefficient(1, 29)
  {
    Pow2Table();
    hide Pow2;
  }

  lemma MultipleBits2()
    ensures !Coefficient(2, 0) && Coefficient(2, 1) && !Coefficient(2, 2) && Coefficient(2, 3) && Coefficient(2, 4)
    ensures Coefficient(2, 5) && Coefficient(2, 6) && Coefficient(2, 7) && Coefficient(2, 8) && !Coefficient(2, 9)
    ensures !Coefficient(2, 10) && Coefficient(2, 11) && Coefficient(2, 12) && !Coefficient(2, 13)
      && !Coefficient(2, 14)
    ensures !Coefficient(2, 15) && Coefficient(2, 16) && !Coefficient(2, 17) && !Coefficient(2, 18)
      && !Coefficient(2, 19)
    ensures !Coefficient(2, 20) && Coefficient(2, 21) && !Coefficient(2, 22) && Coefficient(2, 23)
      && !Coefficient(2, 24)
    ensures Coefficient(2, 25) && Coefficient(2, 26) && Coefficient(2, 27) && Coefficient(2, 28) && !Coefficient(2, 29)
  {
    Pow2Table();
    hide Pow2;
  }

  lemma MultipleBits3()
    ensures Coefficient(3, 0) && !Coefficient(3, 1) && Coefficient(3, 2) && Coefficient(3, 3) && Coefficient(3, 4)
    ensures !Coefficient(3, 5) && Coefficient(3, 6) && Coefficient(3, 7) && Coefficient(3, 8) && Coefficient(3, 9)
    ensures !Coefficient(3, 10) && !Coefficient(3, 11) && Coefficient(3, 12) && Coefficient(3, 13)
      && !Coefficient(3, 14)
    ensures !Coefficient(3, 15) && !Coefficient(3, 16) && Coefficient(3, 17) && !Coefficient(3, 18)
      && !Coefficient(3, 19)
    ensures !Coefficient(3, 20) && !Coefficient(3, 21) && Coefficient(3, 22) && !Coefficient(3, 23)
      && Coefficient(3, 24)
    ensures !Coefficient(3, 25) && Coefficient(3, 26) && Coefficient(3, 27) && Coefficient(3, 28) && Coefficient(3, 29)
  {
    Pow2Table();
    hide Pow2;
  }

  lemma MultipleBits4()
    ensures Coefficient(4, 0) && Coefficient(4, 1) && !Coefficient(4, 2) && !Coefficient(4, 3) && Coefficient(4, 4)
    ensures Coefficient(4, 5) && !Coefficient(4, 6) && Coefficient(4, 7) && !Coefficient(4, 8) && Coefficient(4, 9)
    ensures !Coefficient(4, 10) && !Coefficient(4, 11) && !Coefficient(4, 12) && Coefficient(4, 13)
      && Coefficient(4, 14)
    ensures !Coefficient(4, 15) && !Coefficient(4, 16) && !Coefficient(4, 17) && Coefficient(4, 18)
      && !Coefficient(4, 19)
    ensures Coefficient(4, 20) && !Coefficient(4, 21) && !Coefficient(4, 22) && !Coefficient(4, 23)
      && !Coefficient(4, 24)
    ensures Coefficient(4, 25) && !Coefficient(4, 26) && Coefficient(4, 27) && !Coefficient(4, 28) && Coefficient(4, 29)
  {
    Pow2Table();
    hide Pow2;
  }

  lemma Pow2Table()
    ensures Pow2(0) == 0x1 && Pow2(1) == 0x2 && Pow2(2) == 0x4 && Pow2(3) == 0x8 && Pow2(4) == 0x10
    ensures Pow2(5) == 0x20 && Pow2(6) == 0x40 && Pow2(7) == 0x80 && Pow2(8) == 0x100 && Pow2(9) == 0x200
    ensures Pow2(10) == 0x400 && Pow2(11) == 0x800 && Pow2(12) == 0x1000 && Pow2(13) == 0x2000 && Pow2(14) == 0x4000
    ensures Pow2(15) == 0x8000 && Pow2(16) == 0x10000 && Pow2(17) == 0x20000 && Pow2(18) == 0x40000
      && Pow2(19) == 0x80000
    ensures Pow2(20) == 0x100000 && Pow2(21) == 0x200000 && Pow2(22) == 0x400000 && Pow2(23) == 0x800000
      && Pow2(24) == 0x1000000
    ensures Pow2(25) == 0x2000000 && Pow2(26) == 0x4000000 && Pow2(27) == 0x8000000 && Pow2(28) == 0x10000000
      && Pow2(29) == 0x20000000
  {
    assert Pow2(0) == 1;
    assert Pow2(1) == 2 * Pow2(0);
    assert Pow2(2) == 2 * Pow2(1);
    assert Pow2(3) == 2 * Pow2(2);
    assert Pow2(4) == 2 * Pow2(3);
    assert Pow2(5) == 2 * Pow2(4);
    assert Pow2(6) == 2 * Pow2(5);
    assert Pow2(7) == 2 * Pow2(6);
    assert Pow2(8) == 2 * Pow2(7);
    assert Pow2(9) == 2 * Pow2(8);
    assert Pow2(10) == 2 * Pow2(9);
    assert Pow2(11) == 2 * Pow2(10);
    assert Pow2(12) == 2 * Pow2(11);
    assert Pow2(13) == 2 * Pow2(12);
    assert Pow2(14) == 2 * Pow2(13);
    assert Pow2(15) == 2 * Pow2(14);
    assert Pow2(16) == 2 * Pow2(15);
    assert Pow2(17) == 2 * Pow2(16);
    assert Pow2(18) == 2 * Pow2(17);
    assert Pow2(19) == 2 * Pow2(18);
    assert Pow2(20) == 2 * Pow2(19);
    assert Pow2(21) == 2 * Pow2(20);
    assert Pow2(22) == 2 * Pow2(21);
    assert Pow2(23) == 2 * Pow2(22);
    assert Pow2(24) == 2 * Pow2(23);
    assert Pow2(25) == 2 * Pow2(24);
    assert Pow2(26) == 2 * Pow2(25);
    assert Pow2(27) == 2 * Pow2(26);
    assert Pow2(28) == 2 * Pow2(27);
    assert Pow2(29) == 2 * Pow2(28);
  }

  lemma EvalMultiple0(s: Root)
    ensures Eval(s, MultipleWord(0)) == Power(s, 6).e0
  {
    hide Coefficient;
    MultipleBits0();
    var w := MultipleWord(0);
    var t0 := Five(Power(s, 0), false, true, false, false, true);
    var t1 := Five(Power(s, 1), true, false, true, true, true);
    var t2 := Five(Power(s, 2), true, false, true, false, true);
    var t3 := Five(Power(s, 3), false, false, true, false, true);
    var t4 := Five(Power(s, 4), false, true, true, false, true);
    var t5 := Five(Power(s, 5), true, false, true, true, true);
    if s == 0 {
      assert t0 == 0xb1;
      assert t1 == 0x98;
      assert t2 == 0x311;
      assert t3 == 0x335;
      assert t4 == 0x25f;
      assert t5 == 0xe8;
    } else if s == 1 {
      assert t0 == 0xb1;
      assert t1 == 0x130;
      assert t2 == 0x321;
      assert t3 == 0x241;
      assert t4 == 0x38d;
      assert t5 == 0x3ca;
    } else {
      assert t0 == 0xb1;
      assert t1 == 0x260;
      assert t2 == 0x3e1;
      assert t3 == 0x3a7;
      assert t4 == 0x67;
      assert t5 == 0x268;
    }
  }

  lemma EvalMultiple1(s: Root)
    ensures Eval(s, MultipleWord(1)) == Power(s, 6).e1
  {
    hide Coefficient;
    MultipleBits1();
    var w := MultipleWord(1);
    var t0 := Five(Power(s, 0), true, false, true, true, false);
    var t1 := Five(Power(s, 1), true, true, false, false, true);
    var t2 := Five(Power(s, 2), true, true, false, false, false);
    var t3 := Five(Power(s, 3), true, false, false, false, false);
    var t4 := Five(Power(s, 4), true, false, true, false, false);
    var t5 := Five(Power(s, 5), true, true, false, false, true);
    if s == 0 {
      assert t0 == 0x30d;
      assert t1 == 0x2b3;
      assert t2 == 0x341;
      assert t3 == 0x2b9;
      assert t4 == 0x1f0;
      assert t5 == 0x13;
    } else if s == 1 {
      assert t0 == 0x30d;
      assert t1 == 0x45;
      assert t2 == 0x261;
      assert t3 == 0x144;
      assert t4 == 0x1ca;
      assert t5 == 0x260;
    } else {
      assert t0 == 0x30d;
      assert t1 == 0x8a;
      assert t2 == 0x3c2;
      assert t3 == 0x66;
      assert t4 == 0x26a;
      assert t5 == 0xfa;
    }
  }

  lemma EvalMultiple2(s: Root)
    ensures Eval(s, MultipleWord(2)) == Power(s, 6).e2
  {
    hide Coefficient;
    MultipleBits2();
    var w := MultipleWord(2);
    var t0 := Five(Power(s, 0), false, true, false, true, true);
    var t1 := Five(Power(s, 1), true, true, true, true, false);
    var t2 := Five(Power(s, 2), false, true, true, false, false);
    var t3 := Five(Power(s, 3), false, true, false, false, false);
    var t4 := Five(Power(s, 4), false, true, false, true, false);
    var t5 := Five(Power(s, 5), true, true, true, true, false);
    if s == 0 {
      assert t0 == 0x3e9;
      assert t1 == 0x1db;
      assert t2 == 0x21;
      assert t3 == 0x1b7;
      assert t4 == 0x1e6;
      assert t5 == 0xf2;
    } else if s == 1 {
      assert t0 == 0x3e9;
      assert t1 == 0x3b6;
      assert t2 == 0x84;
      assert t3 == 0x2dd;
      assert t4 == 0xaa;
      assert t5 == 0x8a;
    } else {
      assert t0 == 0x3e9;
      assert t1 == 0x24f;
      assert t2 == 0x210;
      assert t3 == 0x264;
      assert t4 == 0xe6;
      assert t5 == 0xef;
    }
  }

  lemma EvalMultiple3(s: Root)
    ensures Eval(s, MultipleWord(3)) == Power(s, 6).e3
  {
    hide Coefficient;
    MultipleBits3();
    var w := MultipleWord(3);
    var t0 := Five(Power(s, 0), true, false, true, true, true);
    var t1 := Five(Power(s, 1), false, true, true, true, true);
    var t2 := Five(Power(s, 2), false, false, true, true, false);
    var t3 := Five(Power(s, 3), false, false, true, false, false);
    var t4 := Five(Power(s, 4), false, false, true, false, true);
    var t5 := Five(Power(s, 5), false, true, true, true, true);
    if s == 0 {
      assert t0 == 0x3b2;
      assert t1 == 0x44;
      assert t2 == 0x1ce;
      assert t3 == 0x24c;
      assert t4 == 0x122;
      assert t5 == 0x9f;
    } else if s == 1 {
      assert t0 == 0x3b2;
      assert t1 == 0x88;
      assert t2 == 0x21b;
      assert t3 == 0x3cf;
      assert t4 == 0x38f;
      assert t5 == 0x24f;
    } else {
      assert t0 == 0x3b2;
      assert t1 == 0x110;
      assert t2 == 0x22a;
      assert t3 == 0xb2;
      assert t4 == 0x47;
      assert t5 == 0x39;
    }
  }

  lemma EvalMultiple4(s: Root)
    ensures Eval(s, MultipleWord(4)) == Power(s, 6).e4
  {
    hide Coefficient;
    MultipleBits4();
    var w := MultipleWord(4);
    var t0 := Five(Power(s, 0), true, true, false, false, true);
    var t1 := Five(Power(s, 1), true, false, true, false, true);
    var t2 := Five(Power(s, 2), false, false, false, true, true);
    var t3 := Five(Power(s, 3), false, false, false, true, false);
    var t4 := Five(Power(s, 4), true, false, false, false, false);
    var t5 := Five(Power(s, 5), true, false, true, false, true);
    if s == 0 {
      assert t0 == 0xb0;
      assert t1 == 0x3b8;
      assert t2 == 0x92;
      assert t3 == 0x102;
      assert t4 == 0xb9;
      assert t5 == 0x299;
    } else if s == 1 {
      assert t0 == 0xb0;
      assert t1 == 0x253;
      assert t2 == 0x248;
      assert t3 == 0x256;
      assert t4 == 0x1d6;
      assert t5 == 0x110;
    } else {
      assert t0 == 0xb0;
      assert t1 == 0x185;
      assert t2 == 0x366;
      assert t3 == 0x31f;
      assert t4 == 0x3aa;
      assert t5 == 0x15e;
    }
  }

  lemma EvalFold(s: Root, c: Word)
    ensures Eval(s, FoldWord(c)) == Term(Power(s, 6), c, 25)
  {
    hide Eval, Xor, Part, Power, Plus, Chosen, MultipleWord;
    var w0, w1, w2 := Part(c[25], MultipleWord(0)), Part(c[26], MultipleWord(1)), Part(c[27], MultipleWord(2));
    var w3, w4 := Part(c[28], MultipleWord(3)), Part(c[29], MultipleWord(4));
    EvalXor(s, w0, w1);
    EvalXor(s, Xor(w0, w1), w2);
    EvalXor(s, Xor(Xor(w0, w1), w2), w3);
    EvalXor(s, Xor(Xor(Xor(w0, w1), w2), w3), w4);
    EvalPart(s, c[25], MultipleWord(0));
    EvalPart(s, c[26], MultipleWord(1));
    EvalPart(s, c[27], MultipleWord(2));
    EvalPart(s, c[28], MultipleWord(3));
    EvalPart(s, c[29], MultipleWord(4));
    EvalMultiple0(s);
    EvalMultiple1(s);
    EvalMultiple2(s);
    EvalMultiple3(s);
    EvalMultiple4(s);
  }

  /** y^(24 + s) is a root of the generator: multiplying by x modulo the generator multiplies the value there. */
  lemma EvalStep(s: Root, c: Word, n: nat)
    requires n == 24
    ensures Eval(s, Times(c)) == YPow(Eval(s, c), n + s)
  {
    hide Eval, Xor, Times, ShiftUp, FoldWord, Plus, Term, Power, YPow, Sum6;
    TimesIs(c);
    EvalXor(s, ShiftUp(c), FoldWord(c));
    EvalFold(s, c);
    EvalUp(s, c);
    EvalTimes(s, c, n);
  }

  lemma {:induction false} EvalCarried(s: Root, c: Word, k: nat, n: nat)
    requires n == 24
    ensures Eval(s, Carried(c, k)) == YPow(Eval(s, c), (n + s) * k)
  {
    hide Eval, Times, YPow;
    if k == 0 {
      YPowNone(Eval(s, c));
    } else {
      EvalCarried(s, c, k - 1, n);
      EvalStep(s, Carried(c, k - 1), n);
      YPowAdd(Eval(s, c), (n + s) * (k - 1), n + s);
      Distribute(k - 1, 1, n + s);
    }
  }

  lemma YPowNone(a: Element)
    ensures YPow(a, 0) == a
  {
  }

  // ----- Wrong values -----

  /** What a wrong value adds, at any root. */
  function Error(u: Value, v: Value): Element {
    Five(Row(0x1, 0xe, 0x54, 0x358, 0xbf), BitOf(u, 0) != BitOf(v, 0), BitOf(u, 1) != BitOf(v, 1),
         BitOf(u, 2) != BitOf(v, 2), BitOf(u, 3) != BitOf(v, 3), BitOf(u, 4) != BitOf(v, 4))
  }

  /** The powers of the root of a^5 + a^3 + 1 are independent. */
  lemma FiveZero(b0: bool, b1: bool, b2: bool, b3: bool, b4: bool)
    requires Five(Row(0x1, 0xe, 0x54, 0x358, 0xbf), b0, b1, b2, b3, b4) == 0
    ensures !b0 && !b1 && !b2 && !b3 && !b4
  {
  }

  lemma ErrorZero(u: Value, v: Value)
    requires Error(u, v) == 0
    ensures u == v
  {
    FiveZero(BitOf(u, 0) != BitOf(v, 0), BitOf(u, 1) != BitOf(v, 1), BitOf(u, 2) != BitOf(v, 2),
             BitOf(u, 3) != BitOf(v, 3), BitOf(u, 4) != BitOf(v, 4));
    hide BitOf, Five;
    SameBits(u, v);
  }

  lemma LowBitsOf(u: Value, v: Value, i: nat)
    requires i < 30
    ensures Xor(Low(u), Low(v))[i] == (i < 5 && BitOf(u, i) != BitOf(v, i))
  {
    HighBits(u, i);
    HighBits(v, i);
    hide BitOf;
  }

  lemma TermHigh(r: Row, u: Value, v: Value, p: nat)
    requires 5 <= p <= 25
    ensures Term(r, Xor(Low(u), Low(v)), p) == 0
  {
    hide Five, Xor, Low;
    LowBitsOf(u, v, p);
    LowBitsOf(u, v, p + 1);
    LowBitsOf(u, v, p + 2);
    LowBitsOf(u, v, p + 3);
    LowBitsOf(u, v, p + 4);
    FiveNone(r);
  }

  lemma TermLow(s: Root, u: Value, v: Value)
    ensures Term(Power(s, 0), Xor(Low(u), Low(v)), 0) == Error(u, v)
  {
    hide Five, Xor, Low, BitOf;
    LowBitsOf(u, v, 0);
    LowBitsOf(u, v, 1);
    LowBitsOf(u, v, 2);
    LowBitsOf(u, v, 3);
    LowBitsOf(u, v, 4);
  }

  lemma EvalLow(s: Root, u: Value, v: Value)
    ensures Eval(s, Xor(Low(u), Low(v))) == Error(u, v)
  {
    hide Xor, Low, Term, Error, Plus, Power;
    TermLow(s, u, v);
    TermHigh(Power(s, 1), u, v, 5);
    TermHigh(Power(s, 2), u, v, 10);
    TermHigh(Power(s, 3), u, v, 15);
    TermHigh(Power(s, 4), u, v, 20);
    TermHigh(Power(s, 5), u, v, 25);
    PlusFacts(Error(u, v), 0);
  }

  lemma StepDifference(p: Word, q: Word, u: Value, v: Value)
    ensures Xor(Step(p, u), Step(q, v)) == Xor(Times(Xor(p, q)), Xor(Low(u), Low(v)))
  {
    TimesLinear(p, q);
    hide Times, Low, Xor;
    XorFacts(Times(p), Low(u), Times(q), Low(v));
  }

  /** The value of the difference of two states after values that agree, and one each that may not. */
  lemma DifferenceEval(s: Root, p: Word, q: Word, same: seq<Value>, u: Value, v: Value, n: nat)
    requires n == 24
    ensures Eval(s, Xor(Remainder(p, same + [u]), Remainder(q, same + [v])))
         == Plus(YPow(Eval(s, Xor(p, q)), (n + s) * (|same| + 1)), Error(u, v))
  {
    hide Eval, Xor, Times, YPow, Plus, Error, Step, Low;
    var a, b := Remainder(p, same), Remainder(q, same);
    assert (same + [u])[..|same|] == same && (same + [v])[..|same|] == same;
    StepDifference(a, b, u, v);
    EvalXor(s, Times(Xor(a, b)), Xor(Low(u), Low(v)));
    EvalLow(s, u, v);
    SameTail(p, q, same);
    EvalCarried(s, Xor(p, q), |same| + 1, n);
  }

  /** Three values with others between them. */
  function Three(a: seq<Value>, mid1: seq<Value>, mid2: seq<Value>): seq<Value>
    requires |a| == 3
  {
    [a[0]] + (mid1 + [a[1]]) + (mid2 + [a[2]])
  }

  /** The value of the whole difference: three terms. */
  lemma ThreeEval(s: Root, x: Word, a: seq<Value>, b: seq<Value>, mid1: seq<Value>, mid2: seq<Value>, n: nat)
    requires n == 24 && |a| == |b| == 3
    ensures var p, q := |mid1| + |mid2| + 2, |mid2| + 1;
      Eval(s, Xor(Remainder(x, Three(a, mid1, mid2)), Remainder(x, Three(b, mid1, mid2)))) ==
        Plus(Plus(YPow(Error(a[0], b[0]), (n + s) * p), YPow(Error(a[1], b[1]), (n + s) * q)), Error(a[2], b[2]))
  {
    hide Eval, Xor, YPow, Plus, Error, Step;
    var j, l1, l2 := n + s, |mid1| + 1, |mid2| + 1;
    var a1, b1 := Remainder(x, [a[0]]), Remainder(x, [b[0]]);
    var a2, b2 := Remainder(a1, mid1 + [a[1]]), Remainder(b1, mid1 + [b[1]]);
    RemainderSplit(x, [a[0]] + (mid1 + [a[1]]), mid2 + [a[2]]);
    RemainderSplit(x, [a[0]], mid1 + [a[1]]);
    RemainderSplit(x, [b[0]] + (mid1 + [b[1]]), mid2 + [b[2]]);
    RemainderSplit(x, [b[0]], mid1 + [b[1]]);
    FirstEval(s, x, a[0], b[0], n);
    DifferenceEval(s, a1, b1, mid1, a[1], b[1], n);
    DifferenceEval(s, a2, b2, mid2, a[2], b[2], n);
    var e0, e1 := Error(a[0], b[0]), Error(a[1], b[1]);
    YPowLinear(YPow(e0, j * l1), e1, j * l2);
    YPowAdd(e0, j * l1, j * l2);
    DistributeLeft(j, l1, l2);
  }

  lemma DistributeLeft(j: nat, a: nat, b: nat)
    ensures j * a + j * b == j * (a + b)
  {
    Distribute(a, b, j);
  }

  lemma FirstEval(s: Root, x: Word, u: Value, v: Value, n: nat)
    requires n == 24
    ensures Eval(s, Xor(Remainder(x, [u]), Remainder(x, [v]))) == Error(u, v)
  {
    hide Eval, Xor, YPow, Plus, Error, Step, Times;
    assert [] + [u] == [u] && [] + [v] == [v];
    DifferenceEval(s, x, x, [], u, v, n);
    XorFacts(x, x, x, x);
    EvalZero(s);
    YPowZero(0, (n + s) * 1);
    PlusFacts(Error(u, v), 0);
  }

  lemma ThreeDetected(x: Word, a: seq<Value>, b: seq<Value>, mid1: seq<Value>, mid2: seq<Value>)
    requires |a| == |b| == 3 && |mid1| + |mid2| + 3 <= 1023
    requires Remainder(x, Three(a, mid1, mid2)) == Remainder(x, Three(b, mid1, mid2))
    ensures a == b
  {
    hide Eval, Xor, YPow, Plus, Error, Remainder;
    var p, q, n := |mid1| + |mid2| + 2, |mid2| + 1, 24;
    var w := Remainder(x, Three(a, mid1, mid2));
    XorFacts(w, w, w, w);
    EvalZero(0);
    EvalZero(1);
    EvalZero(2);
    ThreeEval(0, x, a, b, mid1, mid2, n);
    ThreeEval(1, x, a, b, mid1, mid2, n);
    ThreeEval(2, x, a, b, mid1, mid2, n);
    ThreeZero(a, b, p, q, n);
  }

  lemma RemainderInjective(p: Word, q: Word, after: seq<Value>)
    requires Remainder(p, after) == Remainder(q, after)
    ensures p == q
  {
    hide Xor, Times, Remainder;
    SameTail(p, q, after);
    XorFacts(Remainder(p, after), Zero(), Zero(), Zero());
    XorFacts(p, q, p, q);
    if Xor(p, q) != Zero() {
      CarriedNonzero(Xor(p, q), |after|);
    }
  }

  /** Changing up to three values within 1023 places changes the remainder, whatever stands before, between
      and after them. */
  lemma ThreeErrors(x: Word, before: seq<Value>, a: seq<Value>, b: seq<Value>, mid1: seq<Value>, mid2: seq<Value>,
                    after: seq<Value>)
    requires |a| == |b| == 3 && a != b && |mid1| + |mid2| + 3 <= 1023
    ensures Remainder(x, before + Three(a, mid1, mid2) + after) != Remainder(x, before + Three(b, mid1, mid2) + after)
  {
    hide Remainder;
    var u, v := Three(a, mid1, mid2), Three(b, mid1, mid2);
    RemainderSplit(x, before + u, after);
    RemainderSplit(x, before + v, after);
    RemainderSplit(x, before, u);
    RemainderSplit(x, before, v);
    var y := Remainder(x, before);
    if Remainder(x, before + u + after) == Remainder(x, before + v + after) {
      RemainderInjective(Remainder(y, u), Remainder(y, v), after);
      ThreeDetected(y, a, b, mid1, mid2);
    }
  }

  ghost predicate SyndromeZero(a: seq<Value>, b: seq<Value>, p: nat, q: nat, j: nat)
    requires |a| == |b| == 3
  {
    Plus(Plus(YPow(Error(a[0], b[0]), j * p), YPow(Error(a[1], b[1]), j * q)), Error(a[2], b[2])) == 0
  }

  lemma ThreeZero(a: seq<Value>, b: seq<Value>, p: nat, q: nat, n: nat)
    requires |a| == |b| == 3 && 0 < q < p < 1023
    requires SyndromeZero(a, b, p, q, n) && SyndromeZero(a, b, p, q, n + 1) && SyndromeZero(a, b, p, q, n + 2)
    ensures a == b
  {
    hide YPow, Plus, Error;
    var e0, e1, e2 := Error(a[0], b[0]), Error(a[1], b[1]), Error(a[2], b[2]);
    YPowAdd(e0, n * p, p);
    YPowAdd(e0, n * p, 2 * p);
    YPowAdd(e1, n * q, q);
    YPowAdd(e1, n * q, 2 * q);
    Distribute(n, 1, p);
    Distribute(n, 2, p);
    Distribute(n, 1, q);
    Distribute(n, 2, q);
    ThreeTerms(YPow(e0, n * p), YPow(e1, n * q), e2, p, q);
    YPowZero(e0, n * p);
    YPowZero(e1, n * q);
    ErrorZero(a[0], b[0]);
    ErrorZero(a[1], b[1]);
    ErrorZero(a[2], b[2]);
  }
}
