/**
 The 5-bit values that Bech32 text stands for (src/bech32.cpp).
 */
module Bech32Values {
  type Value = v: nat | v < 32
}

/**
 The Bech32 checksum (src/bech32.cpp): 30-bit remainders as their bits, the step that takes in one
 5-bit value, and what being linear over exclusive or and injective makes of it.
 */
module Bech32Checksum {
  import opened Powers
  import opened Bech32Values

  type Word = w: seq<bool> | |w| == 30 witness seq(30, _ => false)

  function Zero(): Word { seq(30, _ => false) }
  function One(): Word { seq(30, i => i == 0) }

  function Xor(a: Word, b: Word): Word { seq(30, i requires 0 <= i < 30 => a[i] != b[i]) }

  /** Bit i of a 5-bit value. */
  predicate BitOf(v: nat, i: nat) {
    if i == 0 then v % 2 == 1 else if i == 1 then v / 2 % 2 == 1 else if i == 2 then v / 4 % 2 == 1
    else if i == 3 then v / 8 % 2 == 1 else if i == 4 then v / 16 % 2 == 1 else false
  }

  function FromBits(a: bool, b: bool, c: bool, d: bool, e: bool): Value {
    (if a then 1 else 0) + (if b then 2 else 0) + (if c then 4 else 0) + (if d then 8 else 0) + if e then 16 else 0
  }

  lemma FromBitsIs(a: bool, b: bool, c: bool, d: bool, e: bool)
    ensures var v := FromBits(a, b, c, d, e);
      BitOf(v, 0) == a && BitOf(v, 1) == b && BitOf(v, 2) == c && BitOf(v, 3) == d && BitOf(v, 4) == e
  {
  }

  lemma ValueFromBits(v: Value)
    ensures v == FromBits(BitOf(v, 0), BitOf(v, 1), BitOf(v, 2), BitOf(v, 3), BitOf(v, 4))
  {
  }

  /** A value as the lowest bits of a word. */
  function Low(v: Value): Word { seq(30, i requires 0 <= i < 30 => BitOf(v, i)) }

  /** {2^n}k(x), the multiples of the generator's lower part that are added for each bit n of the top value. */
  function Multiple(n: nat): nat {
    if n == 0 then 0x3b6a57b2 else if n == 1 then 0x26508e6d else if n == 2 then 0x1ea119fa
    else if n == 3 then 0x3d4233dd else 0x2a1462b3
  }

  predicate Coefficient(n: nat, i: nat) { Multiple(n) / Pow2(i) % 2 == 1 }

  function MultipleWord(n: nat): Word { seq(30, i requires 0 <= i < 30 => Coefficient(n, i)) }

  /** (c & 0x1ffffff) << 5 */
  function ShiftUp(c: Word): Word { seq(30, i requires 0 <= i < 30 => i >= 5 && c[i - 5]) }

  /** The constants selected by five bits, at one position. */
  predicate Selected(a: bool, b: bool, c: bool, d: bool, e: bool, k0: bool, k1: bool, k2: bool, k3: bool, k4: bool) {
    (a && k0) != ((b && k1) != ((c && k2) != ((d && k3) != (e && k4))))
  }

  /** Bit i of what the top value of c adds. */
  predicate Folded(c: Word, i: nat)
    requires i < 30
  {
    Selected(c[25], c[26], c[27], c[28], c[29], Coefficient(0, i), Coefficient(1, i), Coefficient(2, i),
             Coefficient(3, i), Coefficient(4, i))
  }

  /** Multiplication by x modulo the generator. */
  function Times(c: Word): Word { seq(30, i requires 0 <= i < 30 => ShiftUp(c)[i] != Folded(c, i)) }

  function Step(c: Word, v: Value): Word { Xor(Times(c), Low(v)) }

  lemma TimesLinear(a: Word, b: Word)
    ensures Times(Xor(a, b)) == Xor(Times(a), Times(b))
  {
    hide Times, Folded, Xor;
    forall i | 0 <= i < 30 ensures Times(Xor(a, b))[i] == Xor(Times(a), Times(b))[i] {
      FoldedLinear(a, b, i);
      TimesAt(Xor(a, b), i);
      TimesAt(a, i);
      TimesAt(b, i);
      XorAt(Times(a), Times(b), i);
      if i >= 5 {
        XorAt(a, b, i - 5);
      }
    }
  }

  lemma XorAt(a: Word, b: Word, i: nat)
    requires i < 30
    ensures Xor(a, b)[i] == (a[i] != b[i])
  {
  }

  lemma FoldedLinear(a: Word, b: Word, i: nat)
    requires i < 30
    ensures Folded(Xor(a, b), i) == (Folded(a, i) != Folded(b, i))
  {
    hide Coefficient, Xor;
    XorAt(a, b, 25);
    XorAt(a, b, 26);
    XorAt(a, b, 27);
    XorAt(a, b, 28);
    XorAt(a, b, 29);
  }

  // ----- Injectivity -----

  /** The lowest coefficients of the five constants. */
  lemma LowConstants()
    ensures !Coefficient(0, 0) && Coefficient(0, 1) && !Coefficient(0, 2) && !Coefficient(0, 3) && Coefficient(0, 4)
    ensures Coefficient(1, 0) && !Coefficient(1, 1) && Coefficient(1, 2) && Coefficient(1, 3) && !Coefficient(1, 4)
    ensures !Coefficient(2, 0) && Coefficient(2, 1) && !Coefficient(2, 2) && Coefficient(2, 3) && Coefficient(2, 4)
    ensures Coefficient(3, 0) && !Coefficient(3, 1) && Coefficient(3, 2) && Coefficient(3, 3) && Coefficient(3, 4)
    ensures Coefficient(4, 0) && Coefficient(4, 1) && !Coefficient(4, 2) && !Coefficient(4, 3) && Coefficient(4, 4)
  {
    assert Pow2(0) == 1 && Pow2(1) == 2 && Pow2(2) == 4 && Pow2(3) == 8 && Pow2(4) == 16;
    hide Pow2;
  }

  /** The lowest coefficient of the fold is zero only for the zero value. */
  lemma TopIsZero(c: Word)
    requires !Folded(c, 0) && !Folded(c, 1) && !Folded(c, 2) && !Folded(c, 3) && !Folded(c, 4)
    ensures !c[25] && !c[26] && !c[27] && !c[28] && !c[29]
  {
    LowConstants();
    hide Coefficient;
  }

  lemma NoFold(c: Word, i: nat)
    requires i < 30 && !c[25] && !c[26] && !c[27] && !c[28] && !c[29]
    ensures !Folded(c, i)
  {
    hide Coefficient;
  }

  lemma TimesAt(c: Word, i: nat)
    requires i < 30
    ensures Times(c)[i] == ((i >= 5 && c[i - 5]) != Folded(c, i))
  {
    hide Folded;
  }

  /** Multiplication by x sends only zero to zero. */
  lemma TimesInjective(c: Word)
    requires Times(c) == Zero()
    ensures c == Zero()
  {
    hide Times, Folded;
    forall i | 0 <= i < 30 ensures (i >= 5 && c[i - 5]) == Folded(c, i) {
      TimesAt(c, i);
    }
    TopIsZero(c);
    forall i | 0 <= i < 25 ensures !c[i] {
      NoFold(c, i + 5);
      assert (i + 5 >= 5 && c[i + 5 - 5]) == Folded(c, i + 5);
    }
  }

  // ----- Remainders of whole sequences -----

  /** The remainder after taking in all the values, starting from c. */
  function Remainder(c: Word, vs: seq<Value>): Word {
    if vs == [] then c else Step(Remainder(c, vs[..|vs| - 1]), vs[|vs| - 1])
  }

  function PolyModSpec(vs: seq<Value>): Word { Remainder(One(), vs) }

  lemma {:induction false} RemainderSplit(c: Word, us: seq<Value>, vs: seq<Value>)
    ensures Remainder(c, us + vs) == Remainder(Remainder(c, us), vs)
    decreases |vs|
  {
    hide Step;
    if vs == [] {
      assert us + vs == us;
    } else {
      var t := us + vs;
      assert t[..|t| - 1] == us + vs[..|vs| - 1];
      RemainderSplit(c, us, vs[..|vs| - 1]);
    }
  }

  lemma XorFacts(a: Word, b: Word, c: Word, d: Word)
    ensures Xor(Xor(a, b), Xor(c, d)) == Xor(Xor(a, c), Xor(b, d))
    ensures Xor(a, a) == Zero() && Xor(a, Zero()) == a && Xor(a, Xor(a, b)) == b
    ensures Xor(a, b) == Zero() ==> a == b
  {
    if Xor(a, b) == Zero() {
      forall i | 0 <= i < 30 ensures a[i] == b[i] {
        assert !Xor(a, b)[i];
      }
    }
  }

  /** What is left of the difference of two states after n further values that agree. */
  function Carried(c: Word, n: nat): Word {
    if n == 0 then c else Times(Carried(c, n - 1))
  }

  lemma {:induction false} SameTail(a: Word, b: Word, vs: seq<Value>)
    ensures Xor(Remainder(a, vs), Remainder(b, vs)) == Carried(Xor(a, b), |vs|)
    decreases |vs|
  {
    hide Times, Xor, Low;
    if vs != [] {
      var us := vs[..|vs| - 1];
      SameTail(a, b, us);
      var p, q, l := Remainder(a, us), Remainder(b, us), Low(vs[|vs| - 1]);
      XorFacts(Times(p), l, Times(q), l);
      XorFacts(Xor(Times(p), Times(q)), l, l, l);
      XorFacts(l, l, l, l);
      TimesLinear(p, q);
    }
  }

  lemma {:induction false} CarriedNonzero(c: Word, n: nat)
    requires c != Zero()
    ensures Carried(c, n) != Zero()
  {
    hide Times;
    if n > 0 {
      CarriedNonzero(c, n - 1);
      if Carried(c, n) == Zero() {
        TimesInjective(Carried(c, n - 1));
      }
    }
  }

  // ----- Differences within six values -----

  /** No coefficient of x^5 or higher: the next step shifts without folding. */
  ghost predicate TopClear(d: Word) {
    !d[25] && !d[26] && !d[27] && !d[28] && !d[29]
  }

  /** The difference of two states after one more value each. */
  lemma DifferenceStep(p: Word, q: Word, u: Value, v: Value, i: nat)
    requires i < 30 && TopClear(Xor(p, q))
    ensures Xor(Step(p, u), Step(q, v))[i] == if i < 5 then BitOf(u, i) != BitOf(v, i) else Xor(p, q)[i - 5]
  {
    var d := Xor(p, q);
    TimesLinear(p, q);
    XorFacts(Times(p), Low(u), Times(q), Low(v));
    hide Xor, Times, Folded, BitOf;
    XorAt(Times(d), Xor(Low(u), Low(v)), i);
    XorAt(Low(u), Low(v), i);
    TimesAt(d, i);
    NoFold(d, i);
    HighBits(u, i);
    HighBits(v, i);
  }

  lemma HighBits(v: Value, i: nat)
    requires i < 30
    ensures Low(v)[i] == BitOf(v, i) && (i >= 5 ==> !BitOf(v, i))
  {
  }

  lemma SameBits(u: Value, v: Value)
    requires forall i: nat :: i < 5 ==> BitOf(u, i) == BitOf(v, i)
    ensures u == v
  {
    ValueFromBits(u);
    ValueFromBits(v);
  }

  /** Over at most six values, states drawn from the same start differ as long as the values do. */
  lemma {:induction false} WindowDiffers(x: Word, a: seq<Value>, b: seq<Value>)
    requires |a| == |b| <= 6
    ensures var d := Xor(Remainder(x, a), Remainder(x, b));
      (forall i :: 5 * |a| <= i < 30 ==> !d[i]) && (d == Zero() ==> a == b)
    decreases |a|
  {
    hide Step, BitOf;
    if a == [] {
      XorFacts(x, x, x, x);
    } else {
      var a', b' := a[..|a| - 1], b[..|b| - 1];
      var u, v := a[|a| - 1], b[|b| - 1];
      WindowDiffers(x, a', b');
      var p, q := Remainder(x, a'), Remainder(x, b');
      var d := Xor(Step(p, u), Step(q, v));
      forall i: nat | i < 30
        ensures d[i] == if i < 5 then BitOf(u, i) != BitOf(v, i) else Xor(p, q)[i - 5]
      {
        DifferenceStep(p, q, u, v, i);
      }
      if d == Zero() {
        WindowZero(p, q, u, v, |a'|, d);
        assert a == a' + [u] && b == b' + [v];
      }
    }
  }

  lemma WindowZero(p: Word, q: Word, u: Value, v: Value, k: nat, e: Word)
    requires k <= 5 && (forall i :: 5 * k <= i < 30 ==> !Xor(p, q)[i])
    requires forall i: nat :: i < 30 ==> e[i] == if i < 5 then BitOf(u, i) != BitOf(v, i) else Xor(p, q)[i - 5]
    requires e == Zero()
    ensures Xor(p, q) == Zero() && u == v
  {
    hide BitOf;
    forall i: nat | i < 5 ensures BitOf(u, i) == BitOf(v, i) {
      assert !e[i];
    }
    SameBits(u, v);
    var d := Xor(p, q);
    forall i | 0 <= i < 30 ensures !d[i] {
      if i < 25 {
        assert !e[i + 5];
      }
    }
  }

  /** Changing values within six consecutive places changes the remainder, whatever stands before and
      after them. */
  lemma BurstDetected(x: Word, before: seq<Value>, a: seq<Value>, b: seq<Value>, after: seq<Value>)
    requires |a| == |b| <= 6 && a != b
    ensures Remainder(x, before + a + after) != Remainder(x, before + b + after)
  {
    hide Step, Xor, Times;
    var y := Remainder(x, before);
    RemainderSplit(x, before, a);
    RemainderSplit(x, before, b);
    RemainderSplit(x, before + a, after);
    RemainderSplit(x, before + b, after);
    WindowDiffers(y, a, b);
    var p, q := Remainder(y, a), Remainder(y, b);
    SameTail(p, q, after);
    CarriedNonzero(Xor(p, q), |after|);
    XorFacts(Remainder(p, after), Zero(), Zero(), Zero());
  }

  // ----- Creating a checksum -----

  /** The j-th 5-bit group of a word, highest first: (w >> 5 * (5 - j)) & 31. */
  function Group(w: Word, j: nat): Value
    requires j < 6
  {
    var k := 25 - 5 * j;
    FromBits(w[k], w[k + 1], w[k + 2], w[k + 3], w[k + 4])
  }

  function Groups(w: Word): seq<Value> {
    [Group(w, 0), Group(w, 1), Group(w, 2), Group(w, 3), Group(w, 4), Group(w, 5)]
  }

  const SIX_ZEROS: seq<Value> := [0, 0, 0, 0, 0, 0]

  lemma GroupBits(w: Word, j: nat, i: nat)
    requires j < 6 && i < 5
    ensures BitOf(Group(w, j), i) == w[25 - 5 * j + i]
  {
    var k := 25 - 5 * j;
    FromBitsIs(w[k], w[k + 1], w[k + 2], w[k + 3], w[k + 4]);
  }

  lemma {:induction false} GroupsAdd(x: Word, w: Word, k: nat)
    requires k <= 6
    ensures forall i: nat :: i < 30 ==>
      Xor(Remainder(x, Groups(w)[..k]), Remainder(x, SIX_ZEROS[..k]))[i] == (i < 5 * k && w[30 - 5 * k + i])
  {
    hide Step, BitOf, Group;
    if k == 0 {
      XorFacts(x, x, x, x);
    } else {
      GroupsAdd(x, w, k - 1);
      var s, z := Groups(w)[..k], SIX_ZEROS[..k];
      assert s[..k - 1] == Groups(w)[..k - 1] && z[..k - 1] == SIX_ZEROS[..k - 1];
      var p, q := Remainder(x, s[..k - 1]), Remainder(x, z[..k - 1]);
      assert s[k - 1] == Group(w, k - 1);
      var d := Xor(Step(p, s[k - 1]), Step(q, 0));
      forall i: nat | i < 30 ensures d[i] == (i < 5 * k && w[30 - 5 * k + i]) {
        DifferenceStep(p, q, s[k - 1], 0, i);
        if i < 5 {
          GroupBits(w, k - 1, i);
          ZeroBits(i);
        }
      }
    }
  }

  lemma ZeroBits(i: nat)
    ensures !BitOf(0, i)
  {
  }

  /** Appending the groups of what six zeros would give, with 1 added, makes the remainder 1. */
  lemma ChecksumMakesOne(vs: seq<Value>)
    ensures PolyModSpec(vs + Groups(Xor(PolyModSpec(vs + SIX_ZEROS), One()))) == One()
  {
    hide Step, Group;
    var x := PolyModSpec(vs);
    var m := Remainder(x, SIX_ZEROS);
    var w := Xor(m, One());
    RemainderSplit(One(), vs, SIX_ZEROS);
    RemainderSplit(One(), vs, Groups(w));
    GroupsAdd(x, w, 6);
    assert Groups(w)[..6] == Groups(w) && SIX_ZEROS[..6] == SIX_ZEROS;
    var r := Remainder(x, Groups(w));
    assert Xor(r, m) == w;
    Cancel(r, m, One());
  }

  lemma Cancel(r: Word, m: Word, o: Word)
    requires Xor(r, m) == Xor(m, o)
    ensures r == o
  {
    forall i | 0 <= i < 30 ensures r[i] == o[i] {
      assert Xor(r, m)[i] == Xor(m, o)[i];
    }
  }

  // ----- The loop -----

  /** The remainder, one value at a time: shift, add the value, and fold in what the top value demands. */
  method PolyMod(v: seq<Value>) returns (c: Word)
    ensures c == PolyModSpec(v)
  {
    hide Step;
    c := One();
    for i := 0 to |v|
      invariant c == Remainder(One(), v[..i])
    {
      assert v[..i + 1][..i] == v[..i];
      c := TakeIn(c, v[i]);
    }
    assert v[..|v|] == v;
  }

  method TakeIn(c: Word, v: Value) returns (r: Word)
    ensures r == Step(c, v)
  {
    hide BitOf, Coefficient;
    r := Xor(ShiftUp(c), Low(v));
    r := AddIf(c[25], r, 0);
    r := AddIf(c[26], r, 1);
    r := AddIf(c[27], r, 2);
    r := AddIf(c[28], r, 3);
    r := AddIf(c[29], r, 4);
    forall i | 0 <= i < 30 ensures r[i] == Step(c, v)[i] {
      TimesAt(c, i);
    }
  }

  method AddIf(bit: bool, c: Word, n: nat) returns (r: Word)
    ensures forall i :: 0 <= i < 30 ==> r[i] == (c[i] != (bit && Coefficient(n, i)))
  {
    hide Coefficient;
    r := c;
    if bit {
      r := Xor(c, MultipleWord(n));
    }
  }
}
