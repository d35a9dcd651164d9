/**
 256-bit unsigned integers in eight 32-bit limbs (src/arith_uint256.h, src/arith_uint256.cpp): each
 operator changes the limbs in place, and is proved to compute the integer operation modulo 2^256.
 */
module Arith256 {
  import opened Arithmetic
  import opened Powers
  import opened Limbs
  import opened LimbShifts
  import opened LimbBits

  const WIDTH: nat := 8

  ghost function Modulus(): nat { BasePow(WIDTH) }

  lemma ModulusIs()
    ensures Modulus() == Pow2(256)
  {
    BasePowIs(WIDTH);
  }

  class Uint256 {
    const pn: array<Limb>

    ghost predicate Valid() { pn.Length == WIDTH }

    ghost function Value(): (v: nat)
      requires Valid()
      reads pn
      ensures v < Modulus()
    {
      ValBound(pn[..], WIDTH);
      Val(pn[..], WIDTH)
    }

    constructor ()
      ensures Valid() && fresh(pn) && Value() == 0
    {
      pn := new Limb[WIDTH];
      new;
      for i := 0 to WIDTH
        invariant forall j :: 0 <= j < i ==> pn[j] == 0
      {
        pn[i] := 0;
      }
      ValZero(pn[..], WIDTH);
    }

    constructor Copy(b: Uint256)
      requires b.Valid()
      ensures Valid() && fresh(pn) && pn[..] == b.pn[..] && Value() == b.Value()
    {
      pn := new Limb[WIDTH];
      new;
      for i := 0 to WIDTH
        invariant forall j :: 0 <= j < i ==> pn[j] == b.pn[j]
      {
        pn[i] := b.pn[i];
      }
      assert pn[..] == b.pn[..];
    }

    /** Assignment from a 64-bit number. */
    method Assign(b: nat)
      requires Valid() && b < BASE * BASE
      modifies pn
      ensures Value() == b
    {
      QuotientBelow(b, BASE, BASE);
      pn[0] := b % BASE;
      pn[1] := b / BASE;
      for i := 2 to WIDTH
        invariant pn[0] == b % BASE && pn[1] == b / BASE
        invariant forall j :: 2 <= j < i ==> pn[j] == 0
      {
        pn[i] := 0;
      }
      TwoLimbs(pn[..], 6);
    }

    method Add(b: Uint256)
      requires Valid() && b.Valid()
      modifies pn
      ensures Value() == (old(Value()) + old(b.Value())) % Modulus()
    {
      hide Val, BasePow;
      ghost var x, y := pn[..], b.pn[..];
      ValNone(pn[..]);
      ValNone(x);
      ValNone(y);
      var carry: nat := 0;
      for i := 0 to WIDTH
        invariant carry <= 1
        invariant forall j :: i <= j < WIDTH ==> pn[j] == x[j] && b.pn[j] == y[j]
        invariant Val(pn[..], i) + carry * BasePow(i) == Val(x, i) + Val(y, i)
      {
        ghost var s := pn[..];
        var n: nat := carry + pn[i] + b.pn[i];
        var low: Limb := n % BASE;
        pn[i] := low;
        AddStep(s, x, y, i, carry);
        assert pn[..] == s[i := low];
        carry := n / BASE;
      }
      DivModUnique(Val(x, WIDTH) + Val(y, WIDTH), Modulus(), carry, Value());
    }

    /** ++ with the ripple that stops at the first limb that does not wrap to 0. */
    method Increment()
      requires Valid()
      modifies pn
      ensures Value() == (old(Value()) + 1) % Modulus()
    {
      hide Val, BasePow;
      ghost var x := pn[..];
      var i := 0;
      while i < WIDTH
        invariant i <= WIDTH
        invariant forall j :: 0 <= j < i ==> pn[j] == 0 && x[j] == BASE - 1
        invariant forall j :: i <= j < WIDTH ==> pn[j] == x[j]
      {
        pn[i] := (pn[i] + 1) % BASE;
        if pn[i] != 0 {
          IncrementStops(x, pn[..], i);
          return;
        }
        i := i + 1;
      }
      ValZero(pn[..], WIDTH);
      ValFull(x, WIDTH);
      DivModUnique(Modulus(), Modulus(), 1, 0);
    }

    /** -- likewise. */
    method Decrement()
      requires Valid()
      modifies pn
      ensures Value() == (old(Value()) - 1) % Modulus()
    {
      hide Val, BasePow;
      ghost var x := pn[..];
      var i := 0;
      while i < WIDTH
        invariant i <= WIDTH
        invariant forall j :: 0 <= j < i ==> pn[j] == BASE - 1 && x[j] == 0
        invariant forall j :: i <= j < WIDTH ==> pn[j] == x[j]
      {
        pn[i] := (pn[i] + BASE - 1) % BASE;
        if pn[i] != BASE - 1 {
          IncrementStops(pn[..], x, i);
          return;
        }
        i := i + 1;
      }
      ValFull(pn[..], WIDTH);
      ValZero(x, WIDTH);
      DivModUnique(-1, Modulus(), -1, Modulus() - 1);
    }

    method Complement() returns (r: Uint256)
      requires Valid()
      ensures fresh(r) && fresh(r.pn) && r.Valid() && r.Value() == Modulus() - 1 - Value()
    {
      r := new Uint256();
      for i := 0 to WIDTH
        invariant forall j :: 0 <= j < i ==> r.pn[j] == BASE - 1 - pn[j]
      {
        r.pn[i] := BASE - 1 - pn[i];
      }
      ComplementVal(pn[..], r.pn[..], WIDTH);
    }

    method Negate() returns (r: Uint256)
      requires Valid()
      ensures fresh(r) && fresh(r.pn) && r.Valid() && r.Value() == (0 - Value()) % Modulus()
    {
      r := Complement();
      r.Increment();
      ModAdd(0 - Value(), 1, Modulus());
    }

    method Subtract(b: Uint256)
      requires Valid() && b.Valid()
      modifies pn
      ensures Value() == (old(Value()) - old(b.Value())) % Modulus()
    {
      ghost var x, y := Value(), b.Value();
      var minus := b.Negate();
      Add(minus);
      SubtractMod(x, y, Modulus());
    }

    /** Multiplication by a 32-bit number. */
    method Scale(b: Limb)
      requires Valid()
      modifies pn
      ensures Value() == b * old(Value()) % Modulus()
    {
      hide Val, BasePow, MulAdd, LowHalf, HighHalf;
      ghost var x := pn[..];
      ValNone(x);
      ValNone(pn[..]);
      var carry: nat := 0;
      for i := 0 to WIDTH
        invariant carry < BASE
        invariant forall j :: i <= j < WIDTH ==> pn[j] == x[j]
        invariant Val(pn[..], i) + carry * BasePow(i) == b * Val(x, i)
      {
        ghost var s := pn[..];
        MulAddFits(carry, 0, b, pn[i]);
        var n := MulAdd(carry, 0, b, pn[i]);
        var low := LowHalf(n);
        pn[i] := low;
        ScaleStep(s, x, i, carry, b);
        assert pn[..] == s[i := low];
        carry := HighHalf(n);
      }
      DivModUnique(b * Val(x, WIDTH), Modulus(), carry, Value());
    }

    /** Schoolbook multiplication.  The product is right unless the operand is this very number, whose
        limbs are zeroed before they are read. */
    method Multiply(b: Uint256)
      requires Valid() && b.Valid()
      modifies pn
      ensures b.pn != pn ==> Value() == old(Value()) * b.Value() % Modulus()
      ensures b.pn == pn ==> Value() == 0
    {
      hide Val, BasePow, MulAdd, LowHalf, HighHalf;
      var a := new Uint256.Copy(this);
      ghost var x := a.pn[..];
      Assign(0);
      ghost var y := b.pn[..];
      ghost var q: nat := 0;
      ValNone(x);
      for j := 0 to WIDTH
        invariant a.pn[..] == x && (b.pn != pn ==> b.pn[..] == y)
        invariant b.pn != pn ==> Value() + q * Modulus() == Val(x, j) * Val(y, WIDTH)
        invariant b.pn == pn ==> Value() == 0
      {
        ghost var before := Value();
        ghost var carry := MultiplyRow(a, b, j);
        if b.pn != pn {
          q := MulRow(x, y, j, Value(), before, carry, q);
        }
      }
      if b.pn != pn {
        DivModUnique(Val(x, WIDTH) * Val(y, WIDTH), Modulus(), q, Value());
      }
    }

    /** Add one limb of a times b, moved up by j limbs; the limbs beyond the width are lost. */
    method MultiplyRow(a: Uint256, b: Uint256, j: nat) returns (ghost lost: nat)
      requires Valid() && a.Valid() && b.Valid() && a.pn != pn && j < WIDTH
      requires b.pn == pn ==> Value() == 0
      modifies pn
      ensures b.pn != pn ==>
        Value() + lost * Modulus() == old(Value()) + a.pn[j] * Val(b.pn[..], WIDTH - j) * BasePow(j)
      ensures b.pn == pn ==> Value() == 0
    {
      hide Val, BasePow, MulAdd, LowHalf, HighHalf;
      ghost var y, before := b.pn[..], Value();
      ValNone(y);
      var carry: nat := 0;
      var i := 0;
      assert a.pn[j] * Val(y, 0) * BasePow(j) == 0;
      while i + j < WIDTH
        invariant 0 <= i <= WIDTH - j && carry < BASE
        invariant b.pn != pn ==> b.pn[..] == y
        invariant b.pn != pn ==>
          Val(pn[..], WIDTH) + carry * BasePow(i + j) == before + a.pn[j] * Val(y, i) * BasePow(j)
        invariant b.pn == pn ==> carry == 0 && Value() == 0
      {
        ghost var s := pn[..];
        MulAddFits(carry, pn[i + j], a.pn[j], b.pn[i]);
        var n := MulAdd(carry, pn[i + j], a.pn[j], b.pn[i]);
        var low := LowHalf(n);
        if b.pn == pn {
          AllZero(s, i);
          AllZero(s, i + j);
          NothingAdded(a.pn[j]);
        } else {
          MulStep(s, y, i, j, carry, a.pn[j], before);
        }
        pn[i + j] := low;
        assert pn[..] == s[i + j := low];
        assert b.pn == pn ==> pn[..] == s;
        carry := HighHalf(n);
        i := i + 1;
      }
      lost := carry;
    }

    method ShiftLeft(shift: nat)
      requires Valid()
      modifies pn
      ensures Value() == old(Value()) * Pow2(shift) % Modulus()
    {
      hide Val, BasePow, Pow2, ShlUpTo;
      var a := new Uint256.Copy(this);
      Clear();
      var k, s := shift / 32, shift % 32;
      ghost var x := a.pn[..];
      ShlStarts(x, k, s, pn[..]);
      for i := 0 to WIDTH
        invariant a.pn[..] == x && ShlUpTo(x, k, s, i, pn[..])
      {
        ShlInto(a.pn[i], i, k, s, x);
      }
      ShlDone(x, shift, pn[..]);
    }

    /** Or one limb of the operand into its two places. */
    method ShlInto(limb: Limb, i: nat, k: nat, s: nat, ghost x: seq<Limb>)
      requires Valid() && i < WIDTH == |x| && s < 32 && limb == x[i] && ShlUpTo(x, k, s, i, pn[..])
      modifies pn
      ensures ShlUpTo(x, k, s, i + 1, pn[..])
    {
      hide Val, BasePow, Pow2, ShlUpTo, ShrUpTo, ShlLow, ShlHigh, ShrLow, ShrHigh, BitOr;
      ghost var r := pn[..];
      ShlRound(x, k, s, i, r);
      if i + k + 1 < WIDTH && s != 0 {
        pn[i + k + 1] := BitOr(pn[i + k + 1], ShlHigh(limb, s));
      }
      if i + k < WIDTH {
        pn[i + k] := BitOr(pn[i + k], ShlLow(limb, s));
      }
      ShlAdvance(x, k, s, i, r, pn[..]);
    }

    method ShiftRight(shift: nat)
      requires Valid()
      modifies pn
      ensures Value() == old(Value()) / Pow2(shift)
    {
      hide Val, BasePow, Pow2, ShrUpTo;
      var a := new Uint256.Copy(this);
      Clear();
      var k, s := shift / 32, shift % 32;
      ghost var x := a.pn[..];
      ShlStarts(x, k, s, pn[..]);
      for i := 0 to WIDTH
        invariant a.pn[..] == x && ShrUpTo(x, k, s, i, pn[..])
      {
        ShrInto(a.pn[i], i, k, s, x);
      }
      ShrDone(x, shift, pn[..]);
    }

    method ShrInto(limb: Limb, i: nat, k: nat, s: nat, ghost x: seq<Limb>)
      requires Valid() && i < WIDTH == |x| && s < 32 && limb == x[i] && ShrUpTo(x, k, s, i, pn[..])
      modifies pn
      ensures ShrUpTo(x, k, s, i + 1, pn[..])
    {
      hide Val, BasePow, Pow2, ShlUpTo, ShrUpTo, ShlLow, ShlHigh, ShrLow, ShrHigh, BitOr;
      ghost var r := pn[..];
      ShrRound(x, k, s, i, r);
      if i - k - 1 >= 0 && s != 0 {
        pn[i - k - 1] := BitOr(pn[i - k - 1], ShrHigh(limb, s));
      }
      if i - k >= 0 {
        pn[i - k] := BitOr(pn[i - k], ShrLow(limb, s));
      }
      ShrAdvance(x, k, s, i, r, pn[..]);
    }

    method Clear()
      requires Valid()
      modifies pn
      ensures forall i :: 0 <= i < WIDTH ==> pn[i] == 0
    {
      for i := 0 to WIDTH
        invariant forall j :: 0 <= j < i ==> pn[j] == 0
      {
        pn[i] := 0;
      }
    }

    method CompareTo(b: Uint256) returns (r: int)
      requires Valid() && b.Valid()
      ensures r == if Value() < b.Value() then -1 else if Value() > b.Value() then 1 else 0
    {
      hide Val;
      var i := WIDTH;
      while i > 0
        invariant 0 <= i <= WIDTH && forall j :: i <= j < WIDTH ==> pn[j] == b.pn[j]
      {
        i := i - 1;
        if pn[i] < b.pn[i] {
          CompareAt(pn[..], b.pn[..], i);
          return -1;
        }
        if pn[i] > b.pn[i] {
          CompareAt(b.pn[..], pn[..], i);
          return 1;
        }
      }
      assert pn[..] == b.pn[..];
      r := 0;
    }

    /** Equality with a 64-bit number. */
    method EqualTo(b: nat) returns (r: bool)
      requires Valid() && b < BASE * BASE
      ensures r <==> Value() == b
    {
      hide Val;
      var i := WIDTH;
      while i > 2
        invariant 2 <= i <= WIDTH && forall j :: i <= j < WIDTH ==> pn[j] == 0
      {
        i := i - 1;
        if pn[i] != 0 {
          NonzeroAt(pn[..], i);
          AtLeastSquare(i);
          return false;
        }
      }
      TwoLimbs(pn[..], 6);
      if pn[1] != b / BASE {
        return false;
      }
      if pn[0] != b % BASE {
        return false;
      }
      r := true;
    }

    /** The position of the highest bit set plus one, or zero. */
    method Bits() returns (n: nat)
      requires Valid()
      ensures n == BitLength(Value()) && n <= 256
    {
      n := FindBits();
      BitLengthIs(Value());
      BitLengthUnique(Value(), n, BitLength(Value()));
    }

    method FindBits() returns (n: nat)
      requires Valid()
      ensures IsBitLength(Value(), n) && n <= 256
    {
      hide Val, BasePow, Pow2, BitSet;
      var pos := WIDTH;
      while pos > 0
        invariant 0 <= pos <= WIDTH && forall j :: pos <= j < WIDTH ==> pn[j] == 0
      {
        pos := pos - 1;
        if pn[pos] != 0 {
          Pow2Bytes();
          var nbits := 31;
          while nbits > 0
            invariant 0 <= nbits <= 31 && pn[pos] < Pow2(nbits + 1)
          {
            TopBit(pn[pos], nbits);
            if BitSet(pn[pos], nbits) {
              TopLimb(pn[..], pos, nbits);
              return 32 * pos + nbits + 1;
            }
            nbits := nbits - 1;
          }
          SmallPowers();
          TopLimb(pn[..], pos, 0);
          return 32 * pos + 1;
        }
      }
      ValZero(pn[..], WIDTH);
      SmallPowers();
      n := 0;
    }

    method GetLow64() returns (low: nat)
      requires Valid()
      ensures low == Value() % (BASE * BASE)
    {
      hide Val, BasePow, BitOr;
      Pow2Bytes();
      BitOrDisjoint(pn[0], pn[1], 32);
      LowLimbs(pn[..]);
      low := BitOr(pn[0], pn[1] as nat * BASE);
    }

    /** Shift-subtract division.  Dividing by zero raises an error, with the quotient left at 0. */
    method Divide(b: Uint256) returns (threw: bool)
      requires Valid() && b.Valid()
      modifies pn
      ensures threw <==> old(b.Value()) == 0
      ensures Value() == if threw then 0 else old(Value()) / old(b.Value())
    {
      hide Val, BasePow, Pow2, ClearBelow, IsBitLength;
      var div := new Uint256.Copy(b);
      var num := new Uint256.Copy(this);
      ghost var N, D := num.Value(), div.Value();
      Clear();
      ValZero(pn[..], WIDTH);
      var numBits := num.Bits();
      var divBits := div.Bits();
      BitLengthIs(N);
      BitLengthIs(D);
      LengthZero(D, divBits);
      if divBits == 0 {
        return true;
      }
      if divBits > numBits {
        ShorterQuotient(N, D, numBits, divBits);
        return false;
      }
      var shift: int := numBits - divBits;
      Aligned(N, D, numBits, divBits);
      div.ShiftLeft(shift);
      ClearAll(pn[..], shift + 1);
      DivideFrom(num, div, shift, N, D);
      threw := false;
    }

    /** The rounds from the aligned divisor down. */
    method DivideFrom(num: Uint256, div: Uint256, top: nat, ghost N: nat, ghost D: nat)
      requires Valid() && num.Valid() && div.Valid() && num.pn != pn && div.pn != pn && num.pn != div.pn
      requires top < 256 && ClearBelow(pn[..], top + 1) && Value() == 0 && D > 0
      requires div.Value() == D * Pow2(top) && num.Value() == N < D * Pow2(top + 1)
      modifies pn, num.pn, div.pn
      ensures Value() == N / D
    {
      hide Val, BasePow, Pow2, ClearBelow;
      var shift: int := top;
      while shift >= 0
        invariant -1 <= shift < 256
        invariant shift >= 0 ==> div.Value() == D * Pow2(shift)
        invariant num.Value() < D * Pow2(shift + 1) && N == Value() * D + num.Value()
        invariant ClearBelow(pn[..], shift + 1)
      {
        DivideRound(num, div, shift, D);
        PowerBelow(D, shift);
        div.ShiftRight(1);
        shift := shift - 1;
      }
      SmallPowers();
      DivModUnique(N, D, Value(), num.Value());
    }

    /** Subtract the shifted divisor if it fits, and set the quotient's bit if so. */
    method DivideRound(num: Uint256, div: Uint256, shift: nat, ghost D: nat)
      requires Valid() && num.Valid() && div.Valid() && num.pn != pn && div.pn != pn && num.pn != div.pn
      requires shift < 256 && ClearBelow(pn[..], shift + 1)
      requires div.Value() == D * Pow2(shift) && num.Value() < D * Pow2(shift + 1)
      modifies pn, num.pn
      ensures ClearBelow(pn[..], shift) && num.Value() < D * Pow2(shift)
      ensures Value() * D + num.Value() == old(Value()) * D + old(num.Value())
    {
      hide Val, BasePow, Pow2, ClearBelow, BitOr;
      PowerBelow(D, shift);
      var c := num.CompareTo(div);
      if c >= 0 {
        NoBorrow(num.Value(), div.Value());
        num.Subtract(div);
        SetQuotientBit(shift);
        QuotientGrows(old(Value()), Pow2(shift), D);
      } else {
        SetBitAt(pn[..], shift);
      }
    }

    method SetQuotientBit(t: nat)
      requires Valid() && t < 256 && ClearBelow(pn[..], t + 1)
      modifies pn
      ensures Value() == old(Value()) + Pow2(t) && ClearBelow(pn[..], t)
    {
      hide Val, BasePow, Pow2, ClearBelow, BitOr;
      ghost var s := pn[..];
      SetBitAt(s, t);
      var x: Limb := BitOr(pn[t / 32], Pow2(t % 32));
      pn[t / 32] := x;
      assert pn[..] == s[t / 32 := x];
    }
  }

  lemma LowLimbs(s: seq<Limb>)
    requires |s| == WIDTH
    ensures Val(s, WIDTH) % (BASE * BASE) == s[0] as int + s[1] as int * BASE
  {
    ValSplit(s, 2);
    TwoLimbs(s, 0);
    assert BasePow(1) == BASE && BasePow(2) == BASE * BASE;
    DivModUnique(Val(s, WIDTH), BASE * BASE, Upper(s, 2), Val(s, 2));
  }

  lemma AtLeastSquare(i: nat)
    requires i >= 2
    ensures BasePow(i) >= BASE * BASE
  {
    BasePowAdd(2, i - 2);
    assert BasePow(1) == BASE && BasePow(2) == BASE * BASE;
    ProductMonotone(1, BasePow(i - 2), BASE * BASE);
  }

  lemma SmallPowers()
    ensures Pow2(0) == 1 && Pow2(1) == 2 && IsBitLength(0, 0)
  {
  }

  lemma LengthZero(v: nat, n: nat)
    requires IsBitLength(v, n)
    ensures v == 0 <==> n == 0
  {
  }

  lemma ShorterQuotient(N: nat, D: nat, n: nat, d: nat)
    requires IsBitLength(N, n) && IsBitLength(D, d) && n < d && D > 0
    ensures N / D == 0
  {
    Pow2Monotone(n, d - 1);
    DivModUnique(N, D, 0, N);
  }

  /** Aligned, the divisor still fits, and its double exceeds the dividend. */
  lemma Aligned(N: nat, D: nat, n: nat, d: nat)
    requires IsBitLength(N, n) && IsBitLength(D, d) && 0 < d <= n <= 256
    ensures D * Pow2(n - d) % Modulus() == D * Pow2(n - d) && N < D * Pow2(n - d + 1)
  {
    hide Pow2, BasePow;
    ModulusIs();
    Pow2Add(d, n - d);
    Pow2Add(d - 1, n - d + 1);
    Above(D, Pow2(d), Pow2(n - d));
    Pow2Monotone(n, 256);
    ProductMonotone(Pow2(d - 1), D, Pow2(n - d + 1));
    DivModUnique(D * Pow2(n - d), Modulus(), 0, D * Pow2(n - d));
  }

  lemma NoBorrow(x: nat, y: nat)
    requires y <= x < Modulus()
    ensures (x - y) % Modulus() == x - y
  {
    DivModUnique(x - y, Modulus(), 0, x - y);
  }

  lemma QuotientGrows(q: nat, p: nat, D: nat)
    ensures (q + p) * D == q * D + D * p
  {
    Distribute(q, p, D);
  }

  lemma PowerBelow(D: nat, shift: nat)
    ensures D * Pow2(shift + 1) == 2 * (D * Pow2(shift)) && Pow2(1) == 2
    ensures shift > 0 ==> D * Pow2(shift) / 2 == D * Pow2(shift - 1)
  {
    Twice(D, Pow2(shift));
    if shift > 0 {
      Twice(D, Pow2(shift - 1));
      DivModUnique(D * Pow2(shift), 2, D * Pow2(shift - 1), 0);
    }
  }

  lemma {:induction false} AllZeroBelow(s: seq<Limb>, n: nat, i: nat)
    requires i < n <= |s| && Val(s, n) == 0
    ensures s[i] == 0
    decreases n
  {
    if i == n - 1 {
      ProductMonotone(1, BasePow(i), s[i]);
      assert s[i] * BasePow(i) == BasePow(i) * s[i];
    } else {
      AllZeroBelow(s, n - 1, i);
    }
  }

  lemma NothingAdded(a: nat)
    ensures LowHalf(MulAdd(0, 0, a, 0)) == 0 && HighHalf(MulAdd(0, 0, a, 0)) == 0
  {
  }

  lemma AllZero(s: seq<Limb>, i: nat)
    requires |s| == WIDTH && i < WIDTH && Val(s, WIDTH) == 0
    ensures s[i] == 0
  {
    AllZeroBelow(s, WIDTH, i);
  }

  lemma ValNone(s: seq<Limb>)
    ensures Val(s, 0) == 0 && BasePow(0) == 1
  {
  }

  lemma {:induction false} TwoLimbs(s: seq<Limb>, n: nat)
    requires |s| >= n + 2 && forall j :: 2 <= j < n + 2 ==> s[j] == 0
    ensures Val(s, n + 2) == s[0] + BASE * s[1]
  {
    if n == 0 {
      assert BasePow(1) == BASE;
      assert Val(s, 1) == s[0];
    } else {
      TwoLimbs(s, n - 1);
    }
  }

  /** y is x with a ripple of i full limbs wrapped to zero and the next one raised by one. */
  lemma IncrementStops(x: seq<Limb>, y: seq<Limb>, i: nat)
    requires |x| == |y| == WIDTH && i < WIDTH && y[i] as int == x[i] as int + 1
    requires forall j :: 0 <= j < i ==> y[j] == 0 && x[j] == BASE - 1
    requires forall j :: i < j < WIDTH ==> y[j] == x[j]
    ensures Val(y, WIDTH) == Val(x, WIDTH) + 1
    ensures Val(y, WIDTH) == (Val(x, WIDTH) + 1) % Modulus() && Val(x, WIDTH) == (Val(y, WIDTH) - 1) % Modulus()
  {
    hide Val, BasePow, MulAdd, LowHalf, HighHalf;
    ValFull(x, i);
    ValZero(y, i);
    ValNext(x, i);
    ValNext(y, i);
    Distribute(x[i], 1, BasePow(i));
    SameAbove(x, y, i + 1, WIDTH);
    ValBound(y, WIDTH);
    DivModUnique(Val(y, WIDTH), Modulus(), 0, Val(y, WIDTH));
    DivModUnique(Val(x, WIDTH), Modulus(), 0, Val(x, WIDTH));
  }

  lemma SubtractMod(x: nat, y: nat, m: nat)
    requires m > 0
    ensures (x + (0 - y) % m) % m == (x - y) % m
  {
    var q, r := (0 - y) / m, (0 - y) % m;
    QuotientRemainder(0 - y, m);
    ModAdd(x + r, q, m);
  }
}
