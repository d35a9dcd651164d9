/**
 The shortest test vector of section "Test vectors" of BIP 173, worked out step by step (src/bech32.cpp).
 */
module Bech32Vector {
  import opened Bech32Values
  import opened Bech32Alphabet
  import opened Bech32Checksum
  import opened Bech32
  import D = Bech32Distance

  // The bits that are set in the remainder after each of the values 3, 0, 1, 0, 0, 0, 0, 0, 0.

  predicate Bit0(i: nat) {
    i == 0
  }

  predicate Bit1(i: nat) {
    i == 0 || i == 1 || i == 5
  }

  predicate Bit2(i: nat) {
    i == 5 || i == 6 || i == 10
  }

  predicate Bit3(i: nat) {
    i == 0 || i == 10 || i == 11 || i == 15
  }

  predicate Bit4(i: nat) {
    i == 5 || i == 15 || i == 16 || i == 20
  }

  predicate Bit5(i: nat) {
    i == 10 || i == 20 || i == 21 || i == 25
  }

  predicate Bit6(i: nat) {
    i == 1 || i == 4 || i == 5 || i == 7 || i == 8 || i == 9 || i == 10 || i == 12 || i == 14
      || i == 15 || i == 17 || i == 19 || i == 21 || i == 22 || i == 24 || i == 26 || i == 27 || i == 28
      || i == 29
  }

  predicate Bit7(i: nat) {
    i == 0 || i == 3 || i == 4 || i == 5 || i == 7 || i == 12 || i == 13 || i == 16 || i == 18
      || i == 19 || i == 20 || i == 21 || i == 22 || i == 23 || i == 25
  }

  predicate Bit8(i: nat) {
    i == 1 || i == 4 || i == 7 || i == 14 || i == 18 || i == 19 || i == 22 || i == 23 || i == 26
      || i == 29
  }

  predicate Bit9(i: nat) {
    i == 1 || i == 2 || i == 3 || i == 4 || i == 7 || i == 9 || i == 10 || i == 11 || i == 12
      || i == 13 || i == 14 || i == 15 || i == 18 || i == 19 || i == 22 || i == 23 || i == 24 || i == 26
      || i == 28
  }

  ghost predicate IsWord(w: Word, bit: nat -> bool) {
    forall i: nat :: i < 30 ==> w[i] == bit(i)
  }

  lemma StepAt(c: Word, v: Value, i: nat)
    requires i < 30
    ensures Step(c, v)[i] == (((i >= 5 && c[i - 5]) != Folded(c, i)) != BitOf(v, i))
  {
  }

  lemma NotFolded(c: Word, i: nat)
    requires TopClear(c) && i < 30
    ensures !Folded(c, i)
  {
  }

  lemma To1(c: Word)
    requires IsWord(c, Bit0)
    ensures IsWord(Step(c, 3), Bit1)
  {
    forall i: nat | i < 30 ensures Step(c, 3)[i] == Bit1(i) {
      StepAt(c, 3, i);
      NotFolded(c, i);
    }
  }

  lemma To2(c: Word)
    requires IsWord(c, Bit1)
    ensures IsWord(Step(c, 0), Bit2)
  {
    forall i: nat | i < 30 ensures Step(c, 0)[i] == Bit2(i) {
      StepAt(c, 0, i);
      NotFolded(c, i);
    }
  }

  lemma To3(c: Word)
    requires IsWord(c, Bit2)
    ensures IsWord(Step(c, 1), Bit3)
  {
    forall i: nat | i < 30 ensures Step(c, 1)[i] == Bit3(i) {
      StepAt(c, 1, i);
      NotFolded(c, i);
    }
  }

  lemma To4(c: Word)
    requires IsWord(c, Bit3)
    ensures IsWord(Step(c, 0), Bit4)
  {
    forall i: nat | i < 30 ensures Step(c, 0)[i] == Bit4(i) {
      StepAt(c, 0, i);
      NotFolded(c, i);
    }
  }

  lemma To5(c: Word)
    requires IsWord(c, Bit4)
    ensures IsWord(Step(c, 0), Bit5)
  {
    forall i: nat | i < 30 ensures Step(c, 0)[i] == Bit5(i) {
      StepAt(c, 0, i);
      NotFolded(c, i);
    }
  }

  lemma To6(c: Word)
    requires IsWord(c, Bit5)
    ensures IsWord(Step(c, 0), Bit6)
  {
    D.MultipleBits0();
    hide Step, Coefficient;
    forall i: nat | i < 30 ensures Step(c, 0)[i] == Bit6(i) {
      StepAt(c, 0, i);
    }
  }

  lemma To7(c: Word)
    requires IsWord(c, Bit6)
    ensures IsWord(Step(c, 0), Bit7)
  {
    D.MultipleBits1();
    D.MultipleBits2();
    D.MultipleBits3();
    D.MultipleBits4();
    hide Step, Coefficient;
    forall i: nat | i < 30 ensures Step(c, 0)[i] == Bit7(i) {
      StepAt(c, 0, i);
    }
  }

  lemma To8(c: Word)
    requires IsWord(c, Bit7)
    ensures IsWord(Step(c, 0), Bit8)
  {
    D.MultipleBits0();
    hide Step, Coefficient;
    forall i: nat | i < 30 ensures Step(c, 0)[i] == Bit8(i) {
      StepAt(c, 0, i);
    }
  }

  lemma To9(c: Word)
    requires IsWord(c, Bit8)
    ensures IsWord(Step(c, 0), Bit9)
  {
    D.MultipleBits1();
    D.MultipleBits4();
    hide Step, Coefficient;
    forall i: nat | i < 30 ensures Step(c, 0)[i] == Bit9(i) {
      StepAt(c, 0, i);
    }
  }

  const VALUES: seq<Value> := [3, 0, 1, 0, 0, 0, 0, 0, 0]

  /** The remainder after the first k values. */
  function Partial(k: nat): Word
    requires k <= 9
  {
    Remainder(One(), VALUES[..k])
  }

  lemma Taken(k: nat, v: Value)
    requires k < 9 && v == VALUES[k]
    ensures Partial(k + 1) == Step(Partial(k), v)
  {
    assert VALUES[..k + 1][..k] == VALUES[..k];
  }

  lemma At0()
    ensures IsWord(Partial(0), Bit0)
  {
    assert VALUES[..0] == [];
  }

  lemma At1()
    ensures IsWord(Partial(1), Bit1)
  {
    hide Step, Partial, IsWord;
    At0();
    Taken(0, 3);
    To1(Partial(0));
  }

  lemma At2()
    ensures IsWord(Partial(2), Bit2)
  {
    hide Step, Partial, IsWord;
    At1();
    Taken(1, 0);
    To2(Partial(1));
  }

  lemma At3()
    ensures IsWord(Partial(3), Bit3)
  {
    hide Step, Partial, IsWord;
    At2();
    Taken(2, 1);
    To3(Partial(2));
  }

  lemma At4()
    ensures IsWord(Partial(4), Bit4)
  {
    hide Step, Partial, IsWord;
    At3();
    Taken(3, 0);
    To4(Partial(3));
  }

  lemma At5()
    ensures IsWord(Partial(5), Bit5)
  {
    hide Step, Partial, IsWord;
    At4();
    Taken(4, 0);
    To5(Partial(4));
  }

  lemma At6()
    ensures IsWord(Partial(6), Bit6)
  {
    hide Step, Partial, IsWord;
    At5();
    Taken(5, 0);
    To6(Partial(5));
  }

  lemma At7()
    ensures IsWord(Partial(7), Bit7)
  {
    hide Step, Partial, IsWord;
    At6();
    Taken(6, 0);
    To7(Partial(6));
  }

  lemma At8()
    ensures IsWord(Partial(8), Bit8)
  {
    hide Step, Partial, IsWord;
    At7();
    Taken(7, 0);
    To8(Partial(7));
  }

  lemma At9()
    ensures IsWord(Partial(9), Bit9)
  {
    hide Step, Partial, IsWord;
    At8();
    Taken(8, 0);
    To9(Partial(8));
  }

  lemma VectorGroups(w: Word)
    requires IsWord(w, Bit9)
    ensures Groups(Xor(w, One())) == [10, 28, 25, 31, 20, 31]
  {
  }

  lemma VectorChecksum()
    ensures Groups(Xor(PolyModSpec(VALUES), One())) == [10, 28, 25, 31, 20, 31]
  {
    At9();
    assert VALUES[..9] == VALUES;
    VectorGroups(Partial(9));
  }

  /** The empty data with the prefix "a". */
  lemma Vector()
    ensures Encoded("a", []) == "a12uel5l"
  {
    VectorChecksum();
    hide PolyModSpec, Groups, Xor;
    assert ExpandedHrp("a") == [3, 0, 1];
    assert ExpandedHrp("a") + [] + SIX_ZEROS == VALUES;
    assert Checksum("a", []) == [10, 28, 25, 31, 20, 31];
    assert Chars([] + Checksum("a", [])) == "2uel5l";
  }
}
