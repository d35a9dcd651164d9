/**
 The compact form of targets and the work a target stands for (SetCompact and GetCompact in
 src/arith_uint256.cpp, GetBlockProof in src/chain.cpp).
 */
module CompactTarget {
  import opened Arithmetic
  import opened Powers
  import opened Limbs
  import opened LimbBits
  import opened Arith256
  import opened Uint32

  // ----- Decoding -----

  function Size(c: U32): nat { c / 0x100_0000 }
  function Word(c: U32): nat { c % 0x80_0000 }
  predicate SignBit(c: U32) { c / 0x80_0000 % 2 == 1 }

  /** The mantissa after the shift that small sizes ask for. */
  function ShiftedWord(c: U32): nat {
    if Size(c) <= 3 then Quotient(Word(c), Pow2(8 * (3 - Size(c)))) else Word(c)
  }

  /** The number that is denoted, of any size. */
  function Magnitude(c: U32): nat {
    if Size(c) <= 3 then ShiftedWord(c) else Word(c) * Pow2(8 * (Size(c) - 3))
  }

  predicate Negative(c: U32) { ShiftedWord(c) != 0 && SignBit(c) }

  predicate Overflow(c: U32) {
    ShiftedWord(c) != 0
    && (Size(c) > 34 || (ShiftedWord(c) > 0xff && Size(c) > 33) || (ShiftedWord(c) > 0xffff && Size(c) > 32))
  }

  lemma SmallMagnitude(c: U32)
    ensures Size(c) <= 3 ==> Magnitude(c) <= Word(c)
    ensures Word(c) < 0x80_0000
  {
    hide Pow2;
    if Size(c) <= 3 {
      QuotientAtMost(Word(c), Pow2(8 * (3 - Size(c))));
    }
  }

  /** The overflow flag is set exactly when the number does not fit 256 bits. */
  lemma OverflowExact(c: U32)
    ensures Overflow(c) <==> Magnitude(c) >= Pow2(256)
  {
    hide Pow2;
    SmallMagnitude(c);
    Pow2Bytes();
    Pow2Monotone(23, 256);
    if Size(c) > 3 {
      var w, k := Word(c), 8 * (Size(c) - 3);
      if Size(c) >= 35 {
        Pow2Monotone(256, k);
        WordTimes(w, 1, Pow2(k));
      } else if Size(c) == 34 {
        Pow2Add(8, 248);
        WordTimes(w, 0x100, Pow2(248));
      } else if Size(c) == 33 {
        Pow2Add(16, 240);
        WordTimes(w, 0x1_0000, Pow2(240));
      } else {
        Pow2Add(23, k);
        Pow2Monotone(23 + k, 256);
        WordTimes(w, 0x80_0000, Pow2(k));
      }
    }
  }

  lemma WordTimes(w: nat, bound: nat, p: nat)
    requires p > 0
    ensures w >= bound ==> w * p >= bound * p
    ensures w < bound ==> w * p < bound * p
  {
    if w >= bound {
      ProductMonotone(bound, w, p);
    } else {
      Above(w, bound, p);
    }
  }

  // ----- Encoding -----

  datatype Parts = Parts(mantissa: nat, size: nat)

  /** The length in bytes of a number of n bits. */
  function ByteLength(n: nat): nat { (n + 7) / 8 }

  /** The top three bytes of x, whose length in bits is n. */
  function TopBytes(x: nat, n: nat): nat {
    var size := ByteLength(n);
    if size <= 3 then x * Pow2(8 * (3 - size)) else Quotient(x, Pow2(8 * (size - 3)))
  }

  /** A mantissa whose top bit is set gives up a byte, because that bit is the sign. */
  function Encoded(x: nat, n: nat): Parts {
    if TopBytes(x, n) >= 0x80_0000 then Parts(TopBytes(x, n) / 256, ByteLength(n) + 1)
      else Parts(TopBytes(x, n), ByteLength(n))
  }

  function Exponent(p: Parts): nat { if p.size <= 3 then 0 else p.size - 3 }

  function Decoded(p: Parts): nat {
    if p.size <= 3 then Quotient(p.mantissa, Pow2(8 * (3 - p.size))) else p.mantissa * Pow2(8 * (p.size - 3))
  }

  /** x cut off below its e lowest bytes. */
  function CutOff(x: nat, e: nat): nat { Quotient(x, Pow2(8 * e)) * Pow2(8 * e) }

  /** The least e for which x without its e lowest bytes fits 23 bits. */
  ghost predicate IsExponent(x: nat, e: nat) {
    x < Pow2(8 * e + 23) && (e > 0 ==> x >= Pow2(8 * e + 15))
  }

  /** The top bytes of a number that is longer than three. */
  lemma LongTop(x: nat, n: nat)
    requires IsBitLength(x, n) && ByteLength(n) > 3
    ensures x >= Pow2(8 * (ByteLength(n) - 3) + 16)
    ensures TopBytes(x, n) < 0x100_0000
  {
    hide Pow2;
    var k := 8 * (ByteLength(n) - 3);
    Pow2Monotone(k + 16, n - 1);
    Pow2Monotone(n, 24 + k);
    Pow2Add(24, k);
    Pow2Bytes();
    QuotientBelow(x, Pow2(k), 0x100_0000);
  }

  lemma ShortTop(x: nat, n: nat)
    requires IsBitLength(x, n) && ByteLength(n) <= 3
    ensures x < Pow2(8 * ByteLength(n)) && TopBytes(x, n) < 0x100_0000
  {
    hide Pow2;
    var s := ByteLength(n);
    Pow2Monotone(n, 8 * s);
    Pow2Add(8 * s, 8 * (3 - s));
    Pow2Bytes();
    Above(x, Pow2(8 * s), Pow2(8 * (3 - s)));
  }

  /** The encoding fits its fields, and decoding it gives x with the low bytes that do not fit cut off. */
  lemma DecodeEncoded(x: nat, n: nat)
    requires IsBitLength(x, n)
    ensures var p := Encoded(x, n);
      && p.mantissa < 0x80_0000 && p.size <= ByteLength(n) + 1
      && IsExponent(x, Exponent(p)) && Decoded(p) == CutOff(x, Exponent(p))
  {
    if ByteLength(n) <= 3 {
      ShortTop(x, n);
      if TopBytes(x, n) < 0x80_0000 {
        ShortPlain(x, n);
      } else {
        ShortSigned(x, n);
      }
    } else {
      LongTop(x, n);
      if TopBytes(x, n) < 0x80_0000 {
        LongPlain(x, n);
      } else {
        LongSigned(x, n);
      }
    }
  }

  lemma NothingCut(x: nat)
    ensures CutOff(x, 0) == x
  {
    assert Pow2(0) == 1;
  }

  lemma ShortPlain(x: nat, n: nat)
    requires IsBitLength(x, n) && ByteLength(n) <= 3 && TopBytes(x, n) < 0x80_0000
    ensures x < Pow2(23) && Decoded(Encoded(x, n)) == x == CutOff(x, 0)
  {
    hide Pow2;
    var p := Pow2(8 * (3 - ByteLength(n)));
    ProductMonotone(1, p, x);
    Pow2Bytes();
    DivModUnique(x * p, p, x, 0);
    NothingCut(x);
  }

  lemma ShortSigned(x: nat, n: nat)
    requires IsBitLength(x, n) && ByteLength(n) <= 3 && 0x80_0000 <= TopBytes(x, n) < 0x100_0000
    requires x < Pow2(8 * ByteLength(n))
    ensures var p := Encoded(x, n);
      IsExponent(x, Exponent(p)) && Decoded(p) == CutOff(x, Exponent(p))
  {
    hide Pow2;
    var s := ByteLength(n);
    Pow2Bytes();
    if s == 3 {
      SmallPowers();
      Pow2Monotone(24, 31);
    } else {
      var q := Pow2(8 * (2 - s));
      Pow2Add(8, 8 * (2 - s));
      Associate(x, q, 0x100);
      assert 0x100 * q == q * 0x100;
      DivModUnique(TopBytes(x, n), 0x100, x * q, 0);
      DivModUnique(x * q, q, x, 0);
      NothingCut(x);
      Pow2Monotone(8 * s, 23);
    }
  }

  lemma LongPlain(x: nat, n: nat)
    requires IsBitLength(x, n) && ByteLength(n) > 3 && TopBytes(x, n) < 0x80_0000
    requires x >= Pow2(8 * (ByteLength(n) - 3) + 16)
    ensures IsExponent(x, ByteLength(n) - 3)
  {
    hide Pow2;
    var k := 8 * (ByteLength(n) - 3);
    QuotientRemainder(x, Pow2(k));
    Above(TopBytes(x, n), 0x80_0000, Pow2(k));
    Pow2Bytes();
    Pow2Add(23, k);
    Pow2Monotone(k + 15, k + 16);
  }

  lemma LongSigned(x: nat, n: nat)
    requires IsBitLength(x, n) && ByteLength(n) > 3 && 0x80_0000 <= TopBytes(x, n) < 0x100_0000
    ensures IsExponent(x, ByteLength(n) - 2)
    ensures Decoded(Encoded(x, n)) == CutOff(x, ByteLength(n) - 2)
  {
    hide Pow2;
    var k := 8 * (ByteLength(n) - 3);
    QuotientRemainder(x, Pow2(k));
    ProductMonotone(0x80_0000, TopBytes(x, n), Pow2(k));
    Above(TopBytes(x, n), 0x100_0000, Pow2(k));
    Pow2Bytes();
    Pow2Add(23, k);
    Pow2Add(24, k);
    Pow2Add(8, k);
    Pow2Monotone(24 + k, 31 + k);
    DivTwice(x, Pow2(k), 0x100);
  }

  lemma DivTwice(x: nat, p: nat, q: nat)
    requires p > 0 && q > 0
    ensures q * p > 0 && x / p / q == x / (q * p)
  {
    QuotientRemainder(x, p);
    QuotientRemainder(x / p, q);
    var h, r, v := x / p / q, x / p % q, x % p;
    ProductMonotone(1, q, p);
    Distribute(h * q, r, p);
    Associate(h, q, p);
    Above(r, q, p);
    DivModUnique(x, q * p, h, r * p + v);
  }

  // ----- Round trips -----

  /** Size, sign and mantissa in their fields. */
  function Pack(p: Parts, negative: bool): U32
    requires p.mantissa < 0x80_0000 && p.size < 256
  {
    p.mantissa + p.size * 0x100_0000 + if negative && p.mantissa != 0 then 0x80_0000 else 0
  }

  lemma PackFields(p: Parts, negative: bool)
    requires p.mantissa < 0x80_0000 && p.size < 256
    ensures Size(Pack(p, negative)) == p.size && Word(Pack(p, negative)) == p.mantissa
    ensures Magnitude(Pack(p, negative)) == Decoded(p)
    ensures SignBit(Pack(p, negative)) <==> negative && p.mantissa != 0
  {
    hide Pow2;
    var c, b := Pack(p, negative), if negative && p.mantissa != 0 then 1 else 0;
    DivModUnique(c, 0x100_0000, p.size, p.mantissa + b * 0x80_0000);
    DivModUnique(c, 0x80_0000, 2 * p.size + b, p.mantissa);
  }

  lemma EncodedFits(x: nat)
    requires x < Pow2(256)
    ensures var p := Encoded(x, BitLength(x));
      p.mantissa < 0x80_0000 && p.size < 256
  {
    hide Pow2, BitLength;
    BitLengthIs(x);
    DecodeEncoded(x, BitLength(x));
    if BitLength(x) > 256 {
      Pow2Monotone(256, BitLength(x) - 1);
    }
  }

  function EncodeCompact(x: nat, negative: bool): U32
    requires x < Pow2(256)
  {
    EncodedFits(x);
    Pack(Encoded(x, BitLength(x)), negative)
  }

  /** Encoding keeps the 23 highest bits that whole bytes leave: decoding it gives x cut off there, which
      is no more than x and does not overflow. */
  lemma CompactRoundsDown(x: nat, negative: bool) returns (e: nat)
    requires x < Pow2(256)
    ensures IsExponent(x, e) && Magnitude(EncodeCompact(x, negative)) == CutOff(x, e) <= x
    ensures !Overflow(EncodeCompact(x, negative))
  {
    hide Pow2, BitLength;
    BitLengthIs(x);
    EncodedFits(x);
    DecodeEncoded(x, BitLength(x));
    PackFields(Encoded(x, BitLength(x)), negative);
    e := Exponent(Encoded(x, BitLength(x)));
    QuotientAtMost(x, Pow2(8 * e));
    OverflowExact(EncodeCompact(x, negative));
  }

  lemma CutOffMonotone(x: nat, d: nat, y: nat, e: nat)
    requires x <= y && IsExponent(x, d) && IsExponent(y, e)
    ensures CutOff(x, d) <= CutOff(y, e)
  {
    hide Pow2;
    if d == e {
      QuotientMonotone(x, y, Pow2(8 * e));
      ProductMonotone(x / Pow2(8 * e), y / Pow2(8 * e), Pow2(8 * e));
    } else if d < e {
      QuotientAtMost(x, Pow2(8 * d));
      Pow2Monotone(8 * d + 23, 8 * e + 15);
      TopSurvives(y, e);
    } else {
      Pow2Monotone(8 * e + 23, 8 * d + 15);
    }
  }

  lemma QuotientMonotone(x: nat, y: nat, m: nat)
    requires m > 0 && x <= y
    ensures x / m <= y / m
  {
    QuotientRemainder(x, m);
    QuotientRemainder(y, m);
    if x / m > y / m {
      Above(y / m, x / m, m);
    }
  }

  lemma TopSurvives(y: nat, e: nat)
    requires y >= Pow2(8 * e + 15)
    ensures CutOff(y, e) >= Pow2(8 * e + 15)
  {
    hide Pow2;
    Pow2Bytes();
    Pow2Add(15, 8 * e);
    var p := Pow2(8 * e);
    DivModUnique(0x8000 * p, p, 0x8000, 0);
    QuotientMonotone(0x8000 * p, y, p);
    ProductMonotone(0x8000, y / p, p);
  }

  /** Larger numbers have encodings that denote no less. */
  lemma CompactMonotone(x: nat, y: nat, negative: bool)
    requires x <= y < Pow2(256)
    ensures Magnitude(EncodeCompact(x, negative)) <= Magnitude(EncodeCompact(y, negative))
  {
    hide EncodeCompact, Magnitude, CutOff, IsExponent;
    var d := CompactRoundsDown(x, negative);
    var e := CompactRoundsDown(y, negative);
    CutOffMonotone(x, d, y, e);
  }

  /** A multiple of 256^k by less than 2^23 is not cut. */
  lemma NotCut(w: nat, k: nat, e: nat)
    requires w < 0x80_0000 && IsExponent(w * Pow2(8 * k), e)
    ensures CutOff(w * Pow2(8 * k), e) == w * Pow2(8 * k)
  {
    hide Pow2;
    Pow2Bytes();
    Pow2Add(23, 8 * k);
    Above(w, 0x80_0000, Pow2(8 * k));
    if e > k {
      Pow2Monotone(23 + 8 * k, 8 * e + 15);
    }
    Pow2Add(8 * (k - e), 8 * e);
    Associate(w, Pow2(8 * (k - e)), Pow2(8 * e));
    DivModUnique(w * Pow2(8 * k), Pow2(8 * e), w * Pow2(8 * (k - e)), 0);
  }

  /** Numbers that came from a compact form survive the round trip. */
  lemma CompactLossless(c: U32, negative: bool)
    requires !Overflow(c)
    ensures Magnitude(c) < Pow2(256) && Magnitude(EncodeCompact(Magnitude(c), negative)) == Magnitude(c)
  {
    hide Pow2, EncodeCompact, IsExponent, CutOff;
    OverflowExact(c);
    var e := CompactRoundsDown(Magnitude(c), negative);
    SmallMagnitude(c);
    SmallPowers();
    if Size(c) <= 3 {
      NotCut(Magnitude(c), 0, e);
    } else {
      NotCut(Word(c), Size(c) - 3, e);
    }
  }

  lemma NotCutToZero(x: nat, e: nat)
    requires x > 0 && IsExponent(x, e)
    ensures CutOff(x, e) > 0
  {
    hide Pow2, CutOff;
    if e == 0 {
      NothingCut(x);
    } else {
      TopSurvives(x, e);
    }
  }

  lemma NegativeExactly(c: U32)
    ensures Negative(c) <==> Magnitude(c) != 0 && SignBit(c)
  {
    hide Pow2;
    if Size(c) > 3 {
      WordTimes(Word(c), 1, Pow2(8 * (Size(c) - 3)));
    }
  }

  /** The sign comes back exactly when there is something to be negative. */
  lemma CompactSign(x: nat, negative: bool)
    requires x < Pow2(256)
    ensures Negative(EncodeCompact(x, negative)) <==> negative && x != 0
  {
    hide Pow2, BitLength, Encoded, Negative, Magnitude, CutOff, IsExponent, SignBit;
    EncodedFits(x);
    PackFields(Encoded(x, BitLength(x)), negative);
    var e := CompactRoundsDown(x, negative);
    NegativeExactly(EncodeCompact(x, negative));
    if x != 0 {
      NotCutToZero(x, e);
      DecodedZero(Encoded(x, BitLength(x)));
    }
  }

  lemma DecodedZero(p: Parts)
    ensures p.mantissa == 0 ==> Decoded(p) == 0
  {
    hide Pow2;
  }

  /** Value and sign of a compact form that does not overflow survive decoding and encoding. */
  lemma CompactKept(c: U32)
    requires !Overflow(c)
    ensures Magnitude(c) < Pow2(256)
    ensures var d := EncodeCompact(Magnitude(c), Negative(c));
      Magnitude(d) == Magnitude(c) && Negative(d) == Negative(c) && !Overflow(d)
  {
    hide Pow2, EncodeCompact, Negative, Magnitude, Overflow, IsExponent, CutOff;
    CompactLossless(c, Negative(c));
    CompactSign(Magnitude(c), Negative(c));
    NegativeExactly(c);
    var e := CompactRoundsDown(Magnitude(c), Negative(c));
  }

  /** Vectors of src/test/arith_uint256_tests.cpp: the size is the highest byte, the sign the bit below it. */
  lemma CompactVectors()
    ensures Magnitude(0x01003456) == 0 && Magnitude(0x01123456) == 0x12 && Magnitude(0x02123456) == 0x1234
    ensures Magnitude(0x04123456) == 0x12345600 && !Negative(0x04123456)
    ensures Magnitude(0x04923456) == 0x12345600 && Negative(0x04923456)
    ensures Overflow(0xff123456) && !Overflow(0x20123456)
  {
    SmallPowers();
    Pow2Bytes();
    hide Pow2;
  }

  lemma CompactVectorsBack()
    ensures 0x80 < Pow2(256) && EncodeCompact(0x80, false) == 0x02008000
  {
    Length80();
    hide Pow2, BitLength;
    Pow2Bytes();
    Pow2Monotone(8, 256);
    assert TopBytes(0x80, 8) == 0x80_0000;
  }

  lemma Length80()
    ensures BitLength(0x80) == 8
  {
    assert BitLength(4) == 3;
    assert BitLength(32) == 6;
  }

  // ----- Work -----

  /** 2^256 / (t + 1), by way of numbers that fit 256 bits. */
  lemma ProofFormula(t: nat)
    requires t + 1 < Modulus()
    ensures (Modulus() - 1 - t) / (t + 1) + 1 == Modulus() / (t + 1)
  {
    QuotientRemainder(Modulus() - 1 - t, t + 1);
    var q, r := (Modulus() - 1 - t) / (t + 1), (Modulus() - 1 - t) % (t + 1);
    Distribute(q, 1, t + 1);
    DivModUnique(Modulus(), t + 1, q + 1, r);
  }

  /** A target that fits is never the largest 256-bit number, so adding one does not wrap. */
  lemma TargetBelowTop(c: U32)
    requires !Overflow(c)
    ensures Magnitude(c) + 1 < Pow2(256)
  {
    hide Pow2;
    OverflowExact(c);
    SmallMagnitude(c);
    Pow2Bytes();
    Pow2Add(8, 248);
    Pow2Monotone(24, 256);
    if Size(c) > 3 {
      WholeBytes(c);
    }
  }

  lemma WholeBytes(c: U32)
    requires Size(c) > 3
    ensures Magnitude(c) == 0x100 * (Word(c) * Pow2(8 * (Size(c) - 4)))
  {
    hide Pow2;
    var p := Pow2(8 * (Size(c) - 4));
    Pow2Bytes();
    Pow2Add(8, 8 * (Size(c) - 4));
    Commute(Word(c), p);
  }

  lemma Commute(w: nat, p: nat)
    ensures w * (0x100 * p) == 0x100 * (w * p)
  {
  }

  // ----- The operations -----

  method SetCompact(r: Uint256, c: U32) returns (negative: bool, overflow: bool)
    requires r.Valid()
    modifies r.pn
    ensures r.Value() == Magnitude(c) % Modulus()
    ensures negative == Negative(c) && overflow == Overflow(c)
  {
    hide Pow2, Val, BasePow;
    SmallMagnitude(c);
    var size, word := c / 0x100_0000, c % 0x80_0000;
    if size <= 3 {
      word := Quotient(word, Pow2(8 * (3 - size)));
      r.Assign(word);
      SmallFits(word);
    } else {
      r.Assign(word);
      r.ShiftLeft(8 * (size - 3));
    }
    negative := word != 0 && c / 0x80_0000 % 2 == 1;
    overflow := word != 0 && (size > 34 || (word > 0xff && size > 33) || (word > 0xffff && size > 32));
  }

  lemma SmallFits(w: nat)
    requires w < 0x80_0000
    ensures w < Modulus() && w % Modulus() == w
  {
    hide Pow2;
    ModulusIs();
    Pow2Bytes();
    Pow2Monotone(23, 256);
    DivModUnique(w, Modulus(), 0, w);
  }

  method GetCompact(x: Uint256, negative: bool) returns (c: U32)
    requires x.Valid()
    ensures x.Value() < Pow2(256) && c == EncodeCompact(x.Value(), negative)
  {
    hide Pow2, Val, BasePow, BitOr, BitLength;
    ModulusIs();
    EncodedFits(x.Value());
    var bits := x.Bits();
    var size := (bits + 7) / 8;
    BitLengthIs(x.Value());
    var compact := Top(x, size);
    if compact / 0x80_0000 % 2 == 1 {
      compact := compact / 256;
      size := size + 1;
    }
    // The source's two assertions.
    assert compact < 0x80_0000;
    assert size < 256;
    c := PackBits(compact, size, negative);
  }

  method PackBits(mantissa: nat, size: nat, negative: bool) returns (c: U32)
    requires mantissa < 0x80_0000 && size < 256
    ensures c == Pack(Parts(mantissa, size), negative)
  {
    hide Pow2, BitOr;
    Pow2Bytes();
    BitOrDisjoint(mantissa, size, 24);
    var packed := BitOr(mantissa, size * 0x100_0000);
    if negative && mantissa != 0 {
      BitOrHigh(mantissa, 0x80_0000, size, 24);
      BitOrDisjoint(mantissa, 1, 23);
      packed := BitOr(packed, 0x80_0000);
    }
    c := packed;
  }

  /** The top three bytes, by a shift either way. */
  method Top(x: Uint256, size: nat) returns (top: nat)
    requires x.Valid() && size == ByteLength(BitLength(x.Value()))
    ensures top == TopBytes(x.Value(), BitLength(x.Value())) < 0x100_0000
  {
    hide Pow2, Val, BasePow, BitLength;
    ghost var v := x.Value();
    BitLengthIs(v);
    Pow2Bytes();
    if size <= 3 {
      ShortTop(v, BitLength(v));
      Pow2Monotone(8 * size, 24);
      var low := x.GetLow64();
      DivModUnique(v, BASE * BASE, 0, v);
      top := low * Pow2(8 * (3 - size));
    } else {
      LongTop(v, BitLength(v));
      var bn := new Uint256.Copy(x);
      bn.ShiftRight(8 * (size - 3));
      top := bn.GetLow64();
      DivModUnique(bn.Value(), BASE * BASE, 0, bn.Value());
    }
  }

  /** The expected number of hashes for a block; the division in it never fails. */
  method GetBlockProof(c: U32) returns (r: Uint256)
    ensures fresh(r) && r.Valid()
    ensures r.Value() == if Negative(c) || Overflow(c) || Magnitude(c) == 0 then 0 else Pow2(256) / (Magnitude(c) + 1)
  {
    hide Pow2, Val, BasePow;
    var target := new Uint256();
    var negative, overflow := SetCompact(target, c);
    ModulusIs();
    OverflowExact(c);
    if !overflow {
      TargetBelowTop(c);
      DivModUnique(Magnitude(c), Modulus(), 0, Magnitude(c));
    }
    var zero := target.EqualTo(0);
    if negative || overflow || zero {
      r := new Uint256();
      return;
    }
    hide Magnitude, Negative, Overflow;
    r := Reciprocal(target, Magnitude(c));
  }

  /** ~target / (target + 1) + 1 */
  method Reciprocal(target: Uint256, ghost m: nat) returns (r: Uint256)
    requires target.Valid() && target.Value() == m && 0 < m < Modulus() - 1
    modifies target.pn
    ensures fresh(r) && fresh(r.pn) && r.Valid() && r.Value() == Pow2(256) / (m + 1)
  {
    hide Pow2, Val, BasePow;
    ModulusIs();
    r := target.Complement();
    var one := new Uint256();
    one.Assign(1);
    target.Add(one);
    DivModUnique(m + 1, Modulus(), 0, m + 1);
    var threw := r.Divide(target);
    ProofFormula(m);
    one.Assign(1);
    r.Add(one);
    ProofFits(m);
  }

  lemma ProofFits(t: nat)
    requires 0 < t && t + 1 < Modulus()
    ensures Modulus() / (t + 1) < Modulus() && Modulus() / (t + 1) % Modulus() == Modulus() / (t + 1)
  {
    QuotientRemainder(Modulus(), t + 1);
    var q := Modulus() / (t + 1);
    ProductMonotone(2, t + 1, q);
    assert (t + 1) * q == q * (t + 1);
    DivModUnique(q, Modulus(), 0, q);
  }
}
