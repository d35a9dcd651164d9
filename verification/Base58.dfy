/**
 The Base58 alphabet (src/base58.cpp).
 */
module Base58Alphabet {
  /** All alphanumeric characters except 0, I, O and l. */
  const ALPHABET: string := "123456789" + "ABCDEFGH" + "JKLMN" + "PQRSTUVWXYZ" + "abcdefghijk" + "mnopqrstuvwxyz"

  /** strchr: the first place of c from k on, or 58. */
  function FindChar(s: string, c: char, k: nat): (i: nat)
    requires k <= |s|
    ensures k <= i <= |s| && (i < |s| ==> s[i] == c) && forall j :: k <= j < i ==> s[j] != c
    decreases |s| - k
  {
    if k == |s| || s[k] == c then k else FindChar(s, c, k + 1)
  }

  function CharOf(d: nat): char
    requires d < 58
  {
    ALPHABET[d]
  }

  /** The digit of a character, or 58. */
  function ValueOf(c: char): (v: nat)
    ensures v <= 58
  {
    FindChar(ALPHABET, c, 0)
  }

  predicate IsBase58(c: char) { ValueOf(c) < 58 }

  /** isspace */
  predicate IsSpace(c: char) { c == ' ' || '\t' <= c <= '\r' }

  /** Tab, line feed, vertical tab, form feed, carriage return and blank. */
  lemma SpaceExactly(c: char)
    ensures IsSpace(c) <==> c as nat in {9, 10, 11, 12, 13, 32}
  {
  }

  /** The code of the i-th character: the digits from 1 on, then the letters in order, with gaps at I, O and l. */
  function Code(i: nat): nat {
    if i < 9 then 49 + i else if i < 17 then 56 + i else if i < 22 then 57 + i
    else if i < 33 then 58 + i else if i < 44 then 64 + i else 65 + i
  }

  /** By inspection. */
  lemma CharCode(i: nat)
    requires i < 58
    ensures ALPHABET[i] as nat == Code(i)
  {
    if i < 20 {
      CharCodeLow(i);
    } else if i < 40 {
      CharCodeMiddle(i);
    } else {
      CharCodeHigh(i);
    }
  }

  lemma CharCodeLow(i: nat)
    requires i < 20
    ensures ALPHABET[i] as nat == Code(i)
  {
    if i == 0 {} else if i == 1 {} else if i == 2 {} else if i == 3 {} else if i == 4 {} else
    if i == 5 {} else if i == 6 {} else if i == 7 {} else if i == 8 {} else if i == 9 {} else
    if i == 10 {} else if i == 11 {} else if i == 12 {} else if i == 13 {} else if i == 14 {} else
    if i == 15 {} else if i == 16 {} else if i == 17 {} else if i == 18 {} else if i == 19 {}
  }

  lemma CharCodeMiddle(i: nat)
    requires 20 <= i < 40
    ensures ALPHABET[i] as nat == Code(i)
  {
    if i == 20 {} else if i == 21 {} else if i == 22 {} else if i == 23 {} else if i == 24 {} else
    if i == 25 {} else if i == 26 {} else if i == 27 {} else if i == 28 {} else if i == 29 {} else
    if i == 30 {} else if i == 31 {} else if i == 32 {} else if i == 33 {} else if i == 34 {} else
    if i == 35 {} else if i == 36 {} else if i == 37 {} else if i == 38 {} else if i == 39 {}
  }

  lemma CharCodeHigh(i: nat)
    requires 40 <= i < 58
    ensures ALPHABET[i] as nat == Code(i)
  {
    if i == 40 {} else if i == 41 {} else if i == 42 {} else if i == 43 {} else if i == 44 {} else
    if i == 45 {} else if i == 46 {} else if i == 47 {} else if i == 48 {} else if i == 49 {} else
    if i == 50 {} else if i == 51 {} else if i == 52 {} else if i == 53 {} else if i == 54 {} else
    if i == 55 {} else if i == 56 {} else if i == 57 {}
  }

  /** An alphanumeric character other than 0, I, O and l. */
  predicate Unambiguous(c: char) {
    ('1' <= c <= '9' || 'A' <= c <= 'Z' || 'a' <= c <= 'z') && c != 'I' && c != 'O' && c != 'l'
  }

  lemma PlaceOfCode(c: char) returns (i: nat)
    requires Unambiguous(c)
    ensures i < 58 && Code(i) == c as nat
  {
    i := if c <= '9' then c as nat - 49 else if c <= 'H' then c as nat - 56 else if c <= 'N' then c as nat - 57
         else if c <= 'Z' then c as nat - 58 else if c <= 'k' then c as nat - 64 else c as nat - 65;
  }

  lemma CodeUnambiguous(i: nat, c: char)
    requires i < 58 && Code(i) == c as nat
    ensures Unambiguous(c)
  {
  }

  /** The digits are exactly these characters, in the order of their codes. */
  lemma AlphabetExactly(c: char, d: char)
    ensures IsBase58(c) <==> Unambiguous(c)
    ensures IsBase58(c) && IsBase58(d) ==> (c < d <==> ValueOf(c) < ValueOf(d))
  {
    hide Unambiguous;
    if Unambiguous(c) {
      var i := PlaceOfCode(c);
      CharCode(i);
    }
    hide Code;
    if IsBase58(c) {
      CharCode(ValueOf(c));
      CodeUnambiguous(ValueOf(c), c);
      if IsBase58(d) {
        ValuesOrdered(c, d);
        ValuesOrdered(d, c);
      }
    }
  }

  lemma ValuesOrdered(c: char, d: char)
    requires IsBase58(c) && IsBase58(d)
    ensures ValueOf(c) < ValueOf(d) ==> c < d
  {
    if ValueOf(c) < ValueOf(d) {
      AlphabetOrdered(ValueOf(c), ValueOf(d));
    }
  }

  lemma AlphabetOrdered(i: nat, j: nat)
    requires i < j < 58
    ensures ALPHABET[i] < ALPHABET[j]
  {
    CharCode(i);
    CharCode(j);
  }

  /** Each digit has its own character, and none of them is a space. */
  lemma CharOfDigit(d: nat)
    requires d < 58
    ensures ValueOf(CharOf(d)) == d && !IsSpace(CharOf(d))
    ensures CharOf(d) == '1' <==> d == 0
  {
    var i := FindChar(ALPHABET, ALPHABET[d], 0);
    if i < d {
      AlphabetOrdered(i, d);
    }
    assert ALPHABET[0] == '1';
    if d > 0 {
      AlphabetOrdered(0, d);
    }
  }

  lemma DigitOfChar(c: char)
    requires IsBase58(c)
    ensures CharOf(ValueOf(c)) == c && !IsSpace(c) && (c == '1' <==> ValueOf(c) == 0)
  {
    CharOfDigit(ValueOf(c));
  }
}

/**
 Base58 text and its checked form (src/base58.cpp).
 */
module Base58 {
  import opened Wrappers
  import opened Arithmetic
  import opened Radix
  import opened Base58Alphabet

  ghost predicate AllBase58(t: string) {
    forall i :: 0 <= i < |t| ==> IsBase58(t[i])
  }

  function Repeat<T>(x: T, n: nat): seq<T> { seq(n, _ => x) }

  function Chars(ds: seq<nat>): (t: string)
    requires AllBelow(ds, 58)
    ensures |t| == |ds| && forall i :: 0 <= i < |ds| ==> t[i] == CharOf(ds[i])
  {
    seq(|ds|, i requires 0 <= i < |ds| => CharOf(ds[i]))
  }

  function Values(t: string): (ds: seq<nat>)
    ensures |ds| == |t| && forall i :: 0 <= i < |t| ==> ds[i] == ValueOf(t[i])
  {
    seq(|t|, i requires 0 <= i < |t| => ValueOf(t[i]))
  }

  // ----- What encoding and decoding mean -----

  /** Every leading zero byte becomes a '1'; the rest is written as a number. */
  function ToBase58(bytes: seq<nat>): string {
    var z := Leading(bytes, 0);
    var v := Num(bytes[z..], 256);
    DigitsOfNumber(v, 58);
    Repeat('1', z) + Chars(Digits(v, 58))
  }

  function FromBase58(t: string): seq<nat> {
    var z := Leading(t, '1');
    Repeat(0, z) + Digits(Num(Values(t[z..]), 58), 256)
  }

  lemma DecodeEncode(bytes: seq<nat>)
    requires AllBelow(bytes, 256)
    ensures AllBase58(ToBase58(bytes)) && FromBase58(ToBase58(bytes)) == bytes
  {
    hide CharOf, ValueOf, Num, Digits;
    var z := Leading(bytes, 0);
    var v := Num(bytes[z..], 256);
    DigitsOfNumber(v, 58);
    var ds := Digits(v, 58);
    var t := ToBase58(bytes);
    CharsAreBase58(ds);
    assert t[z..] == Chars(ds);
    LeadingUnique(t, '1', z);
    NumberOfDigits(bytes[z..], 256);
    assert Repeat(0, z) == bytes[..z];
  }

  lemma CharsAreBase58(ds: seq<nat>)
    requires Canonical(ds, 58)
    ensures AllBase58(Chars(ds)) && Values(Chars(ds)) == ds
    ensures ds != [] ==> Chars(ds)[0] != '1'
    ensures IsBase58('1')
  {
    hide CharOf, ValueOf;
    forall i | 0 <= i < |ds| ensures IsBase58(Chars(ds)[i]) && Values(Chars(ds))[i] == ds[i] {
      CharOfDigit(ds[i]);
    }
    if ds != [] {
      CharOfDigit(ds[0]);
    }
    CharOfDigit(0);
    assert CharOf(0) == '1';
  }

  lemma EncodeDecode(t: string)
    requires AllBase58(t)
    ensures AllBelow(FromBase58(t), 256) && ToBase58(FromBase58(t)) == t
  {
    hide CharOf, ValueOf, Num, Digits;
    var z := Leading(t, '1');
    var ds := Values(t[z..]);
    ValuesAreDigits(t[z..]);
    var v := Num(ds, 58);
    DigitsOfNumber(v, 256);
    var bytes := FromBase58(t);
    assert bytes[z..] == Digits(v, 256);
    LeadingUnique(bytes, 0, z);
    NumberOfDigits(ds, 58);
    assert Repeat('1', z) == t[..z];
  }

  lemma ValuesAreDigits(t: string)
    requires AllBase58(t) && (t != [] ==> t[0] != '1')
    ensures Canonical(Values(t), 58) && Chars(Values(t)) == t
  {
    hide CharOf, ValueOf;
    forall i | 0 <= i < |t| ensures Values(t)[i] < 58 && CharOf(Values(t)[i]) == t[i]
      && (t[i] == '1' <==> Values(t)[i] == 0) {
      DigitOfChar(t[i]);
    }
  }

  // ----- Spaces -----

  lemma DigitsStep(q: nat, d: nat)
    requires d < 58 && q + d > 0
    ensures Digits(58 * q + d, 58) == Digits(q, 58) + [d]
  {
    DivModUnique(58 * q + d, 58, q, d);
  }

  lemma VectorNumber()
    ensures Num([0x62, 0x62, 0x62], 256) == 6447714
  {
    var one: seq<nat>, two: seq<nat>, three: seq<nat> := [0x62], [0x62, 0x62], [0x62, 0x62, 0x62];
    assert one[..0] == [] && two[..1] == one && three[..2] == two;
  }

  lemma VectorDigits()
    ensures Digits(6447714, 58) == [33, 2, 39, 28]
  {
    hide Digits;
    DigitsStep(0, 33);
    DigitsStep(33, 2);
    DigitsStep(1916, 39);
    DigitsStep(111167, 28);
    assert Digits(0, 58) == [] by {
      DigitsOfZero();
    }
  }

  lemma DigitsOfZero()
    ensures Digits(0, 58) == []
  {
  }

  /** A vector of src/test/data/base58_encode_decode.json: the most significant byte and digit come first. */
  lemma EncodeVector()
    ensures ToBase58([0x62, 0x62, 0x62]) == "a3gV"
  {
    var bytes: seq<nat> := [0x62, 0x62, 0x62];
    VectorNumber();
    VectorDigits();
    hide Num, Digits;
    assert bytes[0..] == bytes;
    DigitsOfNumber(6447714, 58);
    CharCode(33);
    CharCode(2);
    CharCode(39);
    CharCode(28);
    assert Chars([33, 2, 39, 28]) == "a3gV";
  }

  /** The index of the first character from k on that is not a space. */
  function SkipSpaces(s: string, k: nat): (i: nat)
    requires k <= |s|
    ensures k <= i <= |s| && (i < |s| ==> !IsSpace(s[i])) && forall j :: k <= j < i ==> IsSpace(s[j])
    decreases |s| - k
  {
    if k == |s| || !IsSpace(s[k]) then k else SkipSpaces(s, k + 1)
  }

  /** The index of the first space from k on. */
  function SkipText(s: string, k: nat): (i: nat)
    requires k <= |s|
    ensures k <= i <= |s| && (i < |s| ==> IsSpace(s[i])) && forall j :: k <= j < i ==> !IsSpace(s[j])
    decreases |s| - k
  {
    if k == |s| || IsSpace(s[k]) then k else SkipText(s, k + 1)
  }

  /** The first run of characters that are not spaces. */
  function Body(s: string): string {
    var i := SkipSpaces(s, 0);
    s[i..SkipText(s, i)]
  }

  /** Nothing but spaces follows it. */
  predicate Alone(s: string) {
    SkipSpaces(s, SkipText(s, SkipSpaces(s, 0))) == |s|
  }

  /** What decoding yields: the bytes of a Base58 text with spaces around it, and nothing for any other. */
  ghost function Decoding(s: string): Option<seq<nat>> {
    if AllBase58(Body(s)) && Alone(s) then Some(FromBase58(Body(s))) else None
  }

  lemma SkipSpacesIs(s: string, k: nat, i: nat)
    requires k <= i <= |s| && (i < |s| ==> !IsSpace(s[i])) && forall j :: k <= j < i ==> IsSpace(s[j])
    ensures SkipSpaces(s, k) == i
  {
    var m := SkipSpaces(s, k);
  }

  lemma SkipTextIs(s: string, k: nat, i: nat)
    requires k <= i <= |s| && (i < |s| ==> IsSpace(s[i])) && forall j :: k <= j < i ==> !IsSpace(s[j])
    ensures SkipText(s, k) == i
  {
    var m := SkipText(s, k);
  }

  /** Exactly the Base58 texts with spaces around them decode. */
  lemma DecodesExactly(before: string, t: string, after: string)
    requires (forall i :: 0 <= i < |before| ==> IsSpace(before[i]))
      && (forall i :: 0 <= i < |after| ==> IsSpace(after[i]))
    requires AllBase58(t)
    ensures Decoding(before + t + after) == Some(FromBase58(t))
  {
    hide ValueOf, CharOf, FromBase58;
    var s := before + t + after;
    forall i | 0 <= i < |t| ensures !IsSpace(t[i]) && s[|before| + i] == t[i] {
      DigitOfChar(t[i]);
    }
    if t == [] {
      SkipSpacesIs(s, 0, |s|);
    } else {
      SkipSpacesIs(s, 0, |before|);
      SkipTextIs(s, |before|, |before| + |t|);
      SkipSpacesIs(s, |before| + |t|, |s|);
    }
    assert Body(s) == t;
  }

  lemma DecodedIsPadded(s: string) returns (before: string, after: string)
    requires Decoding(s).Some?
    ensures s == before + Body(s) + after
    ensures (forall i :: 0 <= i < |before| ==> IsSpace(before[i]))
      && (forall i :: 0 <= i < |after| ==> IsSpace(after[i]))
  {
    var i := SkipSpaces(s, 0);
    before, after := s[..i], s[SkipText(s, i)..];
  }

  // ----- The digit buffer -----

  /** The buffer's digits are in range and those before the last `length` are zero. */
  ghost predicate BufferOk(s: seq<nat>, r: nat, length: nat) {
    AllBelow(s, r) && length <= |s| && forall i :: 0 <= i < |s| - length ==> s[i] == 0
  }

  /** Apply "buf = buf * factor + add", from the last digit up. */
  method MultiplyAdd(buf: array<nat>, length: nat, r: nat, factor: nat, add: nat) returns (newLength: nat)
    requires r > 1 && BufferOk(buf[..], r, length)
    requires factor * Num(buf[..], r) + add < Pow(r, buf.Length)
    modifies buf
    ensures BufferOk(buf[..], r, newLength) && Num(buf[..], r) == factor * old(Num(buf[..], r)) + add
  {
    hide Num, Pow, Low;
    ghost var x := buf[..];
    var carry: nat, i: nat := add, 0;
    LowStart(x, r, factor, add);
    while (carry != 0 || i < length) && i < buf.Length
      invariant 0 <= i <= buf.Length && AllBelow(buf[..], r)
      invariant forall j :: 0 <= j < buf.Length - i ==> buf[j] == x[j]
      invariant Low(buf[..], r, i) + carry * Pow(r, i) == factor * Low(x, r, i) + add
    {
      ghost var s := buf[..];
      var k := buf.Length - 1 - i;
      var n: nat := carry + factor * buf[k];
      buf[k] := n % r;
      CarryDigit(s, buf[..], x, r, i, carry, factor, add);
      carry := Quotient(n, r);
      i := i + 1;
    }
    Finish(x, buf[..], r, length, i, carry, factor, add);
    // The source's assertion.
    assert carry == 0;
    newLength := i;
  }

  lemma LowStart(x: seq<nat>, r: nat, factor: nat, add: nat)
    ensures Low(x, r, 0) + add * Pow(r, 0) == factor * Low(x, r, 0) + add
  {
    assert Pow(r, 0) == 1;
  }

  lemma Finish(x: seq<nat>, s: seq<nat>, r: nat, length: nat, i: nat, carry: nat, factor: nat, add: nat)
    requires r > 1 && |x| == |s| && i <= |s| && BufferOk(x, r, length) && (i == |s| || (carry == 0 && i >= length))
    requires forall j :: 0 <= j < |s| - i ==> s[j] == x[j]
    requires factor * Num(x, r) + add < Pow(r, |x|)
    requires Low(s, r, i) + carry * Pow(r, i) == factor * Low(x, r, i) + add
    ensures carry == 0 && Num(s, r) == factor * Num(x, r) + add
  {
    hide Num, Pow, Low;
    LowIsNum(x, r);
    LowIsNum(s, r);
    if i == |s| {
      if carry > 0 {
        ProductMonotone(1, carry, Pow(r, i));
      }
    } else {
      LowZero(x, r, i, |x|);
      LowZero(s, r, i, |s|);
    }
  }

  // ----- The two conversions -----

  /** The number of the first k + 1 digits, and room for it in the buffer. */
  lemma NextFits(ds: seq<nat>, k: nat, from: nat, to: nat, n: nat, size: nat)
    requires from > 1 && k < |ds| <= n && AllBelow(ds, from) && Pow(from, n) < Pow(to, size)
    ensures Num(ds[..k + 1], from) == from * Num(ds[..k], from) + ds[k] < Pow(to, size)
  {
    assert ds[..k + 1][..k] == ds[..k];
    assert Num(ds[..k], from) * from == from * Num(ds[..k], from);
    NumBound(ds[..k + 1], from);
    if k + 1 < n {
      PowGrows(from, k + 1, n);
    }
  }

  /** The digits of the buffer behind its leading zeros, from the first place that may be nonzero. */
  method SkipZeros(buf: array<nat>, r: nat, length: nat) returns (it: nat)
    requires r > 1 && BufferOk(buf[..], r, length)
    ensures it <= buf.Length && buf[it..] == Digits(Num(buf[..], r), r)
  {
    hide Num, Digits;
    it := buf.Length - length;
    while it < buf.Length && buf[it] == 0
      invariant it <= buf.Length && forall i :: 0 <= i < it ==> buf[i] == 0
    {
      it := it + 1;
    }
    StrippedIsDigits(buf[..], r, it);
    assert buf[..][it..] == buf[it..];
  }

  method EncodeBase58(bytes: seq<nat>) returns (s: string)
    requires AllBelow(bytes, 256)
    ensures s == ToBase58(bytes)
  {
    hide Num, Digits, Pow, CharOf;
    var zeroes := 0;
    while zeroes < |bytes| && bytes[zeroes] == 0
      invariant zeroes <= |bytes| && forall i :: 0 <= i < zeroes ==> bytes[i] == 0
    {
      zeroes := zeroes + 1;
    }
    LeadingUnique(bytes, 0, zeroes);
    var buf, length := ToDigits58(bytes[zeroes..]);
    DigitsOfNumber(Num(bytes[zeroes..], 256), 58);
    var it := SkipZeros(buf, 58, length);
    s := Repeat('1', zeroes);
    ghost var ds := buf[it..];
    ghost var k := it;
    while it < buf.Length
      invariant k <= it <= buf.Length && s == Repeat('1', zeroes) + Chars(ds)[..it - k]
    {
      s := s + [CharOf(buf[it])];
      it := it + 1;
    }
    assert Chars(ds)[..|ds|] == Chars(ds);
  }

  method ToDigits58(ds: seq<nat>) returns (buf: array<nat>, length: nat)
    requires AllBelow(ds, 256)
    ensures fresh(buf) && BufferOk(buf[..], 58, length) && Num(buf[..], 58) == Num(ds, 256)
  {
    hide Num, Pow;
    var size := |ds| * 138 / 100 + 1;
    EncodeRatio();
    EnoughDigits(256, 58, 138, 100, |ds|);
    buf := new nat[size](_ => 0);
    length := 0;
    NumOfZeros(buf[..], 58);
    NumOfZeros(ds[..0], 256);
    var p := 0;
    while p < |ds|
      invariant p <= |ds| && buf.Length == size && BufferOk(buf[..], 58, length)
        && Num(buf[..], 58) == Num(ds[..p], 256)
    {
      NextFits(ds, p, 256, 58, |ds|, size);
      length := MultiplyAdd(buf, length, 58, 256, ds[p]);
      p := p + 1;
    }
    assert ds[..|ds|] == ds;
  }

  lemma NumOfZeros(s: seq<nat>, r: nat)
    requires forall i :: 0 <= i < |s| ==> s[i] == 0
    ensures Num(s, r) == 0
  {
    NumSkipsZeros(s, r, |s|);
  }

  /** Read characters up to a space or the end, failing on one outside the alphabet. */
  method FromText(s: string, start: nat) returns (ok: bool, buf: array<nat>, length: nat, end: nat)
    requires start <= |s|
    ensures ok <==> AllBase58(s[start..SkipText(s, start)])
    ensures fresh(buf)
    ensures ok ==> end == SkipText(s, start) && BufferOk(buf[..], 256, length)
                   && Num(buf[..], 256) == Num(Values(s[start..end]), 58)
  {
    hide Num, Pow, ValueOf;
    var size := (|s| - start) * 733 / 1000 + 1;
    DecodeRatio();
    EnoughDigits(58, 256, 733, 1000, |s| - start);
    buf := new nat[size](_ => 0);
    length, end := 0, start;
    NumOfZeros(buf[..], 256);
    NumOfZeros(Values(s[start..start]), 58);
    while end < |s| && !IsSpace(s[end])
      invariant start <= end <= |s| && (forall i :: start <= i < end ==> !IsSpace(s[i]) && IsBase58(s[i]))
      invariant buf.Length == size && BufferOk(buf[..], 256, length)
      invariant Num(buf[..], 256) == Num(Values(s[start..end]), 58)
    {
      var ch := ValueOf(s[end]);
      if ch == 58 {
        assert s[start..SkipText(s, start)][end - start] == s[end];
        return false, buf, length, end;
      }
      TextFits(s, start, end, |s| - start, size);
      length := MultiplyAdd(buf, length, 256, 58, ch);
      end := end + 1;
    }
    SkipTextIs(s, start, end);
    ok := true;
  }

  lemma TextFits(s: string, start: nat, end: nat, n: nat, size: nat)
    requires start <= end < |s| && n == |s| - start && Pow(58, n) < Pow(256, size)
    requires forall i :: start <= i <= end ==> IsBase58(s[i])
    ensures Num(Values(s[start..end + 1]), 58) == 58 * Num(Values(s[start..end]), 58) + ValueOf(s[end]) < Pow(256, size)
  {
    hide Num, Pow, ValueOf;
    var ds := Values(s[start..end + 1]);
    assert ds[..end - start] == Values(s[start..end]) && ds[..end - start + 1] == ds;
    NextFits(ds, end - start, 58, 256, n, size);
  }

  method PassSpaces(s: string, k: nat) returns (p: nat)
    requires k <= |s|
    ensures p == SkipSpaces(s, k)
  {
    p := k;
    while p < |s| && IsSpace(s[p])
      invariant k <= p <= |s| && forall i :: k <= i < p ==> IsSpace(s[i])
    {
      p := p + 1;
    }
    SkipSpacesIs(s, k, p);
  }

  method CopyBytes(zeroes: nat, buf: array<nat>, first: nat) returns (vch: seq<nat>)
    requires first <= buf.Length
    ensures vch == Repeat(0, zeroes) + buf[first..]
  {
    vch := Repeat(0, zeroes);
    for it := first to buf.Length
      invariant vch == Repeat(0, zeroes) + buf[first..it]
    {
      vch := vch + [buf[it]];
    }
  }

  method DecodeBase58(s: string) returns (r: Option<seq<nat>>)
    ensures r == Decoding(s)
  {
    hide Num, Digits, ValueOf, SkipSpaces, SkipText, Repeat, AllBase58;
    var p := PassSpaces(s, 0);
    ghost var first := p;
    var zeroes := 0;
    while p < |s| && s[p] == '1'
      invariant first <= p == first + zeroes <= |s| && forall i :: first <= i < p ==> s[i] == '1'
    {
      zeroes := zeroes + 1;
      p := p + 1;
    }
    OnesAreText(s, first, p);
    var ok, buf, length, end := FromText(s, p);
    if !ok {
      return None;
    }
    p := PassSpaces(s, end);
    if p != |s| {
      return None;
    }
    var it := SkipZeros(buf, 256, length);
    var vch := CopyBytes(zeroes, buf, it);
    r := Some(vch);
  }

  /** The leading '1's belong to the text. */
  lemma OnesAreText(s: string, first: nat, p: nat)
    requires first <= p <= |s| && first == SkipSpaces(s, 0)
    requires (forall i :: first <= i < p ==> s[i] == '1') && (p < |s| ==> s[p] != '1')
    ensures SkipText(s, first) == SkipText(s, p) && Body(s)[p - first..] == s[p..SkipText(s, p)]
    ensures Leading(Body(s), '1') == p - first
    ensures AllBase58(Body(s)) <==> AllBase58(s[p..SkipText(s, p)])
  {
    hide ValueOf, Leading, AllBase58;
    var e := SkipText(s, p);
    SkipTextIs(s, first, e);
    hide SkipText, SkipSpaces;
    var body := s[first..e];
    assert Body(s) == body;
    assert forall i :: 0 <= i < |body| ==> body[i] == s[first + i];
    LeadingUnique(body, '1', p - first);
    assert body == s[first..p] + s[p..e];
    OnesInFront(s[first..p], s[p..e]);
  }

  lemma OnesInFront(ones: string, rest: string)
    requires forall i :: 0 <= i < |ones| ==> ones[i] == '1'
    ensures AllBase58(ones + rest) <==> AllBase58(rest)
  {
    hide ValueOf;
    CharsAreBase58([]);
    var s := ones + rest;
    assert forall i :: 0 <= i < |ones| ==> s[i] == '1';
    assert forall i :: 0 <= i < |rest| ==> s[|ones| + i] == rest[i];
  }

  // ----- The checked form -----

  /** Any hash of at least four bytes. */
  type Hash = seq<nat> -> seq<nat>

  ghost predicate IsHash(h: Hash) {
    forall v :: |h(v)| >= 4 && AllBelow(h(v)[..4], 256)
  }

  method EncodeBase58Check(h: Hash, v: seq<nat>) returns (s: string)
    requires IsHash(h) && AllBelow(v, 256)
    ensures s == ToBase58(v + h(v)[..4])
  {
    var check := h(v);
    s := EncodeBase58(v + check[..4]);
  }

  ghost function CheckedDecoding(h: Hash, s: string): Option<seq<nat>>
    requires IsHash(h)
  {
    match Decoding(s)
    case None => None
    case Some(d) =>
      if |d| >= 4 && h(d[..|d| - 4])[..4] == d[|d| - 4..] then Some(d[..|d| - 4]) else None
  }

  method DecodeBase58Check(h: Hash, s: string) returns (r: Option<seq<nat>>)
    requires IsHash(h)
    ensures r == CheckedDecoding(h, s)
  {
    var d := DecodeBase58(s);
    if d.None? || |d.value| < 4 {
      return None;
    }
    var v := d.value;
    var check := h(v[..|v| - 4]);
    if check[..4] != v[|v| - 4..] {
      return None;
    }
    r := Some(v[..|v| - 4]);
  }

  /** With any hash, the checked form decodes to what was encoded... */
  lemma CheckRoundTrip(h: Hash, v: seq<nat>)
    requires IsHash(h) && AllBelow(v, 256)
    ensures CheckedDecoding(h, ToBase58(v + h(v)[..4])) == Some(v)
  {
    hide FromBase58, ToBase58, Body, AllBase58, Alone;
    var d := v + h(v)[..4];
    DecodeEncode(d);
    var t := ToBase58(d);
    DecodesExactly([], t, []);
    assert [] + t + [] == t;
    assert d[..|d| - 4] == v && d[|d| - 4..] == h(v)[..4];
  }

  /** ... and what decodes is the encoding of the result, with spaces around it. */
  lemma CheckedIsEncoding(h: Hash, s: string)
    requires IsHash(h) && CheckedDecoding(h, s).Some?
    ensures var v := CheckedDecoding(h, s).value;
      AllBelow(v, 256) && Body(s) == ToBase58(v + h(v)[..4])
  {
    hide FromBase58, ToBase58, Body, AllBase58, Alone;
    var d := Decoding(s).value;
    EncodeDecode(Body(s));
    var v := d[..|d| - 4];
    assert d == v + h(v)[..4];
  }
}
