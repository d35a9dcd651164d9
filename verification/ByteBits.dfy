/**
 Single bits of a byte: 1 << k, set, cleared and read.
 */
module ByteBits {
  function BitMask(k: nat): bv8
    requires k < 8
  {
    (1 as bv8) << k
  }

  predicate BitOf(b: bv8, k: nat)
    requires k < 8
  {
    b & BitMask(k) != 0
  }

  /** Bit k is the one with the weight 2^k. */
  lemma BitWeight(b: bv8, k: nat)
    requires k < 8
    ensures BitOf(b, k) <==> (b >> k) & 1 == 1
  {
  }

  lemma SetBit(b: bv8, k: nat, j: nat)
    requires k < 8 && j < 8
    ensures BitOf(b | BitMask(k), j) <==> j == k || BitOf(b, j)
  {
  }

  lemma ClearBit(b: bv8, k: nat, j: nat)
    requires k < 8 && j < 8
    ensures BitOf(b & !BitMask(k), j) <==> j != k && BitOf(b, j)
  {
  }

  lemma AllSet(k: nat)
    requires k < 8
    ensures BitOf(0xFF, k)
  {
  }
}
