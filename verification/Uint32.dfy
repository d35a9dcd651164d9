/**
 Unsigned 32-bit numbers, and the multiplication that spreads one over a range.
 */
module Uint32 {
  type U32 = x: nat | x < 0x1_0000_0000

  /** (x * n) >> 32 in 64-bit arithmetic */
  function Scaled(x: U32, n: nat): (r: nat)
    requires n > 0
    ensures r < n && r * 0x1_0000_0000 <= x * n < r * 0x1_0000_0000 + 0x1_0000_0000
  {
    ProductBelow(x, n);
    HighHalf(x * n, n);
    x * n / 0x1_0000_0000
  }

  lemma ProductBelow(x: U32, n: nat)
    requires n > 0
    ensures 0 <= x * n < 0x1_0000_0000 * n
  {
  }

  lemma HighHalf(t: nat, n: nat)
    requires t < 0x1_0000_0000 * n
    ensures var r := t / 0x1_0000_0000; 0 <= r < n && r * 0x1_0000_0000 <= t < r * 0x1_0000_0000 + 0x1_0000_0000
  {
  }
}
