/**
 Powers of two and the length of a number in binary.
 */
module Powers {
  import opened Arithmetic

  function Pow2(k: nat): (p: nat)
    ensures p >= 1
  {
    if k == 0 then 1 else 2 * Pow2(k - 1)
  }

  lemma {:induction false} Pow2Add(a: nat, b: nat)
    ensures Pow2(a + b) == Pow2(a) * Pow2(b)
  {
    if a > 0 {
      Pow2Add(a - 1, b);
      Associate(2, Pow2(a - 1), Pow2(b));
    }
  }

  lemma {:induction false} Pow2Monotone(a: nat, b: nat)
    requires a <= b
    ensures Pow2(a) <= Pow2(b)
  {
    if a < b {
      Pow2Monotone(a, b - 1);
    }
  }

  ghost predicate IsBitLength(v: nat, n: nat) {
    v < Pow2(n) && (n > 0 ==> Pow2(n - 1) <= v)
  }

  lemma BitLengthUnique(v: nat, m: nat, n: nat)
    requires IsBitLength(v, m) && IsBitLength(v, n)
    ensures m == n
  {
    if m < n {
      Pow2Monotone(m, n - 1);
    } else if n < m {
      Pow2Monotone(n, m - 1);
    }
  }

  function BitLength(v: nat): nat {
    if v == 0 then 0 else 1 + BitLength(v / 2)
  }

  lemma {:induction false} BitLengthIs(v: nat)
    ensures IsBitLength(v, BitLength(v))
  {
    if v > 0 {
      BitLengthIs(v / 2);
    }
  }
}
