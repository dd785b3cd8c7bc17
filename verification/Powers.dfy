/** Powers of two and Python's `int.bit_length`. */
module Powers {
  function Pow2(n: nat): (p: nat)
    ensures p > n
  {
    if n == 0 then 1 else 2 * Pow2(n - 1)
  }

  /** `n.bit_length()` of a natural number. */
  function BitLength(n: nat): (b: nat)
    ensures n < Pow2(b)
    ensures n > 0 ==> b > 0 && Pow2(b - 1) <= n
  {
    if n == 0 then 0 else 1 + BitLength(n / 2)
  }

  lemma {:induction false} Pow2Monotone(i: nat, j: nat)
    requires i <= j
    ensures Pow2(i) <= Pow2(j)
  {
    if i < j {
      Pow2Monotone(i, j - 1);
    }
  }

  lemma {:induction false} BelowBitLength(i: nat, n: nat)
    ensures i < BitLength(n) <==> Pow2(i) <= n
  {
    if i < BitLength(n) {
      Pow2Monotone(i, BitLength(n) - 1);
    } else {
      Pow2Monotone(BitLength(n), i);
    }
  }

  lemma {:induction false} Pow2Here(k: nat)
    requires k > 0
    ensures Pow2(k) == 2 * Pow2(k - 1) && Pow2(k - 1) > 0
  {
  }

  lemma {:induction false} Doubled(p: nat, q: nat, x: nat)
    requires q == 2 * p
    ensures q * x == 2 * (p * x)
  {
  }

  lemma {:induction false} Pow2Add(i: nat, j: nat)
    ensures Pow2(i + j) == Pow2(i) * Pow2(j)
  {
    if i > 0 {
      Pow2Add(i - 1, j);
      Pow2Here(i);
      Pow2Here(i + j);
      Doubled(Pow2(i - 1), Pow2(i), Pow2(j));
    }
  }
}
