/** Fixed-width unsigned big-endian integers: `int.to_bytes(w, "big")` and `int.from_bytes(b, "big")`. */
module Endian {
  import opened Common
  import opened Powers

  function Pow256(w: nat): (p: nat)
    ensures p >= 1
  {
    if w == 0 then 1 else 256 * Pow256(w - 1)
  }

  function ToBig(n: nat, w: nat): (b: Bytes)
    requires n < Pow256(w)
    ensures |b| == w
  {
    if w == 0 then [] else ToBig(n / 256, w - 1) + [n % 256]
  }

  function FromBig(b: Bytes): nat
  {
    if b == [] then 0 else 256 * FromBig(b[..|b| - 1]) + b[|b| - 1]
  }

  lemma {:induction false} FromBigStep(b: Bytes)
    requires b != []
    ensures FromBig(b) == 256 * FromBig(b[..|b| - 1]) + b[|b| - 1]
    ensures |b| == 1 ==> FromBig(b) == b[0]
  {
  }

  lemma {:induction false} FromBigShort(b: Bytes)
    ensures var n: seq<int> := b;
      && (|b| == 2 ==> FromBig(b) == 256 * n[0] + n[1])
      && (|b| == 4 ==> FromBig(b) == 16777216 * n[0] + 65536 * n[1] + 256 * n[2] + n[3])
  {
    hide FromBig;
    if |b| >= 2 {
      FromBigStep(b[..1]);
      FromBigStep(b[..2]);
      assert b[..2][..1] == b[..1];
    }
    if |b| == 2 {
      assert b[..2] == b;
    }
    if |b| == 4 {
      FromBigStep(b[..3]);
      FromBigStep(b);
      assert b[..3][..2] == b[..2];
    }
  }

  lemma {:induction false} FromToBig(n: nat, w: nat)
    requires n < Pow256(w)
    ensures FromBig(ToBig(n, w)) == n
  {
    if w > 0 {
      FromToBig(n / 256, w - 1);
      assert ToBig(n, w)[..w - 1] == ToBig(n / 256, w - 1);
    }
  }

  lemma {:induction false} FromBigBound(b: Bytes)
    ensures FromBig(b) < Pow256(|b|)
  {
    if b != [] {
      FromBigBound(b[..|b| - 1]);
    }
  }

  lemma {:induction false} ToFromBig(b: Bytes)
    ensures FromBig(b) < Pow256(|b|) && ToBig(FromBig(b), |b|) == b
  {
    FromBigBound(b);
    if b != [] {
      ToFromBig(b[..|b| - 1]);
      assert b == b[..|b| - 1] + [b[|b| - 1]];
    }
  }

  /** Byte k from the left is the digit of 256^(w - 1 - k): the highest first. */
  lemma {:induction false} BigDigit(n: nat, w: nat, k: nat)
    requires n < Pow256(w) && k < w
    ensures ToBig(n, w)[k] == n / Pow256(w - 1 - k) % 256
  {
    if k < w - 1 {
      BigDigit(n / 256, w - 1, k);
      DivideTwice(n, 256, Pow256(w - 2 - k));
    }
  }

  lemma {:induction false} DivideTwice(n: nat, d: nat, p: nat)
    requires d > 0 && p > 0
    ensures d * p > 0 && n / d / p == n / (d * p)
  {
    var m, s := Divided(n, d);
    var q, r := Divided(m, p);
    StepUp(d, r + 1, p);
    StepUp(d, 1, p);
    Regrouped(d, p, q, r, s);
    QuotientIs(n, d * p, q, d * r + s);
  }

  lemma {:induction false} Divided(n: nat, d: nat) returns (q: nat, r: nat)
    requires d > 0
    ensures n == d * q + r && r < d && n / d == q
  {
    q, r := n / d, n % d;
  }

  lemma {:induction false} Regrouped(d: nat, p: nat, q: nat, r: nat, s: nat)
    ensures d * (p * q + r) + s == d * p * q + (d * r + s) && d * (r + 1) == d * r + d && d * 1 == d
  {
  }

  lemma {:induction false} QuotientIs(n: int, d: nat, q: int, r: nat)
    requires r < d && n == d * q + r
    ensures n / d == q
  {
    var (x, y) := (n / d, n % d);
    assert n == d * x + y;
    if x < q {
      StepUp(d, x + 1, q);
    } else if q < x {
      StepUp(d, q + 1, x);
    }
  }

  lemma {:induction false} StepUp(d: nat, a: int, b: int)
    requires a <= b
    ensures d * a <= d * b
  {
  }

  lemma {:induction false} Pow256IsPow2(n: nat)
    ensures Pow256(n) == Pow2(8 * n)
  {
    if n > 0 {
      Pow256IsPow2(n - 1);
      Pow2Add(8, 8 * (n - 1));
      assert Pow2(8) == 256 by { assert Pow2(4) == 16; }
    }
  }

  lemma {:induction false} SumQuotient(v: int, p: nat, m: nat)
    requires p > 0
    ensures (v + p * m) / p == v / p + m
  {
    var (q, r) := (v / p, v % p);
    assert v == p * q + r;
    assert p * (q + m) == p * q + p * m;
    QuotientIs(v + p * m, p, q + m, r);
  }

  lemma {:induction false} Pow256Split(j: nat, k: nat)
    ensures Pow256(j + k) == Pow256(j) * Pow256(k)
  {
    Pow256IsPow2(j);
    Pow256IsPow2(k);
    Pow256IsPow2(j + k);
    Pow2Add(8 * j, 8 * k);
  }

  /** Adding 256^w to a negative number does not change its digits below. */
  lemma {:induction false} WrappedDigit(v: int, w: nat, k: nat)
    requires k < w
    ensures (v + Pow256(w)) / Pow256(k) % 256 == v / Pow256(k) % 256
  {
    hide Pow256;
    Pow256Split(k, w - k);
    SumQuotient(v, Pow256(k), Pow256(w - k));
    MultipleOf256(w - k);
    SameRemainder(v / Pow256(k), Pow256(w - k));
  }

  lemma {:induction false} SameRemainder(x: int, m: nat)
    requires m % 256 == 0
    ensures (x + m) % 256 == x % 256
  {
  }

  lemma {:induction false} MultipleOf256(j: nat)
    requires j > 0
    ensures Pow256(j) % 256 == 0
  {
  }
}
