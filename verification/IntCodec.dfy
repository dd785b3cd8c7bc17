/** Signed little-endian integers: `_encode_int` and `_decode_int` of `expression/expr.py`. */
module IntCodec {
  import opened Common
  import opened Endian
  import opened Powers

  function ToLittle(n: nat, w: nat): (b: Bytes)
    requires n < Pow256(w)
    ensures |b| == w
  {
    if w == 0 then [] else [n % 256] + ToLittle(n / 256, w - 1)
  }

  function FromLittle(b: Bytes): (n: nat)
    ensures n < Pow256(|b|)
  {
    if b == [] then 0 else b[0] + 256 * FromLittle(b[1..])
  }

  lemma {:induction false} FromToLittle(n: nat, w: nat)
    requires n < Pow256(w)
    ensures FromLittle(ToLittle(n, w)) == n
  {
    if w > 0 {
      FromToLittle(n / 256, w - 1);
      assert ToLittle(n, w)[1..] == ToLittle(n / 256, w - 1);
    }
  }

  function Abs(v: int): nat { if v < 0 then -v else v }

  /** The width that `_encode_int` chooses. */
  function IntWidth(v: int): (w: nat)
    ensures w > 0
  {
    Max(1, (BitLength(Abs(v)) + 8) / 8)
  }

  /** `int.to_bytes(w, "little", signed=True)`, two's complement; None is its OverflowError. */
  function ToSignedLittle(v: int, w: nat): Option<Bytes>
  {
    if w > 0 && -(Pow256(w) / 2) <= v < Pow256(w) / 2 then
      Some(ToLittle(if v < 0 then v + Pow256(w) else v, w))
    else None
  }

  /** `int.from_bytes(b, "little", signed=True)`. */
  function DecodeInt(b: Bytes): int
  {
    var n := FromLittle(b);
    if 2 * n >= Pow256(|b|) && |b| > 0 then n - Pow256(|b|) else n
  }

  /** The chosen width always holds the integer. */
  lemma {:induction false} WidthSuffices(v: int)
    ensures ToSignedLittle(v, IntWidth(v)).Some?
  {
    var (w, l) := (IntWidth(v), BitLength(Abs(v)));
    Pow256IsPow2(w);
    Pow2Monotone(l, 8 * w - 1);
    assert Pow2(8 * w) == 2 * Pow2(8 * w - 1);
  }

  /** `_encode_int`. */
  function EncodeInt(v: int): (b: Bytes)
    ensures |b| > 0
  {
    WidthSuffices(v);
    ToSignedLittle(v, IntWidth(v)).value
  }

  lemma {:induction false} LittleDigit(n: nat, w: nat, k: nat)
    requires n < Pow256(w) && k < w
    ensures ToLittle(n, w)[k] == n / Pow256(k) % 256
  {
    if k > 0 {
      LittleDigit(n / 256, w - 1, k - 1);
      DivideTwice(n, 256, Pow256(k - 1));
    }
  }

  /** Every byte string is what its own integer is written as at its width, the lowest byte first in two's complement. */
  lemma {:induction false} SignedLittleBytes(b: Bytes)
    requires b != []
    ensures ToSignedLittle(DecodeInt(b), |b|) == Some(b)
    ensures forall k :: 0 <= k < |b| ==> b[k] == DecodeInt(b) / Pow256(k) % 256
  {
    hide ToLittle, FromLittle, Pow256;
    ToFromLittle(b);
    EvenPower(|b|);
    forall k | 0 <= k < |b|
      ensures b[k] == DecodeInt(b) / Pow256(k) % 256
    {
      LittleDigit(FromLittle(b), |b|, k);
      WrappedDigit(FromLittle(b) - Pow256(|b|), |b|, k);
    }
  }

  lemma {:induction false} EvenPower(w: nat)
    requires w > 0
    ensures Pow256(w) == 2 * (Pow256(w) / 2)
  {
  }

  lemma {:induction false} ToFromLittle(b: Bytes)
    ensures FromLittle(b) < Pow256(|b|) && ToLittle(FromLittle(b), |b|) == b
  {
    if b != [] {
      ToFromLittle(b[1..]);
      assert b == [b[0]] + b[1..];
    }
  }

  /**
   * The bytes of an integer: the lowest first, in two's complement (the division rounds down), as few as leave
   * room for a sign bit above its magnitude.
   */
  lemma {:induction false} IntBytes(v: int)
    ensures var (b, w) := (EncodeInt(v), |EncodeInt(v)|);
      && (forall k :: 0 <= k < w ==> b[k] == v / Pow256(k) % 256)
      && Abs(v) < Pow2(8 * w - 1) && (w > 1 ==> Abs(v) >= Pow2(8 * w - 9))
  {
    hide IntWidth, DecodeInt, ToSignedLittle, Pow256, Pow2;
    DecodeEncodedInt(v);
    SignedLittleBytes(EncodeInt(v));
    WidthSuffices(v);
    LengthIsWidth(v);
    WidthIsLeast(v);
  }

  lemma {:induction false} LengthIsWidth(v: int)
    ensures |EncodeInt(v)| == IntWidth(v)
  {
    hide IntWidth;
    WidthSuffices(v);
  }

  lemma {:induction false} WidthIsLeast(v: int)
    ensures var w := IntWidth(v); Abs(v) < Pow2(8 * w - 1) && (w > 1 ==> Abs(v) >= Pow2(8 * w - 9))
  {
    hide Pow2, BitLength;
    var w := IntWidth(v);
    BelowBitLength(8 * w - 1, Abs(v));
    if w > 1 {
      BelowBitLength(8 * w - 9, Abs(v));
    }
  }

  /** Every integer is read back, whatever its sign and size. */
  lemma {:induction false} DecodeEncodedInt(v: int)
    ensures DecodeInt(EncodeInt(v)) == v
  {
    var w := IntWidth(v);
    WidthSuffices(v);
    var n := if v < 0 then v + Pow256(w) else v;
    FromToLittle(n, w);
    assert Pow256(w) == 256 * Pow256(w - 1);
  }
}
