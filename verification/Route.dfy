/**
 * The XOR geometry of the peer route: `communication/util.py`, `communication/models/route.py`
 * and `communication/self_lookup.py`.
 */
module Routes {
  import opened Common
  import opened Endian
  import opened Powers

  type Key = Bytes

  // ------------------------------------------------------------------- distance

  /** Bitwise exclusive or of the lowest w bits. */
  function Xor(a: nat, b: nat, w: nat): (x: nat)
    ensures x < Pow2(w)
  {
    if w == 0 then 0 else 2 * Xor(a / 2, b / 2, w - 1) + (if a % 2 != b % 2 then 1 else 0)
  }

  function XorByte(x: Byte, y: Byte): Byte
  {
    assert Pow2(8) == 256 by { assert Pow2(4) == 16; }
    Xor(x, y, 8)
  }

  function XorBytes(a: Key, b: Key): (x: Bytes)
    requires |a| == |b|
    ensures |x| == |a|
  {
    seq(|a|, i requires 0 <= i < |a| => XorByte(a[i], b[i]))
  }

  /** `xor_distance` of keys of one length. */
  function Distance(a: Key, b: Key): nat
    requires |a| == |b|
  {
    FromBig(XorBytes(a, b))
  }

  lemma {:induction false} XorOfEqual(a: nat, w: nat)
    ensures Xor(a, a, w) == 0
  {
    if w > 0 {
      XorOfEqual(a / 2, w - 1);
    }
  }

  lemma {:induction false} XorOfDifferent(a: nat, b: nat, w: nat)
    requires a < Pow2(w) && b < Pow2(w) && a != b
    ensures Xor(a, b, w) > 0
  {
    if a / 2 != b / 2 {
      XorOfDifferent(a / 2, b / 2, w - 1);
    }
  }

  lemma {:induction false} XorInjective(t: nat, a: nat, b: nat, w: nat)
    requires a < Pow2(w) && b < Pow2(w) && Xor(t, a, w) == Xor(t, b, w)
    ensures a == b
  {
    if w > 0 {
      XorInjective(t / 2, a / 2, b / 2, w - 1);
    }
  }

  lemma {:induction false} XorHere(a: nat, b: nat, w: nat)
    requires w > 0
    ensures Xor(a, b, w) == 2 * Xor(a / 2, b / 2, w - 1) + (if a % 2 != b % 2 then 1 else 0)
  {
  }

  /** Bit k of a number. */
  function Bit(n: nat, k: nat): nat { n / Pow2(k) % 2 }

  lemma {:induction false} BitBelow(n: nat, k: nat)
    requires k > 0
    ensures Bit(n, k) == Bit(n / 2, k - 1)
  {
    hide Pow2;
    Pow2Here(k);
    DivideTwice(n, 2, Pow2(k - 1));
  }

  lemma {:induction false} LowestBit(n: nat)
    ensures Bit(n, 0) == n % 2
  {
  }

  /** Bit k of the exclusive or is set exactly when it differs in the operands. */
  lemma {:induction false} XorBit(a: nat, b: nat, w: nat, k: nat)
    requires k < w
    ensures Xor(a, b, w) / Pow2(k) % 2 == if a / Pow2(k) % 2 != b / Pow2(k) % 2 then 1 else 0
  {
    BitOfXor(a, b, w, k);
  }

  lemma {:induction false} BitOfXor(a: nat, b: nat, w: nat, k: nat)
    requires k < w
    ensures Bit(Xor(a, b, w), k) == if Bit(a, k) != Bit(b, k) then 1 else 0
  {
    hide Bit, Xor;
    XorHere(a, b, w);
    if k == 0 {
      LowestBit(a);
      LowestBit(b);
      LowestBit(Xor(a, b, w));
    } else {
      BitOfXor(a / 2, b / 2, w - 1, k - 1);
      BitBelow(a, k);
      BitBelow(b, k);
      BitBelow(Xor(a, b, w), k);
    }
  }

  function Times(a: nat, b: nat): nat { a * b }

  lemma {:induction false} HalfOfSum(m: nat, a: nat, p: nat, q: nat, r: nat)
    requires q == 2 * p && m == Times(a, q) + r
    ensures m / 2 == Times(a, p) + r / 2 && m % 2 == r % 2
  {
    assert a * q == 2 * (a * p);
  }

  /** High and low bits do not mix, for m == a * 2^k + r and n == b * 2^k + s. */
  lemma {:induction false} XorSplit(m: nat, n: nat, a: nat, b: nat, r: nat, s: nat, k: nat, w: nat)
    requires r < Pow2(k) && s < Pow2(k) && m == Times(a, Pow2(k)) + r && n == Times(b, Pow2(k)) + s
    ensures Xor(m, n, w + k) == Times(Pow2(k), Xor(a, b, w)) + Xor(r, s, k)
  {
    if k == 0 {
      XorOfNothing(r, s);
      assert Times(a, 1) == a && Times(b, 1) == b && Times(1, Xor(a, b, w)) == Xor(a, b, w);
    } else {
      hide Xor, Pow2, Times;
      Pow2Here(k);
      HalfOfSum(m, a, Pow2(k - 1), Pow2(k), r);
      HalfOfSum(n, b, Pow2(k - 1), Pow2(k), s);
      XorSplit(m / 2, n / 2, a, b, r / 2, s / 2, k - 1, w);
      XorHere(m, n, w + k);
      XorHere(r, s, k);
      DoubledTimes(Pow2(k - 1), Pow2(k), Xor(a, b, w));
    }
  }

  lemma {:induction false} DoubledTimes(p: nat, q: nat, x: nat)
    requires q == 2 * p
    ensures Times(q, x) == 2 * Times(p, x)
  {
  }

  lemma {:induction false} XorOfNothing(r: nat, s: nat)
    ensures Xor(r, s, 0) == 0 && Pow2(0) == 1
  {
  }

  lemma {:induction false} FromBigHead(b: Bytes)
    requires b != []
    ensures FromBig(b) == b[0] * Pow256(|b| - 1) + FromBig(b[1..])
  {
    var n := |b| - 1;
    if n == 0 {
      assert b[..0] == [] && b[1..] == [];
    } else {
      FromBigHead(b[..n]);
      assert b[..n][1..] == b[1..][..n - 1];
      assert Pow256(n) == 256 * Pow256(n - 1);
    }
  }

  /** The distance is the exclusive or of the keys as integers. */
  lemma {:induction false} DistanceIsXor(a: Key, b: Key)
    requires |a| == |b|
    ensures Distance(a, b) == Xor(FromBig(a), FromBig(b), 8 * |a|)
  {
    if a != [] {
      var n := |a| - 1;
      DistanceIsXor(a[..n], b[..n]);
      assert XorBytes(a, b)[..n] == XorBytes(a[..n], b[..n]);
      assert Pow2(8) == 256 by { assert Pow2(4) == 16; }
      assert FromBig(a) == Times(FromBig(a[..n]), 256) + a[n] && FromBig(b) == Times(FromBig(b[..n]), 256) + b[n];
      XorSplit(FromBig(a), FromBig(b), FromBig(a[..n]), FromBig(b[..n]), a[n], b[n], 8, 8 * n);
    }
  }

  /** No two keys are equally far from a target. */
  lemma {:induction false} DistanceInjective(target: Key, a: Key, b: Key)
    requires |target| == |a| == |b| && Distance(target, a) == Distance(target, b)
    ensures a == b
  {
    hide Xor, Distance, FromBig, ToBig, Pow256, Pow2;
    DistanceIsXor(target, a);
    DistanceIsXor(target, b);
    ToFromBig(a);
    ToFromBig(b);
    Pow256IsPow2(|a|);
    XorInjective(FromBig(target), FromBig(a), FromBig(b), 8 * |a|);
  }

  // --------------------------------------------------------------- leading bits

  function Matching(a: Key, b: Key): nat
    requires |a| == |b|
  {
    if a == [] then 0
    else if a[0] == b[0] then 8 + Matching(a[1..], b[1..])
    else
      DiffBits(a[0], b[0]);
      8 - BitLength(XorByte(a[0], b[0]))
  }

  lemma {:induction false} DiffBits(x: Byte, y: Byte)
    ensures BitLength(XorByte(x, y)) <= 8
    ensures x == y <==> XorByte(x, y) == 0
  {
    assert Pow2(8) == 256 by { assert Pow2(4) == 16; }
    BelowBitLength(8, XorByte(x, y));
    XorOfEqual(x, 8);
    if x != y {
      XorOfDifferent(x, y, 8);
    }
  }

  /** `_matching_leading_bits`. */
  method MatchingLeadingBits(a: Key, b: Key) returns (bits: nat)
    requires |a| == |b|
    ensures bits == Matching(a, b)
  {
    assert a[0..] == a && b[0..] == b;
    for i := 0 to |a|
      invariant Matching(a, b) == 8 * i + Matching(a[i..], b[i..])
    {
      DiffBits(a[i], b[i]);
      assert a[i..][1..] == a[i + 1..] && b[i..][1..] == b[i + 1..];
      var diff := XorByte(a[i], b[i]);
      if diff != 0 {
        return i * 8 + (8 - BitLength(diff));
      }
    }
    return |a| * 8;
  }

  /** Matching i leading bits means a distance from 2^(bits-1-i) up to 2^(bits-i). */
  lemma {:induction false} BucketDistance(a: Key, b: Key)
    requires |a| == |b|
    ensures var (bits, i) := (8 * |a|, Matching(a, b));
      && i <= bits && (i == bits <==> a == b) && (a == b ==> Distance(a, b) == 0)
      && (i < bits ==> Pow2(bits - 1 - i) <= Distance(a, b) < Pow2(bits - i))
  {
    hide Pow2, Pow256, XorByte, FromBig, BitLength;
    if a == [] {
      NoDistance(a, b);
    } else {
      var x := XorBytes(a, b);
      FromBigHead(x);
      assert x[1..] == XorBytes(a[1..], b[1..]);
      DiffBits(a[0], b[0]);
      assert a == [a[0]] + a[1..] && b == [b[0]] + b[1..];
      if a[0] == b[0] {
        LeadingZero(x);
        BucketDistance(a[1..], b[1..]);
      } else {
        TopByte(x[0], x[1..], Distance(a, b));
      }
    }
  }

  lemma {:induction false} LeadingZero(b: Bytes)
    requires b != [] && b[0] == 0
    ensures FromBig(b) == FromBig(b[1..])
  {
    hide FromBig, Pow256;
    FromBigHead(b);
  }

  lemma {:induction false} NoDistance(a: Key, b: Key)
    requires a == b == []
    ensures Distance(a, b) == 0 && Matching(a, b) == 0
  {
  }

  lemma {:induction false} TopByte(d: Byte, rest: Bytes, distance: nat)
    requires d > 0 && distance == d * Pow256(|rest|) + FromBig(rest)
    ensures var l := BitLength(d); l > 0 && Pow2(8 * |rest| + l - 1) <= distance < Pow2(8 * |rest| + l)
  {
    hide Pow2, BitLength;
    var (l, n) := (BitLength(d), |rest|);
    FromBigBound(rest);
    Pow256IsPow2(n);
    BitsOf(d);
    Pow2Add(l - 1, 8 * n);
    Pow2Add(l, 8 * n);
    Between(d, Pow2(l - 1), Pow2(l), Pow2(8 * n), FromBig(rest));
  }

  lemma {:induction false} BitsOf(d: nat)
    requires d > 0
    ensures var l := BitLength(d); l > 0 && Pow2(l - 1) <= d < Pow2(l)
  {
  }

  lemma {:induction false} Between(d: nat, low: nat, high: nat, p: nat, r: nat)
    requires low <= d < high && r < p
    ensures low * p <= d * p + r < high * p
  {
    assert low * p <= d * p;
    assert (d + 1) * p <= high * p;
  }

  /** The distance tells the bucket. */
  lemma {:induction false} DistanceTellsBucket(a: Key, b: Key, i: nat)
    requires |a| == |b| && i < 8 * |a|
    ensures Matching(a, b) == i <==> Pow2(8 * |a| - 1 - i) <= Distance(a, b) < Pow2(8 * |a| - i)
  {
    hide Pow2, Distance, Matching;
    BucketDistance(a, b);
    var (bits, m) := (8 * |a|, Matching(a, b));
    if m < i {
      Pow2Monotone(bits - i, bits - 1 - m);
    } else if i < m < bits {
      Pow2Monotone(bits - m, bits - 1 - i);
    }
  }

  /** A key that shares more bits is nearer. */
  lemma {:induction false} MoreBitsIsNearer(own: Key, x: Key, y: Key)
    requires |own| == |x| == |y| && Matching(own, x) > Matching(own, y)
    ensures Distance(own, x) < Distance(own, y)
  {
    hide Pow2, Distance, Matching;
    BucketDistance(own, x);
    BucketDistance(own, y);
    var bits := 8 * |own|;
    if Matching(own, x) < bits {
      Pow2Monotone(bits - Matching(own, x), bits - 1 - Matching(own, y));
    }
  }

  // -------------------------------------------------------------- random targets

  lemma {:induction false} Quotients(n: nat, d: nat)
    requires d > 0
    ensures n / d >= 0 && 0 <= n % d < d
  {
  }

  /** `_random_target_in_bucket`: keep the leading bits, flip one, take the rest from the random bytes. */
  function TargetValue(own: nat, bits: nat, index: nat, random: nat): nat
    requires index < bits
  {
    var (unit, flip) := (Pow2(bits - index), Pow2(bits - 1 - index));
    Quotients(own, unit);
    Quotients(own, flip);
    Quotients(random, flip);
    Times(own / unit, unit) + (if own / flip % 2 == 1 then 0 else flip) + random % flip
  }

  lemma {:induction false} QuotientIs(n: nat, d: nat, q: nat, r: nat)
    requires r < d && n == q * d + r
    ensures n / d == q && n % d == r
  {
    var (x, y) := (n / d, n % d);
    assert n == x * d + y;
    SameQuotient(d, x, y, q, r);
  }

  lemma {:induction false} SameQuotient(d: nat, x: nat, y: nat, q: nat, r: nat)
    requires y < d && r < d && x * d + y == q * d + r
    ensures x == q && y == r
  {
    if x < q {
      AtLeast(x + 1, q, d);
    } else if q < x {
      AtLeast(q + 1, x, d);
    }
  }

  /** A number by its bits above, at and below one place. */
  lemma {:induction false} Places(own: nat, flip: nat) returns (g: nat, b: nat, r: nat)
    requires flip > 0
    ensures b < 2 && r < flip && own == (2 * g + b) * flip + r
    ensures own / flip == 2 * g + b && own / flip % 2 == b && own % flip == r && own / (2 * flip) == g
  {
    var h := own / flip;
    g, b, r := h / 2, h % 2, own % flip;
    assert own == h * flip + r;
    QuotientAbove(own, flip, g, b, r);
  }

  lemma {:induction false} QuotientAbove(own: nat, flip: nat, g: nat, b: nat, r: nat)
    requires b < 2 && r < flip && own == (2 * g + b) * flip + r
    ensures own / (2 * flip) == g
  {
    var rest := b * flip + r;
    assert (2 * g + b) * flip == g * (2 * flip) + b * flip;
    assert rest < 2 * flip;
    QuotientIs(own, 2 * flip, g, rest);
  }

  lemma {:induction false} TargetParts(own: nat, bits: nat, index: nat, random: nat) returns (high: nat, next: nat, r: nat, s: nat)
    requires index < bits && own < Pow2(bits)
    ensures var flip := Pow2(bits - 1 - index);
      && r < flip && s < flip && own == high * flip + r
      && TargetValue(own, bits, index, random) == next * flip + s < Pow2(bits)
    ensures next == 2 * (high / 2) + 1 - high % 2
  {
    hide Pow2;
    var flip := Pow2(bits - 1 - index);
    Pow2Here(bits - index);
    var g: nat;
    var b: nat;
    g, b, r := Places(own, flip);
    high, next, s := 2 * g + b, 2 * g + 1 - b, random % flip;
    assert Times(g, 2 * flip) == g * (2 * flip);
    assert next * flip == g * (2 * flip) + (if b == 1 then 0 else flip) by {
      FlippedSum(g, b, flip);
    }
    Pow2Add(index + 1, bits - 1 - index);
    Pow2Here(index + 1);
    BelowBoth(g, b, r, s, flip, Pow2(index), own);
    assert Pow2(index + 1) * flip == 2 * Pow2(index) * flip;
  }

  lemma {:induction false} FlippedSum(g: nat, b: nat, flip: nat)
    requires b < 2
    ensures (2 * g + 1 - b) * flip == g * (2 * flip) + (if b == 1 then 0 else flip)
  {
    assert (2 * g) * flip == g * (2 * flip);
    assert (2 * g + 1) * flip == (2 * g) * flip + flip;
  }

  /** Below a power of two, changing the bits from one place down stays below it. */
  lemma {:induction false} BelowBoth(g: nat, b: nat, r: nat, s: nat, flip: nat, p: nat, own: nat)
    requires b < 2 && r < flip && s < flip && own == (2 * g + b) * flip + r && own < 2 * p * flip
    ensures (2 * g + 1 - b) * flip + s < 2 * p * flip
  {
    if g >= p {
      AtLeast(2 * p, 2 * g + b, flip);
    }
    AtLeast(2 * g + 1 - b + 1, 2 * p, flip);
    assert (2 * g + 1 - b + 1) * flip == (2 * g + 1 - b) * flip + flip;
  }

  lemma {:induction false} AtLeast(a: nat, b: nat, f: nat)
    requires a <= b
    ensures a * f <= b * f
  {
  }

  function RandomTarget(own: Key, index: nat, random: Bytes): Key
    requires index < 8 * |own|
  {
    TargetFits(own, index, random);
    ToBig(TargetValue(FromBig(own), 8 * |own|, index, FromBig(random)), |own|)
  }

  lemma {:induction false} TargetFits(own: Key, index: nat, random: Bytes)
    requires index < 8 * |own|
    ensures FromBig(own) < Pow2(8 * |own|)
    ensures TargetValue(FromBig(own), 8 * |own|, index, FromBig(random)) < Pow256(|own|)
  {
    FromBigBound(own);
    Pow256IsPow2(|own|);
    var _, _, _, _ := TargetParts(FromBig(own), 8 * |own|, index, FromBig(random));
  }

  /** The random target shares exactly the asked number of leading bits, whatever the random bytes. */
  lemma {:induction false} TargetSharesBits(own: Key, index: nat, random: Bytes)
    requires index < 8 * |own|
    ensures |RandomTarget(own, index, random)| == |own| && Matching(own, RandomTarget(own, index, random)) == index
  {
    hide Pow2, Xor, Distance, TargetValue, Matching;
    var bits := 8 * |own|;
    var (o, value) := (FromBig(own), TargetValue(FromBig(own), bits, index, FromBig(random)));
    TargetFits(own, index, random);
    var target := RandomTarget(own, index, random);
    FromToBig(value, |own|);
    var k := bits - 1 - index;
    var high, next, r, s := TargetParts(o, bits, index, FromBig(random));
    XorSplit(o, value, high, next, r, s, k, index + 1);
    FlippedBit(high, next, index);
    DistanceIsXor(own, target);
    Pow2Here(bits - index);
    XorBound(r, s, k);
    DistanceTellsBucket(own, target, index);
  }

  /** Below the flipped bit the target has the bits of the random bytes. */
  lemma {:induction false} TargetIsRandomBelow(own: Key, index: nat, random: Bytes)
    requires index < 8 * |own|
    ensures var low := Pow2(8 * |own| - 1 - index);
      FromBig(RandomTarget(own, index, random)) % low == FromBig(random) % low
  {
    hide Pow2, FromBig, ToBig, TargetValue;
    TargetFits(own, index, random);
    var value := TargetValue(FromBig(own), 8 * |own|, index, FromBig(random));
    FromToBig(value, |own|);
    LowBits(FromBig(own), 8 * |own|, index, FromBig(random));
  }

  lemma {:induction false} LowBits(own: nat, bits: nat, index: nat, random: nat)
    requires index < bits
    ensures TargetValue(own, bits, index, random) % Pow2(bits - 1 - index) == random % Pow2(bits - 1 - index)
  {
    hide Pow2;
    var low := Pow2(bits - 1 - index);
    Pow2Here(bits - index);
    var (high, flip, r) := (own / (2 * low), if own / low % 2 == 1 then 0 else 1, random % low);
    Quotients(own, 2 * low);
    assert Times(high, 2 * low) == (2 * high) * low;
    assert (2 * high) * low + flip * low == (2 * high + flip) * low;
    QuotientIs(TargetValue(own, bits, index, random), low, 2 * high + flip, r);
  }

  lemma {:induction false} XorBound(r: nat, s: nat, k: nat)
    ensures Xor(r, s, k) < Pow2(k)
  {
  }

  lemma {:induction false} FlippedBit(high: nat, next: nat, w: nat)
    requires next == 2 * (high / 2) + 1 - high % 2
    ensures Xor(high, next, w + 1) == 1
  {
    XorOfEqual(high / 2, w);
    assert next / 2 == high / 2;
  }

  // -------------------------------------------------------------------- the route

  datatype Peer = Peer(key: Key, address: Option<nat>)

  type Buckets = seq<seq<Key>>

  /** Each bucket holds only its own keys, without repetition and within its size; the own key is in none. */
  ghost predicate BucketOk(own: Key, size: nat, i: nat, bucket: seq<Key>)
  {
    && |bucket| <= size
    && (forall k :: k in bucket ==> |k| == |own| && k != own && Matching(own, k) == i)
    && forall x, y :: 0 <= x < y < |bucket| ==> bucket[x] != bucket[y]
  }

  ghost predicate RouteOk(own: Key, size: nat, buckets: Buckets)
  {
    && |buckets| == 8 * |own|
    && forall i :: 0 <= i < |buckets| ==> BucketOk(own, size, i, buckets[i])
  }

  predicate Holds(buckets: Buckets, k: Key) { exists i :: 0 <= i < |buckets| && k in buckets[i] }

  class Route {
    const own: Key
    const bucketSize: nat
    var buckets: Buckets
    var peers: map<Key, Peer>

    ghost predicate Valid()
      reads this
    {
      RouteOk(own, bucketSize, buckets)
    }

    constructor (own: Key, bucketSize: nat)
      ensures Valid() && this.own == own && this.bucketSize == bucketSize && peers == map[]
      ensures forall k :: !Holds(buckets, k)
    {
      this.own, this.bucketSize := own, bucketSize;
      buckets := seq(8 * |own|, i => []);
      peers := map[];
    }

    /** `add_peer`: a full bucket drops the key but still learns the peer. */
    method AddPeer(key: Key, peer: Option<Peer>) returns (r: Result<()>)
      requires Valid()
      modifies this
      ensures Valid() && (r.Ok? <==> |key| == |own|)
      ensures r.Err? || key == own ==> buckets == old(buckets) && peers == old(peers)
      ensures r.Ok? && key != own ==>
                && var i := Matching(own, key);
                && i < |old(buckets)|
                && buckets == (if |old(buckets)[i]| < bucketSize && key !in old(buckets)[i] then old(buckets)[i := old(buckets)[i] + [key]]
                               else old(buckets))
                && peers == if peer.Some? then old(peers)[key := peer.value] else old(peers)
    {
      if |key| != |own| {
        return Err("peer key must be raw 32-byte public key");
      }
      if key == own {
        return Ok(());
      }
      BucketDistance(own, key);
      var i := MatchingLeadingBits(own, key);
      var bucket := buckets[i];
      assert BucketOk(own, bucketSize, i, bucket);
      if |bucket| < bucketSize && key !in bucket {
        buckets := buckets[i := bucket + [key]];
      }
      if peer.Some? {
        peers := peers[key := peer.value];
      }
      return Ok(());
    }

    /** `remove_peer`. */
    method RemovePeer(key: Key) returns (r: Result<()>)
      requires Valid()
      modifies this
      ensures Valid() && (r.Ok? <==> |key| == |own|)
      ensures r.Err? || key == own ==> buckets == old(buckets) && peers == old(peers)
      ensures r.Ok? && key != own ==>
                && var i := Matching(own, key);
                && i < |old(buckets)|
                && buckets == old(buckets)[i := Without(old(buckets)[i], key)]
                && peers == if old(buckets)[i] == [] then old(peers) else old(peers) - {key}
    {
      if |key| != |own| {
        return Err("peer key must be raw 32-byte public key");
      }
      if key == own {
        return Ok(());
      }
      BucketDistance(own, key);
      var i := MatchingLeadingBits(own, key);
      var bucket := buckets[i];
      assert BucketOk(own, bucketSize, i, bucket);
      if bucket == [] {
        return Ok(());
      }
      WithoutOk(own, bucketSize, i, bucket, key);
      buckets := buckets[i := Without(bucket, key)];
      peers := peers - {key};
      return Ok(());
    }

    /** The search of `closest_peer_for_hash` over all buckets; an Err is its ValueError. */
    method ClosestKey(target: Bytes) returns (r: Result<Option<Key>>)
      requires Valid()
      ensures r.Ok? <==> |target| == |own|
      ensures r.Ok? && r.value.None? ==> forall k :: !Holds(buckets, k)
      ensures r.Ok? && r.value.Some? ==>
                && Holds(buckets, r.value.value) && |r.value.value| == |own|
                && forall k :: Holds(buckets, k) ==> |k| == |own| && Distance(target, r.value.value) <= Distance(target, k)
    {
      if |target| != |own| {
        return Err("target_hash must match peer key length");
      }
      hide Distance, Matching, NoneNearer;
      var closest: Option<Key> := None;
      for i := 0 to |buckets|
        invariant closest.None? ==> forall j :: 0 <= j < i ==> buckets[j] == []
        invariant closest.Some? ==> Holds(buckets, closest.value) && |closest.value| == |own|
        invariant closest.Some? ==> NoneNearerUpTo(target, closest.value, buckets, i)
      {
        assert BucketOk(own, bucketSize, i, buckets[i]);
        var next := NearestIn(target, i, closest);
        if next.Some? {
          OneMoreBucket(target, closest, next.value, buckets, i);
        }
        closest := next;
      }
      if closest.Some? {
        NearestOfAll(target, closest.value, buckets);
      }
      return Ok(closest);
    }

    /** `closest_peer_for_hash`: the peer of the closest key, None also when that key has no peer yet. */
    method ClosestPeerForHash(target: Bytes) returns (r: Result<Option<Peer>>)
      requires Valid()
      ensures r.Ok? <==> |target| == |own|
      ensures r.Ok? ==>
                || (r.value.None? && forall k :: !Holds(buckets, k))
                || exists key :: Closest(target, key, buckets) && r.value == if key in peers then Some(peers[key]) else None
    {
      var key := ClosestKey(target);
      if key.Err? {
        return Err(key.reason);
      }
      if key.value.None? {
        return Ok(None);
      }
      assert Closest(target, key.value.value, buckets);
      return Ok(if key.value.value in peers then Some(peers[key.value.value]) else None);
    }

    /** The inner loop over one bucket. */
    method NearestIn(target: Bytes, i: nat, closest0: Option<Key>) returns (closest: Option<Key>)
      requires |target| == |own| && i < |buckets| && BucketOk(own, bucketSize, i, buckets[i])
      requires closest0.Some? ==> |closest0.value| == |own| && Holds(buckets, closest0.value)
      ensures closest.None? <==> closest0.None? && buckets[i] == []
      ensures closest.Some? ==> |closest.value| == |own| && Holds(buckets, closest.value)
      ensures closest.Some? ==> NoneNearer(target, closest.value, buckets[i])
      ensures closest0.Some? ==> Distance(target, closest.value) <= Distance(target, closest0.value)
    {
      hide Distance;
      closest := closest0;
      var bucket := buckets[i];
      for n := 0 to |bucket|
        invariant closest.None? <==> closest0.None? && n == 0
        invariant closest.Some? ==> |closest.value| == |own| && Holds(buckets, closest.value)
        invariant closest.Some? ==> forall m :: 0 <= m < n ==> |bucket[m]| == |own| && Distance(target, closest.value) <= Distance(target, bucket[m])
        invariant closest0.Some? ==> Distance(target, closest.value) <= Distance(target, closest0.value)
      {
        var key := bucket[n];
        assert key in bucket && Holds(buckets, key);
        if closest.None? || Distance(target, key) < Distance(target, closest.value) {
          closest := Some(key);
        }
      }
    }
  }

  /** A known key than which no known key is nearer. */
  ghost predicate Closest(target: Bytes, key: Key, buckets: Buckets)
  {
    && Holds(buckets, key) && |key| == |target|
    && forall k :: Holds(buckets, k) ==> |k| == |target| && Distance(target, key) <= Distance(target, k)
  }

  /** There is one closest key only, so the peer that the search returns is determined. */
  lemma {:induction false} ClosestIsUnique(target: Bytes, x: Key, y: Key, buckets: Buckets)
    requires Closest(target, x, buckets) && Closest(target, y, buckets)
    ensures x == y
  {
    hide Distance;
    DistanceInjective(target, x, y);
  }

  ghost predicate NoneNearer(target: Bytes, key: Key, bucket: seq<Key>)
  {
    |target| == |key| && forall k :: k in bucket ==> |k| == |key| && Distance(target, key) <= Distance(target, k)
  }

  ghost predicate NoneNearerUpTo(target: Bytes, key: Key, buckets: Buckets, n: nat)
  {
    n <= |buckets| && forall i :: 0 <= i < n ==> NoneNearer(target, key, buckets[i])
  }

  lemma {:induction false} OneMoreBucket(target: Bytes, closest: Option<Key>, next: Key, buckets: Buckets, i: nat)
    requires i < |buckets| && NoneNearer(target, next, buckets[i])
    requires closest.None? ==> forall j :: 0 <= j < i ==> buckets[j] == []
    requires closest.Some? ==>
               && NoneNearerUpTo(target, closest.value, buckets, i) && |closest.value| == |next|
               && Distance(target, next) <= Distance(target, closest.value)
    ensures NoneNearerUpTo(target, next, buckets, i + 1)
  {
    hide Distance;
    forall j | 0 <= j < i
      ensures NoneNearer(target, next, buckets[j])
    {
      assert closest.Some? ==> NoneNearer(target, closest.value, buckets[j]);
    }
  }

  lemma {:induction false} NearestOfAll(target: Bytes, key: Key, buckets: Buckets)
    requires |target| == |key| && NoneNearerUpTo(target, key, buckets, |buckets|)
    ensures forall k :: Holds(buckets, k) ==> |k| == |key| && Distance(target, key) <= Distance(target, k)
  {
    hide Distance;
    forall k | Holds(buckets, k)
      ensures |k| == |key| && Distance(target, key) <= Distance(target, k)
    {
      var i :| 0 <= i < |buckets| && k in buckets[i];
      assert NoneNearer(target, key, buckets[i]);
    }
  }

  /** `list.remove`: the first occurrence goes. */
  function Without(bucket: seq<Key>, key: Key): seq<Key>
  {
    if bucket == [] then []
    else if bucket[0] == key then bucket[1..]
    else [bucket[0]] + Without(bucket[1..], key)
  }

  lemma {:induction false} WithoutKeys(bucket: seq<Key>, key: Key)
    ensures |Without(bucket, key)| <= |bucket|
    ensures forall k :: k in Without(bucket, key) ==> k in bucket
    ensures forall k :: k in bucket && k != key ==> k in Without(bucket, key)
    ensures (forall x, y :: 0 <= x < y < |bucket| ==> bucket[x] != bucket[y]) ==>
              && (forall x, y :: 0 <= x < y < |Without(bucket, key)| ==> Without(bucket, key)[x] != Without(bucket, key)[y])
              && key !in Without(bucket, key)
  {
    if bucket != [] {
      WithoutKeys(bucket[1..], key);
      assert bucket == [bucket[0]] + bucket[1..];
      if forall x, y :: 0 <= x < y < |bucket| ==> bucket[x] != bucket[y] {
        forall x, y | 0 <= x < y < |bucket[1..]|
          ensures bucket[1..][x] != bucket[1..][y]
        {
          assert bucket[x + 1] != bucket[y + 1];
        }
        assert bucket[0] !in bucket[1..];
      }
    }
  }

  lemma {:induction false} WithoutOk(own: Key, size: nat, i: nat, bucket: seq<Key>, key: Key)
    requires BucketOk(own, size, i, bucket)
    ensures BucketOk(own, size, i, Without(bucket, key))
    ensures forall k :: k in Without(bucket, key) <==> k in bucket && k != key
  {
    hide Matching;
    WithoutKeys(bucket, key);
  }

  /** The first occurrence goes, and the others keep their order. */
  lemma {:induction false} WithoutKeepsOrder(before: seq<Key>, key: Key, later: seq<Key>)
    requires key !in before
    ensures Without(before + [key] + later, key) == before + later && Without(before, key) == before
  {
    if before != [] {
      WithoutKeepsOrder(before[1..], key, later);
      assert (before + [key] + later)[1..] == before[1..] + [key] + later;
      assert before == [before[0]] + before[1..];
    } else {
      assert ([] + [key] + later)[1..] == later;
    }
  }

  /** No bucket nearer than that of the nearest known key holds anything. */
  lemma {:induction false} NearerBucketsAreEmpty(own: Key, size: nat, buckets: Buckets, nearest: Key, i: nat)
    requires RouteOk(own, size, buckets) && i < |buckets| && |nearest| == |own|
    requires forall k :: Holds(buckets, k) ==> |k| == |own| && Distance(own, nearest) <= Distance(own, k)
    ensures i > Matching(own, nearest) ==> buckets[i] == []
  {
    if i > Matching(own, nearest) && buckets[i] != [] {
      var k := buckets[i][0];
      assert k in buckets[i] && Holds(buckets, k);
      assert BucketOk(own, size, i, buckets[i]);
      MoreBitsIsNearer(own, k, nearest);
    }
  }

  // ------------------------------------------------------------- the place of a key

  /** The keys that are nearer to the target than a key, the key itself aside. */
  ghost function Nearer(target: Key, key: Key, keys: set<Key>): set<Key>
    requires |target| == |key|
  {
    set k | k in keys && k != key && |k| == |target| && Distance(target, k) < Distance(target, key)
  }

  function KeySet(keys: seq<Key>): set<Key> { set k | k in keys }

  /** The number of nearer keys, cut off at the limit, but at 1 for a limit of 0. */
  ghost function Counted(target: Key, key: Key, limit: nat, keys: seq<Key>): nat
    requires |target| == |key|
  {
    Min(|Nearer(target, key, KeySet(keys))|, Max(limit, 1))
  }

  /** The promise that a count is at most the limit holds exactly for a limit of at least 1, or if no key is nearer. */
  lemma {:induction false} CountWithinLimitIff(target: Key, key: Key, limit: nat, keys: seq<Key>)
    requires |target| == |key|
    ensures Counted(target, key, limit, keys) <= limit
       <==> limit >= 1 || forall k :: k in keys && k != key && |k| == |target| ==> Distance(target, k) >= Distance(target, key)
  {
    hide Distance;
    var nearer := Nearer(target, key, KeySet(keys));
    assert forall k :: k in KeySet(keys) <==> k in keys;
    if nearer == {} {
      forall k | k in keys && k != key && |k| == |target|
        ensures Distance(target, k) >= Distance(target, key)
      {
        assert k !in nearer;
      }
    } else {
      var k :| k in nearer;
      assert k in keys && Distance(target, k) < Distance(target, key);
      assert nearer == {k} + (nearer - {k});
    }
  }

  /** With a limit of 0 one nearer key is counted. */
  lemma {:induction false} ZeroLimitCountsOne()
    ensures Counted([0], [2], 0, [[1]]) == 1
  {
    assert Distance([0], [1]) == 1 && Distance([0], [2]) == 2 by {
      DistanceFromZero(1);
      DistanceFromZero(2);
    }
    hide Distance;
    var keys: seq<Key> := [[1]];
    assert keys[0] == [1] && KeySet(keys) == {[1]};
    assert [1][0] == 1 && [2][0] == 2;
    assert Nearer([0], [2], KeySet(keys)) == {[1]};
  }

  lemma {:induction false} DistanceFromZero(x: Byte)
    ensures Distance([0], [x]) == x
  {
    XorFromZero(x, 8);
    assert Pow2(8) == 256 by { assert Pow2(4) == 16; }
    assert XorBytes([0], [x]) == [x];
    FromBigOne(x);
  }

  lemma {:induction false} XorFromZero(x: nat, w: nat)
    requires x < Pow2(w)
    ensures Xor(0, x, w) == x
  {
    if w > 0 {
      XorFromZero(x / 2, w - 1);
    }
  }

  lemma {:induction false} FromBigOne(x: Byte)
    ensures FromBig([x]) == x
  {
    assert [x][..0] == [];
  }

  /** `count_nearer`: a key counts once, a key of another length never; the count stops at the limit. */
  method CountNearer(target: Key, key: Key, limit: nat, keys: seq<Key>) returns (count: nat)
    requires |target| == |key|
    ensures count == Counted(target, key, limit, keys)
  {
    hide Distance, Nearer, KeySet;
    var distance := Distance(target, key);
    var seen := {key};
    count := 0;
    NearerOfNone(target, key);
    for i := 0 to |keys|
      invariant seen == {key} + KeySet(keys[..i])
      invariant count == |Nearer(target, key, KeySet(keys[..i]))|
      invariant count == 0 || count < limit
    {
      var other := keys[i];
      NearerStep(target, key, keys, i);
      if other in seen {
        continue;
      }
      seen := seen + {other};
      if |other| == |target| && Distance(target, other) < distance {
        count := count + 1;
        if count >= limit {
          NearerGrows(target, key, keys, i + 1);
          return count;
        }
      }
    }
    assert keys[..|keys|] == keys;
  }

  lemma {:induction false} NearerOfNone(target: Key, key: Key)
    requires |target| == |key|
    ensures KeySet([]) == {} && Nearer(target, key, {}) == {}
  {
  }

  lemma {:induction false} NearerStep(target: Key, key: Key, keys: seq<Key>, i: nat)
    requires |target| == |key| && i < |keys|
    ensures var (before, other) := (KeySet(keys[..i]), keys[i]);
      && {key} + KeySet(keys[..i + 1]) == {key} + before + {other}
      && |Nearer(target, key, KeySet(keys[..i + 1]))| == |Nearer(target, key, before)|
           + if other !in {key} + before && |other| == |target| && Distance(target, other) < Distance(target, key) then 1 else 0
  {
    hide Distance, Nearer;
    var (before, other) := (KeySet(keys[..i]), keys[i]);
    assert keys[..i + 1] == keys[..i] + [other];
    assert KeySet(keys[..i + 1]) == before + {other};
    NearerWith(target, key, before, other);
  }

  lemma {:induction false} NearerWith(target: Key, key: Key, before: set<Key>, other: Key)
    requires |target| == |key|
    ensures var counts := other !in {key} + before && |other| == |target| && Distance(target, other) < Distance(target, key);
      |Nearer(target, key, before + {other})| == |Nearer(target, key, before)| + if counts then 1 else 0
  {
    hide Distance;
    var (was, now) := (Nearer(target, key, before), Nearer(target, key, before + {other}));
    if other !in {key} + before && |other| == |target| && Distance(target, other) < Distance(target, key) {
      assert now == was + {other} && other !in was;
    } else {
      assert now == was;
    }
  }

  lemma {:induction false} NearerGrows(target: Key, key: Key, keys: seq<Key>, n: nat)
    requires |target| == |key| && n <= |keys|
    ensures |Nearer(target, key, KeySet(keys[..n]))| <= |Nearer(target, key, KeySet(keys))|
  {
    hide Distance;
    var (part, all) := (Nearer(target, key, KeySet(keys[..n])), Nearer(target, key, KeySet(keys)));
    assert part <= all;
    assert all == part + (all - part);
  }

  // ------------------------------------------------------------------ the walk

  /** The state of a self lookup; `distance` is that of the peer asked last. */
  datatype Walk = Walk(rounds: nat, distance: Option<nat>, deadline: Option<int>, done: bool)

  /** What a step sees: the distance of the closest peer with an address, whether its request is queued, and the clock. */
  datatype Seen = Seen(closest: Option<nat>, queued: bool, now: int)

  function Stepped(w: Walk, cap: nat, timeout: int, s: Seen): (Walk, Option<nat>)
  {
    var nearer := s.closest.Some? && (w.distance.None? || s.closest.value < w.distance.value);
    if w.done then (w, None)
    else if cap == 0 then (w.(done := true), None)
    else if nearer && w.rounds < cap then
      if s.queued then (Walk(w.rounds + 1, s.closest, Some(s.now + timeout), false), s.closest) else (w, None)
    else if w.deadline.Some? && (nearer || s.now >= w.deadline.value) then (w.(done := true), None)
    else (w, None)
  }

  class SelfLookup {
    var rounds: nat
    var distance: Option<nat>
    var deadline: Option<int>
    var done: bool

    constructor ()
      ensures View() == Walk(0, None, None, false)
    {
      rounds, distance, deadline, done := 0, None, None, false;
    }

    function View(): Walk
      reads this
    {
      Walk(rounds, distance, deadline, done)
    }

    /** `self_lookup_step`. */
    method Step(cap: nat, timeout: int, s: Seen) returns (complete: bool, asked: Option<nat>)
      modifies this
      ensures View() == Stepped(old(View()), cap, timeout, s).0 && asked == Stepped(old(View()), cap, timeout, s).1
      ensures complete == done
    {
      if done {
        return true, None;
      }
      if cap == 0 {
        done := true;
        return true, None;
      }
      var nearer := s.closest.Some? && (distance.None? || s.closest.value < distance.value);
      if nearer && rounds < cap {
        if s.queued {
          rounds := rounds + 1;
          distance := s.closest;
          deadline := Some(s.now + timeout);
          return false, s.closest;
        }
        return false, None;
      }
      if deadline.Some? && (nearer || s.now >= deadline.value) {
        done := true;
        return true, None;
      }
      return false, None;
    }
  }

  /**
   * A walk that is not over asks exactly a peer that is nearer than the last one, below the cap and with its request
   * queued; it ends at a cap of 0, or once something was asked and either the deadline is past or the cap is reached
   * with a nearer peer left; otherwise nothing changes.
   */
  lemma {:induction false} StepRule(w: Walk, cap: nat, timeout: int, s: Seen)
    requires !w.done && w.rounds <= cap
    ensures var (next, asked) := Stepped(w, cap, timeout, s);
      var nearer := s.closest.Some? && (w.distance.Some? ==> s.closest.value < w.distance.value);
      && (asked.Some? <==> nearer && w.rounds < cap && s.queued)
      && (asked.Some? ==> asked == s.closest && next == Walk(w.rounds + 1, s.closest, Some(s.now + timeout), false))
      && (next.done <==>
            || cap == 0
            || (w.deadline.Some? && (nearer ==> w.rounds == cap) && (nearer || s.now >= w.deadline.value)))
      && (asked.None? && !next.done ==> next == w)
      && (next.done ==> next == w.(done := true))
  {
  }

  /** A walk from the start, and the distances that it asked. */
  function WalkRun(cap: nat, timeout: int, steps: seq<Seen>): (Walk, seq<nat>)
  {
    if steps == [] then (Walk(0, None, None, false), [])
    else
      var (w, asked) := WalkRun(cap, timeout, steps[..|steps| - 1]);
      var (next, more) := Stepped(w, cap, timeout, steps[|steps| - 1]);
      (next, if more.Some? then asked + [more.value] else asked)
  }

  /** Every walk asks strictly nearer peers, at most as many as the round cap. */
  lemma {:induction false} WalkComesNearer(cap: nat, timeout: int, steps: seq<Seen>)
    ensures var (w, asked) := WalkRun(cap, timeout, steps);
      && |asked| == w.rounds <= cap
      && (forall i, j :: 0 <= i < j < |asked| ==> asked[j] < asked[i])
      && w.distance == if asked == [] then None else Some(asked[|asked| - 1])
  {
    if steps != [] {
      WalkComesNearer(cap, timeout, steps[..|steps| - 1]);
    }
  }
}
