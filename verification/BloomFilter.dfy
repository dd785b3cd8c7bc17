/**
 * The tiered bloom filter of `crypto/bloom_filter`: tier i holds 2^i elements in
 * 16 * 2^i bits, and an element goes into the one tier that is active. A tier is
 * the sequence of its bits; bit p is bit p % 8 of byte p / 8 of the bytearray.
 */
module BloomFilters {
  import opened Common
  import opened Endian
  import opened Powers

  const BITS_PER_ELEMENT := 16
  const K := 11
  const SLICE := 8

  /** One long BLAKE3 output per element. */
  type Wide = b: Bytes | |b| == SLICE * K witness seq(SLICE * K, i => 0)
  type WideHash = Bytes -> Wide

  datatype FilterState = FilterState(count: nat, tiers: seq<seq<bool>>)

  /** A filter whose tiers have the size that `_ensure_tier` gives them. */
  type Filter = f: FilterState | Shaped(f) witness FilterState(0, [])

  const EMPTY: Filter := FilterState(0, [])

  function Positions(digest: Wide, bits: nat): (positions: seq<nat>)
    requires bits > 0
    ensures |positions| == K && forall k :: 0 <= k < K ==> positions[k] < bits
  {
    seq(K, i requires 0 <= i < K => FromBig(digest[SLICE * i..SLICE * (i + 1)]) % bits)
  }

  function TierBits(i: nat): (b: nat)
    ensures b > 0
  {
    BITS_PER_ELEMENT * Pow2(i)
  }

  lemma {:induction false} TierDoubles(i: nat)
    ensures TierBits(0) == 16 && TierBits(i + 1) == 2 * TierBits(i)
  {
    Pow2Here(i + 1);
  }

  function EmptyTier(i: nat): seq<bool> { seq(TierBits(i), b => false) }

  /** The tier of element number n: the one with 2^i - 1 <= n < 2^(i+1) - 1. */
  function TierOf(n: nat): (i: nat)
    ensures Pow2(i) - 1 <= n < Pow2(i + 1) - 1
  {
    BitLength(n + 1) - 1
  }

  lemma {:induction false} TierUnique(n: nat, i: nat)
    requires Pow2(i) - 1 <= n < Pow2(i + 1) - 1
    ensures i == TierOf(n) && BitLength(n + 1) == i + 1
  {
    hide Pow2, BitLength;
    BelowBitLength(i, n + 1);
    BelowBitLength(i + 1, n + 1);
  }

  /** Tiers appended until `tier` exists. */
  function Grown(tiers: seq<seq<bool>>, tier: nat): (grown: seq<seq<bool>>)
    ensures |grown| == Max(|tiers|, tier + 1) && tiers <= grown
    ensures forall i :: |tiers| <= i < |grown| ==> grown[i] == EmptyTier(i)
    decreases tier + 1 - |tiers|
  {
    if |tiers| > tier then tiers else Grown(tiers + [EmptyTier(|tiers|)], tier)
  }

  lemma {:induction false} GrownShaped(tiers: seq<seq<bool>>, tier: nat)
    requires forall i :: 0 <= i < |tiers| ==> |tiers[i]| == TierBits(i)
    ensures var grown := Grown(tiers, tier); forall i :: 0 <= i < |grown| ==> |grown[i]| == TierBits(i)
  {
    hide TierBits;
    var grown := Grown(tiers, tier);
    forall i | 0 <= i < |grown|
      ensures |grown[i]| == TierBits(i)
    {
      assert i < |tiers| ==> grown[i] == tiers[i];
    }
  }

  predicate Shaped(f: FilterState) { forall i :: 0 <= i < |f.tiers| ==> |f.tiers[i]| == TierBits(i) }

  function Marked(tier: seq<bool>, positions: seq<nat>): seq<bool>
  {
    seq(|tier|, b requires 0 <= b < |tier| => tier[b] || b in positions)
  }

  function Inserted(f: Filter, digest: Wide): Filter
  {
    var i := TierOf(f.count);
    var tiers := Grown(f.tiers, i);
    GrownShaped(f.tiers, i);
    FilterState(f.count + 1, tiers[i := Marked(tiers[i], Positions(digest, TierBits(i)))])
  }

  /** `_ensure_tier`: the active tier, with the missing tiers appended. */
  method EnsureTier(f: Filter) returns (tier: nat, tiers: seq<seq<bool>>)
    ensures tier == TierOf(f.count) && tiers == Grown(f.tiers, tier)
  {
    var cum, cap := 0, 1;
    tier := 0;
    while cum + cap <= f.count
      invariant cap == Pow2(tier) && cum == cap - 1 <= f.count
      decreases f.count - cum
    {
      assert Pow2(tier + 1) == 2 * cap;
      cum, tier := cum + cap, tier + 1;
      cap := Pow2(tier);
    }
    TierUnique(f.count, tier);
    tiers := f.tiers;
    while |tiers| <= tier
      invariant Grown(tiers, tier) == Grown(f.tiers, tier)
      decreases tier - |tiers|
    {
      tiers := tiers + [EmptyTier(|tiers|)];
    }
  }

  /** `bloom_insert`. */
  method BloomInsert(f: Filter, digest: Wide) returns (after: Filter)
    ensures after == Inserted(f, digest)
  {
    hide EmptyTier, TierOf, Positions;
    var i, tiers := EnsureTier(f);
    var tier := tiers[i];
    GrownShaped(f.tiers, i);
    var positions := Positions(digest, |tier|);
    for k := 0 to K
      invariant tier == Marked(tiers[i], positions[..k])
    {
      tier := tier[positions[k] := true];
    }
    assert positions[..K] == positions;
    after := FilterState(f.count + 1, tiers[i := tier]);
  }

  predicate AllSet(tier: seq<bool>, positions: seq<nat>)
  {
    forall k :: 0 <= k < |positions| ==> positions[k] < |tier| && tier[positions[k]]
  }

  predicate MayHold(f: Filter, digest: Wide)
  {
    exists i :: 0 <= i < |f.tiers| && AllSet(f.tiers[i], Positions(digest, TierBits(i)))
  }

  /** `bloom_test`. */
  method BloomTest(f: Filter, digest: Wide) returns (found: bool)
    ensures found == MayHold(f, digest)
  {
    for i := 0 to |f.tiers|
      invariant forall j :: 0 <= j < i ==> !AllSet(f.tiers[j], Positions(digest, TierBits(j)))
    {
      if AllSet(f.tiers[i], Positions(digest, |f.tiers[i]|)) {
        return true;
      }
    }
    return false;
  }

  // ------------------------------------------------ what the positions are

  lemma {:induction false} NumberOfEight(b: Bytes)
    requires |b| == 8
    ensures var n: seq<int> := b;
      FromBig(b) == ((((((n[0] * 256 + n[1]) * 256 + n[2]) * 256 + n[3]) * 256 + n[4]) * 256 + n[5]) * 256 + n[6]) * 256 + n[7]
  {
    hide FromBig;
    FromBigStep(b[..1]);
    FromBigStep(b[..2]);
    FromBigStep(b[..3]);
    FromBigStep(b[..4]);
    FromBigStep(b[..5]);
    FromBigStep(b[..6]);
    FromBigStep(b[..7]);
    FromBigStep(b);
    assert b[..8] == b && b[..2][..1] == b[..1] && b[..3][..2] == b[..2] && b[..4][..3] == b[..3];
    assert b[..5][..4] == b[..4] && b[..6][..5] == b[..5] && b[..7][..6] == b[..6];
  }

  lemma {:induction false} DivisionRule(n: nat, bits: nat) returns (turns: nat)
    requires bits > 0
    ensures n == n % bits + turns * bits
  {
    turns := n / bits;
  }

  lemma {:induction false} PositionOfSlice(d: Wide, bits: nat, k: nat) returns (turns: nat)
    requires bits > 0 && k < 11
    ensures |Positions(d, bits)| == 11 && 0 <= Positions(d, bits)[k] < bits
    ensures FromBig(d[8 * k..8 * k + 8]) == Positions(d, bits)[k] + turns * bits
  {
    hide FromBig;
    turns := DivisionRule(FromBig(d[8 * k..8 * k + 8]), bits);
  }

  /** Position k is the number of bytes 8k to 8k + 7, high byte first, less some multiple of the tier's bits. */
  lemma {:induction false} PositionIsSlice(d: Wide, bits: nat, k: nat) returns (turns: nat)
    requires bits > 0 && k < 11
    ensures |Positions(d, bits)| == 11 && 0 <= Positions(d, bits)[k] < bits
    ensures var n: seq<int> := d[8 * k..8 * k + 8];
      ((((((n[0] * 256 + n[1]) * 256 + n[2]) * 256 + n[3]) * 256 + n[4]) * 256 + n[5]) * 256 + n[6]) * 256 + n[7]
      == Positions(d, bits)[k] + turns * bits
  {
    hide FromBig, Positions;
    NumberOfEight(d[8 * k..8 * k + 8]);
    turns := PositionOfSlice(d, bits, k);
  }

  /** In the first tier only the last four bits of a slice count. */
  lemma {:induction false} FirstTierPosition(d: Wide, k: nat)
    requires k < 11
    ensures |Positions(d, 16)| == 11 && Positions(d, 16)[k] == d[8 * k + 7] % 16
  {
    hide Positions;
    var turns := PositionIsSlice(d, 16, k);
  }

  /** Some slice of d agrees with slice k of e modulo 16. */
  predicate SliceMet(d: Wide, e: Wide, k: nat)
    requires k < 11
  {
    exists j :: 0 <= j < 11 && d[8 * j + 7] % 16 == e[8 * k + 7] % 16
  }

  lemma {:induction false} FirstTierAfterOne(d: Wide)
    ensures Inserted(EMPTY, d).tiers == [Marked(EmptyTier(0), Positions(d, 16))]
    ensures TierBits(0) == 16 && |EmptyTier(0)| == 16
  {
    hide Positions, Marked;
    TierUnique(0, 0);
  }

  /** Position p was set by some slice of d. */
  lemma {:induction false} FirstTierMarks(d: Wide, p: nat)
    ensures p in Positions(d, 16) <==> exists j :: 0 <= j < 11 && d[8 * j + 7] % 16 == p
  {
    hide Positions;
    forall j | 0 <= j < 11
      ensures |Positions(d, 16)| == 11 && Positions(d, 16)[j] == d[8 * j + 7] % 16
    {
      FirstTierPosition(d, j);
    }
    if j :| 0 <= j < 11 && d[8 * j + 7] % 16 == p {
      assert Positions(d, 16)[j] == p;
    }
  }

  /** After one insert a test says yes exactly when every slice agrees modulo 16 with an inserted one. */
  lemma {:induction false} OneElementFilter(d: Wide, e: Wide)
    ensures MayHold(Inserted(EMPTY, d), e) <==> forall k :: 0 <= k < 11 ==> SliceMet(d, e, k)
  {
    hide Positions, SliceMet, Inserted, TierBits;
    FirstTierAfterOne(d);
    var (tier, positions) := (Marked(EmptyTier(0), Positions(d, 16)), Positions(e, 16));
    forall k | 0 <= k < 11
      ensures |positions| == 11 && (positions[k] < |tier| && tier[positions[k]] <==> SliceMet(d, e, k))
    {
      OneSlice(d, e, k);
    }
    assert Inserted(EMPTY, d).tiers[0] == tier;
    assert AllSet(tier, positions) <==> forall k :: 0 <= k < 11 ==> SliceMet(d, e, k);
  }

  lemma {:induction false} OneSlice(d: Wide, e: Wide, k: nat)
    requires k < 11
    ensures var (tier, positions) := (Marked(EmptyTier(0), Positions(d, 16)), Positions(e, 16));
      |positions| == 11 && (positions[k] < |tier| && tier[positions[k]] <==> SliceMet(d, e, k))
  {
    hide Positions;
    FirstTierAfterOne(d);
    FirstTierPosition(e, k);
    FirstTierMarks(d, Positions(e, 16)[k]);
  }

  /** Two elements that the filter tells apart. */
  lemma {:induction false} NotEveryElementIsFound()
    ensures !MayHold(Inserted(EMPTY, seq(88, i => 0)), seq(88, i => 1))
  {
    hide MayHold, Inserted;
    var d: Wide, e: Wide := seq(88, i => 0), seq(88, i => 1);
    OneElementFilter(d, e);
    assert !SliceMet(d, e, 0);
  }

  // ------------------------------------------- what a filter holds, by history

  /** Bit b of tier i was set by one of the elements numbered 2^i - 1 to 2^(i+1) - 2. */
  ghost predicate Covered(h: WideHash, elements: seq<Bytes>, i: nat, b: nat)
  {
    exists j :: 0 <= j < |elements| && TierOf(j) == i && b in Positions(h(elements[j]), TierBits(i))
  }

  ghost predicate TierExact(h: WideHash, tier: seq<bool>, elements: seq<Bytes>, i: nat)
  {
    && |tier| == TierBits(i)
    && forall b :: 0 <= b < |tier| ==> (tier[b] <==> Covered(h, elements, i, b))
  }

  /** The filter is the one that the elements, inserted in this order, leave. */
  ghost predicate Represents(h: WideHash, f: Filter, elements: seq<Bytes>)
  {
    && f.count == |elements| && |f.tiers| == BitLength(|elements|)
    && forall i :: 0 <= i < |f.tiers| ==> TierExact(h, f.tiers[i], elements, i)
  }

  lemma {:induction false} CoveredAppend(h: WideHash, elements: seq<Bytes>, e: Bytes, i: nat, b: nat)
    ensures Covered(h, elements + [e], i, b)
       <==> Covered(h, elements, i, b) || (TierOf(|elements|) == i && b in Positions(h(e), TierBits(i)))
  {
    hide TierOf, Positions, TierBits;
    var after := elements + [e];
    if Covered(h, elements, i, b) {
      var j :| 0 <= j < |elements| && TierOf(j) == i && b in Positions(h(elements[j]), TierBits(i));
      assert after[j] == elements[j];
    }
    if TierOf(|elements|) == i && b in Positions(h(e), TierBits(i)) {
      assert after[|elements|] == e;
    }
  }

  lemma {:induction false} EmptyTierExact(h: WideHash, elements: seq<Bytes>, i: nat)
    requires TierOf(|elements|) == i && Pow2(i) - 1 == |elements|
    ensures TierExact(h, EmptyTier(i), elements, i)
  {
  }

  /** The active tier is the last one, or the next one when the last is full. */
  lemma {:induction false} ActiveTier(n: nat)
    ensures BitLength(n + 1) == TierOf(n) + 1
    ensures BitLength(n) == TierOf(n) + (if n == Pow2(TierOf(n)) - 1 then 0 else 1)
  {
    var i := TierOf(n);
    TierUnique(n, i);
    BelowBitLength(i, n);
    BelowBitLength(i + 1, n);
    if i > 0 {
      BelowBitLength(i - 1, n);
    }
  }

  lemma {:induction false} InsertRepresents(h: WideHash, f: Filter, elements: seq<Bytes>, e: Bytes)
    requires Represents(h, f, elements)
    ensures Represents(h, Inserted(f, h(e)), elements + [e])
  {
    hide Covered, TierOf, Positions, TierBits, BitLength, EmptyTier;
    var active := TierOf(|elements|);
    ActiveTier(|elements|);
    var tiers := Grown(f.tiers, active);
    var after := Inserted(f, h(e));
    assert |tiers| == active + 1;
    forall i | 0 <= i < |after.tiers|
      ensures TierExact(h, after.tiers[i], elements + [e], i)
    {
      if i < |f.tiers| {
        assert TierExact(h, f.tiers[i], elements, i) && tiers[i] == f.tiers[i];
      } else {
        assert i == active && tiers[i] == EmptyTier(i);
        EmptyTierExact(h, elements, i);
      }
      forall b | 0 <= b < |after.tiers[i]|
        ensures after.tiers[i][b] <==> Covered(h, elements + [e], i, b)
      {
        CoveredAppend(h, elements, e, i, b);
      }
    }
  }

  function InsertedAll(h: WideHash, f: Filter, elements: seq<Bytes>): Filter
  {
    if elements == [] then f
    else
      var before := InsertedAll(h, f, elements[..|elements| - 1]);
      Inserted(before, h(elements[|elements| - 1]))
  }

  /** Every run of inserts leaves exactly the bits of its own elements. */
  lemma {:induction false} RunRepresents(h: WideHash, f: Filter, older: seq<Bytes>, elements: seq<Bytes>)
    requires Represents(h, f, older)
    ensures Represents(h, InsertedAll(h, f, elements), older + elements)
  {
    hide Represents, Inserted;
    if elements == [] {
      assert older + elements == older;
    } else {
      var n := |elements| - 1;
      RunRepresents(h, f, older, elements[..n]);
      InsertRepresents(h, InsertedAll(h, f, elements[..n]), older + elements[..n], elements[n]);
      assert older + elements[..n] + [elements[n]] == older + elements;
    }
  }

  lemma {:induction false} EmptyRepresents(h: WideHash)
    ensures Represents(h, EMPTY, [])
  {
  }

  /** Exactly when a test answers yes: the elements of one tier cover all the positions. */
  lemma {:induction false} MembershipIsExact(h: WideHash, f: Filter, elements: seq<Bytes>, e: Bytes)
    requires Represents(h, f, elements)
    ensures MayHold(f, h(e))
       <==> exists i :: 0 <= i < BitLength(|elements|) && CoversAll(h, elements, i, Positions(h(e), TierBits(i)))
  {
    hide Covered, Positions, TierBits, BitLength;
    forall i | 0 <= i < |f.tiers|
      ensures AllSet(f.tiers[i], Positions(h(e), TierBits(i))) <==> CoversAll(h, elements, i, Positions(h(e), TierBits(i)))
    {
      assert TierExact(h, f.tiers[i], elements, i);
    }
  }

  ghost predicate CoversAll(h: WideHash, elements: seq<Bytes>, i: nat, positions: seq<nat>)
  {
    forall k :: 0 <= k < |positions| ==> Covered(h, elements, i, positions[k])
  }

  /** No false negatives: whatever was inserted, early or late, is found. */
  lemma {:induction false} NoFalseNegatives(h: WideHash, f: Filter, elements: seq<Bytes>, j: nat)
    requires Represents(h, f, elements) && j < |elements|
    ensures MayHold(f, h(elements[j]))
  {
    hide TierOf, Positions, TierBits, BitLength, Represents, MayHold;
    MembershipIsExact(h, f, elements, elements[j]);
    var i := TierOf(j);
    TierInUse(|elements|, j);
    var positions := Positions(h(elements[j]), TierBits(i));
    forall k | 0 <= k < |positions|
      ensures Covered(h, elements, i, positions[k])
    {
      assert positions[k] in Positions(h(elements[j]), TierBits(i));
    }
  }

  lemma {:induction false} TierInUse(n: nat, j: nat)
    requires j < n
    ensures TierOf(j) < BitLength(n)
  {
    BelowBitLength(TierOf(j), n);
  }
}
