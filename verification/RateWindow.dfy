/**
 * The chain statistics of `consensus/block/rate_window.py` and the storage rate
 * that `consensus/block/rate.py` reads from them: running totals plus one entry
 * per power-of-two window, updated block by block.
 */
module RateWindow {
  import opened Common
  import opened Powers

  /** What one block adds: fees, stake and claims. */
  datatype Delta = Delta(fee: nat, stake: nat, claims: nat)

  /** A statistics tuple: totals in entry 0, else (prev fee, prev stake, curr fee, curr stake, prev claims, curr claims). */
  type Entry = (int, int, int, int, int, int)

  function Total(e: Entry): (int, int, int) { (e.0, e.1, e.2) }

  // ----------------------------------------------------------------- the code

  function NextTotal(prev: seq<Entry>, d: Delta): Entry
  {
    if prev == [] then (d.fee, d.stake, d.claims, 0, 0, 0)
    else (prev[0].0 + d.fee, prev[0].1 + d.stake, prev[0].2 + d.claims, 0, 0, 0)
  }

  /** The entry of the window of size 2^i, in position i + 1. */
  function NextEntry(height: nat, prev: seq<Entry>, d: Delta, i: nat): Entry
  {
    var r := Pow2(i);
    var isNew := !(i + 1 < |prev|);
    var before: Entry :=
      if !isNew then prev[i + 1]
      else if prev != [] && height == r then (prev[0].0, prev[0].1, 0, 0, prev[0].2, 0)
      else (0, 0, 0, 0, 0, 0);
    if height % r == 0 && height > 0 then
      if isNew then (before.0, before.1, d.fee, d.stake, before.4, d.claims)
      else (before.2, before.3, d.fee, d.stake, before.5, d.claims)
    else (before.0, before.1, before.2 + d.fee, before.3 + d.stake, before.4, before.5 + d.claims)
  }

  function Updated(height: nat, prev: seq<Entry>, d: Delta): (stats: seq<Entry>)
    ensures |stats| == 1 + BitLength(height)
  {
    [NextTotal(prev, d)] + seq(BitLength(height), i requires 0 <= i => NextEntry(height, prev, d, i))
  }

  /** `update_statistics`; `prev` is [] where the code gets None or an empty list. */
  method UpdateStatistics(height: nat, prev: seq<Entry>, deltaFee: nat, deltaStake: nat, deltaClaims: nat)
      returns (stats: seq<Entry>)
    ensures stats == Updated(height, prev, Delta(deltaFee, deltaStake, deltaClaims))
  {
    ghost var d := Delta(deltaFee, deltaStake, deltaClaims);
    var fee, stake, claims := 0, 0, 0;
    if prev != [] {
      fee, stake, claims := prev[0].0, prev[0].1, prev[0].2;
    }
    stats := [(fee + deltaFee, stake + deltaStake, claims + deltaClaims, 0, 0, 0)];
    var maxEntries := if height > 0 then BitLength(height) else 0;
    for i := 0 to maxEntries
      invariant |stats| == i + 1 && stats[0] == NextTotal(prev, d)
      invariant forall j :: 0 <= j < i ==> stats[j + 1] == NextEntry(height, prev, d, j)
    {
      hide NextEntry, NextTotal;
      var entry := UpdateWindow(height, prev, i, deltaFee, deltaStake, deltaClaims);
      stats := stats + [entry];
    }
  }

  /** One turn of the loop of `update_statistics`. */
  method UpdateWindow(height: nat, prev: seq<Entry>, i: nat, deltaFee: nat, deltaStake: nat, deltaClaims: nat)
      returns (entry: Entry)
    ensures entry == NextEntry(height, prev, Delta(deltaFee, deltaStake, deltaClaims), i)
  {
    hide Pow2;
    var r, position := Pow2(i), i + 1;
    var newEntry := !(prev != [] && position < |prev|);
    var prevFee, prevStake, prevClaims, currFee, currStake, currClaims := 0, 0, 0, 0, 0, 0;
    if newEntry {
      if prev != [] && height == r {
        prevFee, prevStake, prevClaims := prev[0].0, prev[0].1, prev[0].2;
      }
    } else {
      prevFee, prevStake, currFee, currStake := prev[position].0, prev[position].1, prev[position].2, prev[position].3;
      prevClaims, currClaims := prev[position].4, prev[position].5;
    }
    if height % r == 0 && height > 0 {
      if !newEntry {
        prevFee, prevStake, prevClaims := currFee, currStake, currClaims;
      }
      currFee, currStake, currClaims := deltaFee, deltaStake, deltaClaims;
    } else {
      currFee := currFee + deltaFee;
      currStake := currStake + deltaStake;
      currClaims := currClaims + deltaClaims;
    }
    entry := (prevFee, prevStake, currFee, currStake, prevClaims, currClaims);
  }

  // -------------------------------------------------------- exactness over a run

  /** The sums of deltas over the blocks lo to hi - 1. */
  function Range(history: seq<Delta>, lo: nat, hi: nat): (int, int, int)
    requires lo <= hi <= |history|
    decreases hi
  {
    if lo == hi then (0, 0, 0)
    else
      var (fee, stake, claims) := Range(history, lo, hi - 1);
      (fee + history[hi - 1].fee, stake + history[hi - 1].stake, claims + history[hi - 1].claims)
  }

  /** The first height of the aligned window of size r that holds height h. */
  function WindowStart(h: nat, r: nat): (lo: nat)
    requires r > 0
    ensures lo <= h < lo + r
  {
    r * (h / r)
  }

  /** The totals of the last completed window of size r (prev) and of the current one so far (curr). */
  function ExactEntry(history: seq<Delta>, r: nat): Entry
    requires 0 < r < |history|
  {
    var h := |history| - 1;
    var lo := WindowStart(h, r);
    WindowStartAtLeast(h, r);
    var (pf, ps, pc), (cf, cs, cc) := Range(history, lo - r, lo), Range(history, lo, h + 1);
    (pf, ps, cf, cs, pc, cc)
  }

  /** One entry per power of two that is at most the height, each exact. */
  ghost predicate Exact(history: seq<Delta>, stats: seq<Entry>)
    requires history != []
  {
    var h := |history| - 1;
    && |stats| == 1 + BitLength(h)
    && Total(stats[0]) == Range(history, 0, h + 1)
    && forall i: nat :: i < BitLength(h) ==> EntryExact(history, stats, i)
  }

  ghost predicate EntryExact(history: seq<Delta>, stats: seq<Entry>, i: nat)
    requires i + 1 < |stats|
  {
    Pow2(i) < |history| && stats[i + 1] == ExactEntry(history, Pow2(i))
  }

  /** The statistics of the head of a chain with these deltas, genesis first. */
  function Run(history: seq<Delta>): seq<Entry>
  {
    if history == [] then []
    else Updated(|history| - 1, Run(history[..|history| - 1]), history[|history| - 1])
  }

  // ------------------------------------------------------------------- proofs

  lemma {:induction false} WindowStartAtLeast(h: nat, r: nat)
    requires 0 < r <= h
    ensures WindowStart(h, r) >= r
  {
    assert h / r >= 1;
  }

  lemma {:induction false} DivisionUnique(a: nat, r: nat, q: nat, m: nat)
    requires 0 < r && m < r && a == r * q + m
    ensures a / r == q && a % r == m
  {
    var d := a / r - q;
    assert r * d == m - a % r;
    assert d > 0 ==> r * d >= r;
    assert d < 0 ==> r * d + r <= 0;
  }

  /** Going one height up opens a new window exactly at the multiples of r. */
  lemma {:induction false} WindowStep(h: nat, r: nat)
    requires h > 0 && r > 0
    ensures WindowStart(h, r) == if h % r == 0 then h else WindowStart(h - 1, r)
    ensures h % r == 0 ==> WindowStart(h - 1, r) == h - r
  {
    var q, m := (h - 1) / r, (h - 1) % r;
    assert h - 1 == r * q + m;
    if m + 1 < r {
      DivisionUnique(h, r, q, m + 1);
    } else {
      assert h == r * (q + 1) + 0;
      DivisionUnique(h, r, q + 1, 0);
    }
  }

  lemma {:induction false} RangePrefix(history: seq<Delta>, d: Delta, lo: nat, hi: nat)
    requires lo <= hi <= |history|
    ensures Range(history + [d], lo, hi) == Range(history, lo, hi)
    decreases hi
  {
    if lo < hi {
      RangePrefix(history, d, lo, hi - 1);
    }
  }

  lemma {:induction false} WindowBorn(history: seq<Delta>, prev: seq<Entry>, d: Delta, i: nat)
    requires history != [] && Exact(history, prev) && Pow2(i) == |history|
    ensures NextEntry(|history|, prev, d, i) == ExactEntry(history + [d], Pow2(i))
  {
    hide Pow2, WindowStart, BitLength;
    var h, r := |history|, Pow2(i);
    BelowBitLength(i, h - 1);
    FirstWindow(h);
    RangePrefix(history, d, 0, h);
    assert Range(history + [d], h, h) == (0, 0, 0);
  }

  lemma {:induction false} FirstWindow(h: nat)
    requires h > 0
    ensures WindowStart(h, h) == h && h % h == 0
  {
    DivisionUnique(h, h, 1, 0);
  }

  lemma {:induction false} WindowGrows(history: seq<Delta>, prev: seq<Entry>, d: Delta, i: nat)
    requires history != [] && Pow2(i) < |history|
    requires i + 1 < |prev| && prev[i + 1] == ExactEntry(history, Pow2(i))
    ensures NextEntry(|history|, prev, d, i) == ExactEntry(history + [d], Pow2(i))
  {
    hide Pow2, WindowStart;
    var h, r := |history|, Pow2(i);
    WindowStep(h, r);
    WindowStartAtLeast(h - 1, r);
    WindowStartAtLeast(h, r);
    var lo := WindowStart(h - 1, r);
    RangePrefix(history, d, lo - r, lo);
    RangePrefix(history, d, lo, h);
    assert Range(history + [d], h, h) == (0, 0, 0);
  }

  lemma {:induction false} UpdateKeepsExact(history: seq<Delta>, prev: seq<Entry>, d: Delta)
    requires history != [] && Exact(history, prev)
    ensures Exact(history + [d], Updated(|history|, prev, d))
  {
    hide Pow2, Range, ExactEntry, NextEntry, BitLength, EntryExact;
    var h := |history|;
    var stats := Updated(h, prev, d);
    TotalsKept(history, prev, d);
    forall i: nat | i < BitLength(h)
      ensures EntryExact(history + [d], stats, i)
    {
      EntryKept(history, prev, d, i);
    }
  }

  lemma {:induction false} TotalsKept(history: seq<Delta>, prev: seq<Entry>, d: Delta)
    requires history != [] && prev != [] && Total(prev[0]) == Range(history, 0, |history|)
    ensures Total(NextTotal(prev, d)) == Range(history + [d], 0, |history| + 1)
  {
    RangePrefix(history, d, 0, |history|);
  }

  lemma {:induction false} EntryKept(history: seq<Delta>, prev: seq<Entry>, d: Delta, i: nat)
    requires history != [] && Exact(history, prev) && i < BitLength(|history|)
    ensures EntryExact(history + [d], Updated(|history|, prev, d), i)
  {
    hide Pow2, Range, BitLength, ExactEntry, NextEntry;
    var h := |history|;
    BelowBitLength(i, h);
    if Pow2(i) == h {
      WindowBorn(history, prev, d, i);
    } else {
      BelowBitLength(i, h - 1);
      assert EntryExact(history, prev, i);
      WindowGrows(history, prev, d, i);
    }
  }

  lemma {:induction false} GenesisIsExact(history: seq<Delta>)
    requires |history| == 1
    ensures Exact(history, Run(history))
  {
    assert Range(history, 0, 1) == (history[0].fee, history[0].stake, history[0].claims);
  }

  /** At every height of every run, every window entry is exact. */
  lemma {:induction false} RunIsExact(history: seq<Delta>)
    requires history != []
    ensures Exact(history, Run(history))
  {
    hide Exact, Updated;
    var n := |history| - 1;
    if n == 0 {
      GenesisIsExact(history);
    } else {
      RunIsExact(history[..n]);
      UpdateKeepsExact(history[..n], Run(history[..n]), history[n]);
      assert history[..n] + [history[n]] == history;
    }
  }

  lemma {:induction false} RangeSplit(history: seq<Delta>, lo: nat, mid: nat, hi: nat)
    requires lo <= mid <= hi <= |history|
    ensures Range(history, lo, hi).0 == Range(history, lo, mid).0 + Range(history, mid, hi).0
    ensures Range(history, lo, hi).1 == Range(history, lo, mid).1 + Range(history, mid, hi).1
    decreases hi
  {
    if mid < hi {
      RangeSplit(history, lo, mid, hi - 1);
    }
  }

  lemma {:induction false} RangeNonNegative(history: seq<Delta>, lo: nat, hi: nat)
    requires lo <= hi <= |history|
    ensures Range(history, lo, hi).0 >= 0 && Range(history, lo, hi).1 >= 0
    decreases hi
  {
    if lo < hi {
      RangeNonNegative(history, lo, hi - 1);
    }
  }

  // ------------------------------------------------------------- the storage rate

  /** A `fractions.Fraction`, not necessarily in lowest terms. */
  datatype Fraction = Fraction(numerator: int, denominator: int)
  {
    ghost predicate Valid() { denominator > 0 }

    ghost predicate AtMost(other: Fraction) { numerator * other.denominator <= other.numerator * denominator }

    function Plus(other: Fraction): Fraction
    {
      Fraction(numerator * other.denominator + other.numerator * denominator, denominator * other.denominator)
    }

    function Minus(other: Fraction): Fraction
    {
      Fraction(numerator * other.denominator - other.numerator * denominator, denominator * other.denominator)
    }

    function Twice(): Fraction { Fraction(2 * numerator, denominator) }
  }

  function MaxWithZero(x: Fraction): Fraction { if x.numerator > 0 then x else Fraction(0, 1) }

  const PROVIDERS_PER_RECORD := 2

  function CeilDiv(n: int, d: int): int
    requires d > 0
  {
    (n + d - 1) / d
  }

  /** `calculate_storage_fee` of a block whose parent has these statistics; None when there is no parent. */
  function CalculateStorageFee(parent: Option<seq<Entry>>, totalBytes: nat): Result<int>
  {
    if parent.None? then Ok(0)
    else
      // Block.cumulative_total_fee and cumulative_stake read 0 from empty statistics.
      var (fee, stake) := if parent.value == [] then (0, 0) else (parent.value[0].0, parent.value[0].1);
      if fee <= 0 then Err("previous block cumulative total fees must be greater than zero")
      else Ok(CeilDiv(totalBytes * stake, fee) * PROVIDERS_PER_RECORD)
  }

  function StorageFeeAtRate(rate: Fraction, walkSize: nat): int
    requires rate.Valid()
  {
    CeilDiv(walkSize * rate.numerator, rate.denominator) * PROVIDERS_PER_RECORD
  }

  /** The current window of size k so far, and the last one's share of what it lacks. */
  function Extrapolated(last: int, current: int, missing: int, k: nat): int
    requires k > 0
  {
    current + last * missing / k
  }

  /** `estimate_storage_rate` at a head of this height with these statistics. */
  function EstimateStorageRate(height: nat, stats: seq<Entry>, window: int): Result<Fraction>
  {
    var (fee, stake) := if stats == [] then (0, 0) else (stats[0].0, stats[0].1);
    if fee <= 0 then Err("head cumulative total fees must be greater than zero")
    else
      var now := Fraction(stake, fee);
      if |stats| < 2 then Ok(now)
      else if window == 0 then Err("negative shift count")
      else
        var i := Min(BitLength(if window < 0 then -window else window) - 1, |stats| - 2);
        var k := Pow2(i);
        var entry := stats[i + 1];
        var remaining := k - 1 - height % k;
        var windowFee := Extrapolated(entry.0, entry.2, remaining, k);
        var windowStake := Extrapolated(entry.1, entry.3, remaining, k);
        var thenFee := fee - windowFee;
        if thenFee <= 0 then Ok(now)
        else Ok(now.Plus(MaxWithZero(now.Minus(Fraction(stake - windowStake, thenFee)))))
  }

  lemma {:induction false} PartOfPrevious(x: int, remaining: int, k: int)
    requires x >= 0 && 0 <= remaining < k
    ensures 0 <= (x * remaining) / k <= x
  {
    var (q, r) := ((x * remaining) / k, (x * remaining) % k);
    assert x * remaining == k * q + r;
    Scaled(remaining, k, x);
    assert x * remaining == remaining * x && x * k == k * x;
    assert k * q <= k * x;
    if q > x {
      Scaled(x + 1, q, k);
    } else if q < 0 {
      Scaled(q, -1, k);
      Scaled(0, remaining, x);
    }
  }

  /** The last window and the current one are disjoint parts of the history, so neither exceeds the totals. */
  lemma {:induction false} WindowWithinTotals(history: seq<Delta>, stats: seq<Entry>, i: nat)
    requires history != [] && Exact(history, stats) && i + 1 < |stats|
    ensures WithinTotals(stats, i)
  {
    hide Range;
    var h := |history| - 1;
    assert EntryExact(history, stats, i);
    var r := Pow2(i);
    var lo := WindowStart(h, r);
    WindowStartAtLeast(h, r);
    RangeSplit(history, 0, lo - r, h + 1);
    RangeSplit(history, lo - r, lo, h + 1);
    RangeNonNegative(history, 0, lo - r);
    RangeNonNegative(history, lo - r, lo);
    RangeNonNegative(history, lo, h + 1);
  }

  lemma {:induction false} GrowthAtMostNow(now: Fraction, past: Fraction)
    requires now.Valid() && past.Valid() && now.numerator >= 0 && past.numerator >= 0
    ensures var estimate := now.Plus(MaxWithZero(now.Minus(past)));
      estimate.Valid() && now.AtMost(estimate) && estimate.AtMost(now.Twice())
  {
    var a, b, c, d := now.numerator, now.denominator, past.numerator, past.denominator;
    var growth := MaxWithZero(now.Minus(past));
    var g, e := growth.numerator, growth.denominator;
    // g / e is at most a / b
    assert g * b <= a * e by {
      if now.Minus(past).numerator > 0 {
        assert g == a * d - c * b && e == b * d;
        assert a * e - g * b == (c * b) * b by { GrowthAlgebra(a, b, c, d); }
        assert (c * b) * b >= 0;
      }
    }
    assert e > 0 && g >= 0;
    EstimateAlgebra(a, b, g, e);
  }

  lemma {:induction false} GrowthAlgebra(a: int, b: int, c: int, d: int)
    ensures a * (b * d) - (a * d - c * b) * b == (c * b) * b
  {
  }

  lemma {:induction false} EstimateAlgebra(a: int, b: int, g: int, e: int)
    requires b > 0 && e > 0 && g >= 0 && g * b <= a * e
    ensures b * e > 0
    ensures a * (b * e) <= (a * e + g * b) * b
    ensures (a * e + g * b) * b <= (2 * a) * (b * e)
  {
    assert a * (b * e) == (a * e) * b;
    assert (g * b) * b >= 0;
    assert (a * e + g * b) * b == (a * e) * b + (g * b) * b;
    assert (g * b) * b <= (a * e) * b;
    assert (2 * a) * (b * e) == 2 * ((a * e) * b);
  }

  /** What the estimate needs of the statistics: no window exceeds the totals. */
  ghost predicate Coherent(stats: seq<Entry>)
  {
    && stats != [] && stats[0].0 > 0 && stats[0].1 >= 0
    && forall i: nat :: i + 1 < |stats| ==> WithinTotals(stats, i)
  }

  ghost predicate WithinTotals(stats: seq<Entry>, i: nat)
    requires i + 1 < |stats|
  {
    var e := stats[i + 1];
    && 0 <= e.0 && 0 <= e.2 && e.0 + e.2 <= stats[0].0
    && 0 <= e.1 && 0 <= e.3 && e.1 + e.3 <= stats[0].1
  }

  lemma {:induction false} RunIsCoherent(history: seq<Delta>)
    requires history != [] && Range(history, 0, |history|).0 > 0
    ensures Coherent(Run(history))
  {
    hide Run, Range, EntryExact;
    RunIsExact(history);
    RangeNonNegative(history, 0, |history|);
    var stats := Run(history);
    forall i: nat | i + 1 < |stats|
      ensures WithinTotals(stats, i)
    {
      WindowWithinTotals(history, stats, i);
    }
  }

  lemma {:induction false} EstimateOfCoherent(height: nat, stats: seq<Entry>, window: int)
    requires Coherent(stats) && window != 0
    ensures var estimate := EstimateStorageRate(height, stats, window);
      && estimate.Ok? && estimate.value.Valid()
      && Fraction(stats[0].1, stats[0].0).AtMost(estimate.value)
      && estimate.value.AtMost(Fraction(stats[0].1, stats[0].0).Twice())
  {
    hide Pow2, BitLength;
    var now := Fraction(stats[0].1, stats[0].0);
    assert now.AtMost(now) && now.AtMost(now.Twice());
    if |stats| >= 2 {
      var i := Min(BitLength(if window < 0 then -window else window) - 1, |stats| - 2);
      var k, entry := Pow2(i), stats[i + 1];
      var remaining := k - 1 - height % k;
      assert WithinTotals(stats, i);
      PartOfPrevious(entry.0, remaining, k);
      PartOfPrevious(entry.1, remaining, k);
      var windowStake := entry.3 + (entry.1 * remaining) / k;
      var thenFee := now.denominator - (entry.2 + (entry.0 * remaining) / k);
      if thenFee > 0 {
        GrowthAtMostNow(now, Fraction(now.numerator - windowStake, thenFee));
      }
    }
  }

  /** On every run the estimate lies between the current rate and twice it. */
  lemma {:induction false} EstimateBounds(history: seq<Delta>, window: int)
    requires history != [] && window != 0
    requires Range(history, 0, |history|).0 > 0
    ensures var stats := Run(history);
      var estimate := EstimateStorageRate(|history| - 1, stats, window);
      && Coherent(stats) && estimate.Ok? && estimate.value.Valid()
      && Fraction(stats[0].1, stats[0].0).AtMost(estimate.value)
      && estimate.value.AtMost(Fraction(stats[0].1, stats[0].0).Twice())
  {
    RunIsCoherent(history);
    EstimateOfCoherent(|history| - 1, Run(history), window);
  }

  /** The window that an estimate reads: the largest power of two in `window`, limited to the height. */
  lemma {:induction false} WindowRead(height: nat, window: int, i: nat)
    requires window >= 1 && Pow2(i) <= window && Pow2(i) <= height
    requires window < Pow2(i + 1) || height < Pow2(i + 1)
    ensures Min(BitLength(window) - 1, BitLength(height) - 1) == i
  {
    hide Pow2, BitLength;
    BelowBitLength(i, window);
    BelowBitLength(i + 1, window);
    BelowBitLength(i, height);
    BelowBitLength(i + 1, height);
  }

  lemma {:induction false} EntryOfRun(history: seq<Delta>, i: nat)
    requires history != [] && Pow2(i) < |history|
    ensures var (stats, h, k) := (Run(history), |history| - 1, Pow2(i));
      && |stats| == 1 + BitLength(h) && i + 1 < |stats| && h / k >= 1 && k <= k * (h / k) <= h && k * (h / k) - h == -(h % k)
      && (stats[0].0, stats[0].1) == (Range(history, 0, h + 1).0, Range(history, 0, h + 1).1)
      && (stats[i + 1].0, stats[i + 1].1)
         == (Range(history, k * (h / k) - k, k * (h / k)).0, Range(history, k * (h / k) - k, k * (h / k)).1)
      && (stats[i + 1].2, stats[i + 1].3)
         == (Range(history, k * (h / k), h + 1).0, Range(history, k * (h / k), h + 1).1)
  {
    hide Pow2, Range, Run, BitLength;
    var (h, k) := (|history| - 1, Pow2(i));
    RunIsExact(history);
    BelowBitLength(i, h);
    assert EntryExact(history, Run(history), i);
    WindowStartAtLeast(h, k);
    assert k * (h / k) == WindowStart(h, k);
    assert h / k >= 1;
  }

  /** The rate, plus its growth since a past rate if there is any. */
  ghost predicate PlusGrowth(estimate: Fraction, stake: int, fee: int, pastStake: int, pastFee: int)
  {
    && estimate.Valid()
    && (pastFee <= 0 || stake * pastFee <= pastStake * fee ==> estimate.numerator * fee == stake * estimate.denominator)
    && (pastFee > 0 && stake * pastFee > pastStake * fee ==>
          estimate.numerator * (fee * pastFee) == (2 * (stake * pastFee) - pastStake * fee) * estimate.denominator)
  }

  lemma {:induction false} PlusGrowthIs(stake: int, fee: int, pastStake: int, pastFee: int)
    requires fee > 0
    ensures pastFee <= 0 ==> PlusGrowth(Fraction(stake, fee), stake, fee, pastStake, pastFee)
    ensures pastFee > 0 ==>
              var now := Fraction(stake, fee);
              PlusGrowth(now.Plus(MaxWithZero(now.Minus(Fraction(pastStake, pastFee)))), stake, fee, pastStake, pastFee)
  {
    var (s, p) := (stake * pastFee, pastStake * fee);
    if pastFee > 0 {
      var (now, past) := (Fraction(stake, fee), Fraction(pastStake, pastFee));
      var growth := now.Minus(past);
      assert growth == Fraction(s - p, fee * pastFee);
      assert fee * pastFee > 0;
      if s > p {
        var estimate := now.Plus(growth);
        assert estimate == Fraction(stake * (fee * pastFee) + (s - p) * fee, fee * (fee * pastFee));
        assert fee * (fee * pastFee) > 0;
        GrowthCrossed(stake, fee, pastFee, s, p);
      } else {
        assert now.Plus(Fraction(0, 1)) == Fraction(stake, fee);
      }
    }
  }

  lemma {:induction false} GrowthCrossed(stake: int, fee: int, pastFee: int, s: int, p: int)
    requires s == stake * pastFee
    ensures (stake * (fee * pastFee) + (s - p) * fee) * (fee * pastFee) == (2 * s - p) * (fee * (fee * pastFee))
  {
    var d := fee * pastFee;
    assert stake * d == s * fee;
    assert stake * d + (s - p) * fee == (2 * s - p) * fee;
    assert ((2 * s - p) * fee) * d == (2 * s - p) * (fee * d);
  }

  lemma {:induction false} EstimateOfWindow(height: nat, stats: seq<Entry>, window: int, i: nat, k: nat, missing: int,
                                            pastStake: int, pastFee: int)
    requires |stats| == 1 + BitLength(height) && i + 1 < |stats| && stats[0].0 > 0 && window >= 1
    requires Min(BitLength(window) - 1, BitLength(height) - 1) == i && k == Pow2(i) && missing == k - 1 - height % k
    requires pastFee == stats[0].0 - Extrapolated(stats[i + 1].0, stats[i + 1].2, missing, k)
    requires pastStake == stats[0].1 - Extrapolated(stats[i + 1].1, stats[i + 1].3, missing, k)
    ensures EstimateStorageRate(height, stats, window) ==
              if pastFee <= 0 then Ok(Fraction(stats[0].1, stats[0].0))
              else
                var now := Fraction(stats[0].1, stats[0].0);
                Ok(now.Plus(MaxWithZero(now.Minus(Fraction(pastStake, pastFee)))))
  {
    hide Pow2, BitLength, Fraction.Plus, Fraction.Minus, MaxWithZero, Extrapolated;
  }

  lemma {:induction false} GrowthOnRun(history: seq<Delta>, window: int, i: nat, lo: nat, missing: int)
    requires history != [] && Range(history, 0, |history|).0 > 0
    requires window >= 1 && Pow2(i) <= window && Pow2(i) < |history|
    requires window < Pow2(i + 1) || |history| <= Pow2(i + 1)
    requires var (h, k) := (|history| - 1, Pow2(i)); lo == k * (h / k) && missing == lo + k - 1 - h
    ensures Pow2(i) <= lo < |history|
    ensures var (h, k) := (|history| - 1, Pow2(i));
      var (total, last, current) := (Range(history, 0, h + 1), Range(history, lo - k, lo), Range(history, lo, h + 1));
      var estimate := EstimateStorageRate(h, Run(history), window);
      estimate.Ok? && PlusGrowth(estimate.value, total.1, total.0, total.1 - Extrapolated(last.1, current.1, missing, k),
                                 total.0 - Extrapolated(last.0, current.0, missing, k))
  {
    hide Pow2, Run, Range, BitLength, EstimateStorageRate, PlusGrowth, Extrapolated, Fraction.Plus, Fraction.Minus, MaxWithZero;
    EntryOfRun(history, i);
    var (h, k) := (|history| - 1, Pow2(i));
    WindowRead(h, window, i);
    var (total, last, current) := (Range(history, 0, h + 1), Range(history, lo - k, lo), Range(history, lo, h + 1));
    var pastStake := total.1 - Extrapolated(last.1, current.1, missing, k);
    var pastFee := total.0 - Extrapolated(last.0, current.0, missing, k);
    EstimateOfWindow(h, Run(history), window, i, k, missing, pastStake, pastFee);
    PlusGrowthIs(total.1, total.0, pastStake, pastFee);
  }

  /**
   * The estimate on every run: the past totals are the totals without the current window of size 2^i and the part of
   * the last one that completes it, and the estimate is the rate now plus exactly its growth since then.
   */
  lemma {:induction false} EstimateIsGrowth(history: seq<Delta>, window: int, i: nat)
    requires history != [] && Range(history, 0, |history|).0 > 0
    requires window >= 1 && Pow2(i) <= window && Pow2(i) < |history|
    requires window < Pow2(i + 1) || |history| <= Pow2(i + 1)
    ensures var (h, k) := (|history| - 1, Pow2(i));
      var lo := k * (h / k);
      k <= lo <= h &&
      var (total, last, current) := (Range(history, 0, h + 1), Range(history, lo - k, lo), Range(history, lo, h + 1));
      var missing := lo + k - 1 - h;
      var pastFee := total.0 - (current.0 + last.0 * missing / k);
      var pastStake := total.1 - (current.1 + last.1 * missing / k);
      var estimate := EstimateStorageRate(h, Run(history), window);
      && estimate.Ok? && estimate.value.denominator > 0
      && (pastFee <= 0 || total.1 * pastFee <= pastStake * total.0 ==>
            estimate.value.numerator * total.0 == total.1 * estimate.value.denominator)
      && (pastFee > 0 && total.1 * pastFee > pastStake * total.0 ==>
            estimate.value.numerator * (total.0 * pastFee)
            == (2 * (total.1 * pastFee) - pastStake * total.0) * estimate.value.denominator)
  {
    hide Pow2, Run, Range, BitLength, EstimateStorageRate;
    var (h, k) := (|history| - 1, Pow2(i));
    var lo := k * (h / k);
    GrowthOnRun(history, window, i, lo, lo + k - 1 - h);
  }

  /** The fee of a block is twice the least number of units that pays for the bytes at the parent's rate. */
  lemma {:induction false} FeeIsCeiling(stats: seq<Entry>, bytes: nat, units: int)
    ensures CalculateStorageFee(None, bytes) == Ok(0)
    ensures CalculateStorageFee(Some(stats), bytes).Ok? <==> stats != [] && stats[0].0 > 0
    ensures CalculateStorageFee(Some(stats), bytes) == Ok(2 * units) <==>
              stats != [] && stats[0].0 > 0
              && units * stats[0].0 >= bytes * stats[0].1 > (units - 1) * stats[0].0
  {
    hide CeilDiv;
    if stats != [] && stats[0].0 > 0 {
      CeilingUnique(bytes * stats[0].1, stats[0].0, units);
    }
  }

  lemma {:induction false} RateFeeIsCeiling(rate: Fraction, bytes: nat, units: int)
    requires rate.Valid()
    ensures StorageFeeAtRate(rate, bytes) == 2 * units <==>
              units * rate.denominator >= bytes * rate.numerator > (units - 1) * rate.denominator
  {
    hide CeilDiv;
    CeilingUnique(bytes * rate.numerator, rate.denominator, units);
  }

  lemma {:induction false} CeilingUnique(n: int, d: int, c: int)
    requires d > 0
    ensures CeilDiv(n, d) == c <==> c * d >= n > (c - 1) * d
  {
    hide CeilDiv;
    CeilDivBounds(n, d);
    var p := CeilDiv(n, d);
    assert d * p == p * d && (p - 1) * d == p * d - d && (c - 1) * d == c * d - d;
    if c < p {
      Scaled(c, p - 1, d);
    } else if p < c {
      Scaled(p, c - 1, d);
    }
  }

  lemma {:induction false} CeilDivMonotone(n: int, d: int, m: int, e: int)
    requires d > 0 && e > 0 && n * e <= m * d
    ensures CeilDiv(n, d) <= CeilDiv(m, e)
  {
    hide CeilDiv;
    CeilDivBounds(n, d);
    CeilDivBounds(m, e);
    CeilingsOrdered(n, d, m, e, CeilDiv(n, d), CeilDiv(m, e));
  }

  lemma {:induction false} CeilDivBounds(n: int, d: int)
    requires d > 0
    ensures d * CeilDiv(n, d) >= n && d * CeilDiv(n, d) < n + d
  {
    var (p, r) := (CeilDiv(n, d), (n + d - 1) % d);
    assert n + d - 1 == d * p + r;
  }

  lemma {:induction false} CeilingsOrdered(n: int, d: int, m: int, e: int, p: int, q: int)
    requires d > 0 && e > 0 && n * e <= m * d && d * p < n + d && e * q >= m
    ensures p <= q
  {
    var gap := p - 1 - q;
    Scaled(d * p - d, n - 1, e);
    Scaled(m, e * q, d);
    assert (d * p - d) * e == d * e * (p - 1);
    assert e * q * d == d * e * q;
    assert d * e * (p - 1) - d * e * q == d * e * gap;
    if gap >= 0 {
      assert d * e > 0;
      Scaled(0, gap, d * e);
    }
  }

  lemma {:induction false} Scaled(x: int, y: int, k: int)
    requires x <= y && k >= 0
    ensures x * k <= y * k
  {
  }

  lemma {:induction false} HigherRateCovers(stats: seq<Entry>, rate: Fraction, bytes: nat)
    requires stats != [] && stats[0].0 > 0
    requires rate.Valid() && Fraction(stats[0].1, stats[0].0).AtMost(rate)
    ensures CalculateStorageFee(Some(stats), bytes).Ok?
    ensures CalculateStorageFee(Some(stats), bytes).value <= StorageFeeAtRate(rate, bytes)
  {
    hide CeilDiv;
    var stake, fee := stats[0].1, stats[0].0;
    assert (bytes * stake) * rate.denominator <= (bytes * rate.numerator) * fee by {
      assert (bytes * stake) * rate.denominator == bytes * (stake * rate.denominator);
      assert (bytes * rate.numerator) * fee == bytes * (rate.numerator * fee);
    }
    CeilDivMonotone(bytes * stake, fee, bytes * rate.numerator, rate.denominator);
  }

  /** A fee computed from the estimate covers what the next block charges for the same bytes. */
  lemma {:induction false} EstimateCoversNextBlock(history: seq<Delta>, window: int, bytes: nat)
    requires history != [] && window != 0
    requires Range(history, 0, |history|).0 > 0
    ensures var stats := Run(history);
      var estimate := EstimateStorageRate(|history| - 1, stats, window);
      var charged := CalculateStorageFee(Some(stats), bytes);
      estimate.Ok? && estimate.value.Valid() && charged.Ok?
      && charged.value <= StorageFeeAtRate(estimate.value, bytes)
  {
    hide Run, EstimateStorageRate, Range, WithinTotals, CalculateStorageFee, StorageFeeAtRate;
    EstimateBounds(history, window);
    HigherRateCovers(Run(history), EstimateStorageRate(|history| - 1, Run(history), window).value, bytes);
  }

  /** The fee at a rate depends on the rate alone: lowest terms give the same fee. */
  lemma {:induction false} FeeIgnoresTerms(rate: Fraction, same: Fraction, walkSize: nat)
    requires rate.Valid() && same.Valid()
    requires rate.AtMost(same) && same.AtMost(rate)
    ensures StorageFeeAtRate(rate, walkSize) == StorageFeeAtRate(same, walkSize)
  {
    var a, b, c, d := rate.numerator, rate.denominator, same.numerator, same.denominator;
    assert (walkSize * a) * d == walkSize * (a * d) == walkSize * (c * b) == (walkSize * c) * b;
    CeilDivMonotone(walkSize * a, b, walkSize * c, d);
    CeilDivMonotone(walkSize * c, d, walkSize * a, b);
  }
}
