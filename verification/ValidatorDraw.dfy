/** The slots and the stake draw of `consensus/validation/validator.py`, on records without loans. */
module ValidatorDraws {
  import opened Common
  import opened Powers
  import opened Sums

  type Key = Bytes

  const SLOT_DURATION_SECONDS := 2

  // ---------------------------------------------------------------------- slots

  /** `math.ceil`. */
  function Ceil(x: real): int { -(-x).Floor }

  function SlotsUntil(parent: int, now: real, estimate: real, slot: int): int
    requires slot > 0
  {
    Max(1, Ceil((now + estimate - parent as real) / slot as real))
  }

  function NextBlockTime(parent: int, now: real, estimate: real, slot: int): int
    requires slot > 0
  {
    parent + SlotsUntil(parent, now, estimate, slot) * slot
  }

  /** How many validators are drawn for a block at a target time. */
  function DrawCount(parent: int, target: int): int
  {
    var at := if target <= parent then parent + 1 else target;
    Max(1, (at - parent + SLOT_DURATION_SECONDS - 1) / SLOT_DURATION_SECONDS)
  }

  lemma {:induction false} CeilIsLeast(x: real, k: int)
    ensures x <= Ceil(x) as real && (x <= k as real ==> Ceil(x) <= k)
  {
  }

  /** The chosen time ends a slot, is late enough, and ends the first slot that is. */
  lemma {:induction false} NextBlockTimeIsFirst(parent: int, now: real, estimate: real, slot: int, k: int)
    requires slot > 0
    ensures var t := NextBlockTime(parent, now, estimate, slot);
      && t >= parent + slot && t as real >= now + estimate
      && (k >= 1 && (parent + k * slot) as real >= now + estimate ==> parent + k * slot >= t)
  {
    var wait := now + estimate - parent as real;
    var slots := SlotsUntil(parent, now, estimate, slot);
    CeilIsLeast(wait / slot as real, k);
    assert wait / slot as real * slot as real == wait;
    CoversWait(wait, slot, slots);
    if k >= 1 && (parent + k * slot) as real >= now + estimate {
      EnoughSlots(wait, slot, k);
      AtLeastSlots(slots, k, slot);
    }
    AtLeastSlots(1, slots, slot);
  }

  lemma {:induction false} CoversWait(wait: real, slot: int, slots: int)
    requires slot > 0 && wait / slot as real <= slots as real
    ensures wait <= (slots * slot) as real
  {
    var s := slot as real;
    assert wait == wait / s * s;
    assert (slots as real - wait / s) * s >= 0.0;
    assert slots as real * s == (slots * slot) as real;
  }

  lemma {:induction false} EnoughSlots(wait: real, slot: int, k: int)
    requires slot > 0 && (k * slot) as real >= wait
    ensures wait / slot as real <= k as real
  {
    var s := slot as real;
    assert (k * slot) as real == k as real * s;
  }

  lemma {:induction false} AtLeastSlots(a: int, b: int, slot: int)
    requires a <= b && slot > 0
    ensures a * slot <= b * slot
  {
  }

  /** The target lies in slot k after the parent, late targets counting as slot 1. */
  predicate InSlot(parent: int, target: int, k: int)
    requires k >= 1
  {
    (k == 1 || parent + SLOT_DURATION_SECONDS * (k - 1) < target) && target <= parent + SLOT_DURATION_SECONDS * k
  }

  /** Every target inside slot k is drawn for k times, and no other target is. */
  lemma {:induction false} SameSlotSameDraws(parent: int, target: int, k: int)
    requires k >= 1
    ensures DrawCount(parent, target) == k <==> InSlot(parent, target, k)
    ensures DrawCount(parent, target) == k <==> (k == 1 || parent + 2 * (k - 1) < target) && target <= parent + 2 * k
  {
  }

  /** `next_block_time` lands in exactly the slot that it counted. */
  lemma {:induction false} LandsInCountedSlot(parent: int, now: real, estimate: real)
    ensures DrawCount(parent, NextBlockTime(parent, now, estimate, SLOT_DURATION_SECONDS))
         == SlotsUntil(parent, now, estimate, SLOT_DURATION_SECONDS)
  {
    SameSlotSameDraws(parent, NextBlockTime(parent, now, estimate, 2), SlotsUntil(parent, now, estimate, 2));
  }

  // ----------------------------------------------------------------- one pick

  datatype Accounts = Accounts(stakes: map<Key, int>, balances: map<Key, int>)

  function StakeUpTo(order: seq<Key>, stakes: map<Key, int>, n: nat): int
    requires n <= |order| && forall i :: 0 <= i < |order| ==> order[i] in stakes
  {
    if n == 0 then 0 else StakeUpTo(order, stakes, n - 1) + stakes[order[n - 1]]
  }

  /** The keys with a positive stake, each once; `sorted` puts them in key order. */
  ghost predicate Candidates(order: seq<Key>, stakes: map<Key, int>)
  {
    && (forall i :: 0 <= i < |order| ==> order[i] in stakes)
    && (forall k :: k in stakes ==> (stakes[k] > 0 <==> k in order))
    && (forall i, j :: 0 <= i < j < |order| ==> order[i] != order[j])
  }

  /** The key whose cumulative interval holds the choice. */
  ghost predicate Holds(order: seq<Key>, stakes: map<Key, int>, choice: int, i: nat)
    requires forall j :: 0 <= j < |order| ==> order[j] in stakes
  {
    i < |order| && StakeUpTo(order, stakes, i) <= choice < StakeUpTo(order, stakes, i + 1)
  }

  ghost predicate Picked(order: seq<Key>, stakes: map<Key, int>, choice: int, key: Key)
    requires forall j :: 0 <= j < |order| ==> order[j] in stakes
  {
    exists i: nat :: Holds(order, stakes, choice, i) && key == order[i]
  }

  /** `pick_validator`, with the choice that the generator makes below the total weight. */
  method PickValidator(order: seq<Key>, stakes: map<Key, int>, choice: int) returns (key: Key)
    requires Candidates(order, stakes) && 0 <= choice < StakeUpTo(order, stakes, |order|)
    ensures Picked(order, stakes, choice, key)
  {
    var cumulative := 0;
    for i := 0 to |order|
      invariant cumulative == StakeUpTo(order, stakes, i) && cumulative <= choice
    {
      cumulative := cumulative + stakes[order[i]];
      if choice < cumulative {
        assert Holds(order, stakes, choice, i);
        return order[i];
      }
    }
    // The final fallback of the source stands here: the total weight exceeds every choice.
    assert false;
  }

  /** Only one key can hold a choice, so the draw is determined by it. */
  lemma {:induction false} PickIsUnique(order: seq<Key>, stakes: map<Key, int>, choice: int, i: nat, j: nat)
    requires Candidates(order, stakes) && Holds(order, stakes, choice, i) && Holds(order, stakes, choice, j)
    ensures i == j
  {
    if i < j {
      StakeGrows(order, stakes, i + 1, j);
    } else if j < i {
      StakeGrows(order, stakes, j + 1, i);
    }
  }

  lemma {:induction false} StakeGrows(order: seq<Key>, stakes: map<Key, int>, i: nat, j: nat)
    requires Candidates(order, stakes) && i <= j <= |order|
    ensures StakeUpTo(order, stakes, i) <= StakeUpTo(order, stakes, j)
    decreases j
  {
    if i < j {
      StakeGrows(order, stakes, i, j - 1);
      assert order[j - 1] in order;
    }
  }

  /** The choices below the total that pick a key. */
  ghost function ChoicesFor(order: seq<Key>, stakes: map<Key, int>, key: Key): set<int>
    requires forall j :: 0 <= j < |order| ==> order[j] in stakes
  {
    set choice | 0 <= choice < StakeUpTo(order, stakes, |order|) && Picked(order, stakes, choice, key)
  }

  ghost function Interval(low: int, high: int): (s: set<int>)
    ensures forall x :: x in s <==> low <= x < high
    ensures low <= high ==> |s| == high - low
    decreases high - low
  {
    if low >= high then {} else Interval(low, high - 1) + {high - 1}
  }

  /** The draw is weighted by stake: of the choices below the total, a validator is picked by as many as it has stake. */
  lemma {:induction false} ChancesAreStakes(order: seq<Key>, stakes: map<Key, int>, key: Key)
    requires Candidates(order, stakes) && key in stakes
    ensures |ChoicesFor(order, stakes, key)| == Max(0, stakes[key])
  {
    hide StakeUpTo, Interval;
    if key in order {
      var i :| 0 <= i < |order| && order[i] == key;
      StakeUpToStep(order, stakes, i);
      StakeGrows(order, stakes, 0, i);
      StakeGrows(order, stakes, i + 1, |order|);
      var chosen := Interval(StakeUpTo(order, stakes, i), StakeUpTo(order, stakes, i + 1));
      forall choice
        ensures choice in chosen <==> choice in ChoicesFor(order, stakes, key)
      {
        if choice in chosen {
          assert Holds(order, stakes, choice, i);
        }
      }
      assert chosen == ChoicesFor(order, stakes, key);
    } else {
      assert ChoicesFor(order, stakes, key) == {};
    }
  }

  lemma {:induction false} StakeUpToStep(order: seq<Key>, stakes: map<Key, int>, i: nat)
    requires i < |order| && forall j :: 0 <= j < |order| ==> order[j] in stakes
    ensures StakeUpTo(order, stakes, i + 1) == StakeUpTo(order, stakes, i) + stakes[order[i]]
    ensures StakeUpTo(order, stakes, 0) == 0
  {
  }

  // ----------------------------------------------------------------- halving

  function HalfOf(stake: int): int { if stake / 2 < 1 then 1 else stake / 2 }

  function Credited(balances: map<Key, int>, key: Key, amount: int): map<Key, int>
  {
    balances[key := (if key in balances then balances[key] else 0) + amount]
  }

  /** `halve_stake` of a positive stake. */
  function Halved(a: Accounts, treasury: Key, key: Key): Accounts
    requires key in a.stakes
  {
    var returned := a.stakes[key] - HalfOf(a.stakes[key]);
    if returned <= 0 then a
    else Accounts(a.stakes[key := HalfOf(a.stakes[key])], Credited(Credited(a.balances, treasury, -returned), key, returned))
  }

  class Draw {
    const treasury: Key
    var stakes: map<Key, int>
    var balances: map<Key, int>

    constructor (treasury: Key, stakes: map<Key, int>, balances: map<Key, int>)
      ensures this.treasury == treasury && View() == Accounts(stakes, balances)
    {
      this.treasury, this.stakes, this.balances := treasury, stakes, balances;
    }

    function View(): Accounts
      reads this
    {
      Accounts(stakes, balances)
    }

    /** `halve_stake`; an Err is its ValueError. */
    method HalveStake(key: Key) returns (r: Result<int>)
      requires treasury in balances
      modifies this
      ensures r.Ok? <==> key in old(stakes) && old(stakes)[key] > 0
      ensures View() == if r.Ok? then Halved(old(View()), treasury, key) else old(View())
      ensures r.Ok? ==> key in stakes && r.value == old(stakes)[key] - stakes[key]
      ensures treasury in balances
    {
      var current := if key in stakes then stakes[key] else 0;
      if current <= 0 {
        return Err("validator stake must be positive");
      }
      var amount := current / 2;
      if amount < 1 {
        amount := 1;
      }
      var returned := current - amount;
      if returned <= 0 {
        return Ok(0);
      }
      balances := balances[treasury := balances[treasury] - returned];
      var balance := if key in balances then balances[key] else 0;
      balances := balances[key := balance + returned];
      stakes := stakes[key := amount];
      return Ok(returned);
    }

    /** The slot loop of `current_validator`; `choices` is what the generator returns, round by round. */
    method DrawFor(parent: int, target: int, order: seq<Key>, choices: (nat, int) -> int)
        returns (validator: Key, ghost picks: seq<Key>)
      requires treasury in balances && order != [] && Candidates(order, stakes)
      requires forall round: nat, total: int :: total > 0 ==> 0 <= choices(round, total) < total
      modifies this
      ensures |picks| == DrawCount(parent, target) && validator == picks[|picks| - 1]
      ensures Draws(order, old(View()), treasury, choices, picks)
      ensures View() == AfterPicks(old(View()), treasury, picks)
    {
      hide AfterPicks, Draws, Halved, Picked, Candidates;
      var count := DrawCount(parent, target);
      picks := [];
      validator := order[0];
      NoDraws(order, View(), treasury, choices);
      for round := 0 to count
        invariant treasury in balances && Candidates(order, stakes) && |picks| == round
        invariant round > 0 ==> validator == picks[round - 1]
        invariant Draws(order, old(View()), treasury, choices, picks)
        invariant View() == AfterPicks(old(View()), treasury, picks)
      {
        CandidatesKnown(order, stakes);
        TotalPositive(order, stakes);
        var total := TotalWeight(order);
        validator := PickValidator(order, stakes, choices(round, total));
        OneMoreDraw(order, old(View()), treasury, choices, picks, validator);
        var _ := HalveStake(validator);
        picks := picks + [validator];
      }
    }

    method TotalWeight(order: seq<Key>) returns (total: int)
      requires Candidates(order, stakes)
      ensures total == StakeUpTo(order, stakes, |order|)
    {
      total := 0;
      for i := 0 to |order|
        invariant total == StakeUpTo(order, stakes, i)
      {
        total := total + stakes[order[i]];
      }
    }
  }

  lemma {:induction false} TotalPositive(order: seq<Key>, stakes: map<Key, int>)
    requires order != [] && Candidates(order, stakes)
    ensures StakeUpTo(order, stakes, |order|) > 0
  {
    StakeGrows(order, stakes, 1, |order|);
    assert order[0] in order;
    assert StakeUpTo(order, stakes, 1) == StakeUpTo(order, stakes, 0) + stakes[order[0]];
  }

  lemma {:induction false} CandidatesKnown(order: seq<Key>, stakes: map<Key, int>)
    requires Candidates(order, stakes)
    ensures forall i :: 0 <= i < |order| ==> order[i] in stakes
  {
  }

  function AfterPicks(a: Accounts, treasury: Key, picks: seq<Key>): (r: Accounts)
    requires forall i :: 0 <= i < |picks| ==> picks[i] in a.stakes
    ensures r.stakes.Keys == a.stakes.Keys
  {
    if picks == [] then a else Halved(AfterPicks(a, treasury, picks[..|picks| - 1]), treasury, picks[|picks| - 1])
  }

  /** Each pick is the key that the round's choice falls on, with the stakes as the picks before it left them. */
  ghost predicate Draws(order: seq<Key>, a: Accounts, treasury: Key, choices: (nat, int) -> int, picks: seq<Key>): (b: bool)
    ensures b ==> forall i :: 0 <= i < |picks| ==> picks[i] in a.stakes
  {
    && (forall i :: 0 <= i < |picks| ==> picks[i] in a.stakes)
    && forall i :: 0 <= i < |picks| ==> DrawnAt(order, AfterPicks(a, treasury, picks[..i]).stakes, choices, i, picks[i])
  }

  ghost predicate DrawnAt(order: seq<Key>, stakes: map<Key, int>, choices: (nat, int) -> int, round: nat, key: Key)
  {
    Candidates(order, stakes) && Picked(order, stakes, choices(round, StakeUpTo(order, stakes, |order|)), key)
  }

  lemma {:induction false} NoDraws(order: seq<Key>, a: Accounts, treasury: Key, choices: (nat, int) -> int)
    ensures Draws(order, a, treasury, choices, []) && AfterPicks(a, treasury, []) == a
  {
  }

  /** The next draw, on the accounts that the draws so far left. */
  lemma {:induction false} OneMoreDraw(order: seq<Key>, a: Accounts, treasury: Key, choices: (nat, int) -> int,
                                       picks: seq<Key>, key: Key)
    requires Draws(order, a, treasury, choices, picks)
    requires DrawnAt(order, AfterPicks(a, treasury, picks).stakes, choices, |picks|, key)
    ensures var now := AfterPicks(a, treasury, picks);
      && key in a.stakes && key in now.stakes && now.stakes[key] > 0
      && Draws(order, a, treasury, choices, picks + [key])
      && AfterPicks(a, treasury, picks + [key]) == Halved(now, treasury, key)
      && Candidates(order, Halved(now, treasury, key).stakes)
  {
    hide Halved, DrawnAt, Candidates;
    var all := picks + [key];
    assert all[..|picks|] == picks;
    DrawnIsCandidate(order, AfterPicks(a, treasury, picks), treasury, choices, |picks|, key);
    assert forall i :: 0 <= i < |all| ==> all[i] in a.stakes;
    assert AfterPicks(a, treasury, all) == Halved(AfterPicks(a, treasury, picks), treasury, key);
    hide AfterPicks;
    forall i | 0 <= i < |all|
      ensures DrawnAt(order, AfterPicks(a, treasury, all[..i]).stakes, choices, i, all[i])
    {
      assert i < |picks| ==> all[..i] == picks[..i];
    }
  }

  lemma {:induction false} DrawnIsCandidate(order: seq<Key>, a: Accounts, treasury: Key, choices: (nat, int) -> int,
                                            round: nat, key: Key)
    requires DrawnAt(order, a.stakes, choices, round, key)
    ensures key in a.stakes && a.stakes[key] > 0 && Candidates(order, Halved(a, treasury, key).stakes)
  {
    hide StakeUpTo;
    assert key in order;
  }

  /** The draws so far do not depend on how many follow. */
  lemma {:induction false} DrawsPrefix(order: seq<Key>, a: Accounts, treasury: Key, choices: (nat, int) -> int,
                                       picks: seq<Key>, n: nat)
    requires Draws(order, a, treasury, choices, picks) && n <= |picks|
    ensures Draws(order, a, treasury, choices, picks[..n])
  {
    hide AfterPicks, DrawnAt;
    forall i | 0 <= i < n
      ensures picks[..n][i] == picks[i] && picks[..n][..i] == picks[..i]
    {
    }
  }

  /** The stakes and the generator determine every draw. */
  lemma {:induction false} DrawsAgree(order: seq<Key>, a: Accounts, treasury: Key, choices: (nat, int) -> int,
                                      p: seq<Key>, q: seq<Key>)
    requires Draws(order, a, treasury, choices, p) && Draws(order, a, treasury, choices, q) && |p| == |q|
    ensures p == q
  {
    hide AfterPicks, Candidates, Holds;
    if p != [] {
      var n := |p| - 1;
      DrawsPrefix(order, a, treasury, choices, p, n);
      DrawsPrefix(order, a, treasury, choices, q, n);
      DrawsAgree(order, a, treasury, choices, p[..n], q[..n]);
      OneDraw(order, AfterPicks(a, treasury, p[..n]).stakes, choices, n, p[n], q[n]);
      assert p == p[..n] + [p[n]] && q == q[..n] + [q[n]];
    }
  }

  lemma {:induction false} OneDraw(order: seq<Key>, stakes: map<Key, int>, choices: (nat, int) -> int, round: nat,
                                   x: Key, y: Key)
    requires DrawnAt(order, stakes, choices, round, x) && DrawnAt(order, stakes, choices, round, y)
    ensures x == y
  {
    var choice := choices(round, StakeUpTo(order, stakes, |order|));
    var i: nat :| Holds(order, stakes, choice, i) && x == order[i];
    var j: nat :| Holds(order, stakes, choice, j) && y == order[j];
    PickIsUnique(order, stakes, choice, i, j);
  }

  /**
   * Every timestamp inside one slot gives the same validator and the same stakes and balances: whatever
   * `DrawFor` returns for two targets of a slot, from one state and one generator, is the same.
   */
  lemma {:induction false} SameSlotSameValidator(parent: int, first: int, second: int, k: int, order: seq<Key>, a: Accounts,
                                                 treasury: Key, choices: (nat, int) -> int, p: seq<Key>, q: seq<Key>)
    requires k >= 1 && InSlot(parent, first, k) && InSlot(parent, second, k)
    requires |p| == DrawCount(parent, first) && Draws(order, a, treasury, choices, p)
    requires |q| == DrawCount(parent, second) && Draws(order, a, treasury, choices, q)
    ensures |p| == |q| == k && p[k - 1] == q[k - 1]
    ensures AfterPicks(a, treasury, p) == AfterPicks(a, treasury, q)
  {
    hide Draws;
    SameSlotSameDraws(parent, first, k);
    SameSlotSameDraws(parent, second, k);
    DrawsAgree(order, a, treasury, choices, p, q);
  }

  // ------------------------------------------------------------------- the laws

  ghost function Supply(balances: map<Key, int>): int { Sum(balances.Keys, k => if k in balances then balances[k] else 0) }

  lemma {:induction false} SupplyCredited(balances: map<Key, int>, key: Key, amount: int)
    ensures Supply(Credited(balances, key, amount)) == Supply(balances) + amount
  {
    var after := Credited(balances, key, amount);
    var f := (k: Key) => if k in balances then balances[k] else 0;
    var g := (k: Key) => if k in after then after[k] else 0;
    var rest := balances.Keys - {key};
    assert after.Keys == rest + {key};
    SumAdd(rest, key, g);
    SumCongruent(rest, f, g);
    if key in balances {
      SumPick(balances.Keys, key, f);
    } else {
      assert rest == balances.Keys;
    }
  }

  /**
   * Over any number of draws the balances add up to what they were, no positive stake reaches zero
   * and none grows.
   */
  lemma {:induction false} DrawsConserve(a: Accounts, treasury: Key, picks: seq<Key>)
    requires forall i :: 0 <= i < |picks| ==> picks[i] in a.stakes
    ensures var r := AfterPicks(a, treasury, picks);
      && Supply(r.balances) == Supply(a.balances)
      && forall k :: k in a.stakes && a.stakes[k] > 0 ==> 1 <= r.stakes[k] <= a.stakes[k]
  {
    if picks != [] {
      var n := |picks| - 1;
      DrawsConserve(a, treasury, picks[..n]);
      var before := AfterPicks(a, treasury, picks[..n]);
      var key := picks[n];
      var returned := before.stakes[key] - HalfOf(before.stakes[key]);
      SupplyCredited(before.balances, treasury, -returned);
      SupplyCredited(Credited(before.balances, treasury, -returned), key, returned);
    }
  }

  /** One pick halves the stake of the picked validator, rounding down but not to zero, and no other stake. */
  lemma {:induction false} HalvedStake(a: Accounts, treasury: Key, key: Key)
    requires key in a.stakes && a.stakes[key] > 0
    ensures var (r, stake) := (Halved(a, treasury, key), a.stakes[key]);
      && r.stakes.Keys == a.stakes.Keys
      && (stake == 1 ==> r.stakes[key] == 1)
      && (stake >= 2 ==> 2 * r.stakes[key] <= stake < 2 * r.stakes[key] + 2)
      && (forall k :: k in a.stakes && k != key ==> r.stakes[k] == a.stakes[k])
      && (forall k :: k in a.balances && k != key && k != treasury ==> k in r.balances && r.balances[k] == a.balances[k])
  {
  }

  lemma {:induction false} HalfStep(stake: int, left: int, n: int, p: nat)
    requires 0 < p && left * p <= stake < (left + 1) * p && left >= 2 && 2 * n <= left < 2 * n + 2
    ensures n * (2 * p) <= stake < (n + 1) * (2 * p) && 2 * p <= stake
  {
    var rest := left - 2 * n;
    assert left * p == 2 * n * p + rest * p;
    assert rest == 0 || rest == 1;
    assert n * (2 * p) == 2 * n * p && (n + 1) * (2 * p) == 2 * n * p + 2 * p && (left + 1) * p == left * p + p;
    assert 2 * p <= left * p;
  }

  /** `left` is max(1, stake / 2^times). */
  ghost predicate IsHalved(stake: int, times: nat, left: int)
  {
    if Pow2(times) <= stake then left >= 1 && left * Pow2(times) <= stake < (left + 1) * Pow2(times) else left == 1
  }

  lemma {:induction false} HalvingCounts(stake: int, times: nat, left: int, n: int)
    requires stake > 0 && left >= 1 && IsHalved(stake, times, left)
    requires if left == 1 then n == 1 else 2 * n <= left < 2 * n + 2
    ensures IsHalved(stake, times + 1, n)
  {
    hide Pow2;
    Pow2Here(times + 1);
    if left >= 2 {
      HalfStep(stake, left, n, Pow2(times));
    }
  }

  lemma {:induction false} NotHalved(stake: int)
    requires stake > 0
    ensures IsHalved(stake, 0, stake)
  {
  }

  lemma {:induction false} HalvedByPicks(a: Accounts, treasury: Key, picks: seq<Key>, key: Key)
    requires key in a.stakes && a.stakes[key] > 0 && forall i :: 0 <= i < |picks| ==> picks[i] in a.stakes
    ensures AfterPicks(a, treasury, picks).stakes[key] >= 1
    ensures IsHalved(a.stakes[key], multiset(picks)[key], AfterPicks(a, treasury, picks).stakes[key])
  {
    hide Halved, IsHalved;
    DrawsConserve(a, treasury, picks);
    if picks == [] {
      NotHalved(a.stakes[key]);
    } else {
      var n := |picks| - 1;
      HalvedByPicks(a, treasury, picks[..n], key);
      var before := AfterPicks(a, treasury, picks[..n]);
      assert picks == picks[..n] + [picks[n]];
      if key == picks[n] {
        HalvedStake(before, treasury, key);
        HalvingCounts(a.stakes[key], multiset(picks[..n])[key], before.stakes[key], Halved(before, treasury, key).stakes[key]);
      } else {
        OtherStakesStay(before, treasury, picks[n], key);
      }
    }
  }

  lemma {:induction false} OtherStakesStay(a: Accounts, treasury: Key, picked: Key, key: Key)
    requires picked in a.stakes && key in a.stakes && key != picked
    ensures Halved(a, treasury, picked).stakes[key] == a.stakes[key]
  {
  }

  /** Over any run of picks: a positive stake s that is picked j times ends at max(1, s / 2^j). */
  lemma {:induction false} RepeatedHalving(a: Accounts, treasury: Key, picks: seq<Key>, key: Key)
    requires key in a.stakes && a.stakes[key] > 0 && forall i :: 0 <= i < |picks| ==> picks[i] in a.stakes
    ensures var (stake, times, left) := (a.stakes[key], multiset(picks)[key], AfterPicks(a, treasury, picks).stakes[key]);
      && (Pow2(times) <= stake ==> left >= 1 && left * Pow2(times) <= stake < (left + 1) * Pow2(times))
      && (Pow2(times) > stake ==> left == 1)
  {
    hide Pow2, AfterPicks;
    HalvedByPicks(a, treasury, picks, key);
  }

  /** The stakes that the treasury holds for the others. */
  ghost function HeldForOthers(stakes: map<Key, int>, treasury: Key): int
  {
    Sum(stakes.Keys - {treasury}, k => if k in stakes then stakes[k] else 0)
  }

  lemma {:induction false} HeldAfterHalving(stakes: map<Key, int>, treasury: Key, key: Key, stake: int)
    requires key in stakes
    ensures HeldForOthers(stakes[key := stake], treasury)
         == HeldForOthers(stakes, treasury) + if key == treasury then 0 else stake - stakes[key]
  {
    var after := stakes[key := stake];
    var f := (k: Key) => if k in stakes then stakes[k] else 0;
    var g := (k: Key) => if k in after then after[k] else 0;
    var others := stakes.Keys - {treasury};
    assert after.Keys == stakes.Keys;
    if key == treasury {
      SumCongruent(others, f, g);
    } else {
      SumCongruent(others - {key}, f, g);
      SumPick(others, key, f);
      SumPick(others, key, g);
    }
  }

  /** One halving: the treasury pays, and the validator gets, exactly what the stake loses. */
  lemma {:induction false} HalvingKeepsBacking(a: Accounts, treasury: Key, key: Key)
    requires key in a.stakes && treasury in a.balances
    ensures var r := Halved(a, treasury, key);
      && treasury in r.balances
      && r.balances[treasury] - HeldForOthers(r.stakes, treasury) == a.balances[treasury] - HeldForOthers(a.stakes, treasury)
      && (key != treasury ==>
            (if key in r.balances then r.balances[key] else 0) - (if key in a.balances then a.balances[key] else 0)
            == a.stakes[key] - r.stakes[key])
  {
    hide HeldForOthers;
    HeldAfterHalving(a.stakes, treasury, key, HalfOf(a.stakes[key]));
  }

  /** Over any run of picks the treasury's balance without the stakes that it holds for the others stays the same. */
  lemma {:induction false} TreasuryBacksStakes(a: Accounts, treasury: Key, picks: seq<Key>)
    requires treasury in a.balances && forall i :: 0 <= i < |picks| ==> picks[i] in a.stakes
    ensures var r := AfterPicks(a, treasury, picks);
      && treasury in r.balances
      && r.balances[treasury] - HeldForOthers(r.stakes, treasury) == a.balances[treasury] - HeldForOthers(a.stakes, treasury)
  {
    hide Halved, HeldForOthers;
    if picks != [] {
      var n := |picks| - 1;
      TreasuryBacksStakes(a, treasury, picks[..n]);
      HalvingKeepsBacking(AfterPicks(a, treasury, picks[..n]), treasury, picks[n]);
    }
  }
}
