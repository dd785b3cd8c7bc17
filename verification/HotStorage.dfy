/** The in-memory expr cache with a byte budget: `storage/exprs/hot.py`. */
module HotStorages {
  import opened Common
  import opened Sums

  /** A cached expr: its hash and the size that `Expr.size` computed once. */
  datatype Cached = Cached(key: Digest, size: nat)

  /** An expr with the exprs that are stored before it: its loaded head and tail, and the payload of a composite. */
  datatype Tree = Tree(cached: Cached, children: seq<Tree>)

  datatype State = State(hot: map<Digest, Cached>, timestamps: map<Digest, int>, size: int)

  ghost function SizeOf(hot: map<Digest, Cached>): Digest -> int { k => if k in hot then hot[k].size else 0 }

  ghost function TotalSize(hot: map<Digest, Cached>): int { Sum(hot.Keys, SizeOf(hot)) }

  /** The tracked size is the sum of the stored sizes within the limit, and exactly the stored keys have a timestamp. */
  ghost predicate Accounted(s: State, limit: nat)
  {
    && s.size == TotalSize(s.hot) && s.size <= limit
    && s.hot.Keys == s.timestamps.Keys
    && forall k :: k in s.hot ==> s.hot[k].key == k
  }

  /** What a put may do: make room by the oldest entries, no more than needed, and store the expr as the newest. */
  ghost predicate PutOutcome(s: State, after: State, e: Cached, now: int, limit: nat, stored: bool)
  {
    && (stored <==> e.size <= limit)
    && (!stored ==> after == s)
    && (stored ==>
          && after.hot.Keys <= s.hot.Keys + {e.key} && e.key in after.hot && after.hot[e.key] == e
          && after.timestamps.Keys == after.hot.Keys && after.timestamps[e.key] == now
          && (forall k :: k in after.hot && k != e.key ==> after.hot[k] == s.hot[k] && k in s.timestamps && after.timestamps[k] == s.timestamps[k])
          && (forall v, k :: v in Evicted(s, after) && k in after.hot && k != e.key && v in s.timestamps && k in s.timestamps ==>
                s.timestamps[v] <= s.timestamps[k])
          && (Evicted(s, after) != {} ==> exists v :: v in Evicted(s, after) && TotalSize(after.hot) + s.hot[v].size > limit))
  }

  ghost function Evicted(s: State, after: State): set<Digest> { s.hot.Keys - after.hot.Keys }

  lemma {:induction false} RemoveSize(hot: map<Digest, Cached>, k: Digest)
    requires k in hot
    ensures TotalSize(hot - {k}) == TotalSize(hot) - hot[k].size
  {
    SumPick(hot.Keys, k, SizeOf(hot));
    assert (hot - {k}).Keys == hot.Keys - {k};
    SumCongruent(hot.Keys - {k}, SizeOf(hot), SizeOf(hot - {k}));
  }

  lemma {:induction false} StoreSize(hot: map<Digest, Cached>, e: Cached)
    ensures TotalSize(hot[e.key := e]) == TotalSize(hot) - (if e.key in hot then hot[e.key].size else 0) + e.size
  {
    var after := hot[e.key := e];
    var rest := hot.Keys - {e.key};
    SumCongruent(rest, SizeOf(hot), SizeOf(after));
    SumPick(after.Keys, e.key, SizeOf(after));
    assert after.Keys - {e.key} == rest;
    if e.key in hot {
      SumPick(hot.Keys, e.key, SizeOf(hot));
    } else {
      assert rest == hot.Keys;
    }
  }

  lemma {:induction false} OnlyOne(hot: map<Digest, Cached>, k: Digest)
    requires k in hot && hot.Keys <= {k}
    ensures TotalSize(hot) == hot[k].size
  {
    assert hot.Keys == {k};
    SumPick(hot.Keys, k, SizeOf(hot));
    assert hot.Keys - {k} == {};
  }

  lemma {:induction false} NoneStored(hot: map<Digest, Cached>)
    requires hot.Keys == {}
    ensures TotalSize(hot) == 0
  {
  }

  /** The entry is the oldest of some keys, the skipped one aside. */
  ghost predicate Oldest(timestamps: map<Digest, int>, among: set<Digest>, skip: Digest, victim: Digest)
  {
    && victim in timestamps && victim != skip
    && forall k :: k in among && k in timestamps && k != skip ==> timestamps[victim] <= timestamps[k]
  }

  /** The size once an expr is stored or replaced. */
  function Projected(s: State, e: Cached): int { s.size - (if e.key in s.hot then s.hot[e.key].size else 0) + e.size }

  /** Room was made: by oldest entries, never by the one that is replaced, and each time it was needed. */
  ghost predicate Room(s0: State, s: State, e: Cached, limit: nat)
  {
    && s.hot.Keys <= s0.hot.Keys && s.timestamps.Keys <= s0.timestamps.Keys
    && (e.key in s0.hot ==> e.key in s.hot)
    && (forall k :: k in s.hot ==> s.hot[k] == s0.hot[k])
    && (forall k :: k in s.timestamps ==> s.timestamps[k] == s0.timestamps[k])
    && (forall v, k :: v in Evicted(s0, s) && k in s.hot && k != e.key && v in s0.timestamps && k in s0.timestamps ==>
          s0.timestamps[v] <= s0.timestamps[k])
    && (Evicted(s0, s) != {} ==> exists v :: v in Evicted(s0, s) && Projected(s, e) + s0.hot[v].size > limit)
  }

  lemma {:induction false} RoomAtFirst(s: State, e: Cached, limit: nat, projected: int, existing: bool, existingSize: nat)
    requires existing == (e.key in s.hot) && existingSize == if existing then s.hot[e.key].size else 0
    requires projected == s.size - existingSize + e.size
    ensures Room(s, s, e, limit) && projected == Projected(s, e)
  {
  }

  lemma {:induction false} SomethingToEvict(s: State, e: Cached, limit: nat, victim: Option<Digest>)
    requires Accounted(s, limit) && Projected(s, e) > limit && e.size <= limit
    requires victim.None? ==> s.timestamps.Keys <= {e.key}
    requires victim.Some? ==> Oldest(s.timestamps, s.timestamps.Keys, e.key, victim.value)
    ensures victim.Some? && victim.value in s.hot
  {
    if s.hot.Keys <= {e.key} {
      if e.key in s.hot {
        OnlyOne(s.hot, e.key);
      } else {
        NoneStored(s.hot);
      }
    }
  }

  lemma {:induction false} RoomEvict(s0: State, s: State, e: Cached, limit: nat, victim: Digest)
    requires Accounted(s, limit) && Room(s0, s, e, limit) && Projected(s, e) > limit && victim in s.hot
    requires Oldest(s.timestamps, s.timestamps.Keys, e.key, victim)
    ensures var after := State(s.hot - {victim}, s.timestamps - {victim}, s.size - s.hot[victim].size);
      Room(s0, after, e, limit) && Projected(after, e) == Projected(s, e) - s.hot[victim].size
  {
    var after := State(s.hot - {victim}, s.timestamps - {victim}, s.size - s.hot[victim].size);
    assert victim in Evicted(s0, after) && Projected(after, e) + s0.hot[victim].size > limit;
    forall v, k | v in Evicted(s0, after) && k in after.hot && k != e.key && v in s0.timestamps && k in s0.timestamps
      ensures s0.timestamps[v] <= s0.timestamps[k]
    {
      assert v == victim || v in Evicted(s0, s);
      assert k in s.timestamps;
    }
  }

  lemma {:induction false} StoreAccounted(s: State, e: Cached, now: int, limit: nat)
    requires Accounted(s, limit) && Projected(s, e) <= limit
    ensures Accounted(State(s.hot[e.key := e], s.timestamps[e.key := now], Projected(s, e)), limit)
    ensures Projected(s, e) == s.size - (if e.key in s.hot then s.hot[e.key].size else 0) + e.size
  {
    StoreSize(s.hot, e);
  }

  lemma {:induction false} StoreOutcome(s0: State, s: State, e: Cached, now: int, limit: nat)
    requires Accounted(s0, limit) && Accounted(s, limit) && Room(s0, s, e, limit) && e.size <= limit
    ensures PutOutcome(s0, State(s.hot[e.key := e], s.timestamps[e.key := now], Projected(s, e)), e, now, limit, true)
  {
    hide TotalSize, SizeOf;
    var after := State(s.hot[e.key := e], s.timestamps[e.key := now], Projected(s, e));
    StoreSize(s.hot, e);
    assert Evicted(s0, after) == Evicted(s0, s);
    ProjectedSize(s, e, limit);
  }

  lemma {:induction false} ProjectedSize(s: State, e: Cached, limit: nat)
    requires Accounted(s, limit)
    ensures Projected(s, e) == TotalSize(s.hot[e.key := e])
  {
    StoreSize(s.hot, e);
  }

  lemma {:induction false} Refused(s: State, e: Cached, now: int, limit: nat)
    requires e.size > limit
    ensures PutOutcome(s, s, e, now, limit, false)
  {
  }

  /** The exprs of a tree in the order in which they are put, the tree's own last. */
  function PutOrder(t: Tree): (items: seq<Cached>)
    decreases t, 1
  {
    PutOrders(t.children) + [t.cached]
  }

  function PutOrders(ts: seq<Tree>): seq<Cached>
    decreases ts, 0
  {
    if ts == [] then [] else PutOrders(ts[..|ts| - 1]) + PutOrder(ts[|ts| - 1])
  }

  /** A run of puts, each with its own reading of the clock. */
  ghost predicate Puts(s: State, after: State, items: seq<Cached>, clock: nat -> int, tick: nat, limit: nat)
    decreases |items|, 1
  {
    if items == [] then after == s
    else exists between: State :: OnePut(s, between, after, items, clock, tick, limit)
  }

  ghost predicate OnePut(s: State, between: State, after: State, items: seq<Cached>, clock: nat -> int, tick: nat, limit: nat)
    requires items != []
    decreases |items|, 0
  {
    var n := |items| - 1;
    && Puts(s, between, items[..n], clock, tick, limit)
    && PutOutcome(between, after, items[n], clock(tick + n), limit, items[n].size <= limit)
  }

  lemma {:induction false} PutsAppend(s: State, between: State, after: State, a: seq<Cached>, b: seq<Cached>,
                                      clock: nat -> int, tick: nat, limit: nat)
    requires Puts(s, between, a, clock, tick, limit) && Puts(between, after, b, clock, tick + |a|, limit)
    ensures Puts(s, after, a + b, clock, tick, limit)
    decreases |b|
  {
    hide PutOutcome;
    if b == [] {
      assert a + b == a;
    } else {
      var n := |b| - 1;
      var last: State :| OnePut(between, last, after, b, clock, tick + |a|, limit);
      PutsAppend(s, between, last, a, b[..n], clock, tick, limit);
      assert (a + b)[..|a| + n] == a + b[..n];
      assert OnePut(s, last, after, a + b, clock, tick, limit);
    }
  }

  lemma {:induction false} LastPut(s: State, between: State, after: State, items: seq<Cached>, e: Cached, stored: bool,
                                   clock: nat -> int, tick: nat, limit: nat)
    requires Puts(s, between, items, clock, tick, limit)
    requires PutOutcome(between, after, e, clock(tick + |items|), limit, stored)
    ensures Puts(s, after, items + [e], clock, tick, limit)
  {
    hide Puts;
    assert stored <==> e.size <= limit;
    hide PutOutcome;
    assert (items + [e])[..|items|] == items;
    assert OnePut(s, between, after, items + [e], clock, tick, limit);
    PutsHere(s, between, after, items + [e], clock, tick, limit);
  }

  lemma {:induction false} PutsHere(s: State, between: State, after: State, items: seq<Cached>, clock: nat -> int, tick: nat, limit: nat)
    requires items != [] && OnePut(s, between, after, items, clock, tick, limit)
    ensures Puts(s, after, items, clock, tick, limit)
  {
    hide PutOutcome;
  }

  class HotStorage {
    const limit: nat
    var hot: map<Digest, Cached>
    var timestamps: map<Digest, int>
    var size: int

    function View(): State
      reads this
    {
      State(hot, timestamps, size)
    }

    ghost predicate Valid()
      reads this
    {
      Accounted(View(), limit)
    }

    constructor (limit: nat)
      ensures Valid() && View() == State(map[], map[], 0) && this.limit == limit
    {
      this.limit := limit;
      hot, timestamps, size := map[], map[], 0;
    }

    /** `get_expr_from_hot_storage`. */
    method Get(key: Digest, now: int) returns (e: Option<Cached>)
      requires Valid()
      modifies this`timestamps
      ensures Valid() && e == if key in hot then Some(hot[key]) else None
      ensures timestamps == if key in hot then old(timestamps)[key := now] else old(timestamps)
    {
      if key in hot {
        timestamps := timestamps[key := now];
        return Some(hot[key]);
      }
      return None;
    }

    /** The search for the oldest entry, other than the one that is replaced. */
    method FindVictim(skip: Digest) returns (victim: Option<Digest>)
      ensures victim.None? ==> timestamps.Keys <= {skip}
      ensures victim.Some? ==> Oldest(timestamps, timestamps.Keys, skip, victim.value)
    {
      victim := None;
      var rest := timestamps.Keys;
      while rest != {}
        invariant rest <= timestamps.Keys
        invariant victim.None? ==> timestamps.Keys - rest <= {skip}
        invariant victim.Some? ==> Oldest(timestamps, timestamps.Keys - rest, skip, victim.value)
        decreases |rest|
      {
        var k :| k in rest;
        assert timestamps.Keys - (rest - {k}) == (timestamps.Keys - rest) + {k};
        rest := rest - {k};
        if k == skip {
          continue;
        }
        if victim.None? || timestamps[k] < timestamps[victim.value] {
          victim := Some(k);
        }
      }
      assert timestamps.Keys - rest == timestamps.Keys;
    }

    /** One eviction. */
    method Evict(victim: Digest)
      requires Valid() && victim in hot
      modifies this
      ensures Valid() && hot == old(hot) - {victim} && timestamps == old(timestamps) - {victim}
      ensures size == old(size) - old(hot)[victim].size
    {
      RemoveSize(hot, victim);
      size := size - hot[victim].size;
      hot := hot - {victim};
      timestamps := timestamps - {victim};
    }

    /** One turn of the eviction loop. Its early exits are for a cache that holds nothing but the replaced expr. */
    method EvictOldest(e: Cached, ghost s0: State)
      requires Valid() && Room(s0, View(), e, limit) && Projected(View(), e) > limit && e.size <= limit
      modifies this
      ensures Valid() && Room(s0, View(), e, limit) && |hot| < |old(hot)|
      ensures (e.key in hot) == (e.key in old(hot)) && (e.key in hot ==> hot[e.key] == old(hot)[e.key])
    {
      hide Accounted, Room, Projected;
      var victim := FindVictim(e.key);
      SomethingToEvict(View(), e, limit, victim);
      RoomEvict(s0, View(), e, limit, victim.value);
      ghost var before := hot;
      Evict(victim.value);
      assert View() == State(before - {victim.value}, old(timestamps) - {victim.value}, old(size) - before[victim.value].size);
      assert hot.Keys == before.Keys - {victim.value};
      assert |before.Keys| == |hot.Keys| + 1;
    }

    /** `put_expr_in_hot_storage` of one expr, after its children. */
    method Put(e: Cached, now: int) returns (stored: bool)
      requires Valid()
      modifies this
      ensures Valid() && PutOutcome(old(View()), View(), e, now, limit, stored)
    {
      hide Accounted, Room, PutOutcome, Oldest;
      ghost var s0 := View();
      if e.size > limit {
        Refused(s0, e, now, limit);
        return false;
      }
      var existing := e.key in hot;
      var existingSize := if existing then hot[e.key].size else 0;
      var projected := size - existingSize + e.size;
      RoomAtFirst(s0, e, limit, projected, existing, existingSize);
      while projected > limit
        invariant Valid() && Room(s0, View(), e, limit) && projected == Projected(View(), e)
        invariant existing == (e.key in hot) && existingSize == if existing then hot[e.key].size else 0
        decreases |hot|
      {
        EvictOldest(e, s0);
        projected := size - existingSize + e.size;
      }
      ghost var s := View();
      StoreAccounted(s, e, now, limit);
      StoreOutcome(s0, s, e, now, limit);
      if existing {
        size := size - existingSize;
      }
      hot := hot[e.key := e];
      timestamps := timestamps[e.key := now];
      size := size + e.size;
      assert View() == State(s.hot[e.key := e], s.timestamps[e.key := now], Projected(s, e));
      return true;
    }

    /**
     * `put_expr_in_hot_storage`: the children first, whatever becomes of them, then the expr itself;
     * put number i of the tree reads `clock(tick + i)`.
     */
    method PutTree(t: Tree, clock: nat -> int, tick: nat) returns (stored: bool)
      requires Valid()
      modifies this
      ensures Valid() && Puts(old(View()), View(), PutOrder(t), clock, tick, limit)
      ensures stored <==> t.cached.size <= limit
      ensures stored ==> t.cached.key in hot && hot[t.cached.key] == t.cached
      decreases t
    {
      hide Puts, PutOrder, Accounted;
      ghost var s := View();
      var next := tick;
      NoPuts(s, clock, tick, limit);
      for i := 0 to |t.children|
        invariant Valid() && next == tick + |PutOrders(t.children[..i])|
        invariant Puts(s, View(), PutOrders(t.children[..i]), clock, tick, limit)
      {
        assert t.children[..i + 1][..i] == t.children[..i];
        ghost var between := View();
        var _ := PutTree(t.children[i], clock, next);
        PutsAppend(s, between, View(), PutOrders(t.children[..i]), PutOrder(t.children[i]), clock, tick, limit);
        next := next + |PutOrder(t.children[i])|;
      }
      assert t.children[..|t.children|] == t.children;
      ghost var between := View();
      stored := Put(t.cached, clock(next));
      LastPut(s, between, View(), PutOrders(t.children), t.cached, stored, clock, tick, limit);
      OrderHere(t);
    }
  }

  lemma {:induction false} NoPuts(s: State, clock: nat -> int, tick: nat, limit: nat)
    ensures PutOrders([]) == [] && Puts(s, s, [], clock, tick, limit)
  {
  }

  lemma {:induction false} OrderHere(t: Tree)
    ensures PutOrder(t) == PutOrders(t.children) + [t.cached]
  {
  }
}
