/**
 * The era bloom tree of `crypto/bloom_tree` on plain values: partly loaded trees over
 * a store of cells, what they mean once everything is loaded, and the proof that the
 * blocks of an era, each loading one path only, never lose a stored subtree.
 * The version with mutable nodes is in module BloomTrees.
 */
module EraTrees {
  import opened Common
  import opened Powers
  import opened BloomFilters

  const DEPTH := 10
  const ERA_SIZE := 1024

  /** A stored node: the block of a leaf, the hashes of the children, the filter. */
  datatype Cell = Cell(start: Option<Digest>, left: Option<Digest>, right: Option<Digest>, filter: Filter)

  type CellHash = Cell -> Digest
  type Store = map<Digest, Cell>

  /** A child slot: nothing, the hash of a stored node, or a loaded node. */
  datatype Tree =
    | Absent
    | Stored(hash: Digest)
    | Node(touched: bool, start: Option<Digest>, filter: Filter, left: Tree, right: Tree)

  const FRESH := Node(false, None, EMPTY, Absent, Absent)

  function Ref(hash: Option<Digest>): Tree { if hash.Some? then Stored(hash.value) else Absent }

  /** `read_bloom_node`. */
  function ReadNode(store: Store, hash: Digest): Tree
  {
    if hash in store then
      var c := store[hash];
      Node(false, c.start, c.filter, Ref(c.left), Ref(c.right))
    else Absent
  }

  /** `_resolve_child`: the stored child if there is one and it can be read, else a new node. */
  function Resolved(store: Option<Store>, child: Tree): (t: Tree)
    ensures t.Node?
  {
    if child.Node? then child
    else if child.Stored? && store.Some? && child.hash in store.value then ReadNode(store.value, child.hash)
    else FRESH
  }

  function Side(t: Tree, left: bool): Tree
    requires t.Node?
  {
    if left then t.left else t.right
  }

  function WithSide(t: Tree, left: bool, child: Tree, touched: bool): (r: Tree)
    requires t.Node?
    ensures r.Node?
  {
    if left then t.(left := child, touched := touched) else t.(right := child, touched := touched)
  }

  function Mid(lo: nat, h: nat): nat
    requires h > 0
  {
    lo + Pow2(h - 1)
  }

  /** `_walk`: insert elements on the path to an offset; h levels are left below the node. */
  function Walked(hash: WideHash, store: Option<Store>, t: Tree, h: nat, lo: nat, offset: nat, elements: seq<Bytes>): (r: Tree)
    requires t.Node?
    ensures r.Node?
    decreases h
  {
    var n := t.(filter := InsertedAll(hash, t.filter, elements), touched := true);
    if h == 0 then n
    else
      var left := offset < Mid(lo, h);
      var child := Resolved(store, Side(t, left));
      WithSide(n, left, Walked(hash, store, child, h - 1, if left then lo else Mid(lo, h), offset, elements), true)
  }

  /** `_set_leaf` with a storage handle; the flag tells whether the leaf exists. */
  function LeafSet(store: Store, t: Tree, h: nat, lo: nat, offset: nat, block: Digest): (r: (Tree, bool))
    requires t.Node?
    ensures r.0.Node?
    decreases h
  {
    if h == 0 then (t.(start := Some(block), touched := true), true)
    else
      var left := offset < Mid(lo, h);
      var child := Side(t, left);
      if child.Absent? then (t, false)
      else
        var (after, found) := LeafSet(store, Resolved(Some(store), child), h - 1, if left then lo else Mid(lo, h), offset, block);
        (WithSide(t, left, after, t.touched || found), found)
  }

  /** One level of `LeafSet`. */
  lemma {:induction false} LeafSetHere(store: Store, t: Tree, h: nat, lo: nat, offset: nat, block: Digest)
    requires t.Node?
    ensures h == 0 ==> LeafSet(store, t, h, lo, offset, block) == (t.(start := Some(block), touched := true), true)
    ensures h > 0 ==>
              var left := offset < Mid(lo, h);
              var child := Side(t, left);
              if child.Absent? then LeafSet(store, t, h, lo, offset, block) == (t, false)
              else
                var r := LeafSet(store, Resolved(Some(store), child), h - 1, if left then lo else Mid(lo, h), offset, block);
                LeafSet(store, t, h, lo, offset, block) == (WithSide(t, left, r.0, t.touched || r.1), r.1)
  {
  }

  // ------------------------------------------------------ the fully loaded tree

  datatype Full = Missing | Full(start: Option<Digest>, filter: Filter, left: Full, right: Full)

  /** What a tree of height h is, once every stored node below it is read. */
  ghost function Meaning(store: Store, t: Tree, h: nat): Full
    decreases h
  {
    var n := if t.Stored? then ReadNode(store, t.hash) else t;
    if !n.Node? then Missing
    else if h == 0 then Full(n.start, n.filter, Missing, Missing)
    else Full(n.start, n.filter, Meaning(store, n.left, h - 1), Meaning(store, n.right, h - 1))
  }

  /** Every stored node that the tree refers to can be read. */
  ghost predicate Complete(store: Store, t: Tree, h: nat)
    decreases h
  {
    var n := if t.Stored? then ReadNode(store, t.hash) else t;
    && (t.Stored? ==> t.hash in store)
    && (n.Node? && h > 0 ==> Complete(store, n.left, h - 1) && Complete(store, n.right, h - 1))
  }

  /** No node on the path to an offset is left in storage. */
  ghost predicate PathLoaded(t: Tree, h: nat, lo: nat, offset: nat)
    decreases h
  {
    && !t.Stored?
    && (t.Node? && h > 0 ==>
          var left := offset < Mid(lo, h);
          PathLoaded(Side(t, left), h - 1, if left then lo else Mid(lo, h), offset))
  }

  /** The elements inserted at each offset of an era, None for a block without an insert. */
  type Log = seq<Option<seq<Bytes>>>

  function Concat(parts: Log): seq<Bytes>
  {
    if parts == [] then []
    else Concat(parts[..|parts| - 1]) + (if parts[|parts| - 1].Some? then parts[|parts| - 1].value else [])
  }

  /** The part of a log that belongs to the offsets from lo to lo + 2^h. */
  function Within(log: Log, h: nat, lo: nat): Log
  {
    if lo >= |log| then [] else if lo + Pow2(h) <= |log| then log[lo..lo + Pow2(h)] else log[lo..]
  }

  ghost predicate Quiet(part: Log) { forall k :: 0 <= k < |part| ==> part[k].None? }

  /**
   * The tree of an era from its history alone; `hashes` names the blocks that have a successor. A node exists if
   * something was inserted below it, and its filter has those elements in block order.
   */
  ghost function EraOf(hash: WideHash, hashes: seq<Digest>, log: Log, h: nat, lo: nat): Full
    decreases h
  {
    var part := Within(log, h, lo);
    if Quiet(part) then Missing
    else
      var filter := InsertedAll(hash, EMPTY, Concat(part));
      if h == 0 then Full(if lo < |hashes| then Some(hashes[lo]) else None, filter, Missing, Missing)
      else Full(None, filter, EraOf(hash, hashes, log, h - 1, lo), EraOf(hash, hashes, log, h - 1, Mid(lo, h)))
  }

  // ------------------------------------------- the two operations, fully loaded

  function FullInsert(hash: WideHash, f: Full, h: nat, lo: nat, offset: nat, elements: seq<Bytes>): Full
    decreases h
  {
    var n := if f.Full? then f else Full(None, EMPTY, Missing, Missing);
    var filter := InsertedAll(hash, n.filter, elements);
    if h == 0 then Full(n.start, filter, Missing, Missing)
    else if offset < Mid(lo, h) then
      Full(n.start, filter, FullInsert(hash, n.left, h - 1, lo, offset, elements), n.right)
    else
      Full(n.start, filter, n.left, FullInsert(hash, n.right, h - 1, Mid(lo, h), offset, elements))
  }

  function FullSet(f: Full, h: nat, lo: nat, offset: nat, block: Digest): Full
    decreases h
  {
    if f.Missing? then Missing
    else if h == 0 then f.(start := Some(block))
    else if offset < Mid(lo, h) then f.(left := FullSet(f.left, h - 1, lo, offset, block))
    else f.(right := FullSet(f.right, h - 1, Mid(lo, h), offset, block))
  }

  /** Setting a leaf loads its path and changes nothing but the block of the leaf. */
  lemma {:induction false} LeafSetMeans(store: Store, t: Tree, h: nat, lo: nat, offset: nat, block: Digest)
    requires t.Node? && Complete(store, t, h)
    ensures var r := LeafSet(store, t, h, lo, offset, block).0;
      && Meaning(store, r, h) == FullSet(Meaning(store, t, h), h, lo, offset, block)
      && Complete(store, r, h) && PathLoaded(r, h, lo, offset)
    decreases h
  {
    if h > 0 {
      var left := offset < Mid(lo, h);
      var child := Side(t, left);
      if !child.Absent? {
        LeafSetMeans(store, Resolved(Some(store), child), h - 1, if left then lo else Mid(lo, h), offset, block);
      }
    }
  }

  /** Inserting along a loaded path is inserting into the loaded tree, with or without a storage handle. */
  lemma {:induction false} WalkedMeans(hash: WideHash, store: Store, handle: Option<Store>, t: Tree, h: nat, lo: nat,
                                       offset: nat, elements: seq<Bytes>)
    requires t.Node? && Complete(store, t, h) && PathLoaded(t, h, lo, offset)
    ensures var r := Walked(hash, handle, t, h, lo, offset, elements);
      && Meaning(store, r, h) == FullInsert(hash, Meaning(store, t, h), h, lo, offset, elements)
      && Complete(store, r, h) && PathLoaded(r, h, lo, offset)
    decreases h
  {
    if h > 0 {
      var left := offset < Mid(lo, h);
      var child := Resolved(handle, Side(t, left));
      FreshMeans(store, h - 1, if left then lo else Mid(lo, h), offset);
      WalkedMeans(hash, store, handle, child, h - 1, if left then lo else Mid(lo, h), offset, elements);
      FreshInsert(hash, h - 1, if left then lo else Mid(lo, h), offset, elements);
    }
  }

  lemma {:induction false} FreshMeans(store: Store, h: nat, lo: nat, offset: nat)
    ensures Meaning(store, FRESH, h) == Full(None, EMPTY, Missing, Missing)
    ensures Complete(store, FRESH, h) && PathLoaded(FRESH, h, lo, offset)
  {
    if h > 0 {
      assert Meaning(store, Absent, h - 1) == Missing;
      assert PathLoaded(Absent, h - 1, if offset < Mid(lo, h) then lo else Mid(lo, h), offset);
    }
  }

  lemma {:induction false} FreshInsert(hash: WideHash, h: nat, lo: nat, offset: nat, elements: seq<Bytes>)
    ensures FullInsert(hash, Full(None, EMPTY, Missing, Missing), h, lo, offset, elements)
         == FullInsert(hash, Missing, h, lo, offset, elements)
  {
  }

  /** No filter of the tree is empty. */
  ghost predicate Counted(f: Full) { f.Full? ==> f.filter.count > 0 && Counted(f.left) && Counted(f.right) }

  lemma {:induction false} InsertedCount(hash: WideHash, f: Filter, elements: seq<Bytes>)
    ensures InsertedAll(hash, f, elements).count == f.count + |elements|
  {
    if elements != [] {
      InsertedCount(hash, f, elements[..|elements| - 1]);
    }
  }

  /**
   * An insert without a storage handle keeps the tree exactly when its path is loaded: a child
   * that is only stored would be replaced by an empty node.
   */
  lemma {:induction false} InsertKeepsTreeIffLoaded(hash: WideHash, store: Store, t: Tree, h: nat, lo: nat, offset: nat,
                                                    elements: seq<Bytes>)
    requires t.Node? && Complete(store, t, h) && Counted(Meaning(store, t, h))
    ensures PathLoaded(t, h, lo, offset)
       <==> Meaning(store, Walked(hash, None, t, h, lo, offset, elements), h)
            == FullInsert(hash, Meaning(store, t, h), h, lo, offset, elements)
    decreases h
  {
    if PathLoaded(t, h, lo, offset) {
      WalkedMeans(hash, store, None, t, h, lo, offset, elements);
    } else if h > 0 {
      var left := offset < Mid(lo, h);
      var child := Side(t, left);
      assert !PathLoaded(child, h - 1, if left then lo else Mid(lo, h), offset);
      if child.Node? {
        InsertKeepsTreeIffLoaded(hash, store, child, h - 1, if left then lo else Mid(lo, h), offset, elements);
      } else {
        UnloadedIsReplaced(hash, store, child, h - 1, if left then lo else Mid(lo, h), offset, elements);
      }
    }
  }

  lemma {:induction false} UnloadedIsReplaced(hash: WideHash, store: Store, child: Tree, h: nat, lo: nat, offset: nat,
                                              elements: seq<Bytes>)
    requires child.Stored? && Complete(store, child, h) && Counted(Meaning(store, child, h))
    ensures Meaning(store, Walked(hash, None, Resolved(None, child), h, lo, offset, elements), h)
         != FullInsert(hash, Meaning(store, child, h), h, lo, offset, elements)
  {
    hide InsertedAll;
    InsertedCount(hash, EMPTY, elements);
    InsertedCount(hash, Meaning(store, child, h).filter, elements);
  }

  /** A tree that loses a node: the left child of its root is still in storage when an insert passes there. */
  lemma {:induction false} StoredChildIsLost(hash: WideHash, x: Bytes)
    ensures var filter := InsertedAll(hash, EMPTY, [x]);
      var store := map[ZERO32 := Cell(None, None, None, filter)];
      var t := Node(false, None, filter, Stored(ZERO32), Absent);
      && Complete(store, t, DEPTH) && Counted(Meaning(store, t, DEPTH)) && !PathLoaded(t, DEPTH, 0, 0)
      && Meaning(store, Walked(hash, None, t, DEPTH, 0, 0, [x]), DEPTH)
         != FullInsert(hash, Meaning(store, t, DEPTH), DEPTH, 0, 0, [x])
  {
    hide InsertedAll, Walked, FullInsert;
    var filter := InsertedAll(hash, EMPTY, [x]);
    var store := map[ZERO32 := Cell(None, None, None, filter)];
    var t := Node(false, None, filter, Stored(ZERO32), Absent);
    InsertedCount(hash, EMPTY, [x]);
    AbsentIsMissing(store, DEPTH - 1);
    AbsentIsMissing(store, DEPTH - 2);
    assert Meaning(store, t.left, DEPTH - 1) == Full(None, filter, Missing, Missing);
    assert Complete(store, t.left, DEPTH - 1);
    InsertKeepsTreeIffLoaded(hash, store, t, DEPTH, 0, 0, [x]);
  }

  lemma {:induction false} AbsentIsMissing(store: Store, h: nat)
    ensures Meaning(store, Absent, h) == Missing && Complete(store, Absent, h)
  {
  }

  // ------------------------------------------------------- the history of an era

  lemma {:induction false} WithinAppend(log: Log, x: Option<seq<Bytes>>, h: nat, lo: nat)
    ensures Within(log + [x], h, lo)
         == if lo <= |log| < lo + Pow2(h) then Within(log, h, lo) + [x] else Within(log, h, lo)
  {
  }

  /** One level of `EraOf`. */
  lemma {:induction false} EraHere(hash: WideHash, hashes: seq<Digest>, log: Log, h: nat, lo: nat)
    ensures Quiet(Within(log, h, lo)) ==> EraOf(hash, hashes, log, h, lo) == Missing
    ensures !Quiet(Within(log, h, lo)) ==>
              && var f := EraOf(hash, hashes, log, h, lo);
              && f.Full? && f.filter == InsertedAll(hash, EMPTY, Concat(Within(log, h, lo)))
              && (h == 0 ==> f.start == (if lo < |hashes| then Some(hashes[lo]) else None) && f.left == f.right == Missing)
              && (h > 0 ==>
                    && f.start == None && f.left == EraOf(hash, hashes, log, h - 1, lo)
                    && f.right == EraOf(hash, hashes, log, h - 1, Mid(lo, h)))
  {
  }

  /** A block without an insert leaves the tree as it is. */
  lemma {:induction false} QuietBlock(hash: WideHash, hashes: seq<Digest>, log: Log, h: nat, lo: nat)
    ensures EraOf(hash, hashes, log + [None], h, lo) == EraOf(hash, hashes, log, h, lo)
    decreases h
  {
    hide EraOf, Within, InsertedAll;
    EraHere(hash, hashes, log, h, lo);
    EraHere(hash, hashes, log + [None], h, lo);
    WithinAppend(log, None, h, lo);
    var (part, grown) := (Within(log, h, lo), Within(log + [None], h, lo));
    if grown == part + [None] {
      assert grown[..|grown| - 1] == part;
      assert Concat(grown) == Concat(part) + [] == Concat(part);
      assert forall k :: 0 <= k < |part| ==> part[k] == grown[k];
    }
    if h > 0 {
      QuietBlock(hash, hashes, log, h - 1, lo);
      QuietBlock(hash, hashes, log, h - 1, Mid(lo, h));
    }
  }

  /** Naming the block of an offset touches that leaf alone. */
  lemma {:induction false} SealedBlock(hash: WideHash, hashes: seq<Digest>, log: Log, block: Digest, h: nat, lo: nat)
    ensures EraOf(hash, hashes + [block], log, h, lo)
         == if lo <= |hashes| < lo + Pow2(h) then FullSet(EraOf(hash, hashes, log, h, lo), h, lo, |hashes|, block)
            else EraOf(hash, hashes, log, h, lo)
    decreases h
  {
    hide EraOf, Within, InsertedAll, Concat, Quiet;
    EraHere(hash, hashes, log, h, lo);
    EraHere(hash, hashes + [block], log, h, lo);
    if h > 0 {
      SealedBlock(hash, hashes, log, block, h - 1, lo);
      SealedBlock(hash, hashes, log, block, h - 1, Mid(lo, h));
    }
  }

  /** What an offset holds after more elements are inserted there. */
  function More(entry: Option<seq<Bytes>>, elements: seq<Bytes>): Option<seq<Bytes>>
  {
    Some((if entry.Some? then entry.value else []) + elements)
  }

  lemma {:induction false} InsertedAllSplits(hash: WideHash, f: Filter, xs: seq<Bytes>, ys: seq<Bytes>)
    ensures InsertedAll(hash, f, xs + ys) == InsertedAll(hash, InsertedAll(hash, f, xs), ys)
  {
    if ys == [] {
      assert xs + ys == xs;
    } else {
      assert (xs + ys)[..|xs + ys| - 1] == xs + ys[..|ys| - 1];
      InsertedAllSplits(hash, f, xs, ys[..|ys| - 1]);
    }
  }

  lemma {:induction false} QuietConcat(part: Log)
    requires Quiet(part)
    ensures Concat(part) == []
  {
    if part != [] {
      QuietConcat(part[..|part| - 1]);
    }
  }

  lemma {:induction false} QuietBelow(log: Log, h: nat, lo: nat)
    requires h > 0 && Quiet(Within(log, h, lo))
    ensures Quiet(Within(log, h - 1, lo)) && Quiet(Within(log, h - 1, Mid(lo, h)))
  {
    var (part, left, right) := (Within(log, h, lo), Within(log, h - 1, lo), Within(log, h - 1, Mid(lo, h)));
    forall k | 0 <= k < |left|
      ensures left[k].None?
    {
      assert left[k] == log[lo + k] == part[k];
    }
    forall k | 0 <= k < |right|
      ensures right[k].None?
    {
      assert right[k] == log[Mid(lo, h) + k] == part[Pow2(h - 1) + k];
    }
  }

  lemma {:induction false} NewestFilter(hash: WideHash, part: Log, entry: Option<seq<Bytes>>, elements: seq<Bytes>)
    ensures !Quiet(part + [More(entry, elements)])
    ensures InsertedAll(hash, EMPTY, Concat(part + [More(entry, elements)]))
         == InsertedAll(hash, if Quiet(part + [entry]) then EMPTY else InsertedAll(hash, EMPTY, Concat(part + [entry])), elements)
  {
    hide InsertedAll;
    var (was, now) := (part + [entry], part + [More(entry, elements)]);
    assert was[..|part|] == part && now[..|part|] == part;
    assert now[|part|].Some?;
    assert Concat(now) == Concat(was) + elements;
    InsertedAllSplits(hash, EMPTY, Concat(was), elements);
    if Quiet(was) {
      QuietConcat(was);
      NothingInserted(hash, EMPTY);
    }
  }

  lemma {:induction false} NothingInserted(hash: WideHash, f: Filter)
    ensures InsertedAll(hash, f, []) == f
  {
  }

  /** An insert at the newest offset. */
  lemma {:induction false} NewestInsert(hash: WideHash, hashes: seq<Digest>, log: Log, entry: Option<seq<Bytes>>,
                                        elements: seq<Bytes>, h: nat, lo: nat)
    requires |hashes| <= |log|
    ensures EraOf(hash, hashes, log + [More(entry, elements)], h, lo)
         == if lo <= |log| < lo + Pow2(h) then FullInsert(hash, EraOf(hash, hashes, log + [entry], h, lo), h, lo, |log|, elements)
            else EraOf(hash, hashes, log + [entry], h, lo)
    decreases h
  {
    hide InsertedAll, Within, EraOf, Concat, Quiet, More;
    EraHere(hash, hashes, log + [entry], h, lo);
    EraHere(hash, hashes, log + [More(entry, elements)], h, lo);
    WithinAppend(log, entry, h, lo);
    WithinAppend(log, More(entry, elements), h, lo);
    NewestFilter(hash, Within(log, h, lo), entry, elements);
    if h > 0 {
      NewestInsert(hash, hashes, log, entry, elements, h - 1, lo);
      NewestInsert(hash, hashes, log, entry, elements, h - 1, Mid(lo, h));
      if Quiet(Within(log + [entry], h, lo)) {
        QuietBelow(log + [entry], h, lo);
        EraHere(hash, hashes, log + [entry], h - 1, lo);
        EraHere(hash, hashes, log + [entry], h - 1, Mid(lo, h));
      }
    }
  }

  lemma {:induction false} BeyondTheLog(hash: WideHash, hashes: seq<Digest>, log: Log, h: nat, lo: nat)
    requires lo >= |log|
    ensures EraOf(hash, hashes, log, h, lo) == Missing
  {
  }

  lemma {:induction false} MissingIsAbsent(store: Store, t: Tree, h: nat)
    requires Complete(store, t, h) && Meaning(store, t, h) == Missing
    ensures t == Absent
  {
  }

  /**
   * Why an insert needs no storage handle: with the path to the newest leaf loaded, whatever
   * else the next offset's path could hold does not exist yet.
   */
  lemma {:induction false} NextPathLoaded(hash: WideHash, store: Store, t: Tree, hashes: seq<Digest>, log: Log,
                                          h: nat, lo: nat, offset: nat)
    requires Complete(store, t, h) && PathLoaded(t, h, lo, offset)
    requires Meaning(store, t, h) == EraOf(hash, hashes, log, h, lo)
    requires |log| <= offset + 1 && lo <= offset && offset + 1 < lo + Pow2(h)
    ensures PathLoaded(t, h, lo, offset + 1)
    decreases h
  {
    hide EraOf, Within, InsertedAll, Concat, Quiet;
    if t.Node? && h > 0 {
      EraHere(hash, hashes, log, h, lo);
      var mid := Mid(lo, h);
      if offset + 1 < mid {
        NextPathLoaded(hash, store, t.left, hashes, log, h - 1, lo, offset);
      } else if mid <= offset {
        NextPathLoaded(hash, store, t.right, hashes, log, h - 1, mid, offset);
      } else {
        BeyondTheLog(hash, hashes, log, h - 1, mid);
        MissingIsAbsent(store, t.right, h - 1);
      }
    }
  }

  // ------------------------------------------------------------ writing a tree

  function RefOf(H: CellHash, t: Tree): Option<Digest>
    decreases t, 1
  {
    match t
    case Absent => None
    case Stored(hash) => Some(hash)
    case Node(_, _, _, _, _) => Some(H(CellOf(H, t)))
  }

  /** The cell that a loaded node is written as. */
  function CellOf(H: CellHash, t: Tree): Cell
    requires t.Node?
    decreases t, 0
  {
    Cell(t.start, RefOf(H, t.left), RefOf(H, t.right), t.filter)
  }

  /** The cells of the touched nodes join the store. */
  function Save(H: CellHash, t: Tree, store: Store): Store
  {
    if !t.Node? then store
    else
      var below := Save(H, t.right, Save(H, t.left, store));
      if t.touched then below[H(CellOf(H, t)) := CellOf(H, t)] else below
  }

  ghost function Cells(H: CellHash, t: Tree): set<Cell>
  {
    if t.Node? then {CellOf(H, t)} + Cells(H, t.left) + Cells(H, t.right) else {}
  }

  ghost predicate CollisionFree(H: CellHash, cells: set<Cell>)
  {
    forall a, b :: a in cells && b in cells && H(a) == H(b) ==> a == b
  }

  /** Every cell is stored under its own hash. */
  ghost predicate Addressed(H: CellHash, store: Store, cells: set<Cell>)
  {
    forall d :: d in store ==> H(store[d]) == d && store[d] in cells
  }

  ghost predicate Extends(store: Store, later: Store)
  {
    forall d :: d in store ==> d in later && later[d] == store[d]
  }

  ghost predicate Has(H: CellHash, store: Store, c: Cell) { H(c) in store && store[H(c)] == c }

  /** Every loaded node, respectively every untouched one, is already a stored cell. */
  ghost predicate AllSaved(H: CellHash, store: Store, t: Tree, untouchedOnly: bool)
  {
    t.Node? ==>
      && ((untouchedOnly && t.touched) || Has(H, store, CellOf(H, t)))
      && AllSaved(H, store, t.left, untouchedOnly) && AllSaved(H, store, t.right, untouchedOnly)
  }

  lemma {:induction false} SaveKeeps(H: CellHash, t: Tree, store: Store, cells: set<Cell>)
    requires CollisionFree(H, cells) && Addressed(H, store, cells) && Cells(H, t) <= cells
    ensures Addressed(H, Save(H, t, store), cells) && Extends(store, Save(H, t, store))
  {
    if t.Node? {
      SaveKeeps(H, t.left, store, cells);
      SaveKeeps(H, t.right, Save(H, t.left, store), cells);
      assert CellOf(H, t) in cells;
    }
  }

  lemma {:induction false} SavedLater(H: CellHash, t: Tree, store: Store, later: Store, untouchedOnly: bool)
    requires Extends(store, later) && AllSaved(H, store, t, untouchedOnly)
    ensures AllSaved(H, later, t, untouchedOnly)
  {
    if t.Node? {
      SavedLater(H, t.left, store, later, untouchedOnly);
      SavedLater(H, t.right, store, later, untouchedOnly);
    }
  }

  lemma {:induction false} SaveSavesAll(H: CellHash, t: Tree, store: Store, cells: set<Cell>)
    requires CollisionFree(H, cells) && Addressed(H, store, cells) && Cells(H, t) <= cells
    requires AllSaved(H, store, t, true)
    ensures AllSaved(H, Save(H, t, store), t, false)
  {
    if t.Node? {
      var one := Save(H, t.left, store);
      var two := Save(H, t.right, one);
      SaveKeeps(H, t, store, cells);
      SaveKeeps(H, t.left, store, cells);
      SaveKeeps(H, t.right, one, cells);
      SaveSavesAll(H, t.left, store, cells);
      SavedLater(H, t.right, store, one, true);
      SaveSavesAll(H, t.right, one, cells);
      var last := Save(H, t, store);
      assert Extends(two, last) by {
        assert CellOf(H, t) in cells;
      }
      SavedLater(H, t.left, one, last, false);
      SavedLater(H, t.right, two, last, false);
      assert Has(H, last, CellOf(H, t));
    }
  }

  lemma {:induction false} MeaningLater(store: Store, later: Store, t: Tree, h: nat)
    requires Complete(store, t, h) && Extends(store, later)
    ensures Complete(later, t, h) && Meaning(later, t, h) == Meaning(store, t, h)
    decreases h
  {
    var n := if t.Stored? then ReadNode(store, t.hash) else t;
    if h > 0 && n.Node? {
      MeaningLater(store, later, n.left, h - 1);
      MeaningLater(store, later, n.right, h - 1);
    }
  }

  /** What is written reads back as the same tree. */
  lemma {:induction false} SavedMeans(H: CellHash, store: Store, later: Store, t: Tree, h: nat)
    requires Complete(store, t, h) && Extends(store, later) && AllSaved(H, later, t, false)
    ensures Complete(later, Ref(RefOf(H, t)), h)
    ensures Meaning(later, Ref(RefOf(H, t)), h) == Meaning(store, t, h)
    decreases h
  {
    if t.Stored? {
      MeaningLater(store, later, t, h);
    } else if t.Node? {
      assert ReadNode(later, H(CellOf(H, t))) == Node(false, t.start, t.filter, Ref(RefOf(H, t.left)), Ref(RefOf(H, t.right)));
      if h > 0 {
        SavedMeans(H, store, later, t.left, h - 1);
        SavedMeans(H, store, later, t.right, h - 1);
      }
    }
  }

  lemma {:induction false} ReadIsSaved(H: CellHash, store: Store, hash: Digest, cells: set<Cell>)
    requires Addressed(H, store, cells) && hash in store
    ensures CellOf(H, ReadNode(store, hash)) == store[hash] && RefOf(H, ReadNode(store, hash)) == Some(hash)
    ensures AllSaved(H, store, ReadNode(store, hash), true)
  {
  }

  lemma {:induction false} WalkedSaved(hash: WideHash, H: CellHash, store: Store, handle: Option<Store>, t: Tree, h: nat,
                                       lo: nat, offset: nat, elements: seq<Bytes>)
    requires t.Node? && AllSaved(H, store, t.left, true) && AllSaved(H, store, t.right, true)
    requires PathLoaded(t, h, lo, offset)
    ensures AllSaved(H, store, Walked(hash, handle, t, h, lo, offset, elements), true)
    decreases h
  {
    if h > 0 {
      var left := offset < Mid(lo, h);
      FreshMeans(store, h - 1, if left then lo else Mid(lo, h), offset);
      WalkedSaved(hash, H, store, handle, Resolved(handle, Side(t, left)), h - 1, if left then lo else Mid(lo, h), offset, elements);
    }
  }

  lemma {:induction false} LeafSetSaved(H: CellHash, store: Store, t: Tree, h: nat, lo: nat, offset: nat, block: Digest,
                                        cells: set<Cell>)
    requires t.Node? && Complete(store, t, h) && AllSaved(H, store, t, true) && Addressed(H, store, cells)
    ensures var (r, found) := LeafSet(store, t, h, lo, offset, block);
      AllSaved(H, store, r, true) && (!found ==> CellOf(H, r) == CellOf(H, t))
    decreases h
  {
    if h > 0 {
      var left := offset < Mid(lo, h);
      var child := Side(t, left);
      if !child.Absent? {
        if child.Stored? {
          ReadIsSaved(H, store, child.hash, cells);
        }
        var next := Resolved(Some(store), child);
        LeafSetSaved(H, store, next, h - 1, if left then lo else Mid(lo, h), offset, block, cells);
        var (after, found) := LeafSet(store, next, h - 1, if left then lo else Mid(lo, h), offset, block);
        assert RefOf(H, next) == RefOf(H, child);
        assert !found ==> RefOf(H, after) == RefOf(H, child);
      }
    }
  }

  // ------------------------------------------------------------- a run of blocks

  /** One `insert` call; `loads` tells whether it gets the storage handle. */
  datatype Batch = Batch(elements: seq<Bytes>, loads: bool)

  datatype EraState = EraState(store: Store, root: Option<Digest>)

  /** A block of the era: its id and the inserts it makes. */
  datatype EraBlock = EraBlock(id: Digest, batches: seq<Batch>)

  /** `insert`, one call after the other, on a root that may not exist yet. */
  function AfterBatches(hash: WideHash, store: Store, t: Tree, offset: nat, batches: seq<Batch>): (r: Tree)
    ensures t.Node? || batches != [] ==> r.Node?
    ensures batches == [] ==> r == t
  {
    if batches == [] then t
    else
      var before := AfterBatches(hash, store, t, offset, batches[..|batches| - 1]);
      var b := batches[|batches| - 1];
      Walked(hash, if b.loads then Some(store) else None, if before.Node? then before else FRESH, DEPTH, 0, offset, b.elements)
  }

  /** The tree when a block starts: the root read from storage, and the previous block's leaf sealed. */
  function OpenedTree(s: EraState, offset: nat, previous: Digest): (t: Tree)
    ensures !t.Stored?
  {
    var t := if offset == 0 || s.root.None? then Absent else ReadNode(s.store, s.root.value);
    if offset > 0 && t.Node? then LeafSet(s.store, t, DEPTH, 0, offset - 1, previous).0 else t
  }

  /** The tree when the block is written; `rewrite_root` touches the root in any case. */
  function BuiltTree(hash: WideHash, s: EraState, offset: nat, previous: Digest, batches: seq<Batch>): Tree
  {
    var t := AfterBatches(hash, s.store, OpenedTree(s, offset, previous), offset, batches);
    if t.Node? then t.(touched := true) else t
  }

  function NextEra(hash: WideHash, H: CellHash, s: EraState, offset: nat, previous: Digest, batches: seq<Batch>): EraState
  {
    var t := BuiltTree(hash, s, offset, previous, batches);
    EraState(Save(H, t, s.store), RefOf(H, t))
  }

  /** What a block's inserts add to the log. */
  function Entry(batches: seq<Batch>): Option<seq<Bytes>>
  {
    if batches == [] then None
    else More(Entry(batches[..|batches| - 1]), batches[|batches| - 1].elements)
  }

  /** The stored tree is whole, and is the tree that the history defines. */
  ghost predicate Whole(hash: WideHash, H: CellHash, cells: set<Cell>, s: EraState, hashes: seq<Digest>, log: Log)
  {
    && Addressed(H, s.store, cells)
    && Complete(s.store, Ref(s.root), DEPTH)
    && Meaning(s.store, Ref(s.root), DEPTH) == EraOf(hash, hashes, log, DEPTH, 0)
  }

  /** A tree in memory in the middle of a block. */
  ghost predicate InProgress(hash: WideHash, H: CellHash, store: Store, t: Tree, offset: nat, hashes: seq<Digest>, log: Log)
  {
    && !t.Stored? && Complete(store, t, DEPTH) && PathLoaded(t, DEPTH, 0, offset) && AllSaved(H, store, t, true)
    && Meaning(store, t, DEPTH) == EraOf(hash, hashes, log, DEPTH, 0)
  }

  lemma {:induction false} EraWidth()
    ensures Pow2(DEPTH) == ERA_SIZE == 1024
  {
    assert Pow2(5) == 32;
  }

  lemma {:induction false} TreeOpened(hash: WideHash, H: CellHash, cells: set<Cell>, s: EraState, previous: Digest,
                                      hashes: seq<Digest>, log: Log)
    requires Whole(hash, H, cells, s, hashes, log) && 0 < |log| < ERA_SIZE && |hashes| == |log| - 1
    ensures InProgress(hash, H, s.store, OpenedTree(s, |log|, previous), |log|, hashes + [previous], log + [None])
  {
    hide Meaning, EraOf, Complete, PathLoaded, AllSaved, LeafSet, FullSet;
    EraWidth();
    var offset := |log|;
    QuietBlock(hash, hashes + [previous], log, DEPTH, 0);
    SealedBlock(hash, hashes, log, previous, DEPTH, 0);
    RootRead(H, cells, s);
    if s.root.Some? {
      var t := ReadNode(s.store, s.root.value);
      LeafSetMeans(s.store, t, DEPTH, 0, offset - 1, previous);
      LeafSetSaved(H, s.store, t, DEPTH, 0, offset - 1, previous, cells);
      NextPathLoaded(hash, s.store, OpenedTree(s, offset, previous), hashes + [previous], log, DEPTH, 0, offset - 1);
    } else {
      AbsentTree(H, s.store, DEPTH, 0, offset - 1, previous);
      AbsentTree(H, s.store, DEPTH, 0, offset, previous);
    }
  }

  lemma {:induction false} RootRead(H: CellHash, cells: set<Cell>, s: EraState)
    requires Addressed(H, s.store, cells) && Complete(s.store, Ref(s.root), DEPTH)
    ensures s.root.Some? ==>
              && var t := ReadNode(s.store, s.root.value);
              && t.Node? && Complete(s.store, t, DEPTH) && AllSaved(H, s.store, t, true)
              && Meaning(s.store, t, DEPTH) == Meaning(s.store, Ref(s.root), DEPTH)
  {
    if s.root.Some? {
      ReadIsSaved(H, s.store, s.root.value, cells);
    }
  }

  lemma {:induction false} AbsentTree(H: CellHash, store: Store, h: nat, lo: nat, offset: nat, block: Digest)
    ensures Meaning(store, Absent, h) == Missing && FullSet(Missing, h, lo, offset, block) == Missing
    ensures Complete(store, Absent, h) && PathLoaded(Absent, h, lo, offset) && AllSaved(H, store, Absent, true)
  {
  }

  lemma {:induction false} BatchesInserted(hash: WideHash, H: CellHash, store: Store, t: Tree, offset: nat, batches: seq<Batch>,
                                           hashes: seq<Digest>, log: Log)
    requires InProgress(hash, H, store, t, offset, hashes, log + [None])
    requires |hashes| <= |log| == offset < ERA_SIZE
    ensures InProgress(hash, H, store, AfterBatches(hash, store, t, offset, batches), offset, hashes, log + [Entry(batches)])
  {
    hide Meaning, EraOf, Complete, PathLoaded, AllSaved, Walked, FullInsert;
    if batches != [] {
      var rest := batches[..|batches| - 1];
      var b := batches[|batches| - 1];
      BatchesInserted(hash, H, store, t, offset, rest, hashes, log);
      var before := AfterBatches(hash, store, t, offset, rest);
      var root := if before.Node? then before else FRESH;
      EraWidth();
      NewestInsert(hash, hashes, log, Entry(rest), b.elements, DEPTH, 0);
      FreshMeans(store, DEPTH, 0, offset);
      FreshInsert(hash, DEPTH, 0, offset, b.elements);
      AbsentTree(H, store, DEPTH, 0, offset, ZERO32);
      ChildrenSaved(H, store, before);
      WalkedMeans(hash, store, if b.loads then Some(store) else None, root, DEPTH, 0, offset, b.elements);
      WalkedSaved(hash, H, store, if b.loads then Some(store) else None, root, DEPTH, 0, offset, b.elements);
    }
  }

  lemma {:induction false} ChildrenSaved(H: CellHash, store: Store, t: Tree)
    requires AllSaved(H, store, t, true)
    ensures t.Node? ==> AllSaved(H, store, t.left, true) && AllSaved(H, store, t.right, true)
    ensures AllSaved(H, store, FRESH.left, true) && AllSaved(H, store, FRESH.right, true)
  {
  }

  lemma {:induction false} RootTouched(H: CellHash, store: Store, t: Tree, h: nat)
    requires t.Node? && AllSaved(H, store, t, true) && Complete(store, t, h)
    ensures var r := t.(touched := true);
      AllSaved(H, store, r, true) && Complete(store, r, h) && Meaning(store, r, h) == Meaning(store, t, h)
  {
  }

  /** One block of the era: the path loaded, the leaf sealed, the inserts made without storage, the tree written. */
  lemma {:induction false} BlockKeepsEra(hash: WideHash, H: CellHash, cells: set<Cell>, s: EraState, previous: Digest,
                                         batches: seq<Batch>, hashes: seq<Digest>, log: Log)
    requires Whole(hash, H, cells, s, hashes, log) && |log| < ERA_SIZE && |hashes| == Max(0, |log| - 1)
    requires CollisionFree(H, cells) && Cells(H, BuiltTree(hash, s, |log|, previous, batches)) <= cells
    ensures var named := if |log| == 0 then hashes else hashes + [previous];
      Whole(hash, H, cells, NextEra(hash, H, s, |log|, previous, batches), named, log + [Entry(batches)])
  {
    hide Meaning, EraOf, Complete, PathLoaded, AllSaved, AfterBatches, Save, OpenedTree, Cells, CollisionFree;
    var offset := |log|;
    var named := if offset == 0 then hashes else hashes + [previous];
    var start := OpenedTree(s, offset, previous);
    if offset == 0 {
      FirstBlock(hash, H, s, previous);
      assert log + [None] == [None] && named == [];
    } else {
      TreeOpened(hash, H, cells, s, previous, hashes, log);
    }
    BatchesInserted(hash, H, s.store, start, offset, batches, named, log);
    var t := AfterBatches(hash, s.store, start, offset, batches);
    if t.Node? {
      RootTouched(H, s.store, t, DEPTH);
    }
    var built := BuiltTree(hash, s, offset, previous, batches);
    SaveKeeps(H, built, s.store, cells);
    SaveSavesAll(H, built, s.store, cells);
    SavedMeans(H, s.store, Save(H, built, s.store), built, DEPTH);
  }

  lemma {:induction false} FirstBlock(hash: WideHash, H: CellHash, s: EraState, previous: Digest)
    ensures InProgress(hash, H, s.store, OpenedTree(s, 0, previous), 0, [], [None])
  {
    AbsentTree(H, s.store, DEPTH, 0, 0, previous);
    BeyondTheLog(hash, [], [], DEPTH, 0);
    QuietBlock(hash, [], [], DEPTH, 0);
    var none: Log := [];
    assert none + [None] == [None];
  }

  // ------------------------------------------------------------ a whole era

  /** The era's state after its first blocks, from a store that holds anything. */
  function EraRun(hash: WideHash, H: CellHash, store: Store, blocks: seq<EraBlock>): EraState
  {
    if blocks == [] then EraState(store, None)
    else
      var n := |blocks| - 1;
      var before := EraRun(hash, H, store, blocks[..n]);
      NextEra(hash, H, before, n, if n == 0 then ZERO32 else blocks[n - 1].id, blocks[n].batches)
  }

  /** The cells hashed by the run, beside those in the store at the start. */
  ghost function RunCells(hash: WideHash, H: CellHash, store: Store, blocks: seq<EraBlock>): set<Cell>
  {
    if blocks == [] then {}
    else
      var n := |blocks| - 1;
      var before := EraRun(hash, H, store, blocks[..n]);
      RunCells(hash, H, store, blocks[..n])
      + Cells(H, BuiltTree(hash, before, n, if n == 0 then ZERO32 else blocks[n - 1].id, blocks[n].batches))
  }

  function NamesOf(blocks: seq<EraBlock>): seq<Digest>
  {
    seq(Max(0, |blocks| - 1), i requires 0 <= i < |blocks| - 1 => blocks[i].id)
  }

  function LogOf(blocks: seq<EraBlock>): Log
  {
    seq(|blocks|, i requires 0 <= i < |blocks| => Entry(blocks[i].batches))
  }

  /**
   * After any blocks of an era, the stored tree, read back in full, is the one its history
   * defines: no stored subtree was ever replaced, no element or block id lost.
   */
  lemma {:induction false} EraIsWhole(hash: WideHash, H: CellHash, store: Store, blocks: seq<EraBlock>, cells: set<Cell>)
    requires |blocks| <= ERA_SIZE && Addressed(H, store, cells)
    requires RunCells(hash, H, store, blocks) <= cells && CollisionFree(H, cells)
    ensures Whole(hash, H, cells, EraRun(hash, H, store, blocks), NamesOf(blocks), LogOf(blocks))
  {
    hide Whole, CollisionFree, NextEra, Addressed, BuiltTree;
    if blocks == [] {
      NoBlocks(hash, H, store, cells);
    } else {
      var n := |blocks| - 1;
      var before := EraRun(hash, H, store, blocks[..n]);
      EraIsWhole(hash, H, store, blocks[..n], cells);
      var previous := if n == 0 then ZERO32 else blocks[n - 1].id;
      BlockKeepsEra(hash, H, cells, before, previous, blocks[n].batches, NamesOf(blocks[..n]), LogOf(blocks[..n]));
      assert LogOf(blocks) == LogOf(blocks[..n]) + [Entry(blocks[n].batches)];
      assert NamesOf(blocks) == if n == 0 then [] else NamesOf(blocks[..n]) + [previous];
    }
  }

  lemma {:induction false} NoBlocks(hash: WideHash, H: CellHash, store: Store, cells: set<Cell>)
    requires Addressed(H, store, cells)
    ensures Whole(hash, H, cells, EraState(store, None), NamesOf([]), LogOf([]))
  {
    AbsentTree(H, store, DEPTH, 0, 0, ZERO32);
    BeyondTheLog(hash, NamesOf([]), LogOf([]), DEPTH, 0);
  }
}
