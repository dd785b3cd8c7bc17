/**
 * `BloomNode` and `BloomTree` as mutable nodes: insert, sealing a leaf, loading children
 * on the way, writing the touched nodes. Proved against the values of module EraTrees.
 */
module BloomTrees {
  import opened Common
  import opened Powers
  import opened BloomFilters
  import opened EraTrees

  function WithElements(hash: WideHash, t: Tree, elements: seq<Bytes>): Tree
    requires t.Node?
  {
    t.(filter := InsertedAll(hash, t.filter, elements), touched := true)
  }

  function WithTouch(t: Tree): Tree
    requires t.Node?
  {
    t.(touched := true)
  }

  /** `bloom_insert` for each of the elements. */
  method InsertElements(hash: WideHash, f: Filter, elements: seq<Bytes>) returns (after: Filter)
    ensures after == InsertedAll(hash, f, elements)
  {
    after := f;
    for i := 0 to |elements|
      invariant after == InsertedAll(hash, f, elements[..i])
    {
      assert elements[..i + 1][..i] == elements[..i];
      after := BloomInsert(after, hash(elements[i]));
    }
    assert elements[..|elements|] == elements;
  }

  lemma {:induction false} RefSaves(H: CellHash, hash: Option<Digest>, store: Store)
    ensures Save(H, Ref(hash), store) == store && RefOf(H, Ref(hash)) == hash
  {
  }

  class BloomNode {
    const level: nat
    var start: Option<Digest>
    var filter: Filter
    var left: BloomNode?
    var right: BloomNode?
    var leftHash: Option<Digest>
    var rightHash: Option<Digest>
    /** The node is in the tree's `_touched`. */
    var touched: bool
    ghost var Repr: set<BloomNode>

    ghost predicate Valid()
      reads this, Repr
      decreases DEPTH - level
    {
      && this in Repr && level <= DEPTH
      && (left != null ==>
            && level < DEPTH && left.level == level + 1
            && left in Repr && left.Repr <= Repr && this !in left.Repr && left.Valid())
      && (right != null ==>
            && level < DEPTH && right.level == level + 1
            && right in Repr && right.Repr <= Repr && this !in right.Repr && right.Valid())
      && (left != null && right != null ==> left.Repr !! right.Repr)
    }

    /** The node as a value. */
    ghost function View(): (t: Tree)
      requires Valid()
      reads this, Repr
      ensures t.Node?
      decreases DEPTH - level
    {
      Node(touched, start, filter,
           if left != null then left.View() else Ref(leftHash),
           if right != null then right.View() else Ref(rightHash))
    }

    constructor (level: nat)
      requires level <= DEPTH
      ensures Valid() && fresh(Repr) && View() == FRESH && this.level == level
    {
      this.level := level;
      start, filter, left, right, leftHash, rightHash, touched := None, EMPTY, null, null, None, None, false;
      Repr := {this};
    }

    /** `bloom_node_from_expr`. */
    constructor FromCell(level: nat, c: Cell)
      requires level <= DEPTH
      ensures Valid() && fresh(Repr) && this.level == level
      ensures View() == Node(false, c.start, c.filter, Ref(c.left), Ref(c.right))
    {
      this.level := level;
      start, filter, left, right, leftHash, rightHash, touched := c.start, c.filter, null, null, c.left, c.right, false;
      Repr := {this};
    }

    /** `_resolve_child`. */
    method ResolveChild(isLeft: bool, handle: Option<Store>) returns (child: BloomNode)
      requires Valid() && level < DEPTH && (if isLeft then left == null else right == null)
      ensures child.Valid() && fresh(child.Repr) && child.level == level + 1
      ensures child.View() == Resolved(handle, Side(View(), isLeft))
    {
      var h := if isLeft then leftHash else rightHash;
      if h.Some? && handle.Some? && h.value in handle.value {
        child := new BloomNode.FromCell(level + 1, handle.value[h.value]);
      } else {
        child := new BloomNode(level + 1);
      }
    }

    /** `parent.left = child`, respectively `parent.right = child`. */
    method Attach(isLeft: bool, child: BloomNode)
      requires Valid() && level < DEPTH && child.Valid() && child.level == level + 1
      requires if isLeft then left == null else right == null
      requires child.Repr !! Repr
      modifies this
      ensures Valid() && Repr == old(Repr) + child.Repr
      ensures (if isLeft then left else right) == child
      ensures child.Valid() && child.View() == old(child.View())
      ensures View() == WithSide(old(View()), isLeft, child.View(), old(touched))
    {
      if isLeft {
        left := child;
      } else {
        right := child;
      }
      Repr := Repr + child.Repr;
    }

    /** The filter part of `_walk`. */
    method Mark(hash: WideHash, elements: seq<Bytes>)
      requires Valid()
      modifies this
      ensures Valid() && Repr == old(Repr) && left == old(left) && right == old(right)
      ensures View() == WithElements(hash, old(View()), elements)
    {
      filter := InsertElements(hash, filter, elements);
      touched := true;
    }

    function ChildAt(isLeft: bool): BloomNode?
      reads this
    {
      if isLeft then left else right
    }

    /** The child on one side, loaded or created where there is none. */
    method LoadChild(isLeft: bool, handle: Option<Store>) returns (child: BloomNode)
      requires Valid() && level < DEPTH
      modifies this
      ensures Valid() && fresh(Repr - old(Repr)) && child == ChildAt(isLeft)
      ensures child.View() == Resolved(handle, Side(old(View()), isLeft))
      ensures View() == WithSide(old(View()), isLeft, child.View(), old(touched))
    {
      var c := if isLeft then left else right;
      if c == null {
        child := ResolveChild(isLeft, handle);
        Attach(isLeft, child);
      } else {
        child := c;
      }
    }

    /** The node's parts make a node again, after one child changed within its own objects. */
    lemma {:induction false} Assembled(isLeft: bool)
      requires level < DEPTH && this in Repr
      requires ChildAt(isLeft) != null
      requires forall side :: ChildAt(side) != null ==> SoundChild(ChildAt(side))
      requires ChildAt(!isLeft) != null ==> ChildAt(!isLeft).Repr !! ChildAt(isLeft).Repr
      ensures Valid()
      ensures View() == Node(touched, start, filter,
                             if left != null then left.View() else Ref(leftHash),
                             if right != null then right.View() else Ref(rightHash))
    {
      assert left != null ==> SoundChild(ChildAt(true));
      assert right != null ==> SoundChild(ChildAt(false));
    }

    ghost predicate SoundChild(child: BloomNode)
      reads this, child, child.Repr
    {
      && child.level == level + 1 && child in Repr && child.Repr <= Repr && this !in child.Repr && child.Valid()
    }

    /** `_walk`. */
    method Walk(hash: WideHash, handle: Option<Store>, offset: nat, lo: nat, hi: nat, elements: seq<Bytes>)
      requires Valid() && hi == lo + Pow2(DEPTH - level)
      modifies Repr
      ensures Valid() && fresh(Repr - old(Repr))
      ensures View() == Walked(hash, handle, old(View()), DEPTH - level, lo, offset, elements)
      decreases DEPTH - level, 1
    {
      hide InsertedAll;
      Mark(hash, elements);
      if level == DEPTH {
        return;
      }
      var mid := (lo + hi) / 2;
      assert mid == Mid(lo, DEPTH - level);
      var isLeft := offset < mid;
      var child := LoadChild(isLeft, handle);
      Descend(isLeft, hash, handle, offset, if isLeft then lo else mid, if isLeft then mid else hi, elements);
    }

    /** The recursive call of `_walk` on a loaded child. */
    method Descend(isLeft: bool, hash: WideHash, handle: Option<Store>, offset: nat, lo: nat, hi: nat, elements: seq<Bytes>)
      requires Valid() && level < DEPTH && ChildAt(isLeft) != null && hi == lo + Pow2(DEPTH - level - 1)
      modifies Repr
      ensures Valid() && fresh(Repr - old(Repr))
      ensures View() == WithSide(old(View()), isLeft,
                                 Walked(hash, handle, old(ChildAt(isLeft).View()), DEPTH - level - 1, lo, offset, elements),
                                 old(touched))
      decreases DEPTH - level, 0
    {
      hide InsertedAll, Walked;
      var (child, other) := (ChildAt(isLeft), ChildAt(!isLeft));
      child.Walk(hash, handle, offset, lo, hi, elements);
      Repr := Repr + child.Repr;
      assert other != null ==> other.Valid() && other.View() == old(other.View());
      Assembled(isLeft);
    }

    /** Add the node to `_touched`. */
    method Touch()
      requires Valid()
      modifies this`touched
      ensures Valid() && View() == WithTouch(old(View()))
    {
      touched := true;
    }

    /** `_set_leaf` with a storage handle. */
    method SetLeaf(store: Store, offset: nat, lo: nat, hi: nat, block: Digest) returns (found: bool)
      requires Valid() && hi == lo + Pow2(DEPTH - level)
      modifies Repr
      ensures Valid() && fresh(Repr - old(Repr))
      ensures (View(), found) == LeafSet(store, old(View()), DEPTH - level, lo, offset, block)
      decreases DEPTH - level, 1
    {
      hide LeafSet;
      LeafSetHere(store, View(), DEPTH - level, lo, offset, block);
      if level == DEPTH {
        start := Some(block);
        touched := true;
        return true;
      }
      var mid := (lo + hi) / 2;
      assert mid == Mid(lo, DEPTH - level);
      var isLeft := offset < mid;
      if (if isLeft then left else right) == null && (if isLeft then leftHash else rightHash).None? {
        return false;
      }
      var child := LoadChild(isLeft, Some(store));
      found := DescendToLeaf(isLeft, store, offset, if isLeft then lo else mid, if isLeft then mid else hi, block);
      if found {
        Touch();
      }
    }

    /** The recursive call of `_set_leaf` on a loaded child. */
    method DescendToLeaf(isLeft: bool, store: Store, offset: nat, lo: nat, hi: nat, block: Digest) returns (found: bool)
      requires Valid() && level < DEPTH && ChildAt(isLeft) != null && hi == lo + Pow2(DEPTH - level - 1)
      modifies Repr
      ensures Valid() && fresh(Repr - old(Repr))
      ensures found == LeafSet(store, old(ChildAt(isLeft).View()), DEPTH - level - 1, lo, offset, block).1
      ensures View() == WithSide(old(View()), isLeft,
                                 LeafSet(store, old(ChildAt(isLeft).View()), DEPTH - level - 1, lo, offset, block).0,
                                 old(touched))
      decreases DEPTH - level, 0
    {
      hide LeafSet;
      var (child, other) := (ChildAt(isLeft), ChildAt(!isLeft));
      found := child.SetLeaf(store, offset, lo, hi, block);
      Repr := Repr + child.Repr;
      assert other != null ==> other.Valid() && other.View() == old(other.View());
      Assembled(isLeft);
    }

    /** `expr().hash()` and the touched cells of the tree below, as they join the store. */
    method Write(H: CellHash, store: Store) returns (after: Store, id: Digest)
      requires Valid()
      ensures after == Save(H, View(), store) && id == H(CellOf(H, View()))
      decreases DEPTH - level
    {
      RefSaves(H, leftHash, store);
      after := store;
      var (l, r) := (leftHash, rightHash);
      if left != null {
        var childId: Digest;
        after, childId := left.Write(H, after);
        l := Some(childId);
      }
      RefSaves(H, rightHash, after);
      if right != null {
        var childId: Digest;
        after, childId := right.Write(H, after);
        r := Some(childId);
      }
      assert l == RefOf(H, View().left) && r == RefOf(H, View().right);
      assert after == Save(H, View().right, Save(H, View().left, store));
      var c := Cell(start, l, r, filter);
      id := H(c);
      if touched {
        after := after[id := c];
      }
    }
  }

  class BloomTree {
    var root: BloomNode?

    ghost predicate Valid()
      reads this, root, if root == null then {} else root.Repr
    {
      root != null ==> root.Valid() && root.level == 0
    }

    ghost function View(): Tree
      requires Valid()
      reads this, root, if root == null then {} else root.Repr
    {
      if root == null then Absent else root.View()
    }

    constructor (rootHash: Option<Digest>, store: Store)
      ensures Valid() && fresh(this) && (root != null ==> fresh(root.Repr))
      ensures View() == if rootHash.Some? then ReadNode(store, rootHash.value) else Absent
    {
      root := null;
      new;
      if rootHash.Some? && rootHash.value in store {
        root := new BloomNode.FromCell(0, store[rootHash.value]);
      }
    }

    /** `insert`. */
    method Insert(hash: WideHash, offset: nat, elements: seq<Bytes>, handle: Option<Store>)
      requires Valid()
      modifies this, if root == null then {} else root.Repr
      ensures Valid() && root != null && (old(root) == null ==> fresh(root.Repr))
      ensures old(root) != null ==> root == old(root) && fresh(root.Repr - old(root.Repr))
      ensures View() == Walked(hash, handle, if old(root) == null then FRESH else old(View()), DEPTH, 0, offset, elements)
    {
      hide Walked;
      EraWidth();
      if root == null {
        root := new BloomNode(0);
      }
      root.Walk(hash, handle, offset, 0, ERA_SIZE, elements);
    }

    /** `set_leaf_start_hash` with a storage handle. */
    method SetLeafStartHash(offset: nat, block: Digest, store: Store)
      requires Valid()
      modifies if root == null then {} else root.Repr
      ensures Valid() && root == old(root) && (root != null ==> fresh(root.Repr - old(root.Repr)))
      ensures View() == if old(View()).Node? then LeafSet(store, old(View()), DEPTH, 0, offset, block).0 else old(View())
    {
      if root == null {
        return;
      }
      EraWidth();
      var _ := root.SetLeaf(store, offset, 0, ERA_SIZE, block);
    }

    /** `rewrite_root`. */
    method RewriteRoot()
      requires Valid()
      modifies root
      ensures Valid() && root == old(root) && (root != null ==> root.Repr == old(root.Repr))
      ensures View() == if old(View()).Node? then old(View()).(touched := true) else old(View())
    {
      if root != null {
        root.Touch();
      }
    }
  }

  /**
   * What a validator does to the era's tree for one block (`validation/worker.py`): read the root,
   * seal the previous block's leaf, insert, rewrite the root and write the touched nodes.
   */
  method BuildBlockTree(hash: WideHash, H: CellHash, s: EraState, offset: nat, previous: Digest, batches: seq<Batch>)
      returns (after: EraState)
    ensures after == NextEra(hash, H, s, offset, previous, batches)
  {
    hide Walked, LeafSet, Save;
    var tree: BloomTree;
    if offset == 0 {
      tree := new BloomTree(None, map[]);
    } else {
      tree := new BloomTree(s.root, s.store);
      tree.SetLeafStartHash(offset - 1, previous, s.store);
    }
    assert tree.View() == OpenedTree(s, offset, previous);
    for i := 0 to |batches|
      invariant fresh(tree) && tree.Valid() && (tree.root != null ==> fresh(tree.root.Repr))
      invariant tree.View() == AfterBatches(hash, s.store, OpenedTree(s, offset, previous), offset, batches[..i])
    {
      assert batches[..i + 1][..i] == batches[..i];
      tree.Insert(hash, offset, batches[i].elements, if batches[i].loads then Some(s.store) else None);
    }
    assert batches[..|batches|] == batches;
    tree.RewriteRoot();
    assert tree.View() == BuiltTree(hash, s, offset, previous, batches);
    if tree.root == null {
      SaveNothing(H, s.store);
      return EraState(s.store, None);
    }
    var store, id := tree.root.Write(H, s.store);
    return EraState(store, Some(id));
  }

  lemma {:induction false} SaveNothing(H: CellHash, store: Store)
    ensures Save(H, Absent, store) == store
  {
  }
}
