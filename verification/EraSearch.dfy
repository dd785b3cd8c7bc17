/**
 * Searching an era's tree from storage (`bloom_tree/tree.py`, `bloom_search/block_search.py`)
 * and the fast ancestor lookup that it serves, against the plain walk along the chain.
 */
module EraSearch {
  import opened Common
  import opened Powers
  import opened BloomFilters
  import opened EraTrees

  /** A leaf of the result; `offset` is where it sits in the era. */
  datatype Leaf = Leaf(offset: nat, start: Option<Digest>, filter: Filter)

  /** `_search_leaves`, from the hash of a node with h levels below it. */
  function SearchLeaves(store: Store, node: Option<Digest>, h: nat, lo: nat, digest: Wide): seq<Leaf>
    decreases h
  {
    if node.None? || node.value !in store then []
    else
      var c := store[node.value];
      if !MayHold(c.filter, digest) then []
      else if h == 0 then [Leaf(lo, c.start, c.filter)]
      else SearchLeaves(store, c.left, h - 1, lo, digest) + SearchLeaves(store, c.right, h - 1, Mid(lo, h), digest)
  }

  function SearchFull(f: Full, h: nat, lo: nat, digest: Wide): seq<Leaf>
    decreases h
  {
    if f.Missing? || !MayHold(f.filter, digest) then []
    else if h == 0 then [Leaf(lo, f.start, f.filter)]
    else SearchFull(f.left, h - 1, lo, digest) + SearchFull(f.right, h - 1, Mid(lo, h), digest)
  }

  lemma {:induction false} SearchReadsMeaning(store: Store, node: Option<Digest>, h: nat, lo: nat, digest: Wide)
    ensures SearchLeaves(store, node, h, lo, digest) == SearchFull(Meaning(store, Ref(node), h), h, lo, digest)
    decreases h
  {
    if node.Some? && node.value in store && h > 0 {
      var c := store[node.value];
      SearchReadsMeaning(store, c.left, h - 1, lo, digest);
      SearchReadsMeaning(store, c.right, h - 1, Mid(lo, h), digest);
    }
  }

  /** The leaf of an offset, as the history has it. */
  ghost function LeafOf(hash: WideHash, hashes: seq<Digest>, log: Log, q: nat): Leaf
    requires q < |log| && log[q].Some?
  {
    Leaf(q, if q < |hashes| then Some(hashes[q]) else None, InsertedAll(hash, EMPTY, log[q].value))
  }

  lemma {:induction false} InConcat(part: Log, k: nat, e: Bytes)
    requires k < |part| && part[k].Some? && e in part[k].value
    ensures e in Concat(part)
  {
    if k < |part| - 1 {
      InConcat(part[..|part| - 1], k, e);
    }
  }

  lemma {:induction false} FilterFinds(hash: WideHash, elements: seq<Bytes>, e: Bytes)
    requires e in elements
    ensures MayHold(InsertedAll(hash, EMPTY, elements), hash(e))
  {
    hide MayHold, Represents, InsertedAll;
    EmptyRepresents(hash);
    RunRepresents(hash, EMPTY, [], elements);
    assert [] + elements == elements;
    var j :| 0 <= j < |elements| && elements[j] == e;
    NoFalseNegatives(hash, InsertedAll(hash, EMPTY, elements), elements, j);
  }

  /** No false negatives along a path: an element of offset q is found at leaf q. */
  lemma {:induction false} ElementFound(hash: WideHash, hashes: seq<Digest>, log: Log, h: nat, lo: nat, q: nat, e: Bytes)
    requires lo <= q < |log| && q < lo + Pow2(h) && log[q].Some? && e in log[q].value
    ensures LeafOf(hash, hashes, log, q) in SearchFull(EraOf(hash, hashes, log, h, lo), h, lo, hash(e))
    decreases h
  {
    hide EraOf, InsertedAll, MayHold, Concat, Within, Pow2;
    EraHere(hash, hashes, log, h, lo);
    var part := Within(log, h, lo);
    WithinAt(log, h, lo, q);
    InConcat(part, q - lo, e);
    FilterFinds(hash, Concat(part), e);
    if h == 0 {
      SingleConcat(part);
    } else {
      Pow2Here(h);
      if q < Mid(lo, h) {
        ElementFound(hash, hashes, log, h - 1, lo, q, e);
      } else {
        ElementFound(hash, hashes, log, h - 1, Mid(lo, h), q, e);
      }
    }
  }

  lemma {:induction false} WithinAt(log: Log, h: nat, lo: nat, q: nat)
    requires lo <= q < |log| && q < lo + Pow2(h)
    ensures q - lo < |Within(log, h, lo)| && Within(log, h, lo)[q - lo] == log[q]
    ensures h == 0 ==> q == lo && |Within(log, h, lo)| == 1
  {
  }

  lemma {:induction false} SingleConcat(part: Log)
    requires |part| == 1 && part[0].Some?
    ensures Concat(part) == part[0].value
  {
    assert part[..0] == [];
  }

  /** Every leaf that is found is one of the history, and its filter may hold the element. */
  lemma {:induction false} FoundLeavesAreReal(hash: WideHash, hashes: seq<Digest>, log: Log, h: nat, lo: nat, digest: Wide, leaf: Leaf)
    requires leaf in SearchFull(EraOf(hash, hashes, log, h, lo), h, lo, digest)
    ensures leaf.offset < |log| && log[leaf.offset].Some? && leaf == LeafOf(hash, hashes, log, leaf.offset)
    ensures MayHold(leaf.filter, digest)
    decreases h
  {
    hide EraOf, InsertedAll, MayHold, Concat;
    EraHere(hash, hashes, log, h, lo);
    if h == 0 {
      SingleConcat(Within(log, h, lo));
    } else if leaf in SearchFull(EraOf(hash, hashes, log, h - 1, lo), h - 1, lo, digest) {
      FoundLeavesAreReal(hash, hashes, log, h - 1, lo, digest, leaf);
    } else {
      FoundLeavesAreReal(hash, hashes, log, h - 1, Mid(lo, h), digest, leaf);
    }
  }

  /** Ascending offsets between two bounds. */
  ghost predicate Ascend(leaves: seq<Leaf>, lo: nat, hi: nat)
  {
    && (forall i :: 0 <= i < |leaves| ==> lo <= leaves[i].offset < hi)
    && forall i, j :: 0 <= i < j < |leaves| ==> leaves[i].offset < leaves[j].offset
  }

  lemma {:induction false} AscendJoined(left: seq<Leaf>, right: seq<Leaf>, lo: nat, mid: nat, hi: nat)
    requires Ascend(left, lo, mid) && Ascend(right, mid, hi) && lo <= mid <= hi
    ensures Ascend(left + right, lo, hi)
  {
    var leaves := left + right;
    assert forall i :: 0 <= i < |leaves| ==> leaves[i] == if i < |left| then left[i] else right[i - |left|];
  }

  lemma {:induction false} LeavesAscend(f: Full, h: nat, lo: nat, digest: Wide)
    ensures Ascend(SearchFull(f, h, lo, digest), lo, lo + Pow2(h))
    decreases h
  {
    hide MayHold;
    if f.Full? && h > 0 {
      hide Ascend;
      LeavesAscend(f.left, h - 1, lo, digest);
      LeavesAscend(f.right, h - 1, Mid(lo, h), digest);
      Pow2Here(h);
      NoLeaves(lo, lo + Pow2(h));
      AscendJoined(SearchFull(f.left, h - 1, lo, digest), SearchFull(f.right, h - 1, Mid(lo, h), digest),
                   lo, Mid(lo, h), lo + Pow2(h));
    }
  }

  /** The leaves are found in the order of their blocks, each once. */
  lemma {:induction false} FoundLeavesAscend(f: Full, h: nat, lo: nat, digest: Wide, i: nat, j: nat)
    requires i < j < |SearchFull(f, h, lo, digest)|
    ensures SearchFull(f, h, lo, digest)[i].offset < SearchFull(f, h, lo, digest)[j].offset
  {
    hide SearchFull, Ascend, MayHold;
    LeavesAscend(f, h, lo, digest);
    AscendMeans(SearchFull(f, h, lo, digest), lo, lo + Pow2(h));
  }

  lemma {:induction false} AscendMeans(leaves: seq<Leaf>, lo: nat, hi: nat)
    requires Ascend(leaves, lo, hi)
    ensures forall i, j :: 0 <= i < j < |leaves| ==> leaves[i].offset < leaves[j].offset
  {
  }

  lemma {:induction false} NoLeaves(lo: nat, hi: nat)
    ensures Ascend([], lo, hi)
  {
  }

  /**
   * Searching the stored tree of an era: whatever its blocks inserted is found at the leaf of
   * the block that inserted it, with that block's id once the block has a successor.
   */
  lemma {:induction false} EraSearchFinds(hash: WideHash, H: CellHash, store: Store, blocks: seq<EraBlock>, cells: set<Cell>,
                                          q: nat, e: Bytes)
    requires |blocks| <= ERA_SIZE && Addressed(H, store, cells)
    requires RunCells(hash, H, store, blocks) <= cells && CollisionFree(H, cells)
    requires q < |blocks| && Entry(blocks[q].batches).Some? && e in Entry(blocks[q].batches).value
    ensures var s := EraRun(hash, H, store, blocks);
      exists leaf :: leaf in SearchLeaves(s.store, s.root, DEPTH, 0, hash(e)) && leaf.offset == q
                  && leaf.start == if q + 1 < |blocks| then Some(blocks[q].id) else None
  {
    hide EraOf, SearchFull, SearchLeaves, EraRun, RunCells;
    EraWidth();
    EraIsWhole(hash, H, store, blocks, cells);
    var s := EraRun(hash, H, store, blocks);
    SearchReadsMeaning(s.store, s.root, DEPTH, 0, hash(e));
    ElementFound(hash, NamesOf(blocks), LogOf(blocks), DEPTH, 0, q, e);
    assert LeafOf(hash, NamesOf(blocks), LogOf(blocks), q) in SearchLeaves(s.store, s.root, DEPTH, 0, hash(e));
  }

  // ---------------------------------------------------------- descent by offset

  function LeafStart(f: Full, h: nat, lo: nat, offset: nat): Option<Digest>
    decreases h
  {
    if f.Missing? then None
    else if h == 0 then f.start
    else if offset < Mid(lo, h) then LeafStart(f.left, h - 1, lo, offset)
    else LeafStart(f.right, h - 1, Mid(lo, h), offset)
  }

  /** `_storage_find_leaf`: binary descent by position. */
  method StorageFindLeaf(store: Store, root: Digest, offset: nat) returns (leaf: Option<Digest>)
    requires offset < ERA_SIZE
    ensures leaf == LeafStart(Meaning(store, Stored(root), DEPTH), DEPTH, 0, offset)
  {
    EraWidth();
    if root !in store {
      return None;
    }
    var node := store[root];
    var lo: nat, hi: nat, level: nat := 0, ERA_SIZE, 0;
    ghost var at := root;
    while level < DEPTH
      invariant level <= DEPTH && hi == lo + Pow2(DEPTH - level)
      invariant at in store && node == store[at]
      invariant LeafStart(Meaning(store, Stored(at), DEPTH - level), DEPTH - level, lo, offset)
             == LeafStart(Meaning(store, Stored(root), DEPTH), DEPTH, 0, offset)
    {
      var mid := (lo + hi) / 2;
      assert mid == Mid(lo, DEPTH - level);
      var child := if offset < mid then node.left else node.right;
      if child.None? || child.value !in store {
        return None;
      }
      node, at := store[child.value], child.value;
      lo, hi := if offset < mid then lo else mid, if offset < mid then mid else hi;
      level := level + 1;
    }
    return node.start;
  }

  /** The descent reaches exactly the leaf that was written for the offset. */
  lemma {:induction false} DescentReachesLeaf(hash: WideHash, hashes: seq<Digest>, log: Log, h: nat, lo: nat, q: nat)
    requires lo <= q < lo + Pow2(h)
    ensures LeafStart(EraOf(hash, hashes, log, h, lo), h, lo, q)
         == if q < |log| && log[q].Some? && q < |hashes| then Some(hashes[q]) else None
    decreases h
  {
    hide EraOf, InsertedAll, Concat;
    EraHere(hash, hashes, log, h, lo);
    var part := Within(log, h, lo);
    assert q < |log| ==> part[q - lo] == log[q];
    if h > 0 {
      if q < Mid(lo, h) {
        DescentReachesLeaf(hash, hashes, log, h - 1, lo, q);
      } else {
        DescentReachesLeaf(hash, hashes, log, h - 1, Mid(lo, h), q);
      }
    }
  }

  /** With fewer cells at hand the descent finds the same leaf or none. */
  lemma {:induction false} DescentWithFewerCells(held: Store, store: Store, node: Tree, h: nat, lo: nat, offset: nat)
    requires Extends(held, store)
    ensures var found := LeafStart(Meaning(held, node, h), h, lo, offset);
      found.Some? ==> found == LeafStart(Meaning(store, node, h), h, lo, offset)
    decreases h
  {
    var n := if node.Stored? then ReadNode(held, node.hash) else node;
    if h > 0 && n.Node? {
      DescentWithFewerCells(held, store, if offset < Mid(lo, h) then n.left else n.right, h - 1,
                            if offset < Mid(lo, h) then lo else Mid(lo, h), offset);
    }
  }

  // ------------------------------------------------------------------ the chain

  /** What the lookup reads of a block; a bloom hash of ZERO32 counts as none. */
  datatype Block = Block(height: nat, previous: Option<Digest>, bloom: Option<Digest>)

  type Chain = map<Digest, Block>

  /** Heights grow by one, and every block but a genesis block has its parent at hand. */
  ghost predicate Linked(chain: Chain)
  {
    forall d :: d in chain ==> LinkedBlock(chain, chain[d])
  }

  ghost predicate LinkedBlock(chain: Chain, b: Block)
  {
    && (b.height > 0 <==> b.previous.Some?)
    && (b.previous.Some? ==> b.previous.value in chain && chain[b.previous.value].height + 1 == b.height)
  }

  /** The plain walk along the previous-block links. */
  function AncestorAt(chain: Chain, b: Block, target: int): Option<Block>
    requires Linked(chain) && LinkedBlock(chain, b)
    decreases b.height
  {
    if b.height == target then Some(b)
    else if b.height < target || b.previous.None? then None
    else AncestorAt(chain, chain[b.previous.value], target)
  }

  /** The walk finds a block exactly at the heights up to the start, of that height, and one step back is the parent. */
  lemma {:induction false} AncestorExists(chain: Chain, b: Block, target: int)
    requires Linked(chain) && LinkedBlock(chain, b)
    ensures AncestorAt(chain, b, target).Some? <==> 0 <= target <= b.height
    ensures AncestorAt(chain, b, target).Some? ==> AncestorAt(chain, b, target).value.height == target
    ensures b.previous.Some? ==> AncestorAt(chain, b, b.height - 1) == Some(chain[b.previous.value])
    ensures target < b.height && b.previous.Some? ==> AncestorAt(chain, b, target) == AncestorAt(chain, chain[b.previous.value], target)
    decreases b.height
  {
    if b.previous.Some? && target < b.height {
      AncestorExists(chain, chain[b.previous.value], target);
    }
  }

  ghost function AncestorId(chain: Chain, b: Block, height: nat): (id: Digest)
    requires Linked(chain) && LinkedBlock(chain, b) && height < b.height
    ensures id in chain && chain[id].height == height && AncestorAt(chain, b, height) == Some(chain[id])
    decreases b.height
  {
    if b.height - 1 == height then b.previous.value
    else AncestorId(chain, chain[b.previous.value], height)
  }

  /** The headers that can be read. */
  ghost predicate Readable(headers: Chain, chain: Chain)
  {
    forall d :: d in headers ==> d in chain && headers[d] == chain[d]
  }

  /** The plain walk over the readable headers: None also where it meets one that cannot be read. */
  ghost function ReadableAncestor(headers: Chain, chain: Chain, b: Block, target: int): (r: Option<Block>)
    requires Linked(chain) && LinkedBlock(chain, b) && Readable(headers, chain)
    ensures r.Some? ==> r == AncestorAt(chain, b, target)
    ensures headers == chain ==> r == AncestorAt(chain, b, target)
    decreases b.height
  {
    if b.height == target then Some(b)
    else if b.height < target || b.previous.None? || b.previous.value !in headers then None
    else ReadableAncestor(headers, chain, headers[b.previous.value], target)
  }

  lemma {:induction false} ReachedIsReadable(headers: Chain, chain: Chain, b: Block, target: nat)
    requires Linked(chain) && LinkedBlock(chain, b) && Readable(headers, chain)
    requires target < b.height && ReadableAncestor(headers, chain, b, target).Some?
    ensures AncestorId(chain, b, target) in headers
    decreases b.height
  {
    if b.height - 1 != target {
      ReachedIsReadable(headers, chain, headers[b.previous.value], target);
    }
  }

  /** The ids of the earlier blocks of a block's era. */
  ghost function EraNames(chain: Chain, b: Block): seq<Digest>
    requires Linked(chain) && LinkedBlock(chain, b)
  {
    var start := b.height - b.height % ERA_SIZE;
    seq<Digest>(b.height % ERA_SIZE, i requires 0 <= i < b.height % ERA_SIZE => AncestorId(chain, b, start + i))
  }

  /** The bloom hash of a block is the root that its era's history gives. */
  ghost predicate Indexed(hash: WideHash, store: Store, chain: Chain, b: Block)
    requires Linked(chain) && LinkedBlock(chain, b)
  {
    exists log: Log ::
      && |log| == b.height % ERA_SIZE + 1
      && Meaning(store, Ref(b.bloom), DEPTH) == EraOf(hash, EraNames(chain, b), log, DEPTH, 0)
  }

  /** A block whose tree was built along its era is indexed, in every later store. */
  lemma {:induction false} BuiltBlocksAreIndexed(hash: WideHash, H: CellHash, store: Store, blocks: seq<EraBlock>,
                                                 cells: set<Cell>, later: Store, chain: Chain, b: Block)
    requires Linked(chain) && LinkedBlock(chain, b) && |blocks| == b.height % ERA_SIZE + 1
    requires Addressed(H, store, cells) && RunCells(hash, H, store, blocks) <= cells && CollisionFree(H, cells)
    requires b.bloom == EraRun(hash, H, store, blocks).root && EraNames(chain, b) == NamesOf(blocks)
    requires Extends(EraRun(hash, H, store, blocks).store, later)
    ensures Indexed(hash, later, chain, b)
  {
    hide EraOf, Meaning, EraRun, RunCells;
    EraIsWhole(hash, H, store, blocks, cells);
    MeaningLater(EraRun(hash, H, store, blocks).store, later, Ref(b.bloom), DEPTH);
    assert |LogOf(blocks)| == b.height % ERA_SIZE + 1;
  }

  lemma {:induction false} LeafIsAncestor(hash: WideHash, held: Store, store: Store, chain: Chain, b: Block, target: nat)
    requires Linked(chain) && LinkedBlock(chain, b) && Indexed(hash, store, chain, b) && Extends(held, store)
    requires target < b.height && target / ERA_SIZE == b.height / ERA_SIZE
    ensures var leaf := LeafStart(Meaning(held, Ref(b.bloom), DEPTH), DEPTH, 0, target % ERA_SIZE);
      leaf.Some? ==> leaf.value == AncestorId(chain, b, target)
  {
    hide EraOf, Meaning, LeafStart;
    EraWidth();
    var names := EraNames(chain, b);
    var log: Log :| |log| == b.height % ERA_SIZE + 1
                 && Meaning(store, Ref(b.bloom), DEPTH) == EraOf(hash, names, log, DEPTH, 0);
    var q := target % ERA_SIZE;
    DescentWithFewerCells(held, store, Ref(b.bloom), DEPTH, 0, q);
    DescentReachesLeaf(hash, names, log, DEPTH, 0, q);
    assert q < b.height % ERA_SIZE && target == b.height - b.height % ERA_SIZE + q;
    assert names[q] == AncestorId(chain, b, target);
  }

  /** `get_previous_block`: None for a genesis block and for a parent that cannot be loaded. */
  method GetPreviousBlock(headers: Chain, b: Block) returns (previous: Option<Block>)
    ensures previous == if b.previous.Some? && b.previous.value in headers then Some(headers[b.previous.value]) else None
  {
    if b.previous.None? {
      return None;
    }
    var loaded := GetBlock(headers, b.previous.value);
    return if loaded.Ok? then Some(loaded.value) else None;
  }

  /** `get_block_from_storage`; an Err is its exception. */
  method GetBlock(headers: Chain, id: Digest) returns (block: Result<Block>)
    ensures block.Ok? <==> id in headers
    ensures block.Ok? ==> block.value == headers[id]
  {
    if id !in headers {
      return Err("unable to load block header from storage");
    }
    return Ok(headers[id]);
  }

  /** The fallback: walk back to a height. */
  method WalkBack(headers: Chain, b: Block, target: nat, ghost chain: Chain) returns (found: Option<Block>)
    requires Linked(chain) && LinkedBlock(chain, b) && Readable(headers, chain) && target <= b.height
    ensures found == ReadableAncestor(headers, chain, b, target)
  {
    found := Some(b);
    while found.Some? && found.value.height > target
      invariant found.None? ==> ReadableAncestor(headers, chain, b, target) == None
      invariant found.Some? ==>
                  && LinkedBlock(chain, found.value) && found.value.height >= target
                  && ReadableAncestor(headers, chain, found.value, target) == ReadableAncestor(headers, chain, b, target)
      decreases if found.Some? then found.value.height + 1 else 0
    {
      found := GetPreviousBlock(headers, found.value);
    }
  }

  /** Below a block on the way the ancestors are the same. */
  ghost predicate Behind(chain: Chain, b: Block, later: Block)
    requires Linked(chain) && LinkedBlock(chain, b) && LinkedBlock(chain, later)
  {
    && later.height <= b.height
    && forall h: nat :: h < later.height ==> AncestorId(chain, later, h) == AncestorId(chain, b, h)
  }

  lemma {:induction false} StepBehind(chain: Chain, b: Block, later: Block)
    requires Linked(chain) && LinkedBlock(chain, b) && LinkedBlock(chain, later) && Behind(chain, b, later)
    ensures later.previous.Some? ==> Behind(chain, b, chain[later.previous.value])
  {
    if later.previous.Some? {
      var parent := chain[later.previous.value];
      forall h: nat | h < parent.height
        ensures AncestorId(chain, parent, h) == AncestorId(chain, b, h)
      {
        assert AncestorId(chain, later, h) == AncestorId(chain, parent, h);
      }
    }
  }

  /**
   * `find_block_by_height`; `headers` and `held` have whatever headers and tree cells can be read.
   * What is found is the true ancestor, and whatever the plain walk over the same headers finds is found.
   * It raises only when the tree names the ancestor and its own header cannot be read.
   */
  method FindBlockByHeight(headers: Chain, held: Store, start: Option<Block>, target: int,
                           ghost hash: WideHash, ghost chain: Chain, ghost store: Store)
      returns (found: Result<Option<Block>>)
    requires Linked(chain) && (start.Some? ==> LinkedBlock(chain, start.value))
    requires Readable(headers, chain) && Extends(held, store)
    requires forall d :: d in chain ==> Indexed(hash, store, chain, chain[d])
    requires start.Some? ==> Indexed(hash, store, chain, start.value)
    ensures start.None? ==> found == Ok(None)
    ensures start.Some? && found.Ok? && found.value.Some? ==> found.value == AncestorAt(chain, start.value, target)
    ensures start.Some? && ReadableAncestor(headers, chain, start.value, target).Some? ==>
              found == Ok(ReadableAncestor(headers, chain, start.value, target))
    ensures start.Some? && headers == chain ==> found == Ok(AncestorAt(chain, start.value, target))
    ensures found.Err? ==>
              start.Some? && 0 <= target < start.value.height && AncestorId(chain, start.value, target) !in headers
  {
    hide Indexed, Meaning, LeafStart, AncestorId;
    if start.None? {
      return Ok(None);
    }
    if target > start.value.height {
      return Ok(None);
    }
    var era, offset := target / ERA_SIZE, target % ERA_SIZE;
    var current := start;
    while current.Some? && current.value.height / ERA_SIZE > era
      invariant current.None? ==> ReadableAncestor(headers, chain, start.value, target) == None
      invariant current.Some? ==>
                  && LinkedBlock(chain, current.value) && Indexed(hash, store, chain, current.value)
                  && target <= current.value.height
                  && AncestorAt(chain, current.value, target) == AncestorAt(chain, start.value, target)
                  && Behind(chain, start.value, current.value)
                  && ReadableAncestor(headers, chain, current.value, target) == ReadableAncestor(headers, chain, start.value, target)
      decreases current.Some?, if current.Some? then current.value.height else 0
    {
      assert current.value.height > target;
      StepBehind(chain, start.value, current.value);
      current := GetPreviousBlock(headers, current.value);
    }
    if current.None? || current.value.height / ERA_SIZE != era {
      return Ok(None);
    }
    var b := current.value;
    if b.height == target {
      return Ok(current);
    }
    if offset > b.height % ERA_SIZE {
      return Ok(None);
    }
    if b.bloom.Some? {
      var leaf := StorageFindLeaf(held, b.bloom.value, offset);
      LeafIsAncestor(hash, held, store, chain, b, target);
      if leaf.Some? {
        if ReadableAncestor(headers, chain, b, target).Some? {
          ReachedIsReadable(headers, chain, b, target);
        }
        var block := GetBlock(headers, leaf.value);
        if block.Err? {
          return Err(block.reason);
        }
        return Ok(Some(block.value));
      }
    }
    var walked := WalkBack(headers, b, target, chain);
    return Ok(walked);
  }
}
