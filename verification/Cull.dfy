/**
 * `communication/storage_response/cull.py`: which of the delivered exprs a reply may keep.
 * `H` is the content hash of a cell.
 */
module Culling {
  import opened Common
  import opened ExprCodec
  import opened Shapes

  type Hash = Cell -> Digest

  datatype Resolution = Unset | Single | List | Full | Dynamic | RadixKey | RadixAll

  /** `_child_hashes`. */
  function ChildHashes(c: Cell): seq<Digest>
  {
    if !c.LinkCell? then []
    else (if c.head != ZERO32 then [c.head] else []) + (if c.tail != ZERO32 then [c.tail] else [])
  }

  /** The children of a link are its head and its tail, those with the zero hash aside. */
  lemma {:induction false} ChildrenOfLink(head: Digest, tail: Digest, other: Cell)
    ensures !other.LinkCell? ==> ChildHashes(other) == []
    ensures head != ZERO32 && tail != ZERO32 ==> ChildHashes(LinkCell(head, tail)) == [head, tail]
    ensures head != ZERO32 ==> ChildHashes(LinkCell(head, ZERO32)) == [head]
    ensures tail != ZERO32 ==> ChildHashes(LinkCell(ZERO32, tail)) == [tail]
    ensures ChildHashes(LinkCell(ZERO32, ZERO32)) == []
  {
  }

  /** `by_hash`: the first expr of each hash, and the hashes in the order of their first expr. */
  function Order(H: Hash, exprs: seq<Cell>): seq<Digest>
  {
    if exprs == [] then []
    else
      var before := Order(H, exprs[..|exprs| - 1]);
      var h := H(exprs[|exprs| - 1]);
      if h in before then before else before + [h]
  }

  function ByHash(H: Hash, exprs: seq<Cell>): Store
  {
    if exprs == [] then map[]
    else
      var before := ByHash(H, exprs[..|exprs| - 1]);
      var e := exprs[|exprs| - 1];
      if H(e) in before then before else before[H(e) := e]
  }

  lemma {:induction false} ByHashSound(H: Hash, exprs: seq<Cell>)
    ensures forall h :: h in ByHash(H, exprs) ==> ByHash(H, exprs)[h] in exprs && H(ByHash(H, exprs)[h]) == h
    ensures forall e :: e in exprs ==> H(e) in ByHash(H, exprs)
    ensures forall h :: h in Order(H, exprs) <==> h in ByHash(H, exprs)
    ensures Distinct(Order(H, exprs))
  {
    if exprs != [] {
      ByHashSound(H, exprs[..|exprs| - 1]);
      assert exprs == exprs[..|exprs| - 1] + [exprs[|exprs| - 1]];
    }
  }

  method IndexByHash(H: Hash, exprs: seq<Cell>) returns (byHash: Store, order: seq<Digest>)
    ensures byHash == ByHash(H, exprs) && order == Order(H, exprs)
  {
    byHash, order := map[], [];
    for i := 0 to |exprs|
      invariant byHash == ByHash(H, exprs[..i]) && order == Order(H, exprs[..i])
    {
      assert exprs[..i + 1][..i] == exprs[..i];
      ByHashSound(H, exprs[..i]);
      var h := H(exprs[i]);
      if h !in byHash {
        byHash := byHash[h := exprs[i]];
        order := order + [h];
      }
    }
    assert exprs[..|exprs|] == exprs;
  }

  // -------------------------------------------------------------- reachability

  /** Each hash of the path is delivered, and is a child of the expr before it. */
  ghost predicate PathFrom(byHash: Store, from: Cell, path: seq<Digest>)
    decreases |path|
  {
    path != [] ==>
      && path[0] in ChildHashes(from) && path[0] in byHash
      && PathFrom(byHash, byHash[path[0]], path[1..])
  }

  ghost predicate Reachable(byHash: Store, root: Cell, rootHash: Digest, h: Digest)
  {
    h == rootHash || exists path: seq<Digest> :: path != [] && PathFrom(byHash, root, path) && path[|path| - 1] == h
  }

  lemma {:induction false} PathExtends(byHash: Store, from: Cell, path: seq<Digest>, h: Digest)
    requires PathFrom(byHash, from, path) && h in byHash
    requires h in ChildHashes(if path == [] then from else EndOf(byHash, from, path))
    ensures PathFrom(byHash, from, path + [h])
    decreases |path|
  {
    if path != [] {
      PathExtends(byHash, byHash[path[0]], path[1..], h);
      assert (path + [h])[1..] == path[1..] + [h];
    } else {
      assert ([h])[1..] == [];
    }
  }

  ghost function EndOf(byHash: Store, from: Cell, path: seq<Digest>): Cell
    requires PathFrom(byHash, from, path)
    decreases |path|
  {
    if path == [] then from else EndOf(byHash, byHash[path[0]], path[1..])
  }

  lemma {:induction false} EndIsLast(byHash: Store, from: Cell, path: seq<Digest>)
    requires PathFrom(byHash, from, path) && path != []
    ensures path[|path| - 1] in byHash && EndOf(byHash, from, path) == byHash[path[|path| - 1]]
    decreases |path|
  {
    if |path| > 1 {
      EndIsLast(byHash, byHash[path[0]], path[1..]);
    } else {
      assert path[1..] == [];
    }
  }

  /** The expr that a reached hash stands for. */
  function At(byHash: Store, root: Cell, rootHash: Digest, h: Digest): Cell
    requires h == rootHash || h in byHash
  {
    if h == rootHash then root else byHash[h]
  }

  lemma {:induction false} ChildReachable(byHash: Store, root: Cell, rootHash: Digest, h: Digest, child: Digest)
    requires Reachable(byHash, root, rootHash, h) && (h == rootHash || h in byHash) && child in byHash
    requires child in ChildHashes(At(byHash, root, rootHash, h))
    ensures Reachable(byHash, root, rootHash, child)
  {
    if h == rootHash {
      PathExtends(byHash, root, [], child);
      assert [] + [child] == [child];
    } else {
      var path: seq<Digest> :| path != [] && PathFrom(byHash, root, path) && path[|path| - 1] == h;
      EndIsLast(byHash, root, path);
      PathExtends(byHash, root, path, child);
      assert (path + [child])[|path + [child]| - 1] == child;
    }
  }

  ghost predicate Closed(byHash: Store, root: Cell, rootHash: Digest, seen: set<Digest>)
  {
    forall h, c :: h in seen && (h == rootHash || h in byHash) && c in ChildHashes(At(byHash, root, rootHash, h)) && c in byHash
                   ==> c in seen
  }

  lemma {:induction false} ClosedHasPath(byHash: Store, root: Cell, rootHash: Digest, seen: set<Digest>, at: Digest, path: seq<Digest>)
    requires Closed(byHash, root, rootHash, seen) && at in seen && (at == rootHash || at in byHash)
    requires rootHash in byHash && byHash[rootHash] == root
    requires PathFrom(byHash, At(byHash, root, rootHash, at), path) && path != []
    ensures path[|path| - 1] in seen
    decreases |path|
  {
    if |path| > 1 {
      ClosedHasPath(byHash, root, rootHash, seen, path[0], path[1..]);
    }
  }

  lemma {:induction false} ClosedIsComplete(byHash: Store, root: Cell, rootHash: Digest, seen: set<Digest>)
    requires Closed(byHash, root, rootHash, seen) && rootHash in seen
    requires rootHash in byHash && byHash[rootHash] == root
    ensures forall h :: Reachable(byHash, root, rootHash, h) ==> h in seen
  {
    forall h | Reachable(byHash, root, rootHash, h)
      ensures h in seen
    {
      if h != rootHash {
        var path: seq<Digest> :| path != [] && PathFrom(byHash, root, path) && path[|path| - 1] == h;
        ClosedHasPath(byHash, root, rootHash, seen, rootHash, path);
      }
    }
  }

  function SetOf(hashes: seq<Digest>): set<Digest> { set h | h in hashes }

  /** The children that are delivered and not yet seen, in order. */
  function Unseen(byHash: Store, seen: set<Digest>, children: seq<Digest>): seq<Digest>
  {
    if children == [] then []
    else
      var before := Unseen(byHash, seen, children[..|children| - 1]);
      var h := children[|children| - 1];
      if h !in seen && h !in before && h in byHash then before + [h] else before
  }

  lemma {:induction false} UnseenFacts(byHash: Store, seen: set<Digest>, children: seq<Digest>)
    ensures var news := Unseen(byHash, seen, children);
      && Distinct(news)
      && (forall h :: h in news <==> h in children && h !in seen && h in byHash)
  {
    if children != [] {
      UnseenFacts(byHash, seen, children[..|children| - 1]);
      assert children == children[..|children| - 1] + [children[|children| - 1]];
    }
  }

  /** The loop over the children of one expr. */
  method ScanChildren(byHash: Store, children: seq<Digest>, kept0: seq<Digest>, seen0: set<Digest>, remaining0: int,
                      stack0: seq<Digest>)
      returns (kept: seq<Digest>, seen: set<Digest>, remaining: int, stack: seq<Digest>)
    ensures var news := Unseen(byHash, seen0, children);
      kept == kept0 + news && seen == seen0 + SetOf(news) && remaining == remaining0 - |news| && stack == stack0 + news
  {
    kept, seen, remaining, stack := kept0, seen0, remaining0, stack0;
    for i := 0 to |children|
      invariant var news := Unseen(byHash, seen0, children[..i]);
        kept == kept0 + news && seen == seen0 + SetOf(news) && remaining == remaining0 - |news| && stack == stack0 + news
    {
      ghost var news := Unseen(byHash, seen0, children[..i]);
      assert children[..i + 1][..i] == children[..i];
      var h := children[i];
      assert h in seen <==> h in seen0 || h in news;
      if h in seen {
        continue;
      }
      if h in byHash {
        seen := seen + {h};
        kept := kept + [h];
        remaining := remaining - 1;
        stack := stack + [h];
        assert SetOf(news + [h]) == SetOf(news) + {h};
      }
    }
    assert children[..|children|] == children;
  }

  /** What the list of kept hashes is, at every turn. */
  ghost predicate Kept(byHash: Store, root: Cell, rootHash: Digest, kept: seq<Digest>, seen: set<Digest>, remaining: int)
  {
    && kept != [] && kept[0] == rootHash && Distinct(kept) && seen == SetOf(kept)
    && seen <= byHash.Keys && remaining == |byHash.Keys| - |seen|
    && forall h :: h in seen ==> Reachable(byHash, root, rootHash, h)
  }

  /** Every seen expr that is not on the stack has its delivered children seen. */
  ghost predicate Explored(byHash: Store, seen: set<Digest>, stack: seq<Digest>)
  {
    && (forall h :: h in stack ==> h in seen)
    && forall h, c :: h in seen && h !in stack && h in byHash && c in byHash && c in ChildHashes(byHash[h]) ==> c in seen
  }

  lemma {:induction false} KeptOne(byHash: Store, root: Cell, rootHash: Digest, kept: seq<Digest>, seen: set<Digest>,
                                   remaining: int, h: Digest)
    requires Kept(byHash, root, rootHash, kept, seen, remaining)
    requires h in byHash && h !in seen && Reachable(byHash, root, rootHash, h)
    ensures Kept(byHash, root, rootHash, kept + [h], seen + {h}, remaining - 1)
  {
    hide Reachable;
    AddOne(byHash.Keys, seen, h);
    assert SetOf(kept + [h]) == SetOf(kept) + {h};
    assert h !in kept;
  }

  lemma {:induction false} KeptGrows(byHash: Store, root: Cell, rootHash: Digest, kept: seq<Digest>, seen: set<Digest>,
                                     remaining: int, news: seq<Digest>)
    requires Kept(byHash, root, rootHash, kept, seen, remaining) && Distinct(news)
    requires forall h :: h in news ==> h in byHash && h !in seen && Reachable(byHash, root, rootHash, h)
    ensures Kept(byHash, root, rootHash, kept + news, seen + SetOf(news), remaining - |news|)
    decreases |news|
  {
    hide Reachable, Kept;
    if news != [] {
      var n := |news| - 1;
      var (before, h) := (news[..n], news[n]);
      KeptGrows(byHash, root, rootHash, kept, seen, remaining, before);
      assert news == before + [h] && kept + news == (kept + before) + [h];
      assert seen + SetOf(news) == (seen + SetOf(before)) + {h};
      assert h !in before;
      KeptOne(byHash, root, rootHash, kept + before, seen + SetOf(before), remaining - n, h);
    } else {
      assert kept + news == kept && seen + SetOf(news) == seen;
    }
  }

  lemma {:induction false} ExploredGrows(byHash: Store, seen: set<Digest>, rest: seq<Digest>, current: Digest)
    requires current in byHash && Explored(byHash, seen, rest + [current])
    ensures var news := Unseen(byHash, seen, ChildHashes(byHash[current]));
      Explored(byHash, seen + SetOf(news), rest + news)
  {
    hide ChildHashes;
    var children := ChildHashes(byHash[current]);
    UnseenFacts(byHash, seen, children);
    var news := Unseen(byHash, seen, children);
    assert forall h :: h in rest + [current] <==> h in rest || h == current;
    assert forall h :: h in rest + news <==> h in rest || h in news;
  }

  lemma {:induction false} ChildrenReachable(byHash: Store, root: Cell, rootHash: Digest, current: Digest, news: seq<Digest>)
    requires rootHash in byHash && byHash[rootHash] == root && current in byHash
    requires Reachable(byHash, root, rootHash, current)
    requires forall h :: h in news ==> h in byHash && h in ChildHashes(byHash[current])
    ensures forall h :: h in news ==> Reachable(byHash, root, rootHash, h)
  {
    hide ChildHashes, Reachable;
    forall h | h in news
      ensures Reachable(byHash, root, rootHash, h)
    {
      ChildReachable(byHash, root, rootHash, current, h);
    }
  }

  /**
   * The FULL branch: exactly what is reachable from the root through delivered exprs, each once,
   * root first. The early exit loses nothing when the root is one of the delivered exprs.
   */
  method CullFull(byHash: Store, root: Cell, rootHash: Digest) returns (kept: seq<Digest>)
    requires rootHash in byHash && byHash[rootHash] == root
    ensures kept != [] && kept[0] == rootHash && Distinct(kept)
    ensures forall h :: h in kept <==> Reachable(byHash, root, rootHash, h)
  {
    hide Reachable, ChildHashes, Unseen, Kept, Explored, Distinct;
    kept := [rootHash];
    var seen := {rootHash};
    var remaining := |byHash| - 1;
    var stack := [rootHash];
    JustTheRoot(byHash, root, rootHash);
    while stack != [] && remaining > 0
      invariant Kept(byHash, root, rootHash, kept, seen, remaining) && Explored(byHash, seen, stack)
      decreases remaining, |stack|
    {
      var current := stack[|stack| - 1];
      var rest := stack[..|stack| - 1];
      assert stack == rest + [current];
      stack := rest;
      StackTop(byHash, root, rootHash, kept, seen, remaining, stack, current);
      var children := ChildHashes(byHash[current]);
      ghost var news := Unseen(byHash, seen, children);
      UnseenFacts(byHash, seen, children);
      ChildrenReachable(byHash, root, rootHash, current, news);
      KeptGrows(byHash, root, rootHash, kept, seen, remaining, news);
      ExploredGrows(byHash, seen, stack, current);
      kept, seen, remaining, stack := ScanChildren(byHash, children, kept, seen, remaining, stack);
      KeptCount(byHash, root, rootHash, kept, seen, remaining);
    }
    AllKept(byHash, root, rootHash, kept, seen, remaining, stack);
  }

  lemma {:induction false} JustTheRoot(byHash: Store, root: Cell, rootHash: Digest)
    requires rootHash in byHash
    ensures Kept(byHash, root, rootHash, [rootHash], {rootHash}, |byHash| - 1) && Explored(byHash, {rootHash}, [rootHash])
  {
    assert SetOf([rootHash]) == {rootHash};
    assert |byHash| == |byHash.Keys|;
  }

  lemma {:induction false} StackTop(byHash: Store, root: Cell, rootHash: Digest, kept: seq<Digest>, seen: set<Digest>,
                                    remaining: int, rest: seq<Digest>, current: Digest)
    requires Kept(byHash, root, rootHash, kept, seen, remaining) && Explored(byHash, seen, rest + [current])
    ensures current in byHash && Reachable(byHash, root, rootHash, current)
  {
    assert current in rest + [current];
  }

  lemma {:induction false} KeptCount(byHash: Store, root: Cell, rootHash: Digest, kept: seq<Digest>, seen: set<Digest>, remaining: int)
    requires Kept(byHash, root, rootHash, kept, seen, remaining)
    ensures remaining >= 0
  {
    AtMost(seen, byHash.Keys);
  }

  lemma {:induction false} AllKept(byHash: Store, root: Cell, rootHash: Digest, kept: seq<Digest>, seen: set<Digest>,
                                   remaining: int, stack: seq<Digest>)
    requires rootHash in byHash && byHash[rootHash] == root
    requires Kept(byHash, root, rootHash, kept, seen, remaining) && Explored(byHash, seen, stack)
    requires stack == [] || remaining <= 0
    ensures kept != [] && kept[0] == rootHash && Distinct(kept)
    ensures forall h :: h in kept <==> Reachable(byHash, root, rootHash, h)
  {
    hide Reachable, ChildHashes;
    KeptCount(byHash, root, rootHash, kept, seen, remaining);
    if remaining == 0 {
      AllSeen(byHash.Keys, seen);
    }
    assert rootHash in seen;
    ClosedIsComplete(byHash, root, rootHash, seen);
  }

  lemma {:induction false} AddOne(all: set<Digest>, seen: set<Digest>, h: Digest)
    requires seen <= all && h in all && h !in seen
    ensures |seen + {h}| == |seen| + 1 <= |all|
  {
    AtMost(seen + {h}, all);
  }

  lemma {:induction false} AtMost(a: set<Digest>, b: set<Digest>)
    requires a <= b
    ensures |a| <= |b|
  {
    assert b == a + (b - a);
  }

  lemma {:induction false} AllSeen(all: set<Digest>, seen: set<Digest>)
    requires seen <= all && |seen| == |all|
    ensures seen == all
  {
    var rest := all - seen;
    assert all == seen + rest;
    assert rest == {};
  }

  // --------------------------------------------------------------- the other cuts

  /** The tail chain of the root within the delivered exprs, up to a repetition. */
  function TailChain(byHash: Store, current: Cell, seen: seq<Digest>): seq<Digest>
    requires seen != [] && Distinct(seen) && forall h :: h in seen[1..] ==> h in byHash
    decreases |byHash| + 1 - |seen|
  {
    if !current.LinkCell? || current.tail == ZERO32 || current.tail in seen || current.tail !in byHash then seen
    else
      ChainBound(byHash, seen + [current.tail]);
      TailChain(byHash, byHash[current.tail], seen + [current.tail])
  }

  lemma {:induction false} ChainBound(byHash: Store, seen: seq<Digest>)
    requires Distinct(seen) && seen != [] && (forall h :: h in seen[1..] ==> h in byHash)
    ensures |seen| <= |byHash| + 1
  {
    var tail := seen[1..];
    DistinctCount(tail);
    AtMost(SetOf(tail), byHash.Keys);
    assert |byHash.Keys| == |byHash|;
  }

  lemma {:induction false} DistinctCount(hashes: seq<Digest>)
    requires Distinct(hashes)
    ensures |SetOf(hashes)| == |hashes|
  {
    if hashes != [] {
      var n := |hashes| - 1;
      DistinctCount(hashes[..n]);
      assert hashes == hashes[..n] + [hashes[n]];
      assert SetOf(hashes) == SetOf(hashes[..n]) + {hashes[n]};
      assert hashes[n] !in hashes[..n];
    }
  }

  /** The cell of number i of a chain. */
  function InChain(byHash: Store, root: Cell, kept: seq<Digest>, i: nat): Cell
    requires i < |kept| && forall h :: h in kept[1..] ==> h in byHash
  {
    if i == 0 then root else assert kept[i] == kept[1..][i - 1]; byHash[kept[i]]
  }

  /** Each hash names the tail of the cell before it. */
  ghost predicate IsChain(byHash: Store, root: Cell, kept: seq<Digest>)
  {
    && kept != [] && Distinct(kept) && (forall h :: h in kept[1..] ==> h in byHash)
    && forall i :: 0 <= i < |kept| - 1 ==>
         && var c := InChain(byHash, root, kept, i);
         && c.LinkCell? && c.tail == kept[i + 1] && c.tail != ZERO32
  }

  /** The chain goes on from its last cell: to a delivered expr that is not in it yet. */
  predicate GoesOn(byHash: Store, last: Cell, kept: seq<Digest>)
  {
    last.LinkCell? && last.tail != ZERO32 && last.tail !in kept && last.tail in byHash
  }

  lemma {:induction false} ChainLonger(byHash: Store, root: Cell, kept: seq<Digest>)
    requires IsChain(byHash, root, kept) && GoesOn(byHash, InChain(byHash, root, kept, |kept| - 1), kept)
    ensures var next := InChain(byHash, root, kept, |kept| - 1).tail;
      IsChain(byHash, root, kept + [next]) && InChain(byHash, root, kept + [next], |kept|) == byHash[next]
  {
    var next := InChain(byHash, root, kept, |kept| - 1).tail;
    var longer := kept + [next];
    assert longer[1..] == kept[1..] + [next];
    forall i | 0 <= i < |longer| - 1
      ensures InChain(byHash, root, longer, i).LinkCell?
      ensures InChain(byHash, root, longer, i).tail == longer[i + 1] && longer[i + 1] != ZERO32
    {
      assert InChain(byHash, root, longer, i) == InChain(byHash, root, kept, i);
    }
  }

  lemma {:induction false} ChainFrom(byHash: Store, root: Cell, current: Cell, seen: seq<Digest>)
    requires IsChain(byHash, root, seen) && current == InChain(byHash, root, seen, |seen| - 1)
    ensures var kept := TailChain(byHash, current, seen);
      && seen <= kept && IsChain(byHash, root, kept)
      && !GoesOn(byHash, InChain(byHash, root, kept, |kept| - 1), kept)
    decreases |byHash| + 1 - |seen|
  {
    hide IsChain, InChain;
    ChainIsDistinct(byHash, root, seen);
    if GoesOn(byHash, current, seen) {
      ChainLonger(byHash, root, seen);
      ChainIsDistinct(byHash, root, seen + [current.tail]);
      ChainBound(byHash, seen + [current.tail]);
      ChainFrom(byHash, root, byHash[current.tail], seen + [current.tail]);
    }
  }

  lemma {:induction false} ChainIsDistinct(byHash: Store, root: Cell, kept: seq<Digest>)
    requires IsChain(byHash, root, kept)
    ensures kept != [] && Distinct(kept) && forall h :: h in kept[1..] ==> h in byHash
  {
  }

  /** What the LIST branch keeps: the chain of tails from the root, up to where it cannot go on. */
  lemma {:induction false} TailChainIsMaximal(byHash: Store, root: Cell, rootHash: Digest)
    ensures var kept := TailChain(byHash, root, [rootHash]);
      && IsChain(byHash, root, kept) && kept[0] == rootHash
      && !GoesOn(byHash, InChain(byHash, root, kept, |kept| - 1), kept)
  {
    ChainFrom(byHash, root, root, [rootHash]);
  }

  /** The LIST branch. */
  method CullList(byHash: Store, root: Cell, rootHash: Digest) returns (kept: seq<Digest>)
    ensures kept == TailChain(byHash, root, [rootHash])
  {
    kept := [rootHash];
    var current := root;
    while current.LinkCell?
      invariant Distinct(kept) && kept != [] && forall h :: h in kept[1..] ==> h in byHash
      invariant TailChain(byHash, current, kept) == TailChain(byHash, root, [rootHash])
      decreases |byHash| + 1 - |kept|
    {
      if current.tail == ZERO32 || current.tail in kept {
        break;
      }
      if current.tail !in byHash {
        break;
      }
      ChainBound(byHash, kept + [current.tail]);
      kept := kept + [current.tail];
      current := byHash[current.tail];
    }
  }

  function Without(hashes: seq<Digest>, h: Digest): seq<Digest>
  {
    if hashes == [] then []
    else
      var rest := Without(hashes[..|hashes| - 1], h);
      if hashes[|hashes| - 1] == h then rest else rest + [hashes[|hashes| - 1]]
  }

  method RootFirst(rootHash: Digest, found: seq<Digest>) returns (kept: seq<Digest>)
    ensures kept == [rootHash] + Without(found, rootHash)
  {
    kept := [rootHash];
    for i := 0 to |found|
      invariant kept == [rootHash] + Without(found[..i], rootHash)
    {
      assert found[..i + 1][..i] == found[..i];
      if found[i] != rootHash {
        kept := kept + [found[i]];
      }
    }
    assert found[..|found|] == found;
  }

  /** What each resolution keeps, by hash, of the delivered exprs. */
  ghost predicate Culled(H: Hash, root: Cell, exprs: seq<Cell>, resolution: Resolution, shape: Bytes, known: set<Digest>,
                         rank: Digest -> nat, kept: seq<Digest>)
    requires resolution.Dynamic? && ParseShape(shape).Ok? ==> Acyclic(ByHash(H, exprs), rank)
  {
    var byHash := ByHash(H, exprs);
    match resolution
    case Unset => kept == [H(root)]
    case Single => kept == [H(root)]
    case List => kept == TailChain(byHash, root, [H(root)])
    case Full => Distinct(kept) && kept != [] && kept[0] == H(root)
                 && forall h :: h in kept <==> Reachable(byHash, root, H(root), h)
    case Dynamic =>
      var rule := ParseShape(shape);
      if rule.Err? then kept == [H(root)]
      else kept == [H(root)] + Without(FirstVisits([], Reached(byHash, known, rule.value, H(root), rank), byHash, true), H(root))
    case RadixKey => kept == [H(root)] + Without(Order(H, exprs), H(root))
    case RadixAll => kept == [H(root)] + Without(Order(H, exprs), H(root))
  }

  /** `cull_to_resolution`, for a root that is one of the delivered exprs, as the caller picks it. */
  method CullToResolution(H: Hash, root: Cell, exprs: seq<Cell>, resolution: Resolution, shape: Bytes, known: set<Digest>,
                          ghost rank: Digest -> nat)
      returns (kept: seq<Digest>)
    requires H(root) in ByHash(H, exprs) && ByHash(H, exprs)[H(root)] == root
    requires resolution.Dynamic? && ParseShape(shape).Ok? ==> Acyclic(ByHash(H, exprs), rank)
    ensures Culled(H, root, exprs, resolution, shape, known, rank, kept)
  {
    var byHash, order := IndexByHash(H, exprs);
    var rootHash := H(root);
    match resolution
    case Dynamic =>
      var rule := ParseShape(shape);
      if rule.Err? {
        return [rootHash];
      }
      var found, missing := WalkShape(byHash, known, rule.value, rootHash, rank);
      kept := RootFirst(rootHash, found);
    case RadixKey =>
      kept := RootFirst(rootHash, order);
    case RadixAll =>
      kept := RootFirst(rootHash, order);
    case Unset =>
      return [rootHash];
    case Single =>
      return [rootHash];
    case List =>
      kept := CullList(byHash, root, rootHash);
    case Full =>
      kept := CullFull(byHash, root, rootHash);
  }

  /** Only delivered exprs are kept, each at most once, root first, at every resolution. */
  lemma {:induction false} KeptIsDelivered(H: Hash, root: Cell, exprs: seq<Cell>, resolution: Resolution, shape: Bytes,
                                           known: set<Digest>, rank: Digest -> nat, kept: seq<Digest>)
    requires H(root) in ByHash(H, exprs) && ByHash(H, exprs)[H(root)] == root
    requires resolution.Dynamic? && ParseShape(shape).Ok? ==> Acyclic(ByHash(H, exprs), rank)
    requires Culled(H, root, exprs, resolution, shape, known, rank, kept)
    ensures kept != [] && kept[0] == H(root) && Distinct(kept)
    ensures forall h :: h in kept ==> h in ByHash(H, exprs) && ByHash(H, exprs)[h] in exprs && H(ByHash(H, exprs)[h]) == h
  {
    hide Reached, FirstVisits, ByHash, Order, Reachable;
    var byHash := ByHash(H, exprs);
    ByHashSound(H, exprs);
    match resolution
    case Unset =>
    case Single =>
    case List =>
      ChainIsDelivered(byHash, root, [H(root)]);
    case Full =>
      ReachableIsDelivered(byHash, root, H(root));
    case Dynamic =>
      var rule := ParseShape(shape);
      if rule.Ok? {
        var trace := Reached(byHash, known, rule.value, H(root), rank);
        FirstVisitsAreTheTrace([], trace, byHash, true);
        WithoutOne(FirstVisits([], trace, byHash, true), H(root));
      }
    case RadixKey =>
      WithoutOne(Order(H, exprs), H(root));
    case RadixAll =>
      WithoutOne(Order(H, exprs), H(root));
  }

  lemma {:induction false} InOrder(H: Hash, exprs: seq<Cell>, h: Digest)
    ensures h in Order(H, exprs) <==> exists e :: e in exprs && H(e) == h
  {
    ByHashSound(H, exprs);
  }

  /** The radix resolutions keep every delivered expr, and without a resolution, or with SINGLE, only the root is kept. */
  lemma {:induction false} RadixKeepsAll(H: Hash, root: Cell, exprs: seq<Cell>, resolution: Resolution, shape: Bytes,
                                         known: set<Digest>, rank: Digest -> nat, kept: seq<Digest>, h: Digest)
    requires resolution != Dynamic && root in exprs
    requires Culled(H, root, exprs, resolution, shape, known, rank, kept)
    ensures resolution == RadixKey || resolution == RadixAll ==> (h in kept <==> exists e :: e in exprs && H(e) == h)
    ensures resolution == Unset || resolution == Single ==> kept == [H(root)]
  {
    hide Order, Reachable;
    if resolution == RadixKey || resolution == RadixAll {
      ByHashSound(H, exprs);
      InOrder(H, exprs, h);
      WithoutOne(Order(H, exprs), H(root));
    }
  }

  lemma {:induction false} ChainIsDelivered(byHash: Store, current: Cell, seen: seq<Digest>)
    requires seen != [] && Distinct(seen) && forall h :: h in seen[1..] ==> h in byHash
    ensures var kept := TailChain(byHash, current, seen);
      seen <= kept && Distinct(kept) && forall h :: h in kept[1..] ==> h in byHash
    decreases |byHash| + 1 - |seen|
  {
    if !(!current.LinkCell? || current.tail == ZERO32 || current.tail in seen || current.tail !in byHash) {
      ChainBound(byHash, seen + [current.tail]);
      ChainIsDelivered(byHash, byHash[current.tail], seen + [current.tail]);
    }
  }

  lemma {:induction false} ReachableIsDelivered(byHash: Store, root: Cell, rootHash: Digest)
    requires rootHash in byHash
    ensures forall h :: Reachable(byHash, root, rootHash, h) ==> h in byHash
  {
    forall h | Reachable(byHash, root, rootHash, h)
      ensures h in byHash
    {
      if h != rootHash {
        var path: seq<Digest> :| path != [] && PathFrom(byHash, root, path) && path[|path| - 1] == h;
        EndIsLast(byHash, root, path);
      }
    }
  }

  lemma {:induction false} WithoutOne(hashes: seq<Digest>, h: Digest)
    requires Distinct(hashes)
    ensures Distinct(Without(hashes, h)) && Distinct([h] + Without(hashes, h))
    ensures forall x :: x in Without(hashes, h) <==> x in hashes && x != h
  {
    if hashes != [] {
      var (rest, last) := (hashes[..|hashes| - 1], hashes[|hashes| - 1]);
      WithoutOne(rest, h);
      assert hashes == rest + [last] && last !in rest;
      assert last !in Without(rest, h);
      assert Distinct(Without(hashes, h));
      var without := Without(hashes, h);
      forall j | 0 <= j < |without|
        ensures without[j] != h
      {
        assert without[j] in without;
      }
    }
  }
}
