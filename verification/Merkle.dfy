/**
 * The Merkle tree of `crypto/merkle.py`: a level-by-level builder, an audit-path
 * generator and a shift-loop verifier, set against the recursive tree hash of
 * section 2.1 of RFC 6962.
 *
 * BLAKE3 is the parameter `h`. Soundness asks only that `h` does not collide on
 * the inputs which the tree and the verifier really hash.
 */
module Merkle {
  import opened Common

  type Hash = Bytes -> Digest

  function LeafInput(value: Bytes): Bytes { [0] + value }

  function NodeInput(left: Digest, right: Digest): Bytes { [1] + left + right }

  function Leaf(h: Hash, value: Bytes): Digest { h(LeafInput(value)) }

  function Node(h: Hash, left: Digest, right: Digest): Digest { h(NodeInput(left, right)) }

  datatype Tree = Tree(root: Digest, count: nat, levels: Option<seq<seq<Digest>>>)

  // ---------------------------------------------------------------- RFC 6962

  ghost predicate IsPowerOfTwo(k: nat) { k == 1 || (k > 0 && k % 2 == 0 && IsPowerOfTwo(k / 2)) }

  /** The largest power of two smaller than n. */
  function SplitPoint(n: nat): (k: nat)
    requires n > 1
    ensures IsPowerOfTwo(k) && k < n <= 2 * k
  {
    if n == 2 then 1 else 2 * SplitPoint((n + 1) / 2)
  }

  /** The tree hash of section 2.1 of RFC 6962, byte by byte. */
  ghost function TreeHash(h: Hash, values: seq<Bytes>): Digest
    requires |values| > 0
    decreases |values|
  {
    if |values| == 1 then h([0] + values[0])
    else
      var k := SplitPoint(|values|);
      h([1] + TreeHash(h, values[..k]) + TreeHash(h, values[k..]))
  }

  /** The audit path of section 2.1.1 of RFC 6962. */
  ghost function AuditPath(h: Hash, values: seq<Bytes>, i: nat): seq<Digest>
    requires i < |values|
    decreases |values|
  {
    if |values| == 1 then []
    else
      var k := SplitPoint(|values|);
      if i < k then AuditPath(h, values[..k], i) + [TreeHash(h, values[k..])]
      else AuditPath(h, values[k..], i - k) + [TreeHash(h, values[..k])]
  }

  // ------------------------------------------------------ levels, as functions

  function LeafLevel(h: Hash, values: seq<Bytes>): (level: seq<Digest>)
    ensures |level| == |values|
  {
    seq(|values|, i requires 0 <= i < |values| => Leaf(h, values[i]))
  }

  /** The next level: neighbours hashed in pairs, a last odd node promoted as it is. */
  function NextLevel(h: Hash, level: seq<Digest>): (next: seq<Digest>)
    ensures |next| == (|level| + 1) / 2
  {
    if |level| < 2 then level else [Node(h, level[0], level[1])] + NextLevel(h, level[2..])
  }

  function Levels(h: Hash, level: seq<Digest>): (levels: seq<seq<Digest>>)
    requires |level| > 0
    ensures |levels| > 0 && levels[0] == level && |levels[|levels| - 1]| == 1
    decreases |level|
  {
    if |level| == 1 then [level] else [level] + Levels(h, NextLevel(h, level))
  }

  /** The single hash that the levels end in. */
  function Top(h: Hash, level: seq<Digest>): Digest
    requires |level| > 0
    decreases |level|
  {
    if |level| == 1 then level[0] else Top(h, NextLevel(h, level))
  }

  function Sibling(i: nat): nat { if i % 2 == 0 then i + 1 else i - 1 }

  /** The sibling on this level, if there is one. */
  function Step(level: seq<Digest>, i: nat): seq<Digest>
  {
    if Sibling(i) < |level| then [level[Sibling(i)]] else []
  }

  /** The siblings met on the way up through whatever levels a tree object has; the last level is not looked at. */
  function PathIn(levels: seq<seq<Digest>>, i: nat): seq<Digest>
  {
    if |levels| <= 1 then [] else Step(levels[0], i) + PathIn(levels[1..], i / 2)
  }

  /** The siblings met from leaf to root. */
  function SiblingPath(h: Hash, level: seq<Digest>, i: nat): seq<Digest>
    requires i < |level|
    decreases |level|
  {
    if |level| == 1 then []
    else
      Step(level, i) + SiblingPath(h, NextLevel(h, level), i / 2)
  }

  /** What the verifier's loop makes of a proof: the root it reaches, or None. */
  function Climb(h: Hash, fn: nat, sn: nat, r: Digest, proof: seq<Digest>): Option<Digest>
    decreases sn
  {
    if sn == 0 then if proof == [] then Some(r) else None
    else if fn % 2 == 1 then
      if proof == [] then None else Climb(h, fn / 2, sn / 2, Node(h, proof[0], r), proof[1..])
    else if fn < sn then
      if proof == [] then None else Climb(h, fn / 2, sn / 2, Node(h, r, proof[0]), proof[1..])
    else Climb(h, fn / 2, sn / 2, r, proof)
  }

  /** The recursive split over nodes of one level. */
  ghost function LevelHash(h: Hash, level: seq<Digest>): Digest
    requires |level| > 0
    decreases |level|
  {
    if |level| == 1 then level[0]
    else
      var k := SplitPoint(|level|);
      Node(h, LevelHash(h, level[..k]), LevelHash(h, level[k..]))
  }

  /** The audit path over nodes of one level. */
  ghost function LevelPath(h: Hash, level: seq<Digest>, i: nat): seq<Digest>
    requires i < |level|
    decreases |level|
  {
    if |level| == 1 then []
    else
      var k := SplitPoint(|level|);
      if i < k then LevelPath(h, level[..k], i) + [LevelHash(h, level[k..])]
      else LevelPath(h, level[k..], i - k) + [LevelHash(h, level[..k])]
  }

  lemma {:induction false} LeafLevelSplits(h: Hash, values: seq<Bytes>, k: nat)
    requires k <= |values|
    ensures LeafLevel(h, values[..k]) == LeafLevel(h, values)[..k]
    ensures LeafLevel(h, values[k..]) == LeafLevel(h, values)[k..]
  {
  }

  /** On the leaf level the two splits agree. */
  lemma {:induction false} LevelHashOfLeaves(h: Hash, values: seq<Bytes>)
    requires |values| > 0
    ensures LevelHash(h, LeafLevel(h, values)) == TreeHash(h, values)
    decreases |values|
  {
    hide LeafLevel;
    if |values| == 1 {
      LeafOfOne(h, values);
    } else {
      var k := SplitPoint(|values|);
      LeafLevelSplits(h, values, k);
      LevelHashOfLeaves(h, values[..k]);
      LevelHashOfLeaves(h, values[k..]);
    }
  }

  lemma {:induction false} LeafOfOne(h: Hash, values: seq<Bytes>)
    requires |values| == 1
    ensures LeafLevel(h, values)[0] == TreeHash(h, values)
  {
  }

  lemma {:induction false} LevelPathOfLeaves(h: Hash, values: seq<Bytes>, i: nat)
    requires i < |values|
    ensures LevelPath(h, LeafLevel(h, values), i) == AuditPath(h, values, i)
    decreases |values|
  {
    hide LeafLevel, LevelHash, TreeHash;
    if |values| > 1 {
      var k := SplitPoint(|values|);
      LeafLevelSplits(h, values, k);
      LevelHashOfLeaves(h, values[..k]);
      LevelHashOfLeaves(h, values[k..]);
      if i < k {
        LevelPathOfLeaves(h, values[..k], i);
      } else {
        LevelPathOfLeaves(h, values[k..], i - k);
      }
    }
  }

  // ----------------------------------------------------------------- the code

  method CreateMerkleTree(h: Hash, values: seq<Bytes>) returns (tree: Result<Tree>)
    ensures tree.Ok? <==> forall v <- values :: |v| == 32
    ensures tree.Ok? && values == [] ==>
              tree.value == Tree(ZERO32, 0, Some([])) && forall b <- tree.value.root :: b == 0
    ensures tree.Ok? && values != [] ==>
              && tree.value.root == TreeHash(h, values)
              && tree.value.count == |values|
              && tree.value.levels == Some(Levels(h, LeafLevel(h, values)))
  {
    for n := 0 to |values|
      invariant forall m :: 0 <= m < n ==> |values[m]| == 32
    {
      if |values[n]| != 32 {
        return Err("merkle values must be 32 bytes");
      }
    }
    if values == [] {
      return Ok(Tree(ZERO32, 0, Some([])));
    }
    var level := LeafLevel(h, values);
    var levels := [level];
    while |level| > 1
      invariant |level| > 0 && |levels| > 0
      invariant level == levels[|levels| - 1]
      invariant levels[..|levels| - 1] + Levels(h, level) == Levels(h, LeafLevel(h, values))
      invariant Top(h, level) == Top(h, LeafLevel(h, values))
      decreases |level|
    {
      var next := NextLevel(h, level);
      assert levels[..|levels| - 1] + ([level] + Levels(h, next)) == levels + Levels(h, next);
      levels := levels + [next];
      level := next;
    }
    assert levels == levels[..|levels| - 1] + [level];
    TopIsTreeHash(h, values);
    return Ok(Tree(level[0], |values|, Some(levels)));
  }

  lemma {:induction false} LevelsHere(h: Hash, level: seq<Digest>, i: nat)
    requires i < |level|
    ensures |Levels(h, level)| == 1 <==> |level| == 1
    ensures |level| > 1 ==>
              && Levels(h, level) == [level] + Levels(h, NextLevel(h, level))
              && SiblingPath(h, level, i) == Step(level, i) + SiblingPath(h, NextLevel(h, level), i / 2)
    ensures |level| == 1 ==> SiblingPath(h, level, i) == []
    ensures Step(level, i) == if Sibling(i) < |level| then [level[Sibling(i)]] else []
  {
    hide NextLevel;
  }

  method GenerateProof(tree: Tree, index: int) returns (proof: Result<seq<Digest>>)
    ensures proof.Ok? <==> tree.levels.Some? && 0 <= index < tree.count
    ensures proof.Ok? ==> proof.value == PathIn(tree.levels.value, index)
  {
    hide Step;
    if tree.levels.None? {
      return Err("merkle tree has no levels");
    }
    if !(0 <= index < tree.count) {
      return Err("index out of range");
    }
    var levels := tree.levels.value;
    var path, i, n := [], index, 0;
    assert levels[0..] == levels;
    while n < |levels| - 1
      invariant 0 <= n <= |levels| && 0 <= i
      invariant path + PathIn(levels[n..], i) == PathIn(levels, index)
      decreases |levels| - n
    {
      assert levels[n + 1..] == levels[n..][1..];
      ghost var rest := PathIn(levels[n + 1..], i / 2);
      assert path + (Step(levels[n], i) + rest) == (path + Step(levels[n], i)) + rest;
      StepHere(levels[n], i);
      if Sibling(i) < |levels[n]| {
        path := path + [levels[n][Sibling(i)]];
      }
      i := i / 2;
      n := n + 1;
    }
    assert path + [] == path;
    return Ok(path);
  }

  lemma {:induction false} StepHere(level: seq<Digest>, i: nat)
    ensures Step(level, i) == if Sibling(i) < |level| then [level[Sibling(i)]] else []
    ensures Sibling(i) >= |level| ==> forall path: seq<Digest> :: path + Step(level, i) == path
  {
  }

  /** In a built tree the path is the audit path of section 2.1.1 of RFC 6962. */
  lemma {:induction false} BuiltPathIsAuditPath(h: Hash, values: seq<Bytes>, i: nat)
    requires i < |values|
    ensures PathIn(Levels(h, LeafLevel(h, values)), i) == AuditPath(h, values, i)
  {
    hide NextLevel, AuditPath, LevelPath, SiblingPath, Levels, PathIn, LeafLevel;
    BuiltPathIsSiblings(h, LeafLevel(h, values), i);
    SiblingPathIsAuditPath(h, values, i);
  }

  lemma {:induction false} BuiltPathIsSiblings(h: Hash, level: seq<Digest>, i: nat)
    requires i < |level|
    ensures PathIn(Levels(h, level), i) == SiblingPath(h, level, i)
    decreases |level|
  {
    hide NextLevel, Step;
    LevelsHere(h, level, i);
    if |level| > 1 {
      var next := NextLevel(h, level);
      BuiltPathIsSiblings(h, next, i / 2);
      assert Levels(h, level)[1..] == Levels(h, next);
    }
  }

  method VerifyProof(h: Hash, tree: Tree, index: int, value: Bytes, proof: seq<Bytes>) returns (ok: bool)
    ensures ok <==>
              && 0 <= index < tree.count
              && |value| == 32
              && (forall s <- proof :: |s| == 32)
              && Climb(h, index, tree.count - 1, Leaf(h, value), proof) == Some(tree.root)
  {
    if !(0 <= index < tree.count) {
      return false;
    }
    if |value| != 32 {
      return false;
    }
    for k := 0 to |proof|
      invariant forall j :: 0 <= j < k ==> |proof[j]| == 32
    {
      if |proof[k]| != 32 {
        return false;
      }
    }
    var fn, sn, r, used := index, tree.count - 1, Leaf(h, value), 0;
    ghost var answer := Climb(h, fn, sn, r, proof);
    while sn > 0
      invariant 0 <= fn && 0 <= sn && 0 <= used <= |proof|
      invariant Climb(h, fn, sn, r, proof[used..]) == answer
    {
      if fn % 2 == 1 {
        if used >= |proof| {
          return false;
        }
        assert proof[used..][1..] == proof[used + 1..];
        r := Node(h, proof[used], r);
        used := used + 1;
      } else if fn < sn {
        if used >= |proof| {
          return false;
        }
        assert proof[used..][1..] == proof[used + 1..];
        r := Node(h, r, proof[used]);
        used := used + 1;
      }
      fn, sn := fn / 2, sn / 2;
    }
    return used == |proof| && r == tree.root;
  }

  // ------------------------------------------------------- the shape of the tree

  lemma {:induction false} NextLevelSplits(h: Hash, level: seq<Digest>, k: nat)
    requires k <= |level| && k % 2 == 0
    ensures NextLevel(h, level) == NextLevel(h, level[..k]) + NextLevel(h, level[k..])
  {
    hide NextLevel;
    if k == 0 {
      assert level[0..] == level && level[..0] == [];
      NextLevelHere(h, []);
    } else {
      NextLevelHere(h, level);
      NextLevelHere(h, level[..k]);
      NextLevelSplits(h, level[2..], k - 2);
      assert level[2..][..k - 2] == level[..k][2..] && level[2..][k - 2..] == level[k..];
    }
  }

  lemma {:induction false} NextLevelHere(h: Hash, level: seq<Digest>)
    ensures |level| < 2 ==> NextLevel(h, level) == level
    ensures |level| >= 2 ==> NextLevel(h, level) == [Node(h, level[0], level[1])] + NextLevel(h, level[2..])
  {
  }

  lemma {:induction false} NextLevelAt(h: Hash, level: seq<Digest>, j: nat)
    requires 2 * j < |level|
    ensures NextLevel(h, level)[j] == if 2 * j + 1 < |level| then Node(h, level[2 * j], level[2 * j + 1]) else level[2 * j]
  {
    if j > 0 {
      NextLevelAt(h, level[2..], j - 1);
    }
  }

  /** Hashing one level up does not change the hash of the split. */
  lemma {:induction false} RootOfNextLevel(h: Hash, level: seq<Digest>)
    requires |level| > 0
    ensures LevelHash(h, NextLevel(h, level)) == LevelHash(h, level)
    decreases |level|
  {
    if |level| == 1 {

    } else if |level| > 2 {
      var k := SplitPoint(|level|);
      var next := NextLevel(h, level);
      NextLevelSplits(h, level, k);
      RootOfNextLevel(h, level[..k]);
      RootOfNextLevel(h, level[k..]);
      assert LevelHash(h, next) == Node(h, LevelHash(h, next[..k / 2]), LevelHash(h, next[k / 2..]));
    }
  }

  lemma {:induction false} TopIsLevelHash(h: Hash, level: seq<Digest>)
    requires |level| > 0
    ensures Top(h, level) == LevelHash(h, level)
    decreases |level|
  {
    if |level| > 1 {
      TopIsLevelHash(h, NextLevel(h, level));
      RootOfNextLevel(h, level);
    }
  }

  /** The root of the code is the RFC 6962 tree hash. */
  lemma {:induction false} TopIsTreeHash(h: Hash, values: seq<Bytes>)
    requires |values| > 0
    ensures Top(h, LeafLevel(h, values)) == TreeHash(h, values)
  {
    hide Top, TreeHash, LevelHash, LeafLevel;
    TopIsLevelHash(h, LeafLevel(h, values));
    LevelHashOfLeaves(h, values);
  }

  /** The sibling list of the code is the RFC 6962 audit path. */
  lemma {:induction false} SiblingPathIsAuditPath(h: Hash, values: seq<Bytes>, i: nat)
    requires i < |values|
    ensures SiblingPath(h, LeafLevel(h, values), i) == AuditPath(h, values, i)
  {
    hide SiblingPath, AuditPath, LevelPath, LeafLevel;
    SiblingPathIsLevelPath(h, LeafLevel(h, values), i);
    LevelPathOfLeaves(h, values, i);
  }

  lemma {:induction false} SiblingPathIsLevelPath(h: Hash, level: seq<Digest>, i: nat)
    requires i < |level|
    ensures SiblingPath(h, level, i) == LevelPath(h, level, i)
    decreases |level|
  {
    if |level| > 1 {
      SiblingPathIsLevelPath(h, NextLevel(h, level), i / 2);
      LevelPathOfNextLevel(h, level, i);
    }
  }

  lemma {:induction false} StepSplits(level: seq<Digest>, i: nat, k: nat)
    requires i < |level| && k <= |level| && k % 2 == 0
    ensures Step(level, i) == if i < k then Step(level[..k], i) else Step(level[k..], i - k)
  {
    if i >= k {
      assert Sibling(i - k) == Sibling(i) - k;
    }
  }

  lemma {:induction false} LevelPathUnfolds(h: Hash, level: seq<Digest>, i: nat, k: nat)
    requires i < |level| && |level| > 1 && k == SplitPoint(|level|)
    ensures LevelPath(h, level, i) == if i < k then LevelPath(h, level[..k], i) + [LevelHash(h, level[k..])]
                                      else LevelPath(h, level[k..], i - k) + [LevelHash(h, level[..k])]
  {
  }

  lemma {:induction false} LevelPathOfPair(h: Hash, level: seq<Digest>, i: nat)
    requires i < |level| <= 2
    ensures LevelPath(h, level, i) == Step(level, i) + LevelPath(h, NextLevel(h, level), i / 2)
  {
  }

  lemma {:induction false} LevelPathOfNextLevel(h: Hash, level: seq<Digest>, i: nat)
    requires i < |level|
    ensures LevelPath(h, level, i) == Step(level, i) + LevelPath(h, NextLevel(h, level), i / 2)
    decreases |level|
  {
    hide LevelPath;
    hide NextLevel;
    hide LevelHash;
    hide Step;
    if |level| <= 2 {
      LevelPathOfPair(h, level, i);
    } else {
      var k, next := SplitPoint(|level|), NextLevel(h, level);
      NextLevelSplits(h, level, k);
      assert next[..k / 2] == NextLevel(h, level[..k]) && next[k / 2..] == NextLevel(h, level[k..]);
      StepSplits(level, i, k);
      LevelPathUnfolds(h, level, i, k);
      LevelPathUnfolds(h, next, i / 2, k / 2);
      if i < k {
        RootOfNextLevel(h, level[k..]);
        LevelPathOfNextLevel(h, level[..k], i);
      } else {
        RootOfNextLevel(h, level[..k]);
        LevelPathOfNextLevel(h, level[k..], i - k);
      }
    }
  }

  // ------------------------------------------------- completeness and soundness

  /** One turn of the verifier's loop, with the sibling that the generator found on this level. */
  lemma {:induction false} ClimbOneLevel(h: Hash, level: seq<Digest>, i: nat, rest: seq<Digest>)
    requires i < |level| && |level| > 1
    ensures Climb(h, i, |level| - 1, level[i], Step(level, i) + rest)
         == Climb(h, i / 2, |NextLevel(h, level)| - 1, NextLevel(h, level)[i / 2], rest)
  {
    hide NextLevel;
    NextLevelAt(h, level, i / 2);
    assert Step(level, i) != [] ==> (Step(level, i) + rest)[1..] == rest;
    assert Step(level, i) == [] ==> Step(level, i) + rest == rest;
    var sn := |level| - 1;
    assert sn / 2 == |NextLevel(h, level)| - 1;
  }

  lemma {:induction false} SiblingPathClimbs(h: Hash, level: seq<Digest>, i: nat)
    requires i < |level|
    ensures Climb(h, i, |level| - 1, level[i], SiblingPath(h, level, i)) == Some(Top(h, level))
    decreases |level|
  {
    if |level| > 1 {
      SiblingPathClimbs(h, NextLevel(h, level), i / 2);
      ClimbOneLevel(h, level, i, SiblingPath(h, NextLevel(h, level), i / 2));
    }
  }

  /** The hash inputs of the pairs of one level. */
  ghost function PairInputs(level: seq<Digest>): set<Bytes>
  {
    if |level| < 2 then {} else {NodeInput(level[0], level[1])} + PairInputs(level[2..])
  }

  /** The hash inputs of one level and of all levels above it. */
  ghost function TreeInputs(h: Hash, level: seq<Digest>): set<Bytes>
    decreases |level|
  {
    if |level| <= 1 then {} else PairInputs(level) + TreeInputs(h, NextLevel(h, level))
  }

  /** The hash inputs of the verifier's loop. */
  ghost function ClimbInputs(h: Hash, fn: nat, sn: nat, r: Digest, proof: seq<Digest>): set<Bytes>
    decreases sn
  {
    if sn == 0 then {}
    else if fn % 2 == 1 then
      if proof == [] then {}
      else {NodeInput(proof[0], r)} + ClimbInputs(h, fn / 2, sn / 2, Node(h, proof[0], r), proof[1..])
    else if fn < sn then
      if proof == [] then {}
      else {NodeInput(r, proof[0])} + ClimbInputs(h, fn / 2, sn / 2, Node(h, r, proof[0]), proof[1..])
    else ClimbInputs(h, fn / 2, sn / 2, r, proof)
  }

  ghost predicate CollisionFree(h: Hash, inputs: set<Bytes>)
  {
    forall x, y :: x in inputs && y in inputs && h(x) == h(y) ==> x == y
  }

  lemma {:induction false} NodeInputInjective(a: Digest, b: Digest, c: Digest, d: Digest)
    requires NodeInput(a, b) == NodeInput(c, d)
    ensures a == c && b == d
  {
    assert a == NodeInput(a, b)[1..33] && c == NodeInput(c, d)[1..33];
    assert b == NodeInput(a, b)[33..] && d == NodeInput(c, d)[33..];
  }

  lemma {:induction false} PairIsHashed(level: seq<Digest>, j: nat)
    requires 2 * j + 1 < |level|
    ensures NodeInput(level[2 * j], level[2 * j + 1]) in PairInputs(level)
  {
    if j > 0 {
      PairIsHashed(level[2..], j - 1);
    }
  }

  /** Two children of one node of the tree are the only pair that hashes to it. */
  lemma {:induction false} ParentFixesPair(h: Hash, level: seq<Digest>, j: nat, left: Digest, right: Digest, inputs: set<Bytes>)
    requires 2 * j + 1 < |level|
    requires Node(h, left, right) == NextLevel(h, level)[j]
    requires NodeInput(left, right) in inputs && PairInputs(level) <= inputs && CollisionFree(h, inputs)
    ensures left == level[2 * j] && right == level[2 * j + 1]
  {
    PairIsHashed(level, j);
    NextLevelAt(h, level, j);
    NodeInputInjective(left, right, level[2 * j], level[2 * j + 1]);
  }

  /** A climb that reaches the top started at the tree's own node and used its siblings. */
  lemma {:induction false} ClimbIsUnique(h: Hash, level: seq<Digest>, i: nat, r: Digest, proof: seq<Digest>,
                                         inputs: set<Bytes>)
    requires i < |level|
    requires Climb(h, i, |level| - 1, r, proof) == Some(Top(h, level))
    requires TreeInputs(h, level) + ClimbInputs(h, i, |level| - 1, r, proof) <= inputs && CollisionFree(h, inputs)
    ensures r == level[i] && proof == SiblingPath(h, level, i)
    decreases |level|
  {
    hide NextLevel, Climb, ClimbInputs, TreeInputs, SiblingPath, Top, PairInputs, CollisionFree, NodeInput, Node, Step;
    if |level| == 1 {
      ClimbOfOne(h, level, r, proof);
    } else {
      var next := NextLevel(h, level);
      NextLevelAt(h, level, i / 2);
      ClimbHere(h, i, |level| - 1, r, proof);
      LevelHere(h, level, i);
      if i % 2 == 0 && i + 1 == |level| {
        ClimbIsUnique(h, next, i / 2, r, proof, inputs);
      } else {
        var left, right := if i % 2 == 1 then proof[0] else r, if i % 2 == 1 then r else proof[0];
        ClimbIsUnique(h, next, i / 2, Node(h, left, right), proof[1..], inputs);
        ParentFixesPair(h, level, i / 2, left, right, inputs);
        StepHere(level, i);
        assert proof == [proof[0]] + proof[1..] == Step(level, i) + proof[1..];
      }
    }
  }

  lemma {:induction false} ClimbOfOne(h: Hash, level: seq<Digest>, r: Digest, proof: seq<Digest>)
    requires |level| == 1 && Climb(h, 0, 0, r, proof) == Some(Top(h, level))
    ensures r == level[0] && proof == SiblingPath(h, level, 0)
  {
  }

  /** One turn of the verifier's loop, and what it hashes. */
  lemma {:induction false} ClimbHere(h: Hash, fn: nat, sn: nat, r: Digest, proof: seq<Digest>)
    requires sn > 0 && fn <= sn
    ensures fn % 2 == 0 && fn == sn ==>
              && Climb(h, fn, sn, r, proof) == Climb(h, fn / 2, sn / 2, r, proof)
              && ClimbInputs(h, fn, sn, r, proof) == ClimbInputs(h, fn / 2, sn / 2, r, proof)
    ensures !(fn % 2 == 0 && fn == sn) ==>
              if proof == [] then Climb(h, fn, sn, r, proof) == None
              else
                var left, right := if fn % 2 == 1 then proof[0] else r, if fn % 2 == 1 then r else proof[0];
                && Climb(h, fn, sn, r, proof) == Climb(h, fn / 2, sn / 2, Node(h, left, right), proof[1..])
                && ClimbInputs(h, fn, sn, r, proof)
                   == {NodeInput(left, right)} + ClimbInputs(h, fn / 2, sn / 2, Node(h, left, right), proof[1..])
  {
    hide Node, NodeInput;
  }

  lemma {:induction false} LevelHere(h: Hash, level: seq<Digest>, i: nat)
    requires |level| > 1 && i < |level|
    ensures Top(h, level) == Top(h, NextLevel(h, level))
    ensures TreeInputs(h, level) == PairInputs(level) + TreeInputs(h, NextLevel(h, level))
    ensures SiblingPath(h, level, i) == Step(level, i) + SiblingPath(h, NextLevel(h, level), i / 2)
    ensures (|level| - 1) / 2 == |NextLevel(h, level)| - 1
    ensures i % 2 == 0 && i + 1 == |level| ==> Step(level, i) == []
  {
    hide NextLevel;
  }

  lemma {:induction false} LeafFixesValue(h: Hash, x: Bytes, y: Bytes, inputs: set<Bytes>)
    requires Leaf(h, x) == Leaf(h, y)
    requires LeafInput(x) in inputs && LeafInput(y) in inputs && CollisionFree(h, inputs)
    ensures x == y
  {
    assert LeafInput(x)[1..] == x && LeafInput(y)[1..] == y;
  }

  /** The inputs hashed to build the tree over `values` and to check `value` at `index`. */
  ghost function AllInputs(h: Hash, values: seq<Bytes>, index: nat, value: Bytes, proof: seq<Digest>): set<Bytes>
    requires index < |values|
  {
    (set v <- values :: LeafInput(v)) + {LeafInput(value)}
    + TreeInputs(h, LeafLevel(h, values))
    + ClimbInputs(h, index, |values| - 1, Leaf(h, value), proof)
  }

  /**
   * Acceptance at (count, index) against the root of `values` is exactly: the value is
   * the one at that index and the proof is its audit path.
   */
  lemma {:induction false} VerificationIsExact(h: Hash, values: seq<Bytes>, index: nat, value: Bytes, proof: seq<Digest>,
                            inputs: set<Bytes>)
    requires index < |values|
    requires AllInputs(h, values, index, value, proof) <= inputs && CollisionFree(h, inputs)
    ensures Climb(h, index, |values| - 1, Leaf(h, value), proof) == Some(TreeHash(h, values))
       <==> value == values[index] && proof == AuditPath(h, values, index)
  {
    hide NextLevel;
    hide Climb;
    hide TreeHash;
    hide AuditPath;
    hide TreeInputs;
    hide ClimbInputs;
    var leaves := LeafLevel(h, values);
    TopIsTreeHash(h, values);
    SiblingPathIsAuditPath(h, values, index);
    SiblingPathClimbs(h, leaves, index);
    if Climb(h, index, |values| - 1, Leaf(h, value), proof) == Some(Top(h, leaves)) {
      ClimbIsUnique(h, leaves, index, Leaf(h, value), proof, inputs);
      LeafFixesValue(h, values[index], value, inputs);
    }
  }
}
