/**
 * One cold-storage table as a mutable object: put with its cascade of collations
 * and merges, single lookup and batched lookup.
 */
module ColdTable {
  import opened Common
  import opened Endian
  import opened Sums
  import opened ColdFormat
  import opened ColdStore

  type Location = (nat, nat, nat)

  /** A merged-index value names a file of the level and a span of it that holds the key's value. */
  ghost predicate PointsTo(level: Level, at: Location, key: Digest, contents: map<Digest, Bytes>)
  {
    && at.0 in level
    && key in contents
    && at.2 == |contents[key]|
    && Read(level[at.0].data, at.1, at.2) == contents[key]
  }

  /** Read one index file into the merged index; a key already there is overwritten. */
  method GatherFile(merged: map<Digest, Location>, level: Level, n: nat,
                    ghost keys: set<Digest>, ghost contents: map<Digest, Bytes>)
      returns (gathered: map<Digest, Location>)
    requires n in level && Represents(level[n], keys, contents)
    ensures gathered.Keys == merged.Keys + keys
    ensures forall k :: k in gathered ==>
              PointsTo(level, gathered[k], k, contents) || (k in merged && gathered[k] == merged[k])
  {
    gathered := merged;
    var index := level[n].index;
    var i := 0;
    while i < Count(index)
      invariant 0 <= i <= Count(index)
      invariant merged.Keys <= gathered.Keys
      invariant forall k :: k in gathered ==> k in merged || k in keys
      invariant forall j: nat :: j < i ==> KeyAt(index, j) in gathered
      invariant forall k :: k in gathered ==>
                  PointsTo(level, gathered[k], k, contents) || (k in merged && gathered[k] == merged[k])
    {
      assert EntryHolds(level[n], i, contents);
      var key: Digest := KeyAt(index, i);
      assert HasKey(index, key, i) && InSegment(level[n], key);
      gathered := gathered[key := (n, PositionAt(index, i), SizeAt(index, i))];
      i := i + 1;
    }
    forall k | k in keys
      ensures k in gathered
    {
      var j: nat :| HasKey(index, k, j);
    }
  }

  lemma {:induction false} RepresentsOk(s: Segment, keys: set<Digest>, contents: map<Digest, Bytes>)
    requires Represents(s, keys, contents)
    ensures SegmentOk(s, contents) && keys != {} && keys <= contents.Keys
    ensures forall k: Digest :: k in keys <==> InSegment(s, k)
    ensures SegmentBytes(s) == HEADER_BYTES + KeyCost(keys, contents)
  {
    SegmentKeys(s, keys, contents);
  }

  lemma {:induction false} NothingCostsNothing(contents: map<Digest, Bytes>)
    ensures KeyCost({}, contents) == 0
  {
  }

  lemma {:induction false} KeyCostUnion(a: set<Digest>, b: set<Digest>, contents: map<Digest, Bytes>)
    ensures KeyCost(a + b, contents) <= KeyCost(a, contents) + KeyCost(b, contents)
  {
    SumUnion(a, b, k => ENTRY_BYTES + if k in contents then |contents[k]| else 0);
  }

  /** Read every index file of a level, in whatever order the directory lists them. */
  method GatherLevel(level: Level, ghost contents: map<Digest, Bytes>) returns (merged: map<Digest, Location>)
    requires LevelOk(level, contents)
    ensures forall k :: k in merged ==> PointsTo(level, merged[k], k, contents)
    ensures forall k :: k in merged <==> InLevel(level, k)
    ensures level == map[] <==> merged == map[]
    ensures level != map[] ==> HEADER_BYTES + KeyCost(merged.Keys, contents) <= LevelBytes(level)
  {
    hide Represents, InSegment, PointsTo, KeyCost;
    ghost var f := (n: nat) => if n in level then SegmentBytes(level[n]) else 0;
    merged := map[];
    assert merged.Keys == {};
    NothingCostsNothing(contents);
    var rest := level.Keys;
    while rest != {}
      invariant rest <= level.Keys
      invariant rest == level.Keys ==> merged == map[]
      invariant rest != level.Keys ==> merged != map[]
      invariant forall k :: k in merged ==> PointsTo(level, merged[k], k, contents)
      invariant forall k :: k in merged ==> InLevel(level, k)
      invariant forall n, k :: n in level && n !in rest && InSegment(level[n], k) ==> k in merged
      invariant KeyCost(merged.Keys, contents) + Sum(rest, f)
             <= LevelBytes(level) - if rest == level.Keys then 0 else HEADER_BYTES
      decreases |rest|
    {
      var n :| n in rest;
      ghost var keys: set<Digest> :| Represents(level[n], keys, contents);
      ghost var before := merged.Keys;
      RepresentsOk(level[n], keys, contents);
      merged := GatherFile(merged, level, n, keys, contents);
      KeyCostUnion(before, keys, contents);
      SumPick(rest, n, f);
      rest := rest - {n};
    }
    forall k | InLevel(level, k)
      ensures k in merged
    {
      var n :| n in level && InSegment(level[n], k);
    }
  }

  /** The numbers 1 to top: the directories that exist, with no gap. */
  ghost function LevelNumbers(top: nat): (s: set<nat>)
    ensures forall l: nat :: l in s <==> 1 <= l <= top
  {
    if top == 0 then {} else LevelNumbers(top - 1) + {top}
  }

  ghost predicate InLevels(levels: map<nat, Level>, key: Digest)
  {
    exists l :: l in levels && InLevel(levels[l], key)
  }

  ghost predicate LevelsOk(levels: map<nat, Level>, contents: map<Digest, Bytes>)
  {
    forall l :: l in levels ==> LevelOk(levels[l], contents)
  }

  function With(level: Level, n: nat, s: Segment): Level { level[n := s] }

  lemma {:induction false} SegmentAdded(levels: map<nat, Level>, l: nat, n: nat, s: Segment, keys: set<Digest>,
                     contents: map<Digest, Bytes>)
    requires l in levels && n !in levels[l] && LevelsOk(levels, contents) && Represents(s, keys, contents)
    ensures LevelsOk(levels[l := With(levels[l], n, s)], contents)
    ensures forall k :: InLevels(levels[l := With(levels[l], n, s)], k) <==> InLevels(levels, k) || k in keys
  {
    hide SegmentOk;
    hide InSegment;
    hide Represents;
    RepresentsOk(s, keys, contents);
    var grown := levels[l := With(levels[l], n, s)];
    forall k
      ensures InLevels(grown, k) <==> InLevels(levels, k) || k in keys
    {
      if InLevels(levels, k) {
        var m :| m in levels && InLevel(levels[m], k);
        var j :| j in levels[m] && InSegment(levels[m][j], k);
        assert j in grown[m] && grown[m][j] == levels[m][j];
        assert InLevel(grown[m], k);
      }
      if k in keys {
        assert InSegment(grown[l][n], k);
        assert InLevel(grown[l], k);
      }
      if InLevels(grown, k) {
        var m :| m in grown && InLevel(grown[m], k);
        var j :| j in grown[m] && InSegment(grown[m][j], k);
        if m != l || j != n {
          assert j in levels[m] && InLevel(levels[m], k);
        }
      }
    }
    forall j | j in grown[l]
      ensures SegmentOk(grown[l][j], contents)
    {
      assert j != n ==> j in levels[l];
    }
  }

  lemma {:induction false} NothingInEmptyLevel(k: Digest)
    ensures !InLevel(map[], k)
  {
  }

  /** A level whose keys are also found elsewhere can be emptied. */
  lemma {:induction false} LevelEmptied(levels: map<nat, Level>, l: nat, contents: map<Digest, Bytes>)
    requires l in levels && LevelsOk(levels, contents)
    requires forall k :: InLevel(levels[l], k) ==> exists m :: m in levels && m != l && InLevel(levels[m], k)
    ensures LevelsOk(levels[l := map[]], contents)
    ensures forall k :: InLevels(levels[l := map[]], k) <==> InLevels(levels, k)
  {
    hide SegmentOk;
    hide InLevel;
    forall k
      ensures InLevels(levels[l := map[]], k) <==> InLevels(levels, k)
    {
      if InLevels(levels, k) {
        var m :| m in levels && InLevel(levels[m], k);
        if m == l {
          var other :| other in levels && other != l && InLevel(levels[other], k);
          assert levels[l := map[]][other] == levels[other];
        } else {
          assert levels[l := map[]][m] == levels[m];
        }
      }
      if InLevels(levels[l := map[]], k) {
        var m :| m in levels[l := map[]] && InLevel(levels[l := map[]][m], k);
        assert m != l by { NothingInEmptyLevel(k); }
      }
    }
  }

  lemma {:induction false} EmptyLevelOpened(levels: map<nat, Level>, l: nat, contents: map<Digest, Bytes>)
    requires l !in levels && LevelsOk(levels, contents)
    ensures LevelsOk(levels[l := map[]], contents)
    ensures forall k :: InLevels(levels[l := map[]], k) <==> InLevels(levels, k)
  {
    hide SegmentOk;
    hide InLevel;
    forall k
      ensures InLevels(levels[l := map[]], k) <==> InLevels(levels, k)
    {
      NothingInEmptyLevel(k);
      if InLevels(levels, k) {
        var m :| m in levels && InLevel(levels[m], k);
        assert levels[l := map[]][m] == levels[m];
      }
      if InLevels(levels[l := map[]], k) {
        var m :| m in levels[l := map[]] && InLevel(levels[l := map[]][m], k);
        assert m in levels;
      }
    }
  }

  /** The directories after a merge of level l into segment n of level l + 1. */
  function Merged(levels: map<nat, Level>, l: nat, n: nat, s: Segment): map<nat, Level>
    requires l + 1 in levels
  {
    levels[l + 1 := With(levels[l + 1], n, s)][l := map[]]
  }

  /** A merge of level l leaves every directory but l and l + 1 as it was. */
  ghost predicate OthersKept(before: map<nat, Level>, after: map<nat, Level>, l: nat)
  {
    forall m :: m in after && m != l && m != l + 1 ==> m in before && after[m] == before[m]
  }

  lemma {:induction false} LevelMerged(levels: map<nat, Level>, l: nat, n: nat, s: Segment, keys: set<Digest>,
                    contents: map<Digest, Bytes>)
    requires l in levels && l + 1 in levels && n !in levels[l + 1]
    requires LevelsOk(levels, contents) && Represents(s, keys, contents)
    requires forall k :: k in keys <==> InLevel(levels[l], k)
    ensures LevelsOk(Merged(levels, l, n, s), contents)
    ensures forall k :: InLevels(Merged(levels, l, n, s), k) <==> InLevels(levels, k)
    ensures Merged(levels, l, n, s).Keys == levels.Keys && OthersKept(levels, Merged(levels, l, n, s), l)
    ensures LevelBytes(Merged(levels, l, n, s)[l + 1]) == LevelBytes(levels[l + 1]) + SegmentBytes(s)
  {
    hide LevelsOk, LevelOk, Represents, InLevels, LevelBytes;
    SegmentAdded(levels, l + 1, n, s, keys, contents);
    AddSegment(levels[l + 1], n, s);
    RepresentsOk(s, keys, contents);
    var copied := levels[l + 1 := With(levels[l + 1], n, s)];
    forall k | InLevel(copied[l], k)
      ensures InLevel(copied[l + 1], k)
    {
      assert copied[l + 1][n] == s && InSegment(s, k);
    }
    LevelEmptied(copied, l, contents);
    forall k
      ensures InLevels(Merged(levels, l, n, s), k) <==> InLevels(levels, k)
    {
      if k in keys {
        assert InLevels(levels, k) by {
          KeyInLevel(levels, l, k);
        }
      }
    }
  }

  lemma {:induction false} KeyInLevel(levels: map<nat, Level>, l: nat, k: Digest)
    requires l in levels && InLevel(levels[l], k)
    ensures InLevels(levels, k)
  {
  }

  lemma {:induction false} SmallWriteFits(keys: seq<Digest>, values: seq<Bytes>, contents: map<Digest, Bytes>)
    requires ValuesOf(keys, values, contents) && Ascending(keys)
    requires KeyCost(contents.Keys, contents) < Pow256(64)
    ensures Encodable(Sizes(values))
  {
    CostOfSequence(keys, values, contents);
    SumMonotone(KeySet(keys), contents.Keys, k => ENTRY_BYTES + if k in contents then |contents[k]| else 0);
    SmallIsEncodable(Sizes(values));
  }

  method CopySpans(level: Level, merged: map<Digest, Location>, keys: seq<Digest>, ghost values: seq<Bytes>)
      returns (data: Bytes)
    requires |keys| == |values|
    requires forall i :: 0 <= i < |keys| ==> keys[i] in merged && merged[keys[i]].0 in level
    requires forall i :: 0 <= i < |keys| ==>
               values[i] == Read(level[merged[keys[i]].0].data, merged[keys[i]].1, merged[keys[i]].2)
    ensures data == Concat(values)
  {
    data := [];
    for i := 0 to |keys|
      invariant data == Concat(values[..i])
    {
      var (file, position, size) := merged[keys[i]];
      assert values[..i + 1][..i] == values[..i];
      data := data + Read(level[file].data, position, size);
    }
    assert values[..|values|] == values;
  }

  /** The new segment of a collation: the level_0 files sorted by key. */
  method PackFiles(files: map<Digest, Bytes>, ghost contents: map<Digest, Bytes>) returns (packed: Option<Segment>)
    requires files != map[] && forall k :: k in files ==> k in contents && contents[k] == files[k]
    ensures packed.Some? ==> Represents(packed.value, files.Keys, contents)
    ensures KeyCost(contents.Keys, contents) < Pow256(64) ==> packed.Some?
  {
    hide Represents, KeyCost, Encodable, IndexIs, Pow256;
    var keys := SortKeys(files.Keys);
    var values := seq(|keys|, i requires 0 <= i < |keys| => files[keys[i]]);
    if KeyCost(contents.Keys, contents) < Pow256(64) {
      SmallWriteFits(keys, values, contents);
    }
    var index := WriteIndex(keys, Sizes(values));
    if index.None? {
      return None;
    }
    var data := WriteData(values);
    WrittenSegmentOk(index.value, keys, values, contents);
    assert KeySet(keys) == files.Keys;
    return Some(Segment(index.value, data));
  }

  /** The new segment of a merge: every key of the level once, its value copied from where it is. */
  method PackLevel(level: Level, ghost contents: map<Digest, Bytes>)
      returns (packed: Option<Segment>, ghost keys: set<Digest>)
    requires LevelOk(level, contents)
    ensures packed.Some? ==> level != map[] && Represents(packed.value, keys, contents)
    ensures packed.Some? ==> SegmentBytes(packed.value) <= LevelBytes(level)
    ensures forall k :: k in keys <==> InLevel(level, k)
    ensures level != map[] && KeyCost(contents.Keys, contents) < Pow256(64) ==> packed.Some?
  {
    hide Represents, KeyCost, Pow256, LevelBytes, LevelOk, InLevel, PointsTo;
    var merged := GatherLevel(level, contents);
    keys := merged.Keys;
    if merged == map[] {
      return None, keys;
    }
    packed := PackMerged(level, merged, contents);
  }

  /** Writing the merged index and data in key order. */
  method PackMerged(level: Level, merged: map<Digest, Location>, ghost contents: map<Digest, Bytes>)
      returns (packed: Option<Segment>)
    requires LevelOk(level, contents) && merged != map[]
    requires forall k :: k in merged ==> PointsTo(level, merged[k], k, contents)
    requires HEADER_BYTES + KeyCost(merged.Keys, contents) <= LevelBytes(level)
    ensures packed.Some? ==> Represents(packed.value, merged.Keys, contents) && SegmentBytes(packed.value) <= LevelBytes(level)
    ensures KeyCost(contents.Keys, contents) < Pow256(64) ==> packed.Some?
  {
    hide Represents, KeyCost, Encodable, IndexIs, Pow256, LevelBytes, LevelOk, InLevel, PointsTo, Read, ValuesOf, Ascending, Concat;
    var sorted := SortKeys(merged.Keys);
    var sizes := seq(|sorted|, i requires 0 <= i < |sorted| => merged[sorted[i]].2);
    ghost var values := ValuesAt(sorted, contents);
    MergedValues(level, merged, sorted, values, contents);
    assert sizes == Sizes(values);
    if KeyCost(contents.Keys, contents) < Pow256(64) {
      SmallWriteFits(sorted, values, contents);
    }
    var index := WriteIndex(sorted, sizes);
    if index.None? {
      return None;
    }
    var data := CopySpans(level, merged, sorted, values);
    WrittenSegmentOk(index.value, sorted, values, contents);
    assert KeySet(sorted) == merged.Keys;
    RepresentsOk(Segment(index.value, data), merged.Keys, contents);
    return Some(Segment(index.value, data));
  }

  /** The values of some keys. */
  ghost function ValuesAt(keys: seq<Digest>, contents: map<Digest, Bytes>): (values: seq<Bytes>)
    ensures |values| == |keys|
  {
    seq(|keys|, i requires 0 <= i < |keys| => if keys[i] in contents then contents[keys[i]] else [])
  }

  lemma {:induction false} MergedValues(level: Level, merged: map<Digest, Location>, keys: seq<Digest>, values: seq<Bytes>,
                                        contents: map<Digest, Bytes>)
    requires forall k :: k in merged ==> PointsTo(level, merged[k], k, contents)
    requires forall i :: 0 <= i < |keys| ==> keys[i] in merged
    requires values == ValuesAt(keys, contents)
    ensures ValuesOf(keys, values, contents)
    ensures forall i :: 0 <= i < |keys| ==>
              && merged[keys[i]].0 in level && merged[keys[i]].2 == |values[i]|
              && values[i] == Read(level[merged[keys[i]].0].data, merged[keys[i]].1, merged[keys[i]].2)
  {
    hide Read;
    forall i | 0 <= i < |keys|
      ensures PointsTo(level, merged[keys[i]], keys[i], contents)
    {
    }
  }

  function Power10(n: nat): (p: nat)
    ensures p > n
  {
    if n == 0 then 1 else 10 * Power10(n - 1)
  }

  /** The files stand for `contents`; the level directories are level_1 up to level_top. */
  ghost predicate Stands(levelZero: map<Digest, Bytes>, levels: map<nat, Level>, top: nat, contents: map<Digest, Bytes>)
  {
    && levels.Keys == LevelNumbers(top)
    && LevelsOk(levels, contents)
    && (forall k :: k in levelZero ==> k in contents && contents[k] == levelZero[k])
    && (forall k :: k in contents <==> k in levelZero || InLevels(levels, k))
  }

  lemma {:induction false} LevelsThatStand(levelZero: map<Digest, Bytes>, levels: map<nat, Level>, top: nat, contents: map<Digest, Bytes>)
    requires Stands(levelZero, levels, top, contents)
    ensures forall l: nat :: l in levels <==> 1 <= l <= top
    ensures forall l: nat :: l in levels ==> LevelOk(levels[l], contents)
  {
  }

  lemma {:induction false} ContentsThatStand(levelZero: map<Digest, Bytes>, levels: map<nat, Level>, top: nat, contents: map<Digest, Bytes>)
    requires Stands(levelZero, levels, top, contents)
    ensures forall k :: k in levelZero ==> k in contents && contents[k] == levelZero[k]
    ensures forall k :: k in contents && k !in levelZero ==> InLevels(levels, k)
  {
  }

  lemma {:induction false} OpenKeepsStanding(levelZero: map<Digest, Bytes>, levels: map<nat, Level>, top: nat, contents: map<Digest, Bytes>)
    requires Stands(levelZero, levels, top, contents) && top + 1 !in levels
    ensures Stands(levelZero, levels[top + 1 := map[]], top + 1, contents)
  {
    hide LevelsOk, InLevels;
    EmptyLevelOpened(levels, top + 1, contents);
    assert levels[top + 1 := map[]].Keys == levels.Keys + {top + 1};
  }

  lemma {:induction false} CollateKeepsStanding(levelZero: map<Digest, Bytes>, levels: map<nat, Level>, top: nat,
                             contents: map<Digest, Bytes>, n: nat, s: Segment)
    requires Stands(levelZero, levels, top, contents)
    requires 1 in levels && n !in levels[1] && Represents(s, levelZero.Keys, contents)
    ensures Stands(map[], levels[1 := With(levels[1], n, s)], top, contents)
  {
    hide LevelsOk, InLevels;
    SegmentAdded(levels, 1, n, s, levelZero.Keys, contents);
    assert levels[1 := With(levels[1], n, s)].Keys == levels.Keys;
  }

  lemma {:induction false} MergeKeepsStanding(levelZero: map<Digest, Bytes>, levels: map<nat, Level>, top: nat,
                           contents: map<Digest, Bytes>, l: nat, n: nat, s: Segment, keys: set<Digest>)
    requires Stands(levelZero, levels, top, contents)
    requires l in levels && l + 1 in levels && n !in levels[l + 1]
    requires Represents(s, keys, contents)
    requires forall k :: k in keys <==> InLevel(levels[l], k)
    ensures Stands(levelZero, Merged(levels, l, n, s), top, contents)
  {
    hide LevelsOk, InLevels;
    LevelMerged(levels, l, n, s, keys, contents);
  }

  lemma {:induction false} PutKeepsStanding(levelZero: map<Digest, Bytes>, levels: map<nat, Level>, top: nat,
                         contents: map<Digest, Bytes>, key: Digest, value: Bytes)
    requires Stands(levelZero, levels, top, contents) && (key in contents ==> contents[key] == value)
    ensures Stands(levelZero[key := value], levels, top, contents[key := value])
  {
    hide LevelOk, InLevels;
    forall l | l in levels
      ensures LevelOk(levels[l], contents[key := value])
    {
      LevelOkGrows(levels[l], contents, key, value);
    }
  }

  lemma {:induction false} PutFileCost(files: map<Digest, Bytes>, key: Digest, value: Bytes)
    ensures FileCost(files[key := value]) <= FileCost(files) + |value|
  {
    var grown := files[key := value];
    var f := (k: Digest) => if k in files then |files[k]| else 0;
    var g := (k: Digest) => if k in grown then |grown[k]| else 0;
    assert grown.Keys == (files.Keys - {key}) + {key};
    SumAdd(files.Keys - {key}, key, g);
    SumCongruent(files.Keys - {key}, f, g);
    SumMonotone(files.Keys - {key}, files.Keys, f);
  }

  lemma {:induction false} NothingInEmptyLevelBytes()
    ensures LevelBytes(map[]) == 0
  {
  }

  lemma {:induction false} NoFilesCostNothing()
    ensures FileCost(map[]) == 0
  {
  }

  // ------------------------------------------------------------- the cascade

  lemma {:induction false} LevelBytesNonNegative(level: Level)
    ensures LevelBytes(level) >= 0
  {
    SumNonNegative(level.Keys, n => if n in level then SegmentBytes(level[n]) else 0);
  }

  /** The bytes of levels 1 to l. */
  ghost function Prefix(levels: map<nat, Level>, l: nat): int
  {
    if l == 0 then 0 else Prefix(levels, l - 1) + if l in levels then LevelBytes(levels[l]) else 0
  }

  lemma {:induction false} PrefixMonotone(levels: map<nat, Level>, l: nat, m: nat)
    requires l <= m
    ensures Prefix(levels, l) <= Prefix(levels, m)
  {
    if l < m {
      PrefixMonotone(levels, l, m - 1);
      if m in levels {
        LevelBytesNonNegative(levels[m]);
      }
    }
  }

  lemma {:induction false} PrefixBeyondTop(levels: map<nat, Level>, top: nat, l: nat)
    requires levels.Keys == LevelNumbers(top) && top <= l
    ensures Prefix(levels, l) == Prefix(levels, top)
  {
    if top < l {
      PrefixBeyondTop(levels, top, l - 1);
    }
  }

  lemma {:induction false} PrefixBound(levels: map<nat, Level>, top: nat, l: nat)
    requires levels.Keys == LevelNumbers(top)
    ensures Prefix(levels, l) <= Prefix(levels, top)
  {
    if l <= top {
      PrefixMonotone(levels, l, top);
    } else {
      PrefixBeyondTop(levels, top, l);
    }
  }

  function Limit(base: int, level: nat): int { base * Power10(level) }

  /** base bytes for level_0, and ten times more for every further level. */
  lemma {:induction false} LimitGrowsTenfold(base: int, level: nat)
    ensures Limit(base, 0) == base && Limit(base, level + 1) == 10 * Limit(base, level)
  {
    TenTimes(base, Power10(level));
    assert Power10(level + 1) == 10 * Power10(level);
  }

  lemma {:induction false} TenTimes(base: int, p: nat)
    ensures base * (10 * p) == 10 * (base * p)
  {
  }

  ghost predicate LimitsBelow(levels: map<nat, Level>, base: int, level: nat)
  {
    forall l :: l in levels && l < level ==> LevelBytes(levels[l]) <= Limit(base, l)
  }

  /** From `level` up the directories are as at the start, but for what was merged into `level`. */
  ghost predicate CarriedUp(start: map<nat, Level>, levels: map<nat, Level>, level: nat)
  {
    && (forall l :: l in levels && l > level ==> l in start && levels[l] == start[l])
    && (level in levels ==> LevelBytes(levels[level]) <= Prefix(start, level))
  }

  lemma {:induction false} CarryOn(start: map<nat, Level>, before: map<nat, Level>, after: map<nat, Level>, level: nat)
    requires level >= 1 && level in before && CarriedUp(start, before, level)
    requires OthersKept(before, after, level)
    requires level + 1 in after ==>
               LevelBytes(after[level + 1])
               <= LevelBytes(before[level]) + (if level + 1 in before then LevelBytes(before[level + 1]) else 0)
    ensures CarriedUp(start, after, level + 1)
  {
    hide LevelBytes;
    if level + 1 in start {
      LevelBytesNonNegative(start[level + 1]);
    }
  }

  lemma {:induction false} KeepOn(start: map<nat, Level>, levels: map<nat, Level>, level: nat)
    requires level >= 1 && level in levels && CarriedUp(start, levels, level)
    ensures CarriedUp(start, levels, level + 1)
  {
    hide LevelBytes;
    LevelBytesNonNegative(levels[level]);
  }

  lemma {:induction false} LimitsStep(before: map<nat, Level>, after: map<nat, Level>, base: int, level: nat)
    requires LimitsBelow(before, base, level) && OthersKept(before, after, level)
    requires level in after ==> LevelBytes(after[level]) <= Limit(base, level)
    ensures LimitsBelow(after, base, level + 1)
  {
    hide LevelBytes, Limit;
  }

  /** A level over its limit holds more bytes than its own number. */
  lemma {:induction false} OverLimit(base: int, level: nat, bytes: int)
    requires base > 0 && bytes > Limit(base, level)
    ensures bytes > level && Limit(base, level) >= 0
  {
    hide Power10;
    var p := Power10(level);
    assert base * p == (base - 1) * p + p;
  }

  // --------------------------------------------------------------- lookup

  /** `find_exprs_in_index`. */
  method FindMany(index: Bytes, keys: set<Digest>) returns (hits: map<Digest, (nat, nat)>)
    requires IndexOk(index)
    ensures forall k :: k in hits <==> k in keys && exists i: nat :: HasKey(index, k, i)
    ensures forall k :: k in hits ==>
              (exists i: nat :: HasKey(index, k, i) && hits[k] == (PositionAt(index, i), SizeAt(index, i)))
  {
    hide HasKey, IndexOk;
    var sorted := SortKeys(keys);
    hits := map[];
    for j := 0 to |sorted|
      invariant forall k :: k in hits ==> k in keys && (exists i: nat :: HasKey(index, k, i))
      invariant forall m :: 0 <= m < j ==> (sorted[m] in hits <==> exists i: nat :: HasKey(index, sorted[m], i))
      invariant forall k :: k in hits ==>
                  (exists i: nat :: HasKey(index, k, i) && hits[k] == (PositionAt(index, i), SizeAt(index, i)))
    {
      var hit := FindInIndex(index, sorted[j]);
      if hit.Some? {
        hits := hits[sorted[j] := hit.value];
      }
    }
  }

  lemma {:induction false} SpanHolds(s: Segment, key: Digest, i: nat, contents: map<Digest, Bytes>)
    requires SegmentOk(s, contents) && HasKey(s.index, key, i)
    ensures IndexOk(s.index) && key in contents
    ensures Read(s.data, PositionAt(s.index, i), SizeAt(s.index, i)) == contents[key]
    ensures SizeAt(s.index, i) == |contents[key]|
  {
    var keys: set<Digest> :| Represents(s, keys, contents);
    assert EntryHolds(s, i, contents);
  }

  lemma {:induction false} SegmentIndexOk(s: Segment, contents: map<Digest, Bytes>)
    requires SegmentOk(s, contents)
    ensures IndexOk(s.index)
  {
  }

  /** Search the files of one level, the highest number first. */
  method GetFromLevel(level: Level, key: Digest, ghost contents: map<Digest, Bytes>) returns (found: Option<Bytes>)
    requires LevelOk(level, contents)
    ensures found.Some? <==> InLevel(level, key)
    ensures found.Some? ==> key in contents && found.value == contents[key]
  {
    hide SegmentOk, HasKey, IndexOk;
    var rest := level.Keys;
    while rest != {}
      invariant rest <= level.Keys
      invariant forall n :: n in level && n !in rest ==> !InSegment(level[n], key)
      decreases |rest|
    {
      var n := Largest(rest);
      rest := rest - {n};
      SegmentIndexOk(level[n], contents);
      var hit := FindInIndex(level[n].index, key);
      if hit.Some? {
        var (position, size) := hit.value;
        ghost var i: nat :| HasKey(level[n].index, key, i)
                            && hit.value == (PositionAt(level[n].index, i), SizeAt(level[n].index, i));
        SpanHolds(level[n], key, i, contents);
        assert InSegment(level[n], key);
        var data := Read(level[n].data, position, size);
        return if |data| == size then Some(data) else None;
      }
    }
    return None;
  }

  /** The batched search of one level: a key found in a file is not looked for in the later ones. */
  method GetManyFromLevel(level: Level, keys: set<Digest>, ghost contents: map<Digest, Bytes>)
      returns (results: map<Digest, Bytes>)
    requires LevelOk(level, contents)
    ensures forall k :: k in results <==> k in keys && InLevel(level, k)
    ensures forall k :: k in results ==> k in contents && results[k] == contents[k]
  {
    hide SegmentOk, HasKey, IndexOk;
    results := map[];
    var pending := keys;
    var rest := level.Keys;
    while rest != {} && pending != {}
      invariant rest <= level.Keys
      invariant pending == keys - results.Keys && results.Keys <= keys
      invariant forall k :: k in results ==> InLevel(level, k)
      invariant forall n, k :: n in level && n !in rest && InSegment(level[n], k) && k in keys ==> k in results
      invariant forall k :: k in results ==> k in contents && results[k] == contents[k]
      decreases |rest|
    {
      var n := Largest(rest);
      SegmentIndexOk(level[n], contents);
      var hits := FindMany(level[n].index, pending);
      var found := ReadSpans(level[n], hits, contents);
      forall k | k in found
        ensures InLevel(level, k)
      {
        assert InSegment(level[n], k);
      }
      rest := rest - {n};
      pending := pending - hits.Keys;
      results := results + found;
    }
  }

  /** `_read_data_spans` for the hits of one file. */
  method ReadSpans(s: Segment, hits: map<Digest, (nat, nat)>, ghost contents: map<Digest, Bytes>)
      returns (found: map<Digest, Bytes>)
    requires SegmentOk(s, contents)
    requires forall k :: k in hits ==>
               (exists i: nat :: HasKey(s.index, k, i) && hits[k] == (PositionAt(s.index, i), SizeAt(s.index, i)))
    ensures found.Keys == hits.Keys
    ensures forall k :: k in found ==> k in contents && found[k] == contents[k]
  {
    hide SegmentOk, HasKey, IndexOk, PositionAt, SizeAt, Read;
    found := map[];
    var rest := hits.Keys;
    while rest != {}
      invariant rest <= hits.Keys && found.Keys == hits.Keys - rest
      invariant forall k :: k in found ==> k in contents && found[k] == contents[k]
      decreases |rest|
    {
      var k :| k in rest;
      ghost var i: nat :| HasKey(s.index, k, i) && hits[k] == (PositionAt(s.index, i), SizeAt(s.index, i));
      SpanHolds(s, k, i, contents);
      found := found[k := Read(s.data, hits[k].0, hits[k].1)];
      rest := rest - {k};
    }
  }

  /** An expression to store, with its hash and encoding; its children are the head, tail and payload it holds. */
  datatype Stored = Stored(key: Digest, value: Bytes, children: seq<Stored>)

  /** Every key is the content hash of its value. */
  ghost predicate Addressed(e: Stored, content: Digest -> Bytes)
  {
    e.value == content(e.key) && forall c :: c in e.children ==> Addressed(c, content)
  }

  ghost function Ids(e: Stored): set<Digest>
    decreases e, 1
  {
    IdsOf(e.children) + {e.key}
  }

  ghost function IdsOf(es: seq<Stored>): set<Digest>
    decreases es, 0
  {
    if es == [] then {} else IdsOf(es[..|es| - 1]) + Ids(es[|es| - 1])
  }

  lemma {:induction false} IdsPrefix(es: seq<Stored>, n: nat)
    requires n <= |es|
    ensures IdsOf(es[..n]) <= IdsOf(es)
    decreases |es|
  {
    if n < |es| {
      IdsPrefix(es[..|es| - 1], n);
      assert es[..|es| - 1][..n] == es[..n];
    } else {
      assert es[..n] == es;
    }
  }

  /** The map of some content hashes. */
  ghost function Named(keys: set<Digest>, content: Digest -> Bytes): (m: map<Digest, Bytes>)
    ensures m.Keys == keys
  {
    map k | k in keys :: content(k)
  }

  lemma {:induction false} NamedOneMore(keys: set<Digest>, key: Digest, content: Digest -> Bytes)
    ensures Named(keys, content)[key := content(key)] == Named(keys + {key}, content)
  {
  }

  lemma {:induction false} IdsOfOneMore(es: seq<Stored>, i: nat)
    requires i < |es|
    ensures IdsOf(es[..i + 1]) == IdsOf(es[..i]) + Ids(es[i])
  {
    assert es[..i + 1][..i] == es[..i];
  }

  lemma {:induction false} NamedCostGrows(some: set<Digest>, all: set<Digest>, content: Digest -> Bytes)
    requires some <= all
    ensures KeyCost(some, Named(some, content)) <= KeyCost(all, Named(all, content))
  {
    var (a, b) := (Named(some, content), Named(all, content));
    var f := (k: Digest) => ENTRY_BYTES + if k in a then |a[k]| else 0;
    var g := (k: Digest) => ENTRY_BYTES + if k in b then |b[k]| else 0;
    SumCongruent(some, f, g);
    SumMonotone(some, all, g);
  }

  class Table {
    /** The value that each content hash names. */
    ghost const content: Digest -> Bytes
    const baseSize: int
    var levelZero: map<Digest, Bytes>
    var trackedSize: nat
    var levels: map<nat, Level>
    ghost var top: nat
    ghost var contents: map<Digest, Bytes>

    ghost predicate Valid()
      reads this
    {
      && Stands(levelZero, levels, top, contents)
      && (forall k :: k in contents ==> contents[k] == content(k))
      && FileCost(levelZero) <= trackedSize
    }

    /** Every level directory is within base * 10^N bytes. */
    ghost predicate WithinLimits()
      reads this
    {
      forall l :: l in levels ==> LevelBytes(levels[l]) <= Limit(baseSize, l)
    }

    constructor (ghost content: Digest -> Bytes, baseSize: int)
      ensures Valid() && WithinLimits() && contents == map[]
      ensures this.content == content && this.baseSize == baseSize
    {
      this.content := content;
      this.baseSize := baseSize;
      levelZero, trackedSize, levels := map[], 0, map[];
      top, contents := 0, map[];
    }

    /** `mkdir(parents=True, exist_ok=True)` of a level directory. */
    method OpenLevel(l: nat)
      requires Valid() && 1 <= l <= top + 1
      modifies this`levels, this`top
      ensures Valid() && top == Max(old(top), l)
      ensures levels == if l in old(levels) then old(levels) else old(levels)[l := map[]]
    {
      hide Stands;
      LevelsThatStand(levelZero, levels, top, contents);
      if l !in levels {
        OpenKeepsStanding(levelZero, levels, top, contents);
        levels := levels[l := map[]];
        top := l;
      }
    }

    /** `collate_exprs`: pack level_0 into a new segment of level_1. */
    method Collate() returns (ok: bool)
      requires Valid()
      modifies this`levelZero, this`levels, this`top
      ensures Valid()
      ensures ok ==> old(levelZero) != map[] && levelZero == map[] && 1 in levels
      ensures !ok ==> levelZero == old(levelZero)
      ensures old(levelZero) != map[] && KeyCost(contents.Keys, contents) < Pow256(64) ==> ok
    {
      hide Represents, SegmentOk, InSegment, KeyCost, Pow256, FileCost, InLevels;
      OpenLevel(1);
      if levelZero == map[] {
        return false;
      }
      var packed := PackFiles(levelZero, contents);
      if packed.None? {
        return false;
      }
      var n := NextNumber(levels[1]);
      CollateKeepsStanding(levelZero, levels, top, contents, n, packed.value);
      levels := levels[1 := With(levels[1], n, packed.value)];
      levelZero := map[];
      NoFilesCostNothing();
      return true;
    }

    /** `merge_exprs`: combine all segments of a level into one segment of the next. */
    method Merge(level: nat) returns (ok: bool)
      requires Valid() && level in levels
      modifies this`levels, this`top
      ensures Valid()
      ensures top == Max(old(top), level + 1) && level + 1 in levels
      ensures OthersKept(old(levels), levels, level)
      ensures ok ==> old(levels[level]) != map[] && levels[level] == map[]
      ensures ok ==> LevelBytes(levels[level + 1]) <= LevelBytes(old(levels[level]))
                       + if level + 1 in old(levels) then LevelBytes(old(levels[level + 1])) else 0
      ensures old(levels[level]) != map[] && KeyCost(contents.Keys, contents) < Pow256(64) ==> ok
    {
      hide Represents, Stands, LevelOk, KeyCost, Pow256, FileCost, LevelBytes;
      LevelsThatStand(levelZero, levels, top, contents);
      OpenLevel(level + 1);
      assert OthersKept(old(levels), levels, level);
      NothingInEmptyLevelBytes();
      LevelsThatStand(levelZero, levels, top, contents);
      var packed, keys := PackLevel(levels[level], contents);
      if packed.None? {
        return false;
      }
      var n := NextNumber(levels[level + 1]);
      RepresentsOk(packed.value, keys, contents);
      LevelMerged(levels, level, n, packed.value, keys, contents);
      MergeKeepsStanding(levelZero, levels, top, contents, level, n, packed.value, keys);
      levels := Merged(levels, level, n, packed.value);
      assert OthersKept(old(levels), levels, level);
      return true;
    }

    /** One turn of the cascade: merge the level if it is over its limit. */
    method CascadeStep(level: nat, ghost start: map<nat, Level>, ghost total: int) returns (ok: bool)
      requires Valid() && level >= 1 && level in levels
      requires LimitsBelow(levels, baseSize, level) && CarriedUp(start, levels, level)
      requires exists t: nat :: start.Keys == LevelNumbers(t) && total == Prefix(start, t)
      modifies this`levels, this`top
      ensures Valid() && level <= top <= Max(old(top), total)
      ensures ok ==> LimitsBelow(levels, baseSize, level + 1) && CarriedUp(start, levels, level + 1)
      ensures ok && LevelBytes(old(levels[level])) > Limit(baseSize, level) ==>
                levels[level] == map[] && level + 1 in levels && OthersKept(old(levels), levels, level)
      ensures LevelBytes(old(levels[level])) <= Limit(baseSize, level) ==> levels == old(levels)
      ensures baseSize > 0 && KeyCost(contents.Keys, contents) < Pow256(64) ==> ok
    {
      hide Stands, KeyCost, Pow256, FileCost, LevelBytes, Limit, LimitsBelow, CarriedUp, LevelNumbers, Prefix;
      LevelsThatStand(levelZero, levels, top, contents);
      var bytes := LevelSize(levels[level]);
      if baseSize <= 0 {
        return false;
      }
      ghost var before := levels;
      if bytes > Limit(baseSize, level) {
        OverLimit(baseSize, level, bytes);
        CarriedBound(start, levels, level, total);
        BytesMeanFiles(levels[level]);
        var merged := Merge(level);
        if !merged {
          return false;
        }
        NothingInEmptyLevelBytes();
        CarryOn(start, before, levels, level);
      } else {
        KeepOn(start, levels, level);
      }
      LimitsStep(before, levels, baseSize, level);
      return true;
    }

    /** Merge every level that is over its limit, lowest first. */
    method Cascade() returns (ok: bool)
      requires Valid()
      modifies this`levels, this`top
      ensures Valid()
      ensures ok ==> forall l :: l in levels ==> LevelBytes(levels[l]) <= Limit(baseSize, l)
      ensures old(WithinLimits()) ==> levels == old(levels)
      ensures baseSize > 0 && KeyCost(contents.Keys, contents) < Pow256(64) ==> ok
    {
      hide Stands, KeyCost, Pow256, FileCost, LevelBytes, Limit, LimitsBelow, CarriedUp;
      LevelsThatStand(levelZero, levels, top, contents);
      ghost var start, bound := levels, Max(top, Prefix(levels, top));
      ghost var total := Prefix(levels, top);
      CascadeStarts(levels, top, baseSize);
      var level := 1;
      while level in levels
        invariant Valid()
        invariant 1 <= level <= top + 1 && top <= bound
        invariant LimitsBelow(levels, baseSize, level)
        invariant CarriedUp(start, levels, level)
        invariant old(WithinLimits()) ==> levels == start
        decreases bound + 2 - level
      {
        ok := CascadeStep(level, start, total);
        if !ok {
          return false;
        }
        level := level + 1;
      }
      LevelsThatStand(levelZero, levels, top, contents);
      AllWithin(levels, baseSize, level, top);
      return true;
    }

    /** `put_expr_in_cold_storage` for one expression. */
    method Put(key: Digest, value: Bytes) returns (ok: bool)
      requires Valid() && value == content(key)
      modifies this
      ensures Valid() && contents == old(contents)[key := value]
      ensures ok && old(WithinLimits()) ==> WithinLimits()
      ensures ok && baseSize >= 0 ==> FileCost(levelZero) <= trackedSize <= baseSize
      ensures old(trackedSize) + |value| <= baseSize ==>
                && ok && levels == old(levels) && levelZero == old(levelZero)[key := value]
                && trackedSize == old(trackedSize) + |value|
      ensures ok && old(trackedSize) + |value| > baseSize ==> levelZero == map[] && trackedSize == 0
      ensures baseSize > 0 && KeyCost(contents.Keys, contents) < Pow256(64) ==> ok
    {
      hide Stands, KeyCost, Pow256, FileCost, LevelBytes, Limit;
      PutKeepsStanding(levelZero, levels, top, contents, key, value);
      PutFileCost(levelZero, key, value);
      levelZero := levelZero[key := value];
      contents := contents[key := value];
      trackedSize := trackedSize + |value|;
      assert key in levelZero;
      if trackedSize > baseSize {
        ok := Collate();
        if !ok {
          return false;
        }
        trackedSize := 0;
        NoFilesCostNothing();
        ok := Cascade();
      } else {
        ok := true;
      }
    }

    /**
     * `put_expr_in_cold_storage`: the children of a link first, whatever becomes of them, then the expression.
     * While everything stored stays within 64-bit offsets, all of it succeeds and keeps the level limits.
     */
    method PutTree(e: Stored) returns (ok: bool)
      requires Valid() && Addressed(e, content)
      modifies this
      ensures Valid() && contents == Named(old(contents).Keys + Ids(e), content)
      ensures ok && baseSize >= 0 ==> FileCost(levelZero) <= trackedSize <= baseSize
      ensures baseSize > 0 && KeyCost(contents.Keys, contents) < Pow256(64) ==> ok && (old(WithinLimits()) ==> WithinLimits())
      decreases e, 0
    {
      hide Stands, FileCost, KeyCost, Pow256, WithinLimits, Valid, Named;
      ghost var was := contents.Keys;
      PutAll(e.children);
      ghost var before := was + IdsOf(e.children);
      ok := Put(e.key, e.value);
      NamedOneMore(before, e.key, content);
      NamedCostGrows(before, before + {e.key}, content);
      assert before + {e.key} == was + Ids(e);
    }

    method PutAll(es: seq<Stored>)
      requires Valid() && forall c :: c in es ==> Addressed(c, content)
      modifies this
      ensures Valid() && contents == Named(old(contents).Keys + IdsOf(es), content)
      ensures baseSize > 0 && KeyCost(contents.Keys, contents) < Pow256(64) && old(WithinLimits()) ==> WithinLimits()
      decreases es, 1
    {
      hide Stands, FileCost, KeyCost, Pow256, WithinLimits, Valid, Named, Addressed, Ids, IdsOf;
      ghost var was := contents.Keys;
      ghost var fits := baseSize > 0 && KeyCost(was + IdsOf(es), Named(was + IdsOf(es), content)) < Pow256(64) && WithinLimits();
      NoneYet();
      for i := 0 to |es|
        invariant Valid() && contents == Named(was + IdsOf(es[..i]), content)
        invariant fits ==> WithinLimits()
      {
        IdsOfOneMore(es, i);
        IdsPrefix(es, i + 1);
        NamedCostGrows(was + IdsOf(es[..i + 1]), was + IdsOf(es), content);
        assert was + IdsOf(es[..i]) + Ids(es[i]) == was + IdsOf(es[..i + 1]);
        var stored := PutTree(es[i]);
      }
      assert es[..|es|] == es;
    }

    lemma {:induction false} NoneYet()
      requires Valid()
      ensures IdsOf([]) == {} && contents == Named(contents.Keys + IdsOf([]), content)
    {
      hide Stands;
    }

    /** `get_expr_from_cold_storage`: level_0 first, then the levels upwards. */
    method Get(key: Digest) returns (found: Option<Bytes>)
      requires Valid()
      ensures found == if key in contents then Some(contents[key]) else None
    {
      hide Stands, LevelOk, FileCost;
      LevelsThatStand(levelZero, levels, top, contents);
      ContentsThatStand(levelZero, levels, top, contents);
      if key in levelZero {
        return Some(levelZero[key]);
      }
      var level := 1;
      while level in levels
        invariant 1 <= level <= top + 1
        invariant forall l :: l in levels && l < level ==> !InLevel(levels[l], key)
        decreases top + 1 - level
      {
        found := GetFromLevel(levels[level], key, contents);
        if found.Some? {
          return;
        }
        level := level + 1;
      }
      return None;
    }

    /** `get_exprs_from_cold_storage`: the same search for many keys at once. */
    method GetMany(keys: set<Digest>) returns (results: map<Digest, Bytes>)
      requires Valid()
      ensures results == map k | k in keys && k in contents :: contents[k]
    {
      hide Stands, LevelOk, FileCost, InLevel;
      LevelsThatStand(levelZero, levels, top, contents);
      ContentsThatStand(levelZero, levels, top, contents);
      results := map k | k in keys && k in levelZero :: levelZero[k];
      var pending := keys - results.Keys;
      var level := 1;
      while pending != {} && level in levels
        invariant 1 <= level <= top + 1
        invariant pending == keys - results.Keys && results.Keys <= keys
        invariant forall k :: k in results ==> k in contents && results[k] == contents[k]
        invariant forall k :: k in keys && k in levelZero ==> k in results
        invariant forall l, k :: l in levels && l < level && InLevel(levels[l], k) && k in keys ==> k in results
        decreases top + 1 - level
      {
        var found := GetManyFromLevel(levels[level], pending, contents);
        results := results + found;
        pending := pending - found.Keys;
        level := level + 1;
      }
      if pending == {} {
        assert forall k :: k in keys ==> k in results || k in pending;
      } else {
        forall k | k in keys && k in contents && k !in levelZero
          ensures k in results
        {
          var l :| l in levels && InLevel(levels[l], k);
        }
      }
    }
  }

  lemma {:induction false} CascadeStarts(levels: map<nat, Level>, top: nat, base: int)
    requires levels.Keys == LevelNumbers(top)
    ensures LimitsBelow(levels, base, 1) && CarriedUp(levels, levels, 1) && Prefix(levels, top) >= 0
  {
    hide LevelBytes;
    PrefixMonotone(levels, 0, top);
    assert 0 !in levels;
    assert Prefix(levels, 1) == Prefix(levels, 0) + if 1 in levels then LevelBytes(levels[1]) else 0;
  }

  lemma {:induction false} CarriedBound(start: map<nat, Level>, levels: map<nat, Level>, level: nat, total: int)
    requires level in levels && CarriedUp(start, levels, level)
    requires exists top: nat :: start.Keys == LevelNumbers(top) && total == Prefix(start, top)
    ensures LevelBytes(levels[level]) <= total
  {
    var top: nat :| start.Keys == LevelNumbers(top) && total == Prefix(start, top);
    PrefixBound(start, top, level);
  }

  lemma {:induction false} BytesMeanFiles(level: Level)
    requires LevelBytes(level) > 0
    ensures level != map[]
  {
  }

  lemma {:induction false} AllWithin(levels: map<nat, Level>, base: int, level: nat, top: nat)
    requires LimitsBelow(levels, base, level) && top < level && forall l :: l in levels ==> l <= top
    ensures forall l :: l in levels ==> LevelBytes(levels[l]) <= Limit(base, l)
  {
  }
}
