/**
 * The log-structured cold store of `storage/cold`: a put writes a file into
 * level_0; a full level_0 is collated into a sorted segment of level_1; a level
 * over its limit is merged into one segment of the next level.
 *
 * A directory is a map from file number to segment, and the store is a map from
 * level number to directory. `contents` is the plain map that the files stand for.
 */
module ColdStore {
  import opened Common
  import opened Endian
  import opened Sums
  import opened ColdFormat

  type Level = map<nat, Segment>

  function SegmentBytes(s: Segment): nat { |s.index| + |s.data| }

  ghost function LevelBytes(level: Level): int
  {
    Sum(level.Keys, n => if n in level then SegmentBytes(level[n]) else 0)
  }

  /** What storing these keys costs: an index entry and the value of each. */
  ghost function KeyCost(keys: set<Digest>, contents: map<Digest, Bytes>): int
  {
    Sum(keys, k => ENTRY_BYTES + if k in contents then |contents[k]| else 0)
  }

  ghost function FileCost(files: map<Digest, Bytes>): int
  {
    Sum(files.Keys, k => if k in files then |files[k]| else 0)
  }

  // ------------------------------------------------- what a segment stands for

  ghost predicate InSegment(s: Segment, key: Digest) { exists i: nat :: HasKey(s.index, key, i) }

  /** Entry i names a stored key, and its span cuts that key's value out of the data. */
  ghost predicate EntryHolds(s: Segment, i: nat, contents: map<Digest, Bytes>)
  {
    var key := KeyAt(s.index, i);
    && key in contents
    && SizeAt(s.index, i) == |contents[key]|
    && Read(s.data, PositionAt(s.index, i), SizeAt(s.index, i)) == contents[key]
  }

  /** A non-empty sorted segment of stored values; `keys` are the keys of its index. */
  ghost predicate Represents(s: Segment, keys: set<Digest>, contents: map<Digest, Bytes>)
  {
    && IndexOk(s.index)
    && keys != {}
    && (forall i: nat :: i < Count(s.index) ==> EntryHolds(s, i, contents))
    && (forall k: Digest :: k in keys <==> InSegment(s, k))
    && SegmentBytes(s) == HEADER_BYTES + KeyCost(keys, contents)
  }

  ghost predicate SegmentOk(s: Segment, contents: map<Digest, Bytes>)
  {
    exists keys: set<Digest> :: Represents(s, keys, contents)
  }

  ghost predicate LevelOk(level: Level, contents: map<Digest, Bytes>)
  {
    forall n :: n in level ==> SegmentOk(level[n], contents)
  }

  ghost predicate InLevel(level: Level, key: Digest)
  {
    exists n :: n in level && InSegment(level[n], key)
  }

  lemma {:induction false} SegmentKeys(s: Segment, keys: set<Digest>, contents: map<Digest, Bytes>)
    requires Represents(s, keys, contents)
    ensures keys <= contents.Keys
  {
    forall k | k in keys
      ensures k in contents
    {
      var i: nat :| HasKey(s.index, k, i);
      assert EntryHolds(s, i, contents);
    }
  }

  /** A segment stays good when the store learns one more value. */
  lemma {:induction false} SegmentOkGrows(s: Segment, contents: map<Digest, Bytes>, key: Digest, value: Bytes)
    requires SegmentOk(s, contents) && (key in contents ==> contents[key] == value)
    ensures SegmentOk(s, contents[key := value])
  {
    var keys: set<Digest> :| Represents(s, keys, contents);
    var grown := contents[key := value];
    SegmentKeys(s, keys, contents);
    SumCongruent(keys, k => ENTRY_BYTES + if k in contents then |contents[k]| else 0,
                       k => ENTRY_BYTES + if k in grown then |grown[k]| else 0);
    forall i: nat | i < Count(s.index)
      ensures EntryHolds(s, i, grown)
    {
      assert EntryHolds(s, i, contents);
    }
    assert Represents(s, keys, grown);
  }

  lemma {:induction false} LevelOkGrows(level: Level, contents: map<Digest, Bytes>, key: Digest, value: Bytes)
    requires LevelOk(level, contents) && (key in contents ==> contents[key] == value)
    ensures LevelOk(level, contents[key := value])
  {
    forall n | n in level
      ensures SegmentOk(level[n], contents[key := value])
    {
      SegmentOkGrows(level[n], contents, key, value);
    }
  }

  // ------------------------------------------------ what the writers produce

  ghost predicate ValuesOf(keys: seq<Digest>, values: seq<Bytes>, contents: map<Digest, Bytes>)
  {
    |keys| == |values| && forall i :: 0 <= i < |keys| ==> keys[i] in contents && contents[keys[i]] == values[i]
  }

  function KeySet(keys: seq<Digest>): (s: set<Digest>)
    ensures forall k: Digest :: k in s <==> k in keys
  {
    if keys == [] then {} else KeySet(keys[..|keys| - 1]) + {keys[|keys| - 1]}
  }

  lemma {:induction false} CostOfSequence(keys: seq<Digest>, values: seq<Bytes>, contents: map<Digest, Bytes>)
    requires ValuesOf(keys, values, contents) && Ascending(keys)
    ensures KeyCost(KeySet(keys), contents) == ENTRY_BYTES * |keys| + Offset(Sizes(values), |values|)
  {
    hide KeyCost, Ascending;
    if keys == [] {
      NoKeysCostNothing(contents);
    } else {
      var n := |keys| - 1;
      AscendingPrefix(keys, n);
      CostOfSequence(keys[..n], values[..n], contents);
      OffsetPrefix(values, n);
      LastIsNew(keys);
      KeyCostAdd(KeySet(keys[..n]), keys[n], contents);
    }
  }

  lemma {:induction false} NoKeysCostNothing(contents: map<Digest, Bytes>)
    ensures KeyCost({}, contents) == 0
  {
  }

  lemma {:induction false} AscendingPrefix(keys: seq<Digest>, n: nat)
    requires Ascending(keys) && n <= |keys|
    ensures Ascending(keys[..n])
  {
    hide Less;
  }

  lemma {:induction false} LastIsNew(keys: seq<Digest>)
    requires Ascending(keys) && keys != []
    ensures keys[|keys| - 1] !in KeySet(keys[..|keys| - 1])
  {
    var n := |keys| - 1;
    if keys[n] in KeySet(keys[..n]) {
      var i :| 0 <= i < n && keys[i] == keys[n];
      LessTotal(keys[i], keys[n]);
    }
  }

  lemma {:induction false} KeyCostAdd(keys: set<Digest>, k: Digest, contents: map<Digest, Bytes>)
    requires k !in keys && k in contents
    ensures KeyCost(keys + {k}, contents) == KeyCost(keys, contents) + ENTRY_BYTES + |contents[k]|
  {
    SumAdd(keys, k, (x: Digest) => ENTRY_BYTES + if x in contents then |contents[x]| else 0);
  }

  /** An index and a data file written from ascending keys make a good segment. */
  lemma {:induction false} WrittenSegmentOk(index: Bytes, keys: seq<Digest>, values: seq<Bytes>, contents: map<Digest, Bytes>)
    requires keys != [] && ValuesOf(keys, values, contents) && Ascending(keys)
    requires IndexIs(index, keys, Sizes(values))
    ensures Represents(Segment(index, Concat(values)), KeySet(keys), contents)
  {
    var s := Segment(index, Concat(values));
    var sizes := Sizes(values);
    assert forall i :: 0 <= i < |keys| ==> EntryIs(index, keys, sizes, i);
    forall i, j | 0 <= i < j < Count(index)
      ensures Less(KeyAt(index, i), KeyAt(index, j))
    {
      assert EntryIs(index, keys, sizes, i) && EntryIs(index, keys, sizes, j);
    }
    forall i: nat | i < Count(index)
      ensures EntryHolds(s, i, contents)
    {
      assert EntryIs(index, keys, sizes, i);
      SpanCutsValue(values, i);
    }
    forall k: Digest
      ensures k in keys <==> InSegment(s, k)
    {
      if k in keys {
        var i :| 0 <= i < |keys| && keys[i] == k;
        assert EntryIs(index, keys, sizes, i);
        assert HasKey(index, k, i);
      }
      if InSegment(s, k) {
        var i: nat :| HasKey(index, k, i);
        assert EntryIs(index, keys, sizes, i);
      }
    }
    CostOfSequence(keys, values, contents);
    ConcatLength(values);
    assert keys[0] in KeySet(keys);
  }

  method WriteData(values: seq<Bytes>) returns (data: Bytes)
    ensures data == Concat(values)
  {
    data := [];
    for i := 0 to |values|
      invariant data == Concat(values[..i])
    {
      assert values[..i + 1][..i] == values[..i];
      data := data + values[i];
    }
    assert values[..|values|] == values;
  }

  method Largest(numbers: set<nat>) returns (n: nat)
    requires numbers != {}
    ensures n in numbers && forall m :: m in numbers ==> m <= n
  {
    n :| n in numbers;
    var rest := numbers - {n};
    while rest != {}
      invariant n in numbers && rest <= numbers
      invariant forall m :: m in numbers && m !in rest ==> m <= n
      decreases |rest|
    {
      var m :| m in rest;
      rest := rest - {m};
      if m > n {
        n := m;
      }
    }
  }

  /** `_next_collated_number`. */
  method NextNumber(level: Level) returns (n: nat)
    ensures n !in level && forall m :: m in level ==> m < n
  {
    if level.Keys == {} {
      return 0;
    }
    var largest := Largest(level.Keys);
    n := largest + 1;
  }

  /** `_level_size`: the bytes of all files in a directory. */
  method LevelSize(level: Level) returns (total: nat)
    ensures total == LevelBytes(level)
  {
    ghost var f := (n: nat) => if n in level then SegmentBytes(level[n]) else 0;
    total := 0;
    var rest := level.Keys;
    while rest != {}
      invariant rest <= level.Keys
      invariant total + Sum(rest, f) == LevelBytes(level)
      decreases |rest|
    {
      var n :| n in rest;
      SumPick(rest, n, f);
      rest := rest - {n};
      total := total + SegmentBytes(level[n]);
    }
  }

  lemma {:induction false} AddSegment(level: Level, n: nat, s: Segment)
    requires n !in level
    ensures LevelBytes(level[n := s]) == LevelBytes(level) + SegmentBytes(s)
  {
    var grown := level[n := s];
    var f := (m: nat) => if m in level then SegmentBytes(level[m]) else 0;
    var g := (m: nat) => if m in grown then SegmentBytes(grown[m]) else 0;
    assert grown.Keys == level.Keys + {n};
    SumAdd(level.Keys, n, g);
    SumCongruent(level.Keys, f, g);
  }
}
