/**
 * The segment files of the cold store, byte for byte: `<n>_index` is a 64-byte
 * big-endian entry count followed by 160-byte entries (32-byte key, 64-byte
 * position, 64-byte size) sorted by key; `<n>_data` is the concatenated values.
 */
module ColdFormat {
  import opened Common
  import opened Endian

  const HEADER_BYTES := 64
  const ENTRY_BYTES := 160
  const FIELD_BYTES := 64

  datatype Segment = Segment(index: Bytes, data: Bytes)

  // ------------------------------------------------------------ the key order

  /** `a < b` on Python `bytes`. */
  predicate Less(a: Bytes, b: Bytes)
  {
    b != [] && (a == [] || a[0] < b[0] || (a[0] == b[0] && Less(a[1..], b[1..])))
  }

  lemma {:induction false} LessTransitive(a: Bytes, b: Bytes, c: Bytes)
    requires Less(a, b) && Less(b, c)
    ensures Less(a, c)
  {
    if a != [] && a[0] == b[0] == c[0] {
      LessTransitive(a[1..], b[1..], c[1..]);
    }
  }

  lemma {:induction false} LessTotal(a: Bytes, b: Bytes)
    ensures Less(a, b) || Less(b, a) || a == b
    ensures !(Less(a, b) && Less(b, a)) && !Less(a, a)
  {
    if a != [] && b != [] {
      LessTotal(a[1..], b[1..]);
      LessTotal(a[1..], a[1..]);
      assert a == [a[0]] + a[1..] && b == [b[0]] + b[1..];
    } else if a != [] {
      LessTotal(a[1..], a[1..]);
    }
  }

  /** The order of the files: the first byte that differs decides, and a prefix comes first. */
  lemma {:induction false} LessAtFirstDifference(a: Bytes, b: Bytes, i: nat)
    requires i <= |a| && i <= |b| && a[..i] == b[..i]
    ensures i < |a| && i < |b| && a[i] < b[i] ==> Less(a, b) && !Less(b, a)
    ensures i == |a| < |b| ==> Less(a, b) && !Less(b, a)
  {
    if i > 0 {
      assert a[0] == a[..i][0] && b[0] == b[..i][0];
      assert a[1..][..i - 1] == a[..i][1..] && b[1..][..i - 1] == b[..i][1..];
      LessAtFirstDifference(a[1..], b[1..], i - 1);
    }
  }

  ghost predicate Ascending(keys: seq<Digest>)
  {
    forall i, j :: 0 <= i < j < |keys| ==> Less(keys[i], keys[j])
  }

  /** `sorted(keys)`, by taking the least remaining key. */
  method SortKeys(keys: set<Digest>) returns (sorted: seq<Digest>)
    ensures Ascending(sorted)
    ensures forall k :: k in keys <==> k in sorted
    ensures |sorted| == |keys|
  {
    sorted := [];
    var remaining := keys;
    while remaining != {}
      invariant Ascending(sorted)
      invariant remaining <= keys && |sorted| + |remaining| == |keys|
      invariant forall k :: k in keys <==> k in remaining || k in sorted
      invariant forall i, k :: 0 <= i < |sorted| && k in remaining ==> Less(sorted[i], k)
      decreases |remaining|
    {
      var least := LeastKey(remaining);
      sorted := sorted + [least];
      remaining := remaining - {least};
    }
  }

  method LeastKey(keys: set<Digest>) returns (least: Digest)
    requires keys != {}
    ensures least in keys
    ensures forall k :: k in keys && k != least ==> Less(least, k)
  {
    least :| least in keys;
    var rest := keys - {least};
    while rest != {}
      invariant least in keys && rest <= keys && least !in rest
      invariant forall k :: k in keys && k !in rest && k != least ==> Less(least, k)
      decreases |rest|
    {
      var k :| k in rest;
      rest := rest - {k};
      LessTotal(k, least);
      if Less(k, least) {
        forall other | other in keys && other !in rest && other != k && other != least
          ensures Less(k, other)
        {
          LessTransitive(k, least, other);
        }
        least := k;
      }
    }
  }

  // --------------------------------------------------------- reading the files

  /** `file.seek(at); file.read(n)`: fewer bytes at the end of the file. */
  function Read(file: Bytes, at: nat, n: nat): Bytes
  {
    if at >= |file| then [] else if at + n <= |file| then file[at..at + n] else file[at..]
  }

  function EntryAt(i: nat): nat { HEADER_BYTES + ENTRY_BYTES * i }

  function Count(index: Bytes): nat { FromBig(Read(index, 0, HEADER_BYTES)) }

  function KeyAt(index: Bytes, i: nat): Bytes { Read(index, EntryAt(i), 32) }

  function PositionAt(index: Bytes, i: nat): nat { FromBig(Read(index, EntryAt(i) + 32, FIELD_BYTES)) }

  function SizeAt(index: Bytes, i: nat): nat { FromBig(Read(index, EntryAt(i) + 96, FIELD_BYTES)) }

  lemma {:induction false} ReadPrefix(file: Bytes, more: Bytes, at: nat, n: nat)
    requires at + n <= |file|
    ensures Read(file + more, at, n) == Read(file, at, n) && |Read(file, at, n)| == n
  {
  }

  /** An index whose length fits its count and whose keys ascend strictly. */
  ghost predicate IndexOk(index: Bytes)
  {
    && |index| == EntryAt(Count(index))
    && forall i, j :: 0 <= i < j < Count(index) ==> Less(KeyAt(index, i), KeyAt(index, j))
  }

  ghost predicate HasKey(index: Bytes, key: Bytes, i: nat) { i < Count(index) && KeyAt(index, i) == key }

  lemma {:induction false} KeyFoundOnce(index: Bytes, key: Bytes, i: nat, j: nat)
    requires IndexOk(index) && HasKey(index, key, i) && HasKey(index, key, j)
    ensures i == j
  {
    LessTotal(key, key);
  }

  /** The binary search of `_search_open_index`, short reads and all. */
  method FindInIndex(index: Bytes, key: Digest) returns (hit: Option<(nat, nat)>)
    ensures hit.Some? ==>
              (exists i: nat :: HasKey(index, key, i) && hit.value == (PositionAt(index, i), SizeAt(index, i)))
    ensures IndexOk(index) ==> (hit.Some? <==> exists i: nat :: HasKey(index, key, i))
  {
    if |Read(index, 0, HEADER_BYTES)| != HEADER_BYTES {
      return None;
    }
    var left, right := 0, Count(index) - 1;
    while left <= right
      invariant 0 <= left <= Count(index) && -1 <= right < Count(index)
      invariant IndexOk(index) ==> forall i: nat :: HasKey(index, key, i) ==> left <= i <= right
      decreases right - left + 1
    {
      var mid := (left + right) / 2;
      var entryKey := KeyAt(index, mid);
      var position := Read(index, EntryAt(mid) + 32, FIELD_BYTES);
      var size := Read(index, EntryAt(mid) + 96, FIELD_BYTES);
      if |entryKey| != 32 || |position| != FIELD_BYTES || |size| != FIELD_BYTES {
        return None;
      }
      if entryKey == key {
        assert HasKey(index, key, mid);
        return Some((FromBig(position), FromBig(size)));
      }
      LessTotal(entryKey, key);
      if IndexOk(index) {
        SearchNarrows(index, key, mid);
      }
      if Less(entryKey, key) {
        left := mid + 1;
      } else {
        right := mid - 1;
      }
    }
    return None;
  }

  lemma {:induction false} SearchNarrows(index: Bytes, key: Digest, mid: nat)
    requires IndexOk(index) && mid < Count(index)
    ensures forall i: nat :: HasKey(index, key, i) ==>
              if Less(KeyAt(index, mid), key) then i > mid else KeyAt(index, mid) == key || i < mid
  {
    forall i: nat | HasKey(index, key, i)
      ensures if Less(KeyAt(index, mid), key) then i > mid else KeyAt(index, mid) == key || i < mid
    {
      LessTotal(KeyAt(index, mid), key);
      if i < mid {
        assert Less(key, KeyAt(index, mid));
      } else if mid < i {
        assert Less(KeyAt(index, mid), key);
      }
    }
  }

  // --------------------------------------------------------- writing the files

  /** The position of value i: the sizes of the values before it. */
  function Offset(sizes: seq<nat>, i: nat): (o: nat)
    requires i <= |sizes|
  {
    if i == 0 then 0 else Offset(sizes, i - 1) + sizes[i - 1]
  }

  lemma {:induction false} OffsetMonotone(sizes: seq<nat>, i: nat, j: nat)
    requires i <= j <= |sizes|
    ensures Offset(sizes, i) <= Offset(sizes, j)
  {
    if i < j {
      OffsetMonotone(sizes, i, j - 1);
    }
  }

  predicate FieldsFit(sizes: seq<nat>, i: nat)
    requires i < |sizes|
  {
    sizes[i] < Pow256(64) && Offset(sizes, i) < Pow256(64)
  }

  /** Every number fits in its 64 bytes; otherwise `to_bytes` raises OverflowError. */
  predicate Encodable(sizes: seq<nat>)
  {
    && |sizes| < Pow256(64)
    && forall i :: 0 <= i < |sizes| ==> FieldsFit(sizes, i)
  }

  lemma {:induction false} SmallIsEncodable(sizes: seq<nat>)
    requires |sizes| + Offset(sizes, |sizes|) < Pow256(64)
    ensures Encodable(sizes)
  {
    hide Pow256;
    forall i | 0 <= i < |sizes|
      ensures FieldsFit(sizes, i)
    {
      OffsetMonotone(sizes, i + 1, |sizes|);
    }
  }

  /** Entry i of the index is keys[i], with its offset and size. */
  ghost predicate EntryIs(index: Bytes, keys: seq<Digest>, sizes: seq<nat>, i: nat)
    requires |keys| == |sizes|
  {
    i < |keys| && KeyAt(index, i) == keys[i] && PositionAt(index, i) == Offset(sizes, i) && SizeAt(index, i) == sizes[i]
  }

  ghost predicate IndexIs(index: Bytes, keys: seq<Digest>, sizes: seq<nat>)
    requires |keys| == |sizes|
  {
    && Count(index) == |keys|
    && |index| == EntryAt(|keys|)
    && forall i :: 0 <= i < |keys| ==> EntryIs(index, keys, sizes, i)
  }

  method WriteIndex(keys: seq<Digest>, sizes: seq<nat>) returns (index: Option<Bytes>)
    requires |keys| == |sizes|
    ensures index.Some? <==> Encodable(sizes)
    ensures index.Some? ==> IndexIs(index.value, keys, sizes)
  {
    hide FromBig;
    hide ToBig;
    hide Pow256;
    if |keys| >= Pow256(64) {
      return None;
    }
    var file := ToBig(|keys|, HEADER_BYTES);
    FromToBig(|keys|, HEADER_BYTES);
    var position := 0;
    assert Read(file, 0, HEADER_BYTES) == file;
    for i := 0 to |keys|
      invariant |file| == EntryAt(i) && position == Offset(sizes, i)
      invariant Count(file) == |keys|
      invariant forall j :: 0 <= j < i ==> FieldsFit(sizes, j)
      invariant forall j :: 0 <= j < i ==> EntryIs(file, keys, sizes, j)
    {
      assert FieldsFit(sizes, i) <==> position < Pow256(64) && sizes[i] < Pow256(64);
      if position >= Pow256(64) || sizes[i] >= Pow256(64) {
        return None;
      }
      var entry := keys[i] + ToBig(position, 64) + ToBig(sizes[i], 64);
      AppendEntry(file, keys, sizes, i, entry);
      file := file + entry;
      position := position + sizes[i];
    }
    return Some(file);
  }

  /** The layout of an index file: the count, then key, position and size of every entry. */
  lemma {:induction false} IndexLayout(index: Bytes, keys: seq<Digest>, sizes: seq<nat>)
    requires |keys| == |sizes| && IndexIs(index, keys, sizes)
    ensures |index| == 64 + 160 * |keys| && FromBig(index[..64]) == |keys|
    ensures forall i :: 0 <= i < |keys| ==>
              && index[64 + 160 * i..96 + 160 * i] == keys[i]
              && FromBig(index[96 + 160 * i..160 + 160 * i]) == Offset(sizes, i)
              && FromBig(index[160 + 160 * i..224 + 160 * i]) == sizes[i]
  {
    hide FromBig, Offset;
    forall i | 0 <= i < |keys|
      ensures index[64 + 160 * i..96 + 160 * i] == keys[i]
      ensures FromBig(index[96 + 160 * i..160 + 160 * i]) == Offset(sizes, i)
      ensures FromBig(index[160 + 160 * i..224 + 160 * i]) == sizes[i]
    {
      assert EntryIs(index, keys, sizes, i);
    }
  }

  lemma {:induction false} EntryKept(file: Bytes, keys: seq<Digest>, sizes: seq<nat>, j: nat, more: Bytes)
    requires |keys| == |sizes| && EntryIs(file, keys, sizes, j) && EntryAt(j + 1) <= |file|
    ensures EntryIs(file + more, keys, sizes, j)
  {
    hide FromBig;
    ReadPrefix(file, more, EntryAt(j), 32);
    ReadPrefix(file, more, EntryAt(j) + 32, 64);
    ReadPrefix(file, more, EntryAt(j) + 96, 64);
  }

  lemma {:induction false} EntryAppended(file: Bytes, key: Digest, position: Bytes, size: Bytes, i: nat)
    requires |file| == EntryAt(i) && |position| == |size| == 64
    ensures KeyAt(file + (key + position + size), i) == key
    ensures PositionAt(file + (key + position + size), i) == FromBig(position)
    ensures SizeAt(file + (key + position + size), i) == FromBig(size)
  {
    hide FromBig;
    var f := file + (key + position + size);
    assert f[EntryAt(i)..EntryAt(i) + 32] == key;
    assert f[EntryAt(i) + 32..EntryAt(i) + 96] == position;
    assert f[EntryAt(i) + 96..EntryAt(i) + 160] == size;
  }

  lemma {:induction false} AppendEntry(file: Bytes, keys: seq<Digest>, sizes: seq<nat>, i: nat, entry: Bytes)
    requires i < |keys| == |sizes| && |file| == EntryAt(i)
    requires Offset(sizes, i) < Pow256(64) && sizes[i] < Pow256(64)
    requires entry == keys[i] + ToBig(Offset(sizes, i), 64) + ToBig(sizes[i], 64)
    requires forall j :: 0 <= j < i ==> EntryIs(file, keys, sizes, j)
    ensures Count(file + entry) == Count(file)
    ensures forall j :: 0 <= j <= i ==> EntryIs(file + entry, keys, sizes, j)
  {
    hide FromBig;
    hide ToBig;
    hide Pow256;
    ReadPrefix(file, entry, 0, HEADER_BYTES);
    forall j | 0 <= j < i
      ensures EntryIs(file + entry, keys, sizes, j)
    {
      EntryKept(file, keys, sizes, j, entry);
    }
    FromToBig(Offset(sizes, i), 64);
    FromToBig(sizes[i], 64);
    EntryAppended(file, keys[i], ToBig(Offset(sizes, i), 64), ToBig(sizes[i], 64), i);
  }

  function Sizes(values: seq<Bytes>): (sizes: seq<nat>)
    ensures |sizes| == |values|
  {
    seq(|values|, i requires 0 <= i < |values| => |values[i]|)
  }

  function Concat(values: seq<Bytes>): Bytes
  {
    if values == [] then [] else Concat(values[..|values| - 1]) + values[|values| - 1]
  }

  lemma {:induction false} ReadTail(file: Bytes, more: Bytes)
    ensures Read(file + more, |file|, |more|) == more
  {
  }

  /** Every (position, size) span cuts its value out of the data file. */
  lemma {:induction false} SpanCutsValue(values: seq<Bytes>, i: nat)
    requires i < |values|
    ensures |Concat(values)| == Offset(Sizes(values), |values|)
    ensures Offset(Sizes(values), i) + |values[i]| <= |Concat(values)|
    ensures Read(Concat(values), Offset(Sizes(values), i), |values[i]|) == values[i]
  {
    var rest := values[..|values| - 1];
    ConcatLength(values);
    ConcatLength(rest);
    OffsetPrefix(values, i);
    OffsetPrefix(values, |values| - 1);
    if i < |values| - 1 {
      assert rest[i] == values[i];
      SpanCutsValue(rest, i);
      ReadPrefix(Concat(rest), values[|values| - 1], Offset(Sizes(values), i), |values[i]|);
    } else {
      ReadTail(Concat(rest), values[i]);
    }
  }

  lemma {:induction false} OffsetPrefix(values: seq<Bytes>, i: nat)
    requires i < |values|
    ensures Offset(Sizes(values[..|values| - 1]), i) == Offset(Sizes(values), i)
  {
    if i > 0 {
      OffsetPrefix(values, i - 1);
    }
  }

  lemma {:induction false} ConcatLength(values: seq<Bytes>)
    ensures |Concat(values)| == Offset(Sizes(values), |values|)
  {
    if values != [] {
      ConcatLength(values[..|values| - 1]);
      OffsetPrefix(values, |values| - 1);
    }
  }
}
