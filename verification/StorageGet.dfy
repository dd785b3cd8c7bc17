/** The STORAGE_GET request: `communication/storage_request/model.py`. */
module StorageGets {
  import opened Common
  import opened Endian
  import opened Powers
  import FoundPages
  import opened Shapes

  const GET_HEADER_BYTES := 2
  const GET_ENTRY_BYTES := 32 + 1
  const SCOPED_GET_ENTRY_BYTES := GET_ENTRY_BYTES + 32
  const SCOPED_FLAG := 0x80
  const STORAGE_GET: Byte := 0
  const RESOLUTION_DYNAMIC := 0
  const RESOLUTION_RADIX_KEY := 4
  const RESOLUTION_RADIX_ALL := 5

  // -------------------------------------------------------------------- varints

  function Varint(value: nat): (b: Bytes)
    ensures |b| > 0
  {
    if value < 128 then [value] else [value % 128 + 128] + Varint(value / 128)
  }

  /** `_varint_bytes`. */
  method VarintBytes(value: nat) returns (out: Bytes)
    ensures out == Varint(value)
  {
    out := [];
    var v := value;
    while true
      invariant out + Varint(v) == Varint(value)
      decreases v
    {
      var low := v % 128;
      if v / 128 != 0 {
        assert out + ([low + 128] + Varint(v / 128)) == out + [low + 128] + Varint(v / 128);
        out := out + [low + 128];
        v := v / 128;
      } else {
        return out + [low];
      }
    }
  }

  /** Up to k bytes of a varint from a position. */
  function ReadVarintBytes(data: Bytes, pos: nat, k: nat): (r: Result<(nat, nat)>)
    ensures r.Ok? ==> pos < r.value.1 <= |data|
    decreases k
  {
    if k == 0 then Err("shape length is too long")
    else if pos >= |data| then Err("truncated shape length")
    else if data[pos] < 128 then Ok((data[pos], pos + 1))
    else
      var r := ReadVarintBytes(data, pos + 1, k - 1);
      if r.Err? then r else Ok((data[pos] - 128 + 128 * r.value.0, r.value.1))
  }

  function ReadVarintSpec(data: Bytes, pos: nat): (r: Result<(nat, nat)>)
    ensures r.Ok? ==> pos < r.value.1 <= |data|
  {
    ReadVarintBytes(data, pos, 3)
  }

  /** `_read_varint`. */
  method ReadVarint(data: Bytes, pos: nat) returns (r: Result<(nat, nat)>)
    ensures r == ReadVarintSpec(data, pos)
  {
    hide ReadVarintBytes;
    var value: nat := 0;
    for index := 0 to 3
      invariant var rest := ReadVarintBytes(data, pos + index, 3 - index);
        ReadVarintSpec(data, pos) == if rest.Err? then rest else Ok((value + Shifted(rest.value.0, index), rest.value.1))
    {
      VarintByte(data, pos + index, 3 - index);
      if pos + index >= |data| {
        return Err("truncated shape length");
      }
      var byte := data[pos + index];
      value := value + Shifted(byte % 128, index);
      if byte < 128 {
        return Ok((value, pos + index + 1));
      }
    }
    VarintByte(data, pos + 3, 0);
    return Err("shape length is too long");
  }

  /** `v << (7 * index)`. */
  function Shifted(v: nat, index: nat): nat
    requires index < 4
  {
    if index == 0 then v else if index == 1 then 128 * v else if index == 2 then 16384 * v else 2097152 * v
  }

  lemma {:induction false} VarintByte(data: Bytes, pos: nat, k: nat)
    ensures k == 0 ==> ReadVarintBytes(data, pos, k) == Err("shape length is too long")
    ensures k > 0 && pos >= |data| ==> ReadVarintBytes(data, pos, k) == Err("truncated shape length")
    ensures k > 0 && pos < |data| && data[pos] < 128 ==> ReadVarintBytes(data, pos, k) == Ok((data[pos], pos + 1))
    ensures k > 0 && pos < |data| && data[pos] >= 128 ==>
              var r := ReadVarintBytes(data, pos + 1, k - 1);
              ReadVarintBytes(data, pos, k) == if r.Err? then r else Ok((data[pos] - 128 + 128 * r.value.0, r.value.1))
  {
  }

  lemma {:induction false} VarintLength(value: nat)
    ensures |Varint(value)| <= 3 <==> value < 2097152
    ensures value < 2097152 ==> |Varint(value)| == if value < 128 then 1 else if value < 16384 then 2 else 3
  {
    if value >= 128 {
      assert Varint(value / 128) == if value / 128 < 128 then [value / 128] else [value / 128 % 128 + 128] + Varint(value / 128 / 128);
      if value / 128 >= 128 {
        var v := value / 128 / 128;
        assert Varint(v) == if v < 128 then [v] else [v % 128 + 128] + Varint(v / 128);
      }
    }
  }

  /** Byte k is the digit of 128^k, the lowest first; all but the last byte have the bit 0x80. */
  lemma {:induction false} VarintDigit(value: nat, k: nat)
    requires k < |Varint(value)|
    ensures Varint(value)[k] % 128 == value / Pow2(7 * k) % 128
    ensures Varint(value)[k] >= 128 <==> k + 1 < |Varint(value)|
    ensures |Varint(value)| > 1 ==> value / Pow2(7 * (|Varint(value)| - 1)) > 0
    decreases value
  {
    hide Pow2;
    SevenBits(0);
    if value >= 128 {
      var n := |Varint(value)|;
      assert Varint(value)[1..] == Varint(value / 128);
      VarintDigit(value / 128, if k > 0 then k - 1 else 0);
      SevenBits(n - 2);
      DivideTwice(value, 128, Pow2(7 * (n - 2)));
      if k > 0 {
        SevenBits(k - 1);
        DivideTwice(value, 128, Pow2(7 * (k - 1)));
      }
    }
  }

  lemma {:induction false} SevenBits(k: nat)
    ensures Pow2(0) == 1 && Pow2(7 * k + 7) == 128 * Pow2(7 * k)
  {
    assert Pow2(7) == 128 by { assert Pow2(4) == 16; }
    Pow2Add(7, 7 * k);
  }

  /** A varint of at most k bytes is read back, wherever it stands. */
  lemma {:induction false} VarintRoundTrip(data: Bytes, pos: nat, value: nat, k: nat)
    requires |Varint(value)| <= k && pos + |Varint(value)| <= |data|
    requires data[pos..pos + |Varint(value)|] == Varint(value)
    ensures ReadVarintBytes(data, pos, k) == Ok((value, pos + |Varint(value)|))
    decreases k
  {
    var b := Varint(value);
    Part(data, pos, b, 0, 1);
    if value >= 128 {
      assert b[1..] == Varint(value / 128);
      Part(data, pos, b, 1, |b|);
      VarintRoundTrip(data, pos + 1, value / 128, k - 1);
    }
  }

  /** A varint of more than k bytes is refused. */
  lemma {:induction false} VarintTooLong(data: Bytes, pos: nat, value: nat, k: nat)
    requires |Varint(value)| > k && pos + |Varint(value)| <= |data|
    requires data[pos..pos + |Varint(value)|] == Varint(value)
    ensures ReadVarintBytes(data, pos, k).Err?
    decreases k
  {
    var b := Varint(value);
    Part(data, pos, b, 0, 1);
    if k > 0 {
      assert value >= 128 && b[1..] == Varint(value / 128);
      Part(data, pos, b, 1, |b|);
      VarintTooLong(data, pos + 1, value / 128, k - 1);
    }
  }

  /** What the three-byte read makes of a written varint. */
  lemma {:induction false} WrittenVarint(data: Bytes, pos: nat, value: nat)
    requires pos + |Varint(value)| <= |data| && data[pos..pos + |Varint(value)|] == Varint(value)
    ensures value < 2097152 ==> ReadVarintSpec(data, pos) == Ok((value, pos + |Varint(value)|))
    ensures value >= 2097152 ==> ReadVarintSpec(data, pos).Err?
  {
    VarintLength(value);
    if value < 2097152 {
      VarintRoundTrip(data, pos, value, 3);
    } else {
      VarintTooLong(data, pos, value, 3);
    }
  }

  /** A read depends on nothing but the bytes that it consumes. */
  ghost predicate SameBytes(data: Bytes, pos: nat, other: Bytes, at: nat, n: nat)
  {
    pos + n <= |data| && at + n <= |other| && data[pos..pos + n] == other[at..at + n]
  }

  lemma {:induction false} SameWithin(data: Bytes, pos: nat, other: Bytes, at: nat, n: nat, skip: nat, m: nat)
    requires SameBytes(data, pos, other, at, n) && skip + m <= n
    ensures SameBytes(data, pos + skip, other, at + skip, m)
  {
    SubSlice(data, pos, n, skip, m);
    SubSlice(other, at, n, skip, m);
  }

  lemma {:induction false} SubSlice(data: Bytes, pos: nat, n: nat, skip: nat, m: nat)
    requires pos + n <= |data| && skip + m <= n
    ensures data[pos + skip..pos + skip + m] == data[pos..pos + n][skip..skip + m]
  {
    var part := data[pos..pos + n];
    forall k | skip <= k < skip + m
      ensures data[pos + k] == part[k]
    {
    }
  }

  lemma {:induction false} VarintIsLocal(data: Bytes, pos: nat, other: Bytes, at: nat, k: nat)
    requires var r := ReadVarintBytes(data, pos, k);
      r.Ok? && SameBytes(data, pos, other, at, r.value.1 - pos)
    ensures var r := ReadVarintBytes(data, pos, k);
      ReadVarintBytes(other, at, k) == Ok((r.value.0, at + r.value.1 - pos))
    decreases k
  {
    var n := ReadVarintBytes(data, pos, k).value.1 - pos;
    SameWithin(data, pos, other, at, n, 0, 1);
    assert data[pos] == data[pos..pos + 1][0] == other[at..at + 1][0];
    if data[pos] >= 128 {
      SameWithin(data, pos, other, at, n, 1, n - 1);
      VarintIsLocal(data, pos + 1, other, at + 1, k - 1);
    }
  }

  // --------------------------------------------------- shapes and radix params

  function EncodeShape(shape: Bytes): (b: Bytes) { Varint(|shape|) + shape }

  function ReadShape(data: Bytes, pos: nat): (r: Result<(Bytes, nat)>)
    ensures r.Ok? ==> pos < r.value.1 <= |data|
  {
    var n := ReadVarintSpec(data, pos);
    if n.Err? then Err(n.reason)
    else if n.value.1 + n.value.0 > |data| then Err("truncated shape")
    else Ok((data[n.value.1..n.value.1 + n.value.0], n.value.1 + n.value.0))
  }

  /** `_encode_value_shape`. */
  function EncodeValueShape(shape: Bytes): Result<Bytes>
  {
    if shape != [] && ParseShape(shape).Err? then Err(ParseShape(shape).reason) else Ok(EncodeShape(shape))
  }

  function ReadValueShape(data: Bytes, pos: nat): (r: Result<(Bytes, nat)>)
    ensures r.Ok? ==> pos < r.value.1 <= |data|
  {
    var s := ReadShape(data, pos);
    if s.Ok? && s.value.0 != [] && ParseShape(s.value.0).Err? then Err(ParseShape(s.value.0).reason) else s
  }

  datatype RadixKey = RadixKey(offset: nat, key: Bytes, shape: Bytes)

  /** `encode_radix_key_param`. */
  function EncodeRadixKey(p: RadixKey): Result<Bytes>
  {
    if p.offset > |p.key| * 8 then Err("radix key bit offset is outside the key")
    else
      var s := EncodeValueShape(p.shape);
      if s.Err? then s else Ok(Varint(p.offset) + Varint(|p.key|) + p.key + s.value)
  }

  /** `read_radix_key_param`. */
  function ReadRadixKey(data: Bytes, pos: nat): (r: Result<(RadixKey, nat)>)
    ensures r.Ok? ==> pos < r.value.1 <= |data|
  {
    var o := ReadVarintSpec(data, pos);
    if o.Err? then Err(o.reason)
    else
      var n := ReadVarintSpec(data, o.value.1);
      if n.Err? then Err(n.reason)
      else
        var end := n.value.1 + n.value.0;
        if end > |data| then Err("truncated radix key")
        else if o.value.0 > n.value.0 * 8 then Err("radix key bit offset is outside the key")
        else
          var s := ReadValueShape(data, end);
          if s.Err? then Err(s.reason) else Ok((RadixKey(o.value.0, data[n.value.1..end], s.value.0), s.value.1))
  }

  /** `parse_radix_key_param`. */
  function ParseRadixKey(param: Bytes): Result<RadixKey>
  {
    var r := ReadRadixKey(param, 0);
    if r.Err? then Err(r.reason) else if r.value.1 != |param| then Err("radix param has bytes left over") else Ok(r.value.0)
  }

  /** `parse_radix_all_param`. */
  function ParseRadixAll(param: Bytes): Result<Bytes>
  {
    var r := ReadValueShape(param, 0);
    if r.Err? then Err(r.reason) else if r.value.1 != |param| then Err("radix param has bytes left over") else Ok(r.value.0)
  }

  lemma {:induction false} ShapeIsLocal(data: Bytes, pos: nat, other: Bytes, at: nat)
    requires var r := ReadShape(data, pos); r.Ok? && SameBytes(data, pos, other, at, r.value.1 - pos)
    ensures var r := ReadShape(data, pos); ReadShape(other, at) == Ok((r.value.0, at + r.value.1 - pos))
  {
    hide ReadVarintBytes;
    var (length, start) := ReadVarintSpec(data, pos).value;
    var n := ReadShape(data, pos).value.1 - pos;
    SameWithin(data, pos, other, at, n, 0, start - pos);
    VarintIsLocal(data, pos, other, at, 3);
    SameWithin(data, pos, other, at, n, start - pos, length);
  }

  lemma {:induction false} ValueShapeIsLocal(data: Bytes, pos: nat, other: Bytes, at: nat)
    requires var r := ReadValueShape(data, pos); r.Ok? && SameBytes(data, pos, other, at, r.value.1 - pos)
    ensures var r := ReadValueShape(data, pos); ReadValueShape(other, at) == Ok((r.value.0, at + r.value.1 - pos))
  {
    hide ReadShape, ParseShape;
    ShapeIsLocal(data, pos, other, at);
  }

  /** A radix param ends where its own bytes say, inside any longer buffer. */
  lemma {:induction false} RadixKeyIsLocal(data: Bytes, pos: nat, other: Bytes, at: nat)
    requires var r := ReadRadixKey(data, pos); r.Ok? && SameBytes(data, pos, other, at, r.value.1 - pos)
    ensures var r := ReadRadixKey(data, pos); ReadRadixKey(other, at) == Ok((r.value.0, at + r.value.1 - pos))
  {
    hide ReadVarintBytes, ReadValueShape;
    var total := ReadRadixKey(data, pos).value.1 - pos;
    var o := ReadVarintSpec(data, pos).value.1;
    SameWithin(data, pos, other, at, total, 0, o - pos);
    VarintIsLocal(data, pos, other, at, 3);
    var (length, start) := ReadVarintSpec(data, o).value;
    SameWithin(data, pos, other, at, total, o - pos, start - o);
    VarintIsLocal(data, o, other, at + o - pos, 3);
    SameWithin(data, pos, other, at, total, start - pos, length);
    var end := start + length;
    SameWithin(data, pos, other, at, total, end - pos, total - (end - pos));
    ValueShapeIsLocal(data, end, other, at + end - pos);
  }

  // ------------------------------------------------------------------- entries

  datatype Entry = Entry(id: Digest, resolution: int, block: Option<Digest>, shape: Bytes)

  /** The bytes after the hashes of an entry: a shape, a radix param, or nothing. */
  function EntryTail(e: Entry): Result<Bytes>
  {
    if e.resolution == RESOLUTION_DYNAMIC then
      var r := ParseShape(e.shape);
      if r.Err? then Err(r.reason) else Ok(EncodeShape(e.shape))
    else if e.resolution == RESOLUTION_RADIX_KEY then
      var r := ParseRadixKey(e.shape);
      if r.Err? then Err(r.reason) else Ok(e.shape)
    else if e.resolution == RESOLUTION_RADIX_ALL then
      var r := ParseRadixAll(e.shape);
      if r.Err? then Err(r.reason) else Ok(e.shape)
    else if e.shape != [] then Err("shape needs resolution 0")
    else Ok([])
  }

  /** One turn of the loop in `_get_to_bytes`; a resolution that is no byte raises. */
  function EncodeEntry(e: Entry): Result<Bytes>
  {
    var tail := EntryTail(e);
    if tail.Err? then tail
    else if e.resolution < 0 || e.resolution > 255 then Err("bytes must be in range(0, 256)")
    else if e.block.None? then Ok(e.id + [e.resolution] + tail.value)
    else Ok(e.id + [if e.resolution < SCOPED_FLAG then e.resolution + SCOPED_FLAG else e.resolution] + e.block.value + tail.value)
  }

  /** One turn of the loop in `_get_from_bytes`. */
  function ReadEntry(body: Bytes, pos: nat): (r: Result<(Entry, nat)>)
    ensures r.Ok? ==> pos < r.value.1 <= |body|
  {
    if pos + GET_ENTRY_BYTES > |body| then Err("length mismatch")
    else
      var id: Digest := body[pos..pos + 32];
      var byte := body[pos + 32];
      var scoped := byte >= SCOPED_FLAG;
      var after := pos + GET_ENTRY_BYTES;
      if scoped && after + 32 > |body| then Err("truncated scoped entry")
      else
        var resolution := if scoped then byte - SCOPED_FLAG else byte;
        var block: Option<Digest> := if scoped then Some(body[after..after + 32]) else None;
        var at := if scoped then after + 32 else after;
        ReadTail(body, id, resolution, block, at)
  }

  function ReadTail(body: Bytes, id: Digest, resolution: nat, block: Option<Digest>, at: nat): (r: Result<(Entry, nat)>)
    requires at <= |body|
    ensures r.Ok? ==> at <= r.value.1 <= |body|
  {
    if resolution == RESOLUTION_DYNAMIC then
      var s := ReadShape(body, at);
      if s.Err? then Err(s.reason)
      else if ParseShape(s.value.0).Err? then Err(ParseShape(s.value.0).reason)
      else Ok((Entry(id, resolution, block, s.value.0), s.value.1))
    else if resolution == RESOLUTION_RADIX_KEY then
      var p := ReadRadixKey(body, at);
      if p.Err? then Err(p.reason) else Ok((Entry(id, resolution, block, body[at..p.value.1]), p.value.1))
    else if resolution == RESOLUTION_RADIX_ALL then
      var p := ReadValueShape(body, at);
      if p.Err? then Err(p.reason) else Ok((Entry(id, resolution, block, body[at..p.value.1]), p.value.1))
    else Ok((Entry(id, resolution, block, []), at))
  }

  /** `get_entry_size`. */
  function GetEntrySize(e: Entry): nat
  {
    GET_ENTRY_BYTES
    + (if e.block.Some? then 32 else 0)
    + (if e.resolution == RESOLUTION_DYNAMIC then |Varint(|e.shape|)| + |e.shape|
       else if e.resolution == RESOLUTION_RADIX_KEY || e.resolution == RESOLUTION_RADIX_ALL then |e.shape|
       else 0)
  }

  lemma {:induction false} EntrySizeIsExact(e: Entry)
    requires EncodeEntry(e).Ok?
    ensures |EncodeEntry(e).value| == GetEntrySize(e)
  {
    hide ParseShape, ParseRadixKey, ParseRadixAll, Varint;
  }

  /** The part after the hashes is read back, inside any longer buffer. */
  lemma {:induction false} TailRoundTrip(body: Bytes, e: Entry, at: nat)
    requires EntryTail(e).Ok? && 0 <= e.resolution < SCOPED_FLAG && |e.shape| < 2097152
    requires var tail := EntryTail(e).value; at + |tail| <= |body| && body[at..at + |tail|] == tail
    ensures ReadTail(body, e.id, e.resolution, e.block, at) == Ok((e, at + |EntryTail(e).value|))
  {
    hide ParseShape, ReadVarintBytes, Varint, ReadRadixKey, ReadValueShape, ReadShape;
    var tail := EntryTail(e).value;
    if e.resolution == RESOLUTION_DYNAMIC {
      ShapeRoundTrip(body, at, e.shape);
    } else if e.resolution == RESOLUTION_RADIX_KEY {
      assert tail[0..|tail|] == tail;
      assert SameBytes(tail, 0, body, at, |tail|);
      RadixKeyIsLocal(tail, 0, body, at);
    } else if e.resolution == RESOLUTION_RADIX_ALL {
      assert tail[0..|tail|] == tail;
      assert SameBytes(tail, 0, body, at, |tail|);
      ValueShapeIsLocal(tail, 0, body, at);
    }
  }

  lemma {:induction false} ShapeRoundTrip(body: Bytes, at: nat, shape: Bytes)
    requires |shape| < 2097152
    requires var b := EncodeShape(shape); at + |b| <= |body| && body[at..at + |b|] == b
    ensures ReadShape(body, at) == Ok((shape, at + |EncodeShape(shape)|))
  {
    hide ReadVarintBytes, Varint;
    var (b, v) := (EncodeShape(shape), Varint(|shape|));
    VarintLength(|shape|);
    Part(body, at, b, 0, |v|);
    Part(body, at, b, |v|, |b|);
    assert b[..|v|] == v && b[|v|..|b|] == shape;
    VarintRoundTrip(body, at, |shape|, 3);
  }

  /** An entry whose resolution is below the scope flag is read back exactly, and ends where it should. */
  lemma {:induction false} EntryRoundTrip(body: Bytes, e: Entry, pos: nat)
    requires EncodeEntry(e).Ok? && e.resolution < SCOPED_FLAG && |e.shape| < 2097152
    requires var b := EncodeEntry(e).value; pos + |b| <= |body| && body[pos..pos + |b|] == b
    ensures ReadEntry(body, pos) == Ok((e, pos + |EncodeEntry(e).value|))
  {
    hide ReadTail, EntryTail;
    var b := EncodeEntry(e).value;
    var tail := EntryTail(e).value;
    var n := |b| - |tail|;
    EntryParts(e);
    Part(body, pos, b, 0, 32);
    Part(body, pos, b, 32, 33);
    Part(body, pos, b, n, |b|);
    if e.block.Some? {
      Part(body, pos, b, 33, 65);
    }
    TailRoundTrip(body, e, pos + n);
  }

  lemma {:induction false} EntryParts(e: Entry)
    requires EncodeEntry(e).Ok?
    ensures EntryTail(e).Ok? && 0 <= e.resolution <= 255
    ensures var (b, tail) := (EncodeEntry(e).value, EntryTail(e).value);
      && |b| == (if e.block.Some? then 65 else 33) + |tail| && b[..32] == e.id && b[|b| - |tail|..] == tail
      && (if e.block.Some? then b[33..65] == e.block.value && b[32] == (if e.resolution < SCOPED_FLAG then e.resolution + SCOPED_FLAG else e.resolution)
          else b[32] == e.resolution)
  {
    hide EntryTail;
  }

  // ------------------------------------------------------------------ messages

  function EncodeEntries(entries: seq<Entry>): Result<Bytes>
  {
    if entries == [] then Ok([])
    else
      var first := EncodeEntry(entries[0]);
      if first.Err? then first
      else
        var rest := EncodeEntries(entries[1..]);
        if rest.Err? then rest else Ok(first.value + rest.value)
  }

  function ReadEntries(body: Bytes, pos: nat, count: nat): Result<seq<Entry>>
    requires pos <= |body|
    decreases count
  {
    if count == 0 then
      if pos == |body| then Ok([]) else Err("length mismatch")
    else
      var first := ReadEntry(body, pos);
      if first.Err? then Err(first.reason)
      else
        var rest := ReadEntries(body, first.value.1, count - 1);
        if rest.Err? then rest else Ok([first.value.0] + rest.value)
  }

  function GetBytes(entries: seq<Entry>): Result<Bytes>
  {
    if entries == [] then Err("STORAGE_GET requires at least one entry")
    else if |entries| > 0xFFFF then Err("STORAGE_GET entry count exceeds u16")
    else
      TwoBytes();
      var body := EncodeEntries(entries);
      if body.Err? then body
      else
        var b := [STORAGE_GET] + ToBig(|entries|, GET_HEADER_BYTES) + body.value;
        if |b| > FoundPages.MAX_INLINE_MESSAGE_BYTES then Err("STORAGE_GET too large") else Ok(b)
  }

  function ParseGet(data: Bytes): Result<seq<Entry>>
  {
    if |data| > FoundPages.MAX_INLINE_MESSAGE_BYTES then Err("STORAGE_GET too large")
    else if |data| < 1 + GET_HEADER_BYTES then Err("STORAGE_GET too short")
    else
      var count := FromBig(data[1..1 + GET_HEADER_BYTES]);
      if count < 1 then Err("STORAGE_GET count must be at least 1")
      else ReadEntries(data[1 + GET_HEADER_BYTES..], 0, count)
  }

  lemma {:induction false} TwoBytes()
    ensures Pow256(2) == 65536
  {
    assert Pow256(1) == 256;
  }

  /** `_get_to_bytes`. */
  method GetToBytes(entries: seq<Entry>) returns (r: Result<Bytes>)
    ensures r == GetBytes(entries)
  {
    if entries == [] {
      return Err("STORAGE_GET requires at least one entry");
    }
    if |entries| > 0xFFFF {
      return Err("STORAGE_GET entry count exceeds u16");
    }
    TwoBytes();
    var body: Bytes := [];
    assert entries[0..] == entries;
    assert EncodeEntries(entries).Ok? ==> [] + EncodeEntries(entries).value == EncodeEntries(entries).value;
    for i := 0 to |entries|
      invariant var rest := EncodeEntries(entries[i..]);
        EncodeEntries(entries) == if rest.Err? then rest else Ok(body + rest.value)
    {
      hide EncodeEntry;
      var part := EncodeEntry(entries[i]);
      assert entries[i..][1..] == entries[i + 1..];
      if part.Err? {
        return part;
      }
      ghost var rest := EncodeEntries(entries[i + 1..]);
      assert rest.Ok? ==> body + (part.value + rest.value) == body + part.value + rest.value;
      body := body + part.value;
    }
    assert entries[|entries|..] == [];
    assert body + [] == body;
    var b := [STORAGE_GET] + ToBig(|entries|, GET_HEADER_BYTES) + body;
    if |b| > FoundPages.MAX_INLINE_MESSAGE_BYTES {
      return Err("STORAGE_GET too large");
    }
    return Ok(b);
  }

  /** `_get_from_bytes`. */
  method GetFromBytes(data: Bytes) returns (r: Result<seq<Entry>>)
    ensures r == ParseGet(data)
  {
    if |data| > FoundPages.MAX_INLINE_MESSAGE_BYTES {
      return Err("STORAGE_GET too large");
    }
    if |data| < 1 + GET_HEADER_BYTES {
      return Err("STORAGE_GET too short");
    }
    var count := FromBig(data[1..1 + GET_HEADER_BYTES]);
    if count < 1 {
      return Err("STORAGE_GET count must be at least 1");
    }
    var body := data[1 + GET_HEADER_BYTES..];
    r := DecodeEntries(body, count);
  }

  /** The entry loop of `_get_from_bytes`. */
  method DecodeEntries(body: Bytes, count: nat) returns (r: Result<seq<Entry>>)
    ensures r == ReadEntries(body, 0, count)
  {
    hide ReadEntry;
    var entries: seq<Entry> := [];
    var pos: nat := 0;
    assert ReadEntries(body, 0, count).Ok? ==> [] + ReadEntries(body, 0, count).value == ReadEntries(body, 0, count).value;
    for i := 0 to count
      invariant pos <= |body|
      invariant var rest := ReadEntries(body, pos, count - i);
        ReadEntries(body, 0, count) == if rest.Err? then rest else Ok(entries + rest.value)
    {
      var e := ReadEntry(body, pos);
      if e.Err? {
        return Err(e.reason);
      }
      ghost var rest := ReadEntries(body, e.value.1, count - i - 1);
      assert rest.Ok? ==> entries + ([e.value.0] + rest.value) == entries + [e.value.0] + rest.value;
      entries := entries + [e.value.0];
      pos := e.value.1;
    }
    if pos != |body| {
      return Err("length mismatch");
    }
    assert entries + [] == entries;
    return Ok(entries);
  }

  lemma {:induction false} EntriesRoundTrip(body: Bytes, pos: nat, entries: seq<Entry>)
    requires EncodeEntries(entries).Ok? && pos <= |body| <= FoundPages.MAX_INLINE_MESSAGE_BYTES && body[pos..] == EncodeEntries(entries).value
    requires forall i :: 0 <= i < |entries| ==> entries[i].resolution < SCOPED_FLAG
    ensures ReadEntries(body, pos, |entries|) == Ok(entries)
    decreases |entries|
  {
    hide EncodeEntry, ReadEntry;
    if entries != [] {
      var b := EncodeEntry(entries[0]).value;
      var rest := EncodeEntries(entries[1..]).value;
      assert body[pos..] == b + rest;
      assert body[pos..pos + |b|] == body[pos..][..|b|] == b;
      assert body[pos + |b|..] == body[pos..][|b|..] == rest;
      ShapeIsShort(entries[0]);
      EntryRoundTrip(body, entries[0], pos);
      EntriesRoundTrip(body, pos + |b|, entries[1..]);
      assert entries == [entries[0]] + entries[1..];
    }
  }

  lemma {:induction false} ShapeIsShort(e: Entry)
    requires EncodeEntry(e).Ok?
    ensures |e.shape| <= |EncodeEntry(e).value|
  {
    EntrySizeIsExact(e);
    if e.resolution != RESOLUTION_DYNAMIC && e.resolution != RESOLUTION_RADIX_KEY && e.resolution != RESOLUTION_RADIX_ALL {
      assert e.shape == [];
    }
  }

  lemma {:induction false} EntryBelowFlag(body: Bytes, pos: nat)
    ensures ReadEntry(body, pos).Ok? ==> ReadEntry(body, pos).value.0.resolution < SCOPED_FLAG
  {
    hide ReadShape, ReadRadixKey, ReadValueShape;
  }

  lemma {:induction false} ReadBelowFlag(body: Bytes, pos: nat, count: nat)
    requires pos <= |body|
    ensures var r := ReadEntries(body, pos, count);
      r.Ok? ==> forall i :: 0 <= i < |r.value| ==> r.value[i].resolution < SCOPED_FLAG
    decreases count
  {
    hide ReadEntry;
    if count > 0 {
      var first := ReadEntry(body, pos);
      EntryBelowFlag(body, pos);
      if first.Ok? {
        ReadBelowFlag(body, first.value.1, count - 1);
      }
    }
  }

  /**
   * Decoding an encoded request gives the same entries back, whatever mix of plain, scoped, shaped
   * and radix entries, exactly when every resolution stays below the scope flag.
   */
  lemma {:induction false} GetRoundTrip(entries: seq<Entry>)
    requires GetBytes(entries).Ok?
    ensures ParseGet(GetBytes(entries).value) == Ok(entries)
       <==> forall i :: 0 <= i < |entries| ==> entries[i].resolution < SCOPED_FLAG
  {
    hide GetBytes, ParseGet, EncodeEntries, ReadEntries, ToBig, FromBig, Pow256;
    var data := GetBytes(entries).value;
    GetParts(entries);
    FromToBig(|entries|, GET_HEADER_BYTES);
    ParseHere(data, |entries|);
    var body := data[1 + GET_HEADER_BYTES..];
    ReadBelowFlag(body, 0, |entries|);
    if forall i :: 0 <= i < |entries| ==> entries[i].resolution < SCOPED_FLAG {
      assert body[0..] == body;
      EntriesRoundTrip(body, 0, entries);
    }
  }

  /** A request that the encoder accepts and that does not come back: its resolution has the scope flag. */
  lemma {:induction false} HighResolutionIsLost()
    ensures var entries := [Entry(ZERO32, 200, None, [])];
      GetBytes(entries).Ok? && ParseGet(GetBytes(entries).value) != Ok(entries)
  {
    hide ParseGet, ReadEntries, Pow256, ToBig, FromBig;
    TwoBytes();
    var entries := [Entry(ZERO32, 200, None, [])];
    assert entries[1..] == [];
    assert EncodeEntries([]) == Ok([]);
    assert EncodeEntry(entries[0]).Ok? && |EncodeEntry(entries[0]).value| == 33;
    GetRoundTrip(entries);
    assert entries[0].resolution >= SCOPED_FLAG;
  }

  lemma {:induction false} GetParts(entries: seq<Entry>)
    requires GetBytes(entries).Ok?
    ensures 1 <= |entries| < Pow256(GET_HEADER_BYTES) && EncodeEntries(entries).Ok?
    ensures var data := GetBytes(entries).value;
      && 1 + GET_HEADER_BYTES <= |data| <= FoundPages.MAX_INLINE_MESSAGE_BYTES
      && data[1..1 + GET_HEADER_BYTES] == ToBig(|entries|, GET_HEADER_BYTES)
      && data[1 + GET_HEADER_BYTES..] == EncodeEntries(entries).value
  {
    hide EncodeEntries, ToBig, Pow256;
    TwoBytes();
  }

  lemma {:induction false} ParseHere(data: Bytes, count: nat)
    requires 1 + GET_HEADER_BYTES <= |data| <= FoundPages.MAX_INLINE_MESSAGE_BYTES
    requires count >= 1 && FromBig(data[1..1 + GET_HEADER_BYTES]) == count
    ensures ParseGet(data) == ReadEntries(data[1 + GET_HEADER_BYTES..], 0, count)
  {
    hide ReadEntries, FromBig;
  }

  // ---------------------------------------------------------------- the budget

  function TotalSize(entries: seq<Entry>): nat
  {
    if entries == [] then 0 else GetEntrySize(entries[0]) + TotalSize(entries[1..])
  }

  /** `get_body_budget`. */
  function GetBodyBudget(budget: int): int { budget - FoundPages.MESSAGE_FRAMING_BYTES - 1 - GET_HEADER_BYTES }

  lemma {:induction false} EntriesSize(entries: seq<Entry>)
    requires EncodeEntries(entries).Ok?
    ensures |EncodeEntries(entries).value| == TotalSize(entries)
  {
    if entries != [] {
      EntrySizeIsExact(entries[0]);
      EntriesSize(entries[1..]);
    }
  }

  /** A batch fits the datagram exactly when its entry sizes fit the body budget. */
  lemma {:induction false} BatchFitsDatagram(entries: seq<Entry>, budget: int)
    requires GetBytes(entries).Ok?
    ensures |GetBytes(entries).value| + FoundPages.MESSAGE_FRAMING_BYTES <= budget <==> TotalSize(entries) <= GetBodyBudget(budget)
  {
    hide EncodeEntries;
    TwoBytes();
    EntriesSize(entries);
  }

  /** `max_get_entry_bytes`. */
  function MaxGetEntryBytes(shapeMax: nat, keyMax: nat): nat
  {
    var shape := |Varint(shapeMax)| + shapeMax;
    var radixKey := |Varint(keyMax * 8)| + |Varint(keyMax)| + keyMax + shape;
    SCOPED_GET_ENTRY_BYTES + Max(shape, radixKey)
  }

  lemma {:induction false} VarintMonotone(a: nat, b: nat)
    requires a <= b
    ensures |Varint(a)| <= |Varint(b)|
  {
    if b >= 128 && a >= 128 {
      VarintMonotone(a / 128, b / 128);
    }
  }

  /** A param that a client builds is read back exactly when each of its three numbers fits a three-byte varint. */
  lemma {:induction false} RadixKeyRoundTrip(p: RadixKey)
    requires EncodeRadixKey(p).Ok?
    ensures ParseRadixKey(EncodeRadixKey(p).value) == Ok(p)
       <==> p.offset < 2097152 && |p.key| < 2097152 && |p.shape| < 2097152
  {
    hide ReadVarintSpec, Varint, ParseShape;
    var b := EncodeRadixKey(p).value;
    var (o, n, l) := (Varint(p.offset), Varint(|p.key|), Varint(|p.shape|));
    FiveParts(b, o, n, p.key, l, p.shape);
    WrittenVarint(b, 0, p.offset);
    WrittenVarint(b, |o|, |p.key|);
    WrittenVarint(b, |o| + |n| + |p.key|, |p.shape|);
  }

  /** A param that encodes and is not read back: its key is too long for a three-byte length. */
  lemma {:induction false} LongKeyIsLost()
    ensures var p := RadixKey(0, seq(2097152, i => 0), []);
      EncodeRadixKey(p).Ok? && ParseRadixKey(EncodeRadixKey(p).value) != Ok(p)
  {
    hide ParseRadixKey, Varint;
    RadixKeyRoundTrip(RadixKey(0, seq(2097152, i => 0), []));
  }

  lemma {:induction false} FiveParts(b: Bytes, o: Bytes, n: Bytes, k: Bytes, l: Bytes, s: Bytes)
    requires b == o + n + k + (l + s)
    ensures var at := |o| + |n| + |k|;
      && |b| == at + |l| + |s| && b[0..|o|] == o && b[|o|..|o| + |n|] == n && b[|o| + |n|..at] == k
      && b[at..at + |l|] == l && b[at + |l|..at + |l| + |s|] == s
  {
    FourParts(o, n, k, l + s);
    TwoParts(b, |o| + |n| + |k|, l, s);
  }

  lemma {:induction false} TwoParts(b: Bytes, at: nat, l: Bytes, s: Bytes)
    requires at + |l| + |s| == |b| && b[at..at + |l| + |s|] == l + s
    ensures b[at..at + |l|] == l && b[at + |l|..at + |l| + |s|] == s
  {
    Part(b, at, l + s, 0, |l|);
    Part(b, at, l + s, |l|, |l| + |s|);
    assert (l + s)[0..|l|] == l && (l + s)[|l|..|l| + |s|] == s;
  }

  lemma {:induction false} FourParts(o: Bytes, n: Bytes, k: Bytes, s: Bytes)
    ensures var (b, i, j, l) := (o + n + k + s, |o|, |o| + |n|, |o| + |n| + |k|);
      |b| == l + |s| && b[0..i] == o && b[i..j] == n && b[j..l] == k && b[l..l + |s|] == s
  {
  }

  /** The largest entry is the scoped one with a radix param of the longest key and shape and the largest offset. */
  lemma {:induction false} MaxIsRadixEntry(shapeMax: nat, keyMax: nat)
    ensures MaxGetEntryBytes(shapeMax, keyMax)
         == 32 + 1 + 32 + |Varint(8 * keyMax)| + |Varint(keyMax)| + keyMax + |Varint(shapeMax)| + shapeMax
  {
    hide Varint;
  }

  lemma {:induction false} EntryWithinMax(e: Entry, shapeMax: nat, keyMax: nat, p: RadixKey)
    requires |p.shape| <= shapeMax && |p.key| <= keyMax
    requires e.resolution == RESOLUTION_DYNAMIC ==> |e.shape| <= shapeMax
    requires e.resolution == RESOLUTION_RADIX_KEY ==> EncodeRadixKey(p) == Ok(e.shape)
    requires e.resolution == RESOLUTION_RADIX_ALL ==> EncodeValueShape(p.shape) == Ok(e.shape)
    ensures GetEntrySize(e) <= MaxGetEntryBytes(shapeMax, keyMax)
  {
    hide Varint, ParseShape;
    VarintMonotone(|p.shape|, shapeMax);
    if e.resolution == RESOLUTION_DYNAMIC {
      VarintMonotone(|e.shape|, shapeMax);
    } else if e.resolution == RESOLUTION_RADIX_KEY {
      VarintMonotone(p.offset, keyMax * 8);
      VarintMonotone(|p.key|, keyMax);
    }
  }

  // ------------------------------------------------------------ the layout

  /** What a radix param is: offset, key length, key, shape length and shape, for an offset within the key. */
  lemma {:induction false} RadixKeyLayout(p: RadixKey)
    ensures EncodeRadixKey(p).Ok? <==> p.offset <= 8 * |p.key| && (p.shape == [] || ParseShape(p.shape).Ok?)
    ensures EncodeRadixKey(p).Ok? ==>
              EncodeRadixKey(p).value == Varint(p.offset) + Varint(|p.key|) + p.key + (Varint(|p.shape|) + p.shape)
  {
    hide ParseShape, Varint;
  }

  /** What an entry is: the id, the resolution with 0x80 for a scope, the block of the scope, then what the resolution needs. */
  lemma {:induction false} EntryLayout(e: Entry)
    ensures EncodeEntry(e).Ok? <==>
              && 0 <= e.resolution <= 255
              && (e.resolution == 0 ==> ParseShape(e.shape).Ok?)
              && (e.resolution == 4 ==> ParseRadixKey(e.shape).Ok?)
              && (e.resolution == 5 ==> ParseRadixAll(e.shape).Ok?)
              && (e.resolution !in {0, 4, 5} ==> e.shape == [])
    ensures EncodeEntry(e).Ok? ==>
              && var b := EncodeEntry(e).value;
              && |b| >= 33 && b[..32] == e.id
              && var at := if e.block.None? then 33 else 65;
              && (e.block.None? ==> b[32] == e.resolution)
              && (e.block.Some? ==>
                    |b| >= 65 && b[33..65] == e.block.value && b[32] == if e.resolution < 128 then e.resolution + 128 else e.resolution)
              && b[at..] == if e.resolution == 0 then Varint(|e.shape|) + e.shape else e.shape
  {
    hide ParseShape, ParseRadixKey, ParseRadixAll, Varint;
    if EncodeEntry(e).Ok? {
      EntryParts(e);
    }
  }

  /** When a request can be written: 1 to 65535 entries, each of which can, in at most 65507 bytes less 78 of framing. */
  lemma {:induction false} GetWritten(entries: seq<Entry>)
    ensures GetBytes(entries).Ok? <==>
              && 1 <= |entries| <= 65535 && (forall i :: 0 <= i < |entries| ==> EncodeEntry(entries[i]).Ok?)
              && 78 + 3 + TotalSize(entries) <= 65507
    ensures GetBytes(entries).Ok? ==>
              && var data: seq<int> := GetBytes(entries).value;
              && |data| == 3 + TotalSize(entries) && data[0] == 0 && 256 * data[1] + data[2] == |entries|
  {
    hide EncodeEntry, TotalSize, EncodeEntries, ToBig, FromBig;
    EncodeEntriesIff(entries);
    if EncodeEntries(entries).Ok? {
      EntriesSize(entries);
    }
    if GetBytes(entries).Ok? {
      GetParts(entries);
      var data := GetBytes(entries).value;
      FoundPages.TwoByteField(data, 1, |entries|);
    }
  }

  lemma {:induction false} EncodeEntriesIff(entries: seq<Entry>)
    ensures EncodeEntries(entries).Ok? <==> forall i :: 0 <= i < |entries| ==> EncodeEntry(entries[i]).Ok?
  {
    hide EncodeEntry;
    if entries != [] {
      EncodeEntriesIff(entries[1..]);
      assert entries == [entries[0]] + entries[1..];
    }
  }

  lemma {:induction false} EntriesInOrder(entries: seq<Entry>, k: nat)
    requires EncodeEntries(entries).Ok? && k < |entries|
    ensures EncodeEntry(entries[k]).Ok?
    ensures var (data, at, b) := (EncodeEntries(entries).value, TotalSize(entries[..k]), EncodeEntry(entries[k]).value);
      at + |b| <= |data| && data[at..at + |b|] == b
  {
    hide EncodeEntry, GetEntrySize;
    var first := EncodeEntry(entries[0]).value;
    var rest := EncodeEntries(entries[1..]).value;
    if k == 0 {
      assert entries[..0] == [];
      assert EncodeEntries(entries).value == first + rest;
    } else {
      EntriesInOrder(entries[1..], k - 1);
      assert entries[1..][k - 1] == entries[k];
      EntrySizeIsExact(entries[0]);
      assert entries[..k][1..] == entries[1..][..k - 1] && entries[..k][0] == entries[0];
      var (at, b) := (TotalSize(entries[1..][..k - 1]), EncodeEntry(entries[k]).value);
      assert (first + rest)[|first| + at..|first| + at + |b|] == rest[at..at + |b|];
    }
  }

  /** Entry k of a written request stands behind the header and the entries before it. */
  lemma {:induction false} EntryPlace(entries: seq<Entry>, k: nat)
    requires GetBytes(entries).Ok? && k < |entries|
    ensures EncodeEntry(entries[k]).Ok?
    ensures var (data, at, b) := (GetBytes(entries).value, 3 + TotalSize(entries[..k]), EncodeEntry(entries[k]).value);
      at + |b| <= |data| && data[at..at + |b|] == b
  {
    hide EncodeEntry, EncodeEntries, TotalSize, GetBytes, ToBig;
    GetParts(entries);
    EntriesInOrder(entries, k);
    var (data, at, b) := (GetBytes(entries).value, TotalSize(entries[..k]), EncodeEntry(entries[k]).value);
    SubSlice(data, 3, |data| - 3, at, |b|);
    assert data[3..3 + (|data| - 3)] == data[3..];
  }

  // ---------------------------------------------------- what decoding accepts

  /** A varint that is read is at least as long as the one that is written, and where it is no longer, it is that one. */
  lemma {:induction false} ReadVarintIsWritten(data: Bytes, pos: nat, k: nat)
    requires ReadVarintBytes(data, pos, k).Ok?
    ensures var (v, end) := ReadVarintBytes(data, pos, k).value;
      pos + |Varint(v)| <= end && (pos + |Varint(v)| == end ==> data[pos..end] == Varint(v))
    decreases k
  {
    if data[pos] >= 128 {
      ReadVarintIsWritten(data, pos + 1, k - 1);
      var (r, end) := ReadVarintBytes(data, pos + 1, k - 1).value;
      VarintStep(data[pos], r);
      assert data[pos..end] == [data[pos]] + data[pos + 1..end];
    } else {
      assert data[pos..pos + 1] == [data[pos]];
    }
  }

  lemma {:induction false} VarintStep(d: Byte, r: nat)
    requires d >= 128
    ensures var v := d - 128 + 128 * r;
      if r == 0 then |Varint(v)| == 1 else Varint(v) == [d] + Varint(r)
  {
  }

  /** A shape that is read takes at least as many bytes as the one that is written, and if no more, it is that one. */
  lemma {:induction false} ReadShapeIsWritten(data: Bytes, pos: nat)
    requires ReadShape(data, pos).Ok?
    ensures var (shape, end) := ReadShape(data, pos).value;
      && pos + |Varint(|shape|)| + |shape| <= end
      && (pos + |Varint(|shape|)| + |shape| == end ==> data[pos..end] == Varint(|shape|) + shape)
  {
    hide ReadVarintBytes, Varint;
    ReadVarintIsWritten(data, pos, 3);
    var (shape, end) := ReadShape(data, pos).value;
    var at := ReadVarintBytes(data, pos, 3).value.1;
    assert data[pos..end] == data[pos..at] + data[at..end];
  }

  lemma {:induction false} ReadTailIsWritten(body: Bytes, id: Digest, resolution: nat, block: Option<Digest>, at: nat)
    requires at <= |body| && ReadTail(body, id, resolution, block, at).Ok?
    ensures var (e, end) := ReadTail(body, id, resolution, block, at).value;
      && e.id == id && e.resolution == resolution && e.block == block && EntryTail(e).Ok?
      && at + |EntryTail(e).value| <= end
      && (at + |EntryTail(e).value| == end ==> body[at..end] == EntryTail(e).value)
  {
    hide ReadShape, ParseShape, ReadRadixKey, ReadValueShape, Varint;
    var (e, end) := ReadTail(body, id, resolution, block, at).value;
    var part := body[at..end];
    assert part[0..|part|] == part;
    if resolution == RESOLUTION_DYNAMIC {
      ReadShapeIsWritten(body, at);
    } else if resolution == RESOLUTION_RADIX_KEY {
      assert SameBytes(body, at, part, 0, |part|);
      RadixKeyIsLocal(body, at, part, 0);
    } else if resolution == RESOLUTION_RADIX_ALL {
      assert SameBytes(body, at, part, 0, |part|);
      ValueShapeIsLocal(body, at, part, 0);
    } else {
      assert part == [];
    }
  }

  lemma {:induction false} ReadEntryIsWritten(body: Bytes, pos: nat)
    requires ReadEntry(body, pos).Ok?
    ensures var (e, end) := ReadEntry(body, pos).value;
      && EncodeEntry(e).Ok? && pos + |EncodeEntry(e).value| <= end
      && (pos + |EncodeEntry(e).value| == end ==> body[pos..end] == EncodeEntry(e).value)
  {
    hide ReadTail, EntryTail;
    var (byte, scoped) := (body[pos + 32], body[pos + 32] >= 128);
    var at := if scoped then pos + 65 else pos + 33;
    var resolution := if scoped then byte - 128 else byte;
    var block: Option<Digest> := if scoped then Some(body[pos + 33..pos + 65]) else None;
    ReadTailIsWritten(body, body[pos..pos + 32], resolution, block, at);
    var (e, end) := ReadEntry(body, pos).value;
    assert body[pos..end] == body[pos..at] + body[at..end];
    if scoped {
      assert body[pos..at] == body[pos..pos + 32] + [byte] + body[pos + 33..pos + 65];
    } else {
      assert body[pos..at] == body[pos..pos + 32] + [byte];
    }
  }

  lemma {:induction false} ReadEntriesAreWritten(body: Bytes, pos: nat, count: nat)
    requires pos <= |body| && ReadEntries(body, pos, count).Ok?
    ensures var entries := ReadEntries(body, pos, count).value;
      && |entries| == count && pos + TotalSize(entries) <= |body|
      && (pos + TotalSize(entries) == |body| ==> EncodeEntries(entries) == Ok(body[pos..]))
    decreases count
  {
    hide ReadEntry, EncodeEntry, GetEntrySize;
    if count == 0 {
      assert body[pos..] == [];
    } else {
      var (e, next) := ReadEntry(body, pos).value;
      ReadEntryIsWritten(body, pos);
      EntrySizeIsExact(e);
      ReadEntriesAreWritten(body, next, count - 1);
      var rest := ReadEntries(body, next, count - 1).value;
      assert ([e] + rest)[1..] == rest;
      assert body[pos..] == body[pos..next] + body[next..];
    }
  }

  /**
   * The converse of the round trip: a request that decodes takes at least as many bytes as its entries are written in,
   * and where it takes no more, which means that no length in it is padded, it is that request but for the first byte,
   * which is not looked at.
   */
  lemma {:induction false} DecodedGetIsWritten(data: Bytes)
    requires ParseGet(data).Ok?
    ensures var entries := ParseGet(data).value;
      && 3 + TotalSize(entries) <= |data|
      && (3 + TotalSize(entries) == |data| ==> GetBytes(entries).Ok? && GetBytes(entries).value[1..] == data[1..])
  {
    hide ReadEntries, EncodeEntries, TotalSize, FromBig, ToBig;
    var (count, body) := (FromBig(data[1..3]), data[3..]);
    var entries := ParseGet(data).value;
    ReadEntriesAreWritten(body, 0, count);
    assert body[0..] == body;
    TwoBytes();
    ToFromBig(data[1..3]);
    assert data[1..] == data[1..3] + body;
    if 3 + TotalSize(entries) == |data| {
      var b: Bytes := [STORAGE_GET] + ToBig(count, 2) + body;
      assert GetBytes(entries) == Ok(b);
      assert b[1..] == ToBig(count, 2) + body;
    }
  }

  lemma {:induction false} TailIsLocal(body: Bytes, extra: Bytes, id: Digest, resolution: nat, block: Option<Digest>, at: nat)
    requires at <= |body| && ReadTail(body, id, resolution, block, at).Ok?
    ensures ReadTail(body + extra, id, resolution, block, at) == ReadTail(body, id, resolution, block, at)
  {
    hide ReadShape, ParseShape, ReadRadixKey, ReadValueShape;
    var (longer, end) := (body + extra, ReadTail(body, id, resolution, block, at).value.1);
    assert longer[at..end] == body[at..end];
    assert SameBytes(body, at, longer, at, end - at);
    if resolution == RESOLUTION_DYNAMIC {
      ShapeIsLocal(body, at, longer, at);
    } else if resolution == RESOLUTION_RADIX_KEY {
      RadixKeyIsLocal(body, at, longer, at);
    } else if resolution == RESOLUTION_RADIX_ALL {
      ValueShapeIsLocal(body, at, longer, at);
    }
  }

  lemma {:induction false} EntryIsLocal(body: Bytes, extra: Bytes, pos: nat)
    requires ReadEntry(body, pos).Ok?
    ensures ReadEntry(body + extra, pos) == ReadEntry(body, pos)
  {
    hide ReadTail;
    var (longer, byte) := (body + extra, body[pos + 32]);
    var (scoped, id: Digest) := (byte >= 128, body[pos..pos + 32]);
    assert longer[pos..pos + 32] == id && longer[pos + 32] == byte;
    var block: Option<Digest> := if scoped then Some(body[pos + 33..pos + 65]) else None;
    assert scoped ==> longer[pos + 33..pos + 65] == body[pos + 33..pos + 65];
    TailIsLocal(body, extra, id, if scoped then byte - 128 else byte, block, if scoped then pos + 65 else pos + 33);
  }

  lemma {:induction false} LongerEntriesRefused(body: Bytes, extra: Bytes, pos: nat, count: nat)
    requires pos <= |body| && ReadEntries(body, pos, count).Ok? && extra != []
    ensures ReadEntries(body + extra, pos, count).Err?
    decreases count
  {
    hide ReadEntry;
    if count > 0 {
      EntryIsLocal(body, extra, pos);
      LongerEntriesRefused(body, extra, ReadEntry(body, pos).value.1, count - 1);
    }
  }

  /** A request that decodes ends with its last entry: with any byte more it is refused. */
  lemma {:induction false} LongerGetIsRefused(data: Bytes, extra: Bytes)
    requires ParseGet(data).Ok? && extra != []
    ensures ParseGet(data + extra).Err?
  {
    hide ReadEntries, FromBig;
    assert (data + extra)[1..3] == data[1..3] && (data + extra)[3..] == data[3..] + extra;
    LongerEntriesRefused(data[3..], extra, 0, FromBig(data[1..3]));
  }
}
