/**
 * Expressions as trees, their content hash and their cells: `expression/expr.py`. `H` is the
 * content hash of one cell; `Nil` is NIL, whose hash is ZERO32, and also a missing child.
 */
module Exprs {
  import opened Common
  import opened ExprCodec
  import opened IntCodec

  /** The builtin composite types. */
  datatype Tag = IntTag | StrTag | E4m3Tag | E5m2Tag | Fp16Tag | Bf16Tag | Fp32Tag | Fp64Tag

  /** The UTF-8 text of a type symbol. */
  function TagText(tag: Tag): Text
  {
    var text := TagBytes(tag);
    AsciiIsUtf8(text);
    text
  }

  function TagBytes(tag: Tag): (text: Bytes)
    ensures forall i :: 0 <= i < |text| ==> text[i] <= 0x7F
  {
    match tag
    case IntTag => [105, 110, 116]
    case StrTag => [115, 116, 114]
    case E4m3Tag => [101, 52, 109, 51]
    case E5m2Tag => [101, 53, 109, 50]
    case Fp16Tag => [102, 112, 49, 54]
    case Bf16Tag => [98, 102, 49, 54]
    case Fp32Tag => [102, 112, 51, 50]
    case Fp64Tag => [102, 112, 54, 52]
  }

  /** The character codes of a text. */
  function Codes(text: string): seq<int> { seq(|text|, i requires 0 <= i < |text| => text[i] as int) }

  lemma {:induction false} TagNames()
    ensures TagText(IntTag) == Codes("int") && TagText(StrTag) == Codes("str")
    ensures TagText(E4m3Tag) == Codes("e4m3") && TagText(E5m2Tag) == Codes("e5m2")
    ensures TagText(Fp16Tag) == Codes("fp16") && TagText(Bf16Tag) == Codes("bf16")
    ensures TagText(Fp32Tag) == Codes("fp32") && TagText(Fp64Tag) == Codes("fp64")
  {
    hide ValidUtf8;
  }

  function TagOf(text: Text): Option<Tag>
  {
    if text == TagText(IntTag) then Some(IntTag)
    else if text == TagText(StrTag) then Some(StrTag)
    else if text == TagText(E4m3Tag) then Some(E4m3Tag)
    else if text == TagText(E5m2Tag) then Some(E5m2Tag)
    else if text == TagText(Fp16Tag) then Some(Fp16Tag)
    else if text == TagText(Bf16Tag) then Some(Bf16Tag)
    else if text == TagText(Fp32Tag) then Some(Fp32Tag)
    else if text == TagText(Fp64Tag) then Some(Fp64Tag)
    else None
  }

  lemma {:induction false} TagOfText(tag: Tag, text: Text)
    ensures TagOf(text) == Some(tag) <==> text == TagText(tag)
  {
    hide ValidUtf8;
    var (i, s, a, b) := (TagText(IntTag), TagText(StrTag), TagText(E4m3Tag), TagText(E5m2Tag));
    var (c, d, e, f) := (TagText(Fp16Tag), TagText(Bf16Tag), TagText(Fp32Tag), TagText(Fp64Tag));
    assert i[0] == 105 && s[0] == 115 && a[0] == 101 && b[0] == 101 && c[0] == 102 && d[0] == 98 && e[0] == 102 && f[0] == 102;
    assert a[1] == 52 && b[1] == 53 && c[2] == 49 && e[2] == 51 && f[2] == 54;
  }

  /** The payloads that the tag's decoder does not refuse: `decode("utf-8")` and `unpack("<d")` can raise. */
  predicate Accepts(tag: Tag, payload: Bytes)
  {
    match tag
    case StrTag => ValidUtf8(payload)
    case Fp64Tag => |payload| == 8
    case _ => true
  }

  /** The value of a composite: an int, or the payload bytes of a string or a float. */
  datatype Value = IntValue(v: int) | Coded(tag: Tag, payload: Bytes)
  {
    function TypeTag(): Tag { if IntValue? then IntTag else tag }

    predicate Valid() { Coded? ==> tag != IntTag && Accepts(tag, payload) }
  }

  datatype Expr = Nil | Symbol(text: Text) | Raw(value: Bytes) | Link(head: Expr, tail: Expr) | Typed(typed: Value)

  /** `TAG_BYTE_ENCODINGS` and `TAG_BYTE_DECODINGS`. */
  function EncodeValue(v: Value): Bytes { if v.IntValue? then EncodeInt(v.v) else v.payload }

  function DecodeValue(tag: Tag, b: Bytes): (v: Value)
    requires Accepts(tag, b)
    ensures v.Valid()
  {
    if tag == IntTag then IntValue(DecodeInt(b)) else Coded(tag, b)
  }

  lemma {:induction false} ValueRoundTrip(v: Value)
    requires v.Valid()
    ensures Accepts(v.TypeTag(), EncodeValue(v)) && DecodeValue(v.TypeTag(), EncodeValue(v)) == v
  {
    if v.IntValue? {
      DecodeEncodedInt(v.v);
    }
  }

  /** Every value is one that its type can hold. */
  predicate WellTyped(e: Expr)
  {
    match e
    case Typed(v) => v.Valid()
    case Link(head, tail) => WellTyped(head) && WellTyped(tail)
    case Nil => true
    case Symbol(_) => true
    case Raw(_) => true
  }

  type Hash = Cell -> Digest

  const NIL_CELL := LinkCell(ZERO32, ZERO32)

  /** `Expr.hash`. */
  function TreeHash(H: Hash, e: Expr): Digest
    decreases e, 1
  {
    if e.Nil? then ZERO32 else H(CellOf(H, e))
  }

  /** The cell that an expr is encoded as, through `get_expr_head_hash` and `get_expr_tail_hash`. */
  function CellOf(H: Hash, e: Expr): Cell
    decreases e, 0
  {
    match e
    case Nil => NIL_CELL
    case Symbol(text) => SymbolCell(text)
    case Raw(value) => BytesCell(value)
    case Link(head, tail) => LinkCell(TreeHash(H, head), TreeHash(H, tail))
    case Typed(v) => LinkCell(H(BytesCell(EncodeValue(v))), H(SymbolCell(TagText(v.TypeTag()))))
  }

  /** The hash of a tree: NIL is the zero hash, a composite hashes like the link of its payload and its type symbol. */
  lemma {:induction false} HashRules(H: Hash, head: Expr, tail: Expr, text: Text, value: Bytes, v: Value)
    ensures TreeHash(H, Nil) == ZERO32
    ensures TreeHash(H, Symbol(text)) == H(SymbolCell(text)) && TreeHash(H, Raw(value)) == H(BytesCell(value))
    ensures TreeHash(H, Link(head, tail)) == H(LinkCell(TreeHash(H, head), TreeHash(H, tail)))
    ensures TreeHash(H, Typed(v)) == TreeHash(H, Link(Raw(EncodeValue(v)), Symbol(TagText(v.TypeTag()))))
    ensures v.IntValue? ==> EncodeValue(v) == EncodeInt(v.v)
    ensures v.Coded? ==> EncodeValue(v) == v.payload
  {
    hide TagText, EncodeInt;
    UnfoldedCell(H, EncodeValue(v), TagText(v.TypeTag()));
    assert CellOf(H, Link(head, tail)) == LinkCell(TreeHash(H, head), TreeHash(H, tail));
  }

  /** A composite as the link of its payload and its type symbol. */
  function Plain(e: Expr): Expr
  {
    match e
    case Link(head, tail) => Link(Plain(head), Plain(tail))
    case Typed(v) => Link(Raw(EncodeValue(v)), Symbol(TagText(v.TypeTag())))
    case Nil => e
    case Symbol(_) => e
    case Raw(_) => e
  }

  lemma {:induction false} UnfoldedCell(H: Hash, value: Bytes, text: Text)
    ensures CellOf(H, Link(Raw(value), Symbol(text))) == LinkCell(H(BytesCell(value)), H(SymbolCell(text)))
  {
    assert TreeHash(H, Raw(value)) == H(CellOf(H, Raw(value)));
    assert TreeHash(H, Symbol(text)) == H(CellOf(H, Symbol(text)));
  }

  lemma {:induction false} PlainKeepsHash(H: Hash, e: Expr)
    ensures TreeHash(H, Plain(e)) == TreeHash(H, e) && CellOf(H, Plain(e)) == CellOf(H, e)
  {
    if e.Link? {
      PlainKeepsHash(H, e.head);
      PlainKeepsHash(H, e.tail);
    } else if e.Typed? {
      UnfoldedCell(H, Plain(e).head.value, Plain(e).tail.text);
    }
  }

  /** A link of payload bytes and a builtin type symbol: a composite that is not folded. */
  predicate Unfolded(e: Expr) { e.Link? && e.head.Raw? && e.tail.Symbol? && TagOf(e.tail.text).Some? }

  /** No unfolded composite of the tree has a payload that its decoder refuses. */
  predicate Rebuilds(e: Expr)
  {
    if Unfolded(e) then Accepts(TagOf(e.tail.text).value, e.head.value)
    else e.Link? ==> Rebuilds(e.head) && Rebuilds(e.tail)
  }

  /** What `_reconstruct_builtin_composites` makes of a tree: every unfolded composite gets its value. */
  function Canon(e: Expr): Expr
    requires Rebuilds(e)
  {
    if Unfolded(e) then Typed(DecodeValue(TagOf(e.tail.text).value, e.head.value))
    else if e.Link? then Link(Canon(e.head), Canon(e.tail))
    else e
  }

  /** `_reconstruct_builtin_composites`; an Err is the exception of a tag's decoder. */
  method ReconstructBuiltinComposites(e: Expr) returns (r: Result<Expr>)
    ensures r.Ok? <==> Rebuilds(e)
    ensures r.Ok? ==> r.value == Canon(e)
  {
    if !e.Link? {
      return Ok(e);
    }
    if e.head.Raw? && e.tail.Symbol? && TagOf(e.tail.text).Some? {
      var tag := TagOf(e.tail.text).value;
      if !Accepts(tag, e.head.value) {
        return Err("payload cannot be decoded");
      }
      return Ok(Typed(DecodeValue(tag, e.head.value)));
    }
    var head := ReconstructBuiltinComposites(e.head);
    if head.Err? {
      return head;
    }
    var tail := ReconstructBuiltinComposites(e.tail);
    if tail.Err? {
      return tail;
    }
    return Ok(Link(head.value, tail.value));
  }

  predicate Folded(e: Expr) { !Unfolded(e) && (e.Link? ==> Folded(e.head) && Folded(e.tail)) }

  lemma {:induction false} FoldedRebuilds(e: Expr)
    requires Folded(e)
    ensures Rebuilds(e)
  {
    if e.Link? {
      FoldedRebuilds(e.head);
      FoldedRebuilds(e.tail);
    }
  }

  lemma {:induction false} CanonFixesFolded(e: Expr)
    requires Rebuilds(e)
    ensures Canon(e) == e <==> Folded(e)
  {
    if e.Link? && !Unfolded(e) {
      CanonFixesFolded(e.head);
      CanonFixesFolded(e.tail);
    }
  }

  /** Writing composites as links adds no payload that is refused, and rebuilding undoes it. */
  lemma {:induction false} CanonOfPlain(e: Expr)
    requires WellTyped(e)
    ensures Rebuilds(Plain(e)) <==> Rebuilds(e)
    ensures Rebuilds(e) ==> Canon(Plain(e)) == Canon(e)
  {
    match e
    case Nil =>
    case Symbol(_) =>
    case Raw(_) =>
    case Typed(v) =>
      TagOfText(v.TypeTag(), TagText(v.TypeTag()));
      ValueRoundTrip(v);
    case Link(head, tail) =>
      CanonOfPlain(head);
      CanonOfPlain(tail);
      PlainShape(head);
      PlainShape(tail);
  }

  lemma {:induction false} PlainShape(e: Expr)
    ensures Plain(e).Raw? <==> e.Raw?
    ensures Plain(e).Symbol? <==> e.Symbol?
    ensures e.Raw? || e.Symbol? ==> Plain(e) == e
  {
  }

  /** The payload of every unfolded int is the one that `_encode_int` writes. */
  predicate CanonicalInts(e: Expr)
  {
    && (Unfolded(e) && TagOf(e.tail.text) == Some(IntTag) ==> e.head.value == EncodeInt(DecodeInt(e.head.value)))
    && (e.Link? ==> CanonicalInts(e.head) && CanonicalInts(e.tail))
  }

  /** The cells of a tree, the ones that are never sent included. */
  ghost function AllCells(H: Hash, e: Expr): set<Cell>
  {
    {CellOf(H, e)} + Payload(e)
    + if e.Link? then AllCells(H, e.head) + AllCells(H, e.tail) else {}
  }

  ghost function Payload(e: Expr): set<Cell>
  {
    if e.Typed? then {BytesCell(EncodeValue(e.typed)), SymbolCell(TagText(e.typed.TypeTag()))} else {}
  }

  /** No two of the cells have one hash, and none hashes to ZERO32. */
  ghost predicate CollisionFree(H: Hash, cells: set<Cell>)
  {
    && (forall a, b :: a in cells && b in cells && H(a) == H(b) ==> a == b)
    && forall a :: a in cells ==> H(a) != ZERO32
  }

  /** Hashing a tree anew after rebuilding gives the old hash if its ints are canonical. */
  lemma {:induction false} CanonKeepsHash(H: Hash, e: Expr)
    requires Rebuilds(e) && CanonicalInts(e)
    ensures TreeHash(H, Canon(e)) == TreeHash(H, e)
  {
    if Unfolded(e) {
      TagOfText(TagOf(e.tail.text).value, e.tail.text);
      UnfoldedCell(H, e.head.value, e.tail.text);
    } else if e.Link? {
      CanonKeepsHash(H, e.head);
      CanonKeepsHash(H, e.tail);
    }
  }

  /**
   * Without collisions a tree that is hashed anew after rebuilding has its old hash exactly when its ints
   * are canonical: the cached hash of a decoded expr and the cell that it would be encoded to agree then only.
   */
  lemma {:induction false} CanonHashIff(H: Hash, e: Expr, cells: set<Cell>)
    requires Rebuilds(e) && AllCells(H, e) + AllCells(H, Canon(e)) <= cells && CollisionFree(H, cells)
    ensures TreeHash(H, Canon(e)) == TreeHash(H, e) <==> CanonicalInts(e)
  {
    hide CollisionFree;
    if CanonicalInts(e) {
      CanonKeepsHash(H, e);
    } else if TreeHash(H, Canon(e)) == TreeHash(H, e) {
      SameCell(H, cells, CellOf(H, Canon(e)), CellOf(H, e));
      if Unfolded(e) {
        UnfoldedCell(H, e.head.value, e.tail.text);
        assert AllCells(H, e.head) == {BytesCell(e.head.value)};
        assert BytesCell(EncodeValue(Canon(e).typed)) in Payload(Canon(e));
        SameCell(H, cells, BytesCell(e.head.value), BytesCell(EncodeValue(Canon(e).typed)));
      } else {
        CanonHashIff(H, e.head, cells);
        CanonHashIff(H, e.tail, cells);
      }
    }
  }

  lemma {:induction false} SameCell(H: Hash, cells: set<Cell>, a: Cell, b: Cell)
    requires CollisionFree(H, cells) && a in cells && b in cells && H(a) == H(b)
    ensures a == b
  {
  }
}
