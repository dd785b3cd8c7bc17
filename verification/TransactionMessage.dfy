/**
 * The TRANSACTION message of `consensus/transaction/message.py`: a transaction tree is flattened
 * to its distinct cells, framed as one page, and linked again by hash on the other side.
 */
module TransactionMessages {
  import opened Common
  import opened ExprCodec
  import opened FoundPages
  import opened IntCodec
  import opened Exprs
  import Shapes

  // ------------------------------------------------------------------ flattening

  /** What the walk has emitted, and the hashes it has seen. */
  datatype Walked = Walked(expanded: seq<Cell>, seen: set<Digest>)

  /** `_add`. */
  function Added(w: Walked, key: Digest, c: Cell): Walked
  {
    if key in w.seen then w else Walked(w.expanded + [c], w.seen + {key})
  }

  /** The known type symbols are never sent. */
  predicate Known(e: Expr) { e.Symbol? && TagOf(e.text).Some? }

  function WalkedFrom(H: Hash, e: Expr, w: Walked): Walked
  {
    if Known(e) then w
    else
      var own := Added(w, TreeHash(H, e), CellOf(H, e));
      match e
      case Typed(v) => Added(own, H(BytesCell(EncodeValue(v))), BytesCell(EncodeValue(v)))
      case Link(head, tail) => WalkedFrom(H, tail, WalkedFrom(H, head, own))
      case Nil => own
      case Symbol(_) => own
      case Raw(_) => own
  }

  /** `_add`, on the list and the set that the walk updates. */
  method Add(expanded0: seq<Cell>, seen0: set<Digest>, key: Digest, c: Cell) returns (expanded: seq<Cell>, seen: set<Digest>)
    ensures Walked(expanded, seen) == Added(Walked(expanded0, seen0), key, c)
  {
    expanded, seen := expanded0, seen0;
    if key in seen {
      return;
    }
    seen := seen + {key};
    expanded := expanded + [c];
  }

  /** `_walk`. */
  method Walk(H: Hash, e: Expr, expanded0: seq<Cell>, seen0: set<Digest>) returns (expanded: seq<Cell>, seen: set<Digest>)
    ensures Walked(expanded, seen) == WalkedFrom(H, e, Walked(expanded0, seen0))
  {
    expanded, seen := expanded0, seen0;
    if Known(e) {
      return;
    }
    expanded, seen := Add(expanded, seen, TreeHash(H, e), CellOf(H, e));
    if e.Typed? {
      var payload := BytesCell(EncodeValue(e.typed));
      expanded, seen := Add(expanded, seen, H(payload), payload);
    } else if e.Link? {
      expanded, seen := Walk(H, e.head, expanded, seen);
      expanded, seen := Walk(H, e.tail, expanded, seen);
    }
  }

  const TAGS: seq<Tag> := [IntTag, StrTag, E4m3Tag, E5m2Tag, Fp16Tag, Bf16Tag, Fp32Tag, Fp64Tag]

  /** `TYPE_SYMBOLS`. */
  function TypeSymbols(): seq<Cell> { seq(|TAGS|, i requires 0 <= i < |TAGS| => SymbolCell(TagText(TAGS[i]))) }

  ghost function KnownCells(): set<Cell> { set c | c in TypeSymbols() }

  lemma {:induction false} TagIsKnown(tag: Tag)
    ensures SymbolCell(TagText(tag)) in KnownCells()
  {
    hide TagText;
    var i := match tag
      case IntTag => 0
      case StrTag => 1
      case E4m3Tag => 2
      case E5m2Tag => 3
      case Fp16Tag => 4
      case Bf16Tag => 5
      case Fp32Tag => 6
      case Fp64Tag => 7;
    assert TAGS[i] == tag && TypeSymbols()[i] == SymbolCell(TagText(tag));
  }

  /** Everything seen has been emitted, and everything emitted is a cell of the transaction. */
  ghost predicate SeenIsEmitted(H: Hash, cells: set<Cell>, w: Walked)
  {
    && (forall c :: c in w.expanded ==> c in cells)
    && (forall c :: c in cells && H(c) in w.seen ==> c in w.expanded)
    && (ZERO32 in w.seen ==> NIL_CELL in w.expanded)
  }

  ghost predicate Grows(w: Walked, later: Walked) { w.expanded <= later.expanded && w.seen <= later.seen }

  /** The tree's own cells, without the known symbols, are among the emitted ones. */
  ghost predicate Sent(H: Hash, e: Expr, expanded: seq<Cell>)
  {
    Known(e) ||
    (CellOf(H, e) in expanded
     && match e
        case Typed(v) => BytesCell(EncodeValue(v)) in expanded
        case Link(head, tail) => Sent(H, head, expanded) && Sent(H, tail, expanded)
        case Nil => true
        case Symbol(_) => true
        case Raw(_) => true)
  }

  lemma {:induction false} SentLater(H: Hash, e: Expr, expanded: seq<Cell>, later: seq<Cell>)
    requires Sent(H, e, expanded) && expanded <= later
    ensures Sent(H, e, later)
  {
    assert forall c :: c in expanded ==> c in later;
    if e.Link? && !Known(e) {
      SentLater(H, e.head, expanded, later);
      SentLater(H, e.tail, expanded, later);
    }
  }

  lemma {:induction false} AddedEmits(H: Hash, cells: set<Cell>, w: Walked, key: Digest, c: Cell)
    requires CollisionFree(H, cells) && c in cells && SeenIsEmitted(H, cells, w)
    requires key == H(c) || (key == ZERO32 && c == NIL_CELL)
    ensures SeenIsEmitted(H, cells, Added(w, key, c)) && c in Added(w, key, c).expanded && Grows(w, Added(w, key, c))
  {
  }

  /** The walk sends every cell of the tree once, and nothing else. */
  lemma {:induction false} WalkSends(H: Hash, cells: set<Cell>, e: Expr, w: Walked)
    requires CollisionFree(H, cells) && AllCells(H, e) <= cells && SeenIsEmitted(H, cells, w)
    ensures var r := WalkedFrom(H, e, w);
      SeenIsEmitted(H, cells, r) && Grows(w, r) && Sent(H, e, r.expanded)
  {
    hide SeenIsEmitted, CollisionFree;
    if !Known(e) {
      assert CellOf(H, e) in cells;
      AddedEmits(H, cells, w, TreeHash(H, e), CellOf(H, e));
      var own := Added(w, TreeHash(H, e), CellOf(H, e));
      if e.Typed? {
        var c := BytesCell(EncodeValue(e.typed));
        assert c in Payload(e);
        AddedEmits(H, cells, own, H(c), c);
      } else if e.Link? {
        var one := WalkedFrom(H, e.head, own);
        WalkSends(H, cells, e.head, own);
        WalkSends(H, cells, e.tail, one);
        SentLater(H, e.head, one.expanded, WalkedFrom(H, e.tail, one).expanded);
      }
    }
  }

  /** The flattened transaction. */
  ghost function Flattened(H: Hash, root: Expr): seq<Cell> { WalkedFrom(H, root, Walked([], {})).expanded }

  lemma {:induction false} WalkGrows(H: Hash, e: Expr, w: Walked)
    ensures Grows(w, WalkedFrom(H, e, w))
    ensures e.Link? && w == Walked([], {}) ==> WalkedFrom(H, e, w).expanded != [] && WalkedFrom(H, e, w).expanded[0] == CellOf(H, e)
  {
    if e.Link? && !Known(e) {
      var own := Added(w, TreeHash(H, e), CellOf(H, e));
      WalkGrows(H, e.head, own);
      WalkGrows(H, e.tail, WalkedFrom(H, e.head, own));
    }
  }

  /** Nothing but the cell of NIL is listed twice, and whatever is listed has been seen. */
  ghost predicate ListedOnce(H: Hash, w: Walked)
  {
    && (forall i, j :: 0 <= i < j < |w.expanded| && w.expanded[i] == w.expanded[j] ==> w.expanded[i] == NIL_CELL)
    && forall c :: c in w.expanded && c != NIL_CELL ==> H(c) in w.seen
  }

  lemma {:induction false} AddedOnce(H: Hash, w: Walked, key: Digest, c: Cell)
    requires ListedOnce(H, w) && (key == H(c) || c == NIL_CELL)
    ensures ListedOnce(H, Added(w, key, c))
  {
  }

  /** No cell that only a type symbol needs. */
  ghost predicate NoTypeSymbol(expanded: seq<Cell>)
  {
    forall c :: c in expanded && c.SymbolCell? ==> TagOf(c.text).None?
  }

  lemma {:induction false} WalkListsOnce(H: Hash, e: Expr, w: Walked)
    requires ListedOnce(H, w) && NoTypeSymbol(w.expanded)
    ensures ListedOnce(H, WalkedFrom(H, e, w)) && NoTypeSymbol(WalkedFrom(H, e, w).expanded)
  {
    hide ListedOnce, TagOf;
    if !Known(e) {
      AddedOnce(H, w, TreeHash(H, e), CellOf(H, e));
      var own := Added(w, TreeHash(H, e), CellOf(H, e));
      if e.Typed? {
        var c := BytesCell(EncodeValue(e.typed));
        AddedOnce(H, own, H(c), c);
      } else if e.Link? {
        WalkListsOnce(H, e.head, own);
        WalkListsOnce(H, e.tail, WalkedFrom(H, e.head, own));
      }
    }
  }

  /** A flattened tree has each cell once, the cell of NIL aside, and no builtin type symbol. */
  lemma {:induction false} FlattenedOnce(H: Hash, root: Expr)
    ensures var sent := Flattened(H, root);
      && (forall i, j :: 0 <= i < j < |sent| && sent[i] == sent[j] ==> sent[i] == NIL_CELL)
      && (forall i :: 0 <= i < |sent| && sent[i].SymbolCell? ==> TagOf(sent[i].text).None?)
  {
    hide TagOf;
    WalkListsOnce(H, root, Walked([], {}));
    assert forall i :: 0 <= i < |Flattened(H, root)| ==> Flattened(H, root)[i] in Flattened(H, root);
  }

  /** The order of the cells: a link before its head and its tail, a composite before its payload. */
  lemma {:induction false} FlattenedOrder(H: Hash, v: int, value: Bytes)
    requires var e := Link(Typed(IntValue(v)), Raw(value));
      |{TreeHash(H, e), TreeHash(H, e.head), H(BytesCell(EncodeInt(v))), H(BytesCell(value))}| == 4
    ensures var e := Link(Typed(IntValue(v)), Raw(value));
      Flattened(H, e) == [CellOf(H, e), CellOf(H, e.head), BytesCell(EncodeInt(v)), BytesCell(value)]
  {
    hide EncodeInt, TagText;
    var e := Link(Typed(IntValue(v)), Raw(value));
    var (a, b, c, d) := (TreeHash(H, e), TreeHash(H, e.head), H(BytesCell(EncodeInt(v))), H(BytesCell(value)));
    FourDiffer(a, b, c, d);
    assert TreeHash(H, e.tail) == d;
    var one := Walked([CellOf(H, e)], {a});
    assert Added(Walked([], {}), a, CellOf(H, e)) == one;
    var three := Walked([CellOf(H, e), CellOf(H, e.head), BytesCell(EncodeInt(v))], {a} + {b} + {c});
    assert WalkedFrom(H, e.head, one) == three;
    assert WalkedFrom(H, e.tail, three).expanded == three.expanded + [BytesCell(value)];
  }

  lemma {:induction false} FourDiffer(a: Digest, b: Digest, c: Digest, d: Digest)
    requires |{a, b, c, d}| == 4
    ensures a != b && a != c && a != d && b != c && b != d && c != d
  {
    assert a == b ==> {a, b, c, d} == {a, c, d};
    assert a == c ==> {a, b, c, d} == {a, b, d};
    assert a == d ==> {a, b, c, d} == {a, b, c};
    assert b == c ==> {a, b, c, d} == {a, b, d};
    assert b == d ==> {a, b, c, d} == {a, b, c};
    assert c == d ==> {a, b, c, d} == {a, b, c};
  }

  lemma {:induction false} CostWithin(cells: seq<Cell>, i: nat)
    requires i < |cells|
    ensures Cost(cells[i]) <= Used(cells)
  {
    hide Used, Cost;
    UsedPrefix(cells, i + 1);
    var part := cells[..i + 1];
    assert part[i] == cells[i];
    LastWithin(part);
  }

  lemma {:induction false} LastWithin(part: seq<Cell>)
    requires part != []
    ensures Cost(part[|part| - 1]) <= Used(part)
  {
    hide Cost;
  }

  lemma {:induction false} AllPackable(cells: seq<Cell>)
    requires forall i :: 0 <= i < |cells| ==> Cost(cells[i]) <= PAGE_ENTRY_BUDGET
    ensures Packable(cells) == cells
  {
    hide Cost;
    if cells != [] {
      AllPackable(cells[..|cells| - 1]);
    }
  }

  /** The items take one page exactly when they fit one. */
  lemma {:induction false} OnePageIff(pages: seq<seq<Cell>>, items: seq<Cell>)
    requires Greedy(pages, items) && items != []
    ensures |pages| == 1 <==> Used(items) <= PAGE_ENTRY_BUDGET
    ensures |pages| == 1 ==> pages[0] == items && FitPage(items)
  {
    hide Cost;
    FirstBreak(pages, items);
    if |pages| > 1 {
      var k := |pages[0]|;
      UsedPrefix(items, k + 1);
      assert items[..k + 1][..k] == items[..k] == pages[0];
    } else {
      assert FitPage(pages[0]);
    }
  }

  /** `encode_transaction_message`: one page, or an error. */
  method EncodeTransactionMessage(H: Hash, root: Expr) returns (r: Result<Bytes>)
    requires root.Link?
    ensures r.Ok? <==> Used(Flattened(H, root)) <= PAGE_ENTRY_BUDGET
    ensures r.Ok? ==> FitPage(Flattened(H, root)) && PageBytes(1, 1, Flattened(H, root)) == Some(r.value)
  {
    hide Used, Cost, Greedy, PageBytes, FitPage;
    var expanded, seen := Walk(H, root, [], {});
    WalkGrows(H, root, Walked([], {}));
    for i := 0 to |expanded|
      invariant forall j :: 0 <= j < i ==> Cost(expanded[j]) <= PAGE_ENTRY_BUDGET
    {
      CostWithin(expanded, i);
      if Cost(expanded[i]) > PAGE_ENTRY_BUDGET {
        return Err("transaction expr too large for one page");
      }
    }
    AllPackable(expanded);
    var encoded, pages := EncodeFoundPages(expanded);
    OnePageIff(pages, expanded);
    if encoded.Err? {
      return Err(encoded.reason);
    }
    if |encoded.value| != 1 {
      return Err("transaction message does not fit one page");
    }
    return Ok(encoded.value[0]);
  }

  /** What the nodes of a tree take on a page, repeated cells counted again. */
  function TreeCost(e: Expr): nat
  {
    match e
    case Nil => 69
    case Symbol(text) => 5 + |text|
    case Raw(value) => 5 + |value|
    case Link(head, tail) => 69 + TreeCost(head) + TreeCost(tail)
    case Typed(v) => 69 + 5 + |EncodeValue(v)|
  }

  lemma {:induction false} AddedCost(w: Walked, key: Digest, c: Cell)
    ensures Used(Added(w, key, c).expanded) <= Used(w.expanded) + Cost(c)
  {
    hide Cost;
    assert (w.expanded + [c])[..|w.expanded|] == w.expanded;
  }

  /** A transaction fits its page if its nodes do. */
  lemma {:induction false} WalkCost(H: Hash, e: Expr, w: Walked)
    ensures Used(WalkedFrom(H, e, w).expanded) <= Used(w.expanded) + TreeCost(e)
  {
    hide Used;
    if !Known(e) {
      var own := Added(w, TreeHash(H, e), CellOf(H, e));
      AddedCost(w, TreeHash(H, e), CellOf(H, e));
      if e.Typed? {
        var c := BytesCell(EncodeValue(e.typed));
        AddedCost(own, H(c), c);
      } else if e.Link? {
        WalkCost(H, e.head, own);
        WalkCost(H, e.tail, WalkedFrom(H, e.head, own));
      }
    }
  }

  // --------------------------------------------------------------------- linking

  type Table = map<Digest, Cell>

  function CellMap(H: Hash, cells: seq<Cell>): Table
  {
    if cells == [] then map[]
    else CellMap(H, cells[..|cells| - 1])[H(cells[|cells| - 1]) := cells[|cells| - 1]]
  }

  /** `_KNOWN_TYPE_EXPRS`. */
  function KnownMap(H: Hash): Table { CellMap(H, TypeSymbols()) }

  /** `expr_map`: the sent cells by hash, then the known type symbols. */
  function TableOf(H: Hash, cells: seq<Cell>): Table { CellMap(H, cells) + KnownMap(H) }

  lemma {:induction false} CellMapHas(H: Hash, all: set<Cell>, cells: seq<Cell>)
    requires CollisionFree(H, all) && forall c :: c in cells ==> c in all
    ensures forall h :: h in CellMap(H, cells) ==> CellMap(H, cells)[h] in all && H(CellMap(H, cells)[h]) == h
    ensures forall c :: c in cells ==> H(c) in CellMap(H, cells)
  {
    if cells != [] {
      CellMapHas(H, all, cells[..|cells| - 1]);
      assert cells == cells[..|cells| - 1] + [cells[|cells| - 1]];
    }
  }

  lemma {:induction false} TableHas(H: Hash, all: set<Cell>, cells: seq<Cell>, c: Cell)
    requires CollisionFree(H, all) && KnownCells() <= all && forall x :: x in cells ==> x in all
    requires c in cells || c in KnownCells()
    ensures H(c) in TableOf(H, cells) && TableOf(H, cells)[H(c)] == c
  {
    CellMapHas(H, all, cells);
    KnownMapHas(H);
    var known := KnownMap(H);
    assert c in all;
    if H(c) in known {
      assert known[H(c)] in all;
    } else {
      assert CellMap(H, cells)[H(c)] in all;
    }
  }

  lemma {:induction false} KnownMapHas(H: Hash)
    ensures forall h :: h in KnownMap(H) ==> KnownMap(H)[h] in KnownCells() && H(KnownMap(H)[h]) == h
    ensures forall c :: c in KnownCells() ==> H(c) in KnownMap(H)
  {
    hide TypeSymbols;
    CellMapFrom(H, TypeSymbols());
  }

  lemma {:induction false} CellMapFrom(H: Hash, cells: seq<Cell>)
    ensures forall h :: h in CellMap(H, cells) ==> CellMap(H, cells)[h] in cells && H(CellMap(H, cells)[h]) == h
    ensures forall c :: c in cells ==> H(c) in CellMap(H, cells)
  {
    if cells != [] {
      CellMapFrom(H, cells[..|cells| - 1]);
      assert cells == cells[..|cells| - 1] + [cells[|cells| - 1]];
    }
  }

  /** The tree that a cell stands for when its hashes are followed through the table. */
  ghost predicate Linked(table: Table, c: Cell, e: Expr)
    decreases e, 0
  {
    match c
    case SymbolCell(text) => e == Symbol(text)
    case BytesCell(value) => e == Raw(value)
    case LinkCell(head, tail) => e.Link? && LinkedRef(table, head, e.head) && LinkedRef(table, tail, e.tail)
  }

  ghost predicate LinkedRef(table: Table, h: Digest, e: Expr)
    decreases e, 1
  {
    if h == ZERO32 then e == Nil else h in table && Linked(table, table[h], e)
  }

  lemma {:induction false} LinkedOnce(table: Table, c: Cell, a: Expr, b: Expr)
    requires Linked(table, c, a) && Linked(table, c, b)
    ensures a == b
    decreases a
  {
    if c.LinkCell? {
      if c.head != ZERO32 {
        LinkedOnce(table, table[c.head], a.head, b.head);
      }
      if c.tail != ZERO32 {
        LinkedOnce(table, table[c.tail], a.tail, b.tail);
      }
    }
  }

  /** `_link_tree`: the linked tree below a hash; None is its KeyError. */
  method LinkTree(table: Table, h: Digest, ghost rank: Digest -> nat) returns (linked: Option<Expr>)
    requires Shapes.Acyclic(table, rank)
    ensures linked.Some? ==> LinkedRef(table, h, linked.value)
    ensures linked.None? ==> forall e :: !LinkedRef(table, h, e)
    decreases rank(h)
  {
    if h == ZERO32 {
      return Some(Nil);
    }
    if h !in table {
      return None;
    }
    match table[h]
    case SymbolCell(text) => return Some(Symbol(text));
    case BytesCell(value) => return Some(Raw(value));
    case LinkCell(headHash, tailHash) =>
      assert forall e :: LinkedRef(table, h, e) ==> e.Link? && LinkedRef(table, headHash, e.head) && LinkedRef(table, tailHash, e.tail);
      var head := LinkTree(table, headHash, rank);
      if head.None? {
        return None;
      }
      var tail := LinkTree(table, tailHash, rank);
      if tail.None? {
        return None;
      }
      return Some(Link(head.value, tail.value));
  }

  /** Relinking what was sent gives the tree back, every composite as a link. */
  lemma {:induction false} SentIsLinked(H: Hash, all: set<Cell>, e: Expr, sent: seq<Cell>)
    requires CollisionFree(H, all) && AllCells(H, e) <= all && KnownCells() <= all && forall x :: x in sent ==> x in all
    requires Sent(H, e, sent)
    ensures LinkedRef(TableOf(H, sent), TreeHash(H, e), Plain(e))
  {
    hide TableOf, CollisionFree, TagText, KnownCells, ValidUtf8;
    if !e.Nil? {
      CellHere(H, all, e, sent);
      NotZero(H, all, CellOf(H, e));
      TableHas(H, all, sent, CellOf(H, e));
      if e.Link? {
        SentIsLinked(H, all, e.head, sent);
        SentIsLinked(H, all, e.tail, sent);
      } else if e.Typed? {
        var (payload, symbol) := (BytesCell(EncodeValue(e.typed)), SymbolCell(TagText(e.typed.TypeTag())));
        assert payload in Payload(e) && symbol in Payload(e);
        TagIsKnown(e.typed.TypeTag());
        TableHas(H, all, sent, payload);
        TableHas(H, all, sent, symbol);
        NotZero(H, all, payload);
        NotZero(H, all, symbol);
        assert LinkedRef(TableOf(H, sent), H(payload), Plain(e).head);
        assert LinkedRef(TableOf(H, sent), H(symbol), Plain(e).tail);
      }
    }
  }

  lemma {:induction false} CellHere(H: Hash, all: set<Cell>, e: Expr, sent: seq<Cell>)
    requires Sent(H, e, sent) && AllCells(H, e) <= all
    ensures CellOf(H, e) in sent || CellOf(H, e) in KnownCells()
    ensures CellOf(H, e) in all
  {
    hide TagText, TagOf, KnownCells;
    if Known(e) {
      TagOfText(TagOf(e.text).value, e.text);
      TagIsKnown(TagOf(e.text).value);
    }
  }

  lemma {:induction false} NotZero(H: Hash, all: set<Cell>, c: Cell)
    requires CollisionFree(H, all) && c in all
    ensures H(c) != ZERO32
  {
  }

  // ---------------------------------------------------------------- no cycles

  ghost function Size(e: Expr): nat { if e.Link? then 1 + Size(e.head) + Size(e.tail) else 0 }

  /** The size of the tree that a hash stands for, 0 where it stands for none. */
  ghost function RankIn(table: Table, h: Digest): nat
  {
    if e :| LinkedRef(table, h, e) then Size(e) else 0
  }

  lemma {:induction false} RankIs(table: Table, h: Digest, e: Expr)
    requires LinkedRef(table, h, e)
    ensures RankIn(table, h) == Size(e)
  {
    hide Linked;
    forall x | LinkedRef(table, h, x)
      ensures x == e
    {
      if h != ZERO32 {
        LinkedOnce(table, table[h], x, e);
      }
    }
  }

  ghost predicate StandsForTree(table: Table, c: Cell) { exists e :: Linked(table, c, e) }

  /** A table in which every cell stands for a tree has no cycle. */
  lemma {:induction false} LinkedIsAcyclic(table: Table)
    requires ZERO32 !in table && forall h :: h in table ==> StandsForTree(table, table[h])
    ensures Shapes.Acyclic(table, h => RankIn(table, h))
  {
    hide RankIn;
    forall h | h in table && table[h].LinkCell?
      ensures RankIn(table, table[h].head) < RankIn(table, h) && RankIn(table, table[h].tail) < RankIn(table, h)
    {
      var e :| Linked(table, table[h], e);
      RankIs(table, h, e);
      RankIs(table, table[h].head, e.head);
      RankIs(table, table[h].tail, e.tail);
    }
  }

  lemma {:induction false} CellsAreLinked(H: Hash, all: set<Cell>, e: Expr, sent: seq<Cell>, c: Cell)
    requires CollisionFree(H, all) && AllCells(H, e) <= all && KnownCells() <= all && forall x :: x in sent ==> x in all
    requires Sent(H, e, sent) && c in AllCells(H, e)
    ensures StandsForTree(TableOf(H, sent), c)
  {
    hide TableOf, CollisionFree, KnownCells;
    var table := TableOf(H, sent);
    if c in Payload(e) {
      assert Linked(table, c, if c.BytesCell? then Raw(c.value) else Symbol(c.text));
    } else if c == CellOf(H, e) {
      if e.Nil? {
        assert Linked(table, c, Link(Nil, Nil));
      } else {
        CellHere(H, all, e, sent);
        TableHas(H, all, sent, c);
        NotZero(H, all, c);
        SentIsLinked(H, all, e, sent);
        assert Linked(table, c, Plain(e));
      }
    } else if c in AllCells(H, e.head) {
      CellsAreLinked(H, all, e.head, sent, c);
    } else {
      CellsAreLinked(H, all, e.tail, sent, c);
    }
  }

  /** The receiver's table of a sent tree has no cycle, so linking it ends. */
  lemma {:induction false} SentIsAcyclic(H: Hash, cells: set<Cell>, e: Expr)
    requires e.Link? && AllCells(H, e) + KnownCells() + {NIL_CELL} <= cells && CollisionFree(H, cells)
    ensures var table := TableOf(H, Flattened(H, e)); Shapes.Acyclic(table, h => RankIn(table, h))
  {
    hide AllCells, KnownCells, StandsForTree, CollisionFree, WalkedFrom, TableOf, Sent, RankIn;
    var all := AllCells(H, e) + KnownCells() + {NIL_CELL};
    FewerCollide(H, all, cells);
    FlattenedSends(H, all, e);
    var sent := Flattened(H, e);
    var table := TableOf(H, sent);
    forall h | h in table
      ensures h != ZERO32 && StandsForTree(table, table[h])
    {
      var c := table[h];
      TableCell(H, all, sent, h);
      NotZero(H, all, c);
      if c in AllCells(H, e) {
        CellsAreLinked(H, all, e, sent, c);
      } else {
        LeafIsLinked(table, c);
      }
    }
    LinkedIsAcyclic(table);
  }

  lemma {:induction false} TableCell(H: Hash, all: set<Cell>, cells: seq<Cell>, h: Digest)
    requires CollisionFree(H, all) && KnownCells() <= all && (forall x :: x in cells ==> x in all) && h in TableOf(H, cells)
    ensures TableOf(H, cells)[h] in all && H(TableOf(H, cells)[h]) == h
  {
    hide KnownCells, CollisionFree;
    CellMapHas(H, all, cells);
    KnownMapHas(H);
  }

  lemma {:induction false} LeafIsLinked(table: Table, c: Cell)
    requires c in KnownCells() + {NIL_CELL}
    ensures StandsForTree(table, c)
  {
    hide TagText;
    var x := if c.SymbolCell? then Symbol(c.text) else Link(Nil, Nil);
    assert Linked(table, c, x);
  }

  lemma {:induction false} FewerCollide(H: Hash, some: set<Cell>, cells: set<Cell>)
    requires some <= cells && CollisionFree(H, cells)
    ensures CollisionFree(H, some)
  {
  }

  // ------------------------------------------------------------- the transaction

  datatype Transaction = Transaction(amount: int, chainId: int, code: int, costLimit: int, counter: int, data: Expr,
                                     recipient: Bytes, sender: Bytes, signature: Bytes)

  /** `TransactionCode`. */
  const CODES := {0x00, 0x10, 0x11, 0x12, 0x20, 0x21, 0x22, 0x23, 0x24, 0x25, 0x26, 0x30, 0x31, 0x32, 0x40, 0x41}

  /** The UTF-8 bytes of "transaction". */
  const TRANSACTION_TEXT: Text := TransactionText()

  function TransactionText(): Text
  {
    var text: Bytes := [116, 114, 97, 110, 115, 97, 99, 116, 105, 111, 110];
    AsciiIsUtf8(text);
    text
  }

  function IntExpr(v: int): Expr { Typed(IntValue(v)) }

  /** `_body`. */
  function Body(tx: Transaction): Expr
  {
    Link(IntExpr(tx.amount), Link(IntExpr(tx.chainId), Link(IntExpr(tx.code), Link(IntExpr(tx.costLimit),
      Link(IntExpr(tx.counter), Link(tx.data, Link(Raw(tx.recipient), Link(Raw(tx.sender), Nil))))))))
  }

  /** A missing or empty signature is sent as ZERO32. */
  function SentSignature(tx: Transaction): Bytes { if tx.signature == [] then ZERO32 else tx.signature }

  /** `to_expr`. */
  function TransactionExpr(tx: Transaction): Expr
  {
    Link(Link(Body(tx), Link(Raw(SentSignature(tx)), Nil)), Symbol(TRANSACTION_TEXT))
  }

  /** The tree of a transaction: the fields in order, then the signature, under the symbol "transaction". */
  lemma {:induction false} TransactionLayout(tx: Transaction)
    ensures var e := TransactionExpr(tx);
      && e.Link? && e.tail == Symbol(TRANSACTION_TEXT) && TRANSACTION_TEXT == Codes("transaction")
      && ListItems(e.head) == [Body(tx), Raw(if tx.signature == [] then ZERO32 else tx.signature)]
      && e.head.Link? && e.head.head == Body(tx) && Body(tx).Link? && Body(tx).head == Typed(IntValue(tx.amount))
      && ListItems(Body(tx)) == [Typed(IntValue(tx.amount)), Typed(IntValue(tx.chainId)), Typed(IntValue(tx.code)),
                                 Typed(IntValue(tx.costLimit)), Typed(IntValue(tx.counter)), tx.data,
                                 Raw(tx.recipient), Raw(tx.sender)]
  {
    hide ValidUtf8;
    ItemsOfBody(tx);
    var signature := Link(Raw(SentSignature(tx)), Nil);
    assert ListItems(signature) == [Raw(SentSignature(tx))];
    assert ListItems(TransactionExpr(tx).head) == [Body(tx)] + ListItems(signature);
  }

  /**
   * What the parser accepts: exactly the trees of the two items body and signature, whose body has the eight fields
   * of a transaction with a known code.
   */
  lemma {:induction false} ParsesIff(rebuilt: Expr, hash: Digest, bodyHash: Digest, d: Decoded)
    requires rebuilt.Link?
    ensures ParseTransaction(rebuilt, hash, bodyHash) == Parsed(d) <==>
              && d.hash == hash && d.bodyHash == bodyHash
              && var (inner, tx) := (ListItems(rebuilt.head), d.tx);
              && |inner| == 2 && inner[1] == Raw(tx.signature)
              && ListItems(inner[0]) == [Typed(IntValue(tx.amount)), Typed(IntValue(tx.chainId)), Typed(IntValue(tx.code)),
                                         Typed(IntValue(tx.costLimit)), Typed(IntValue(tx.counter)), tx.data,
                                         Raw(tx.recipient), Raw(tx.sender)]
              && (tx.code == 0 || 0x10 <= tx.code <= 0x12 || 0x20 <= tx.code <= 0x26 || 0x30 <= tx.code <= 0x32
                  || 0x40 <= tx.code <= 0x41)
  {
    hide ListItems, TagText;
    NoItems(rebuilt.head);
    var inner := ListItems(rebuilt.head);
    if |inner| == 2 {
      NoItems(inner[0]);
      var fields := ListItems(inner[0]);
      if |fields| == 8 {
        assert fields == [fields[0], fields[1], fields[2], fields[3], fields[4], fields[5], fields[6], fields[7]];
      }
    }
  }

  lemma {:induction false} NoItems(e: Expr)
    ensures !e.Link? ==> ListItems(e) == []
  {
  }

  /** A decoded transaction with its own hash and the hash of its body. */
  datatype Decoded = Decoded(tx: Transaction, hash: Digest, bodyHash: Digest)

  /**
   * What decoding comes to: a transaction; one that has None in an int field, because the field's
   * type symbol stands on no payload; None; or the exception of a tag's decoder, which nothing catches.
   */
  datatype Outcome = Parsed(d: Decoded) | Hollow | Dropped | Raised

  /** `_list_items`. */
  function ListItems(e: Expr): seq<Expr> { if e.Link? then [e.head] + ListItems(e.tail) else [] }

  predicate IsInt(e: Expr) { e.Typed? && e.typed.IntValue? }

  /** `get_expr_builtin_tag(e) == "int"` of a rebuilt tree. */
  predicate HasIntTag(e: Expr) { IsInt(e) || (e.Link? && e.tail == Symbol(TagText(IntTag))) }

  /** `_parse_transaction`, of a tree whose composites are rebuilt and whose cells keep the hashes they came with. */
  function ParseTransaction(rebuilt: Expr, hash: Digest, bodyHash: Digest): Outcome
    requires rebuilt.Link?
  {
    if !rebuilt.head.Link? then Dropped
    else
      var inner := ListItems(rebuilt.head);
      if |inner| != 2 || !inner[1].Raw? || !inner[0].Link? then Dropped
      else
        var fields := ListItems(inner[0]);
        if |fields| != 8 then Dropped
        else if !(HasIntTag(fields[0]) && HasIntTag(fields[1]) && IsInt(fields[2]) && HasIntTag(fields[3]) && HasIntTag(fields[4])) then
          Dropped
        else if !fields[6].Raw? || !fields[7].Raw? || fields[2].typed.v !in CODES then Dropped
        else if !(IsInt(fields[0]) && IsInt(fields[1]) && IsInt(fields[3]) && IsInt(fields[4])) then Hollow
        else
          Parsed(Decoded(Transaction(fields[0].typed.v, fields[1].typed.v, fields[2].typed.v, fields[3].typed.v,
                                     fields[4].typed.v, fields[5], fields[6].value, fields[7].value, inner[1].value),
                         hash, bodyHash))
  }

  /** The body of a linked transaction tree; its hash was cached when its cell was decoded. */
  function LinkedBody(root: Expr): Expr
    requires root.Link?
  {
    if root.head.Link? then root.head.head else root.head
  }

  /** What the linked root decodes to. */
  function Understood(H: Hash, root: Expr): Outcome
    requires root.Link?
  {
    if !Rebuilds(root) then Raised
    else if root.tail != Symbol(TRANSACTION_TEXT) then Dropped
    else
      assert !Unfolded(root) by { TransactionIsNoTag(); }
      ParseTransaction(Canon(root), TreeHash(H, root), TreeHash(H, LinkedBody(root)))
  }

  lemma {:induction false} TransactionIsNoTag()
    ensures TagOf(TRANSACTION_TEXT) == None
  {
    hide ValidUtf8;
    assert |TRANSACTION_TEXT| == 11;
  }

  /** The linked tree of a payload's first expr. */
  ghost predicate HasRoot(H: Hash, content: Bytes, root: Expr): (b: bool)
    ensures b ==> root.Link?
  {
    var page := ParsePage(content);
    && page.Ok? && page.value.number == 1 && page.value.total == 1
    && page.value.exprs != [] && page.value.exprs[0].LinkCell?
    && Linked(TableOf(H, page.value.exprs), page.value.exprs[0], root)
  }

  /** What a payload decodes to. */
  ghost predicate Decodes(H: Hash, content: Bytes, o: Outcome)
  {
    if exists root :: HasRoot(H, content, root) then exists root :: HasRoot(H, content, root) && Understood(H, root) == o
    else o == Dropped
  }

  lemma {:induction false} RootOnce(H: Hash, content: Bytes, a: Expr, b: Expr)
    requires HasRoot(H, content, a) && HasRoot(H, content, b)
    ensures a == b
  {
    hide ParsePage, TableOf;
    LinkedOnce(TableOf(H, ParsePage(content).value.exprs), ParsePage(content).value.exprs[0], a, b);
  }

  /** A payload decodes to one thing only. */
  lemma {:induction false} DecodesOnce(H: Hash, content: Bytes, a: Outcome, b: Outcome)
    requires Decodes(H, content, a) && Decodes(H, content, b)
    ensures a == b
  {
    hide HasRoot, Understood;
    if exists root :: HasRoot(H, content, root) {
      var x :| HasRoot(H, content, x);
      DecodesRoot(H, content, x, a);
      DecodesRoot(H, content, x, b);
    }
  }

  /**
   * Only single-page messages with a link first decode to anything, and only a tree under the symbol "transaction"
   * whose composites can be rebuilt decodes to a transaction.
   */
  lemma {:induction false} DecodedIsTransaction(H: Hash, content: Bytes, o: Outcome) returns (root: Expr)
    requires Decodes(H, content, o) && o != Dropped
    ensures var page := ParsePage(content);
      && page.Ok? && page.value.number == page.value.total == 1 && page.value.exprs != []
      && root.Link? && Linked(TableOf(H, page.value.exprs), page.value.exprs[0], root)
    ensures o == Raised <==> !Rebuilds(root)
    ensures o != Raised ==>
              root.tail.Symbol? && root.tail.text == Codes("transaction") && Rebuilds(root) && Canon(root).Link?
    ensures o.Parsed? ==> ParseTransaction(Canon(root), TreeHash(H, root), TreeHash(H, LinkedBody(root))) == o
  {
    hide ParsePage, TableOf, Linked, Rebuilds, Canon, ParseTransaction, ValidUtf8;
    root :| HasRoot(H, content, root);
    DecodesRoot(H, content, root, o);
    UnderstoodRule(H, root);
  }

  lemma {:induction false} UnderstoodRule(H: Hash, root: Expr)
    requires root.Link?
    ensures var o := Understood(H, root);
      && (o == Raised <==> !Rebuilds(root))
      && (o != Raised && o != Dropped ==>
            root.tail.Symbol? && root.tail.text == Codes("transaction") && Rebuilds(root) && Canon(root).Link?
            && ParseTransaction(Canon(root), TreeHash(H, root), TreeHash(H, LinkedBody(root))) == o)
  {
    hide Rebuilds, ParseTransaction, ValidUtf8;
    TransactionIsNoTag();
    if Rebuilds(root) && root.tail == Symbol(TRANSACTION_TEXT) {
      CanonOfLink(root);
      ParseNeverRaises(Canon(root), TreeHash(H, root), TreeHash(H, LinkedBody(root)));
    }
  }

  lemma {:induction false} CanonOfLink(e: Expr)
    requires Rebuilds(e) && e.Link? && !Unfolded(e)
    ensures Canon(e).Link?
  {
  }

  lemma {:induction false} ParseNeverRaises(rebuilt: Expr, hash: Digest, bodyHash: Digest)
    requires rebuilt.Link?
    ensures !ParseTransaction(rebuilt, hash, bodyHash).Raised?
  {
    hide ListItems, HasIntTag;
  }

  /** `decode_transaction_message`. */
  method DecodeTransactionMessage(H: Hash, content: Bytes, ghost rank: Digest -> nat) returns (r: Outcome)
    requires ParsePage(content).Ok? ==> Shapes.Acyclic(TableOf(H, ParsePage(content).value.exprs), rank)
    ensures Decodes(H, content, r)
  {
    hide ParsePage, TableOf, Understood;
    var page := DecodeFoundPage(content);
    if page.Err? {
      return Dropped;
    }
    var exprs := page.value.exprs;
    if page.value.number != 1 || page.value.total != 1 || exprs == [] {
      return Dropped;
    }
    if !exprs[0].LinkCell? {
      return Dropped;
    }
    var table := TableOf(H, exprs);
    assert forall e :: Linked(table, exprs[0], e) ==>
                         e.Link? && LinkedRef(table, exprs[0].head, e.head) && LinkedRef(table, exprs[0].tail, e.tail);
    var head := LinkTree(table, exprs[0].head, rank);
    if head.None? {
      return Dropped;
    }
    var tail := LinkTree(table, exprs[0].tail, rank);
    if tail.None? {
      return Dropped;
    }
    var root := Link(head.value, tail.value);
    assert HasRoot(H, content, root);
    r := Understand(H, root);
  }

  /** From the linked tree to the transaction. */
  method Understand(H: Hash, root: Expr) returns (r: Outcome)
    requires root.Link?
    ensures r == Understood(H, root)
  {
    hide ParseTransaction;
    var rebuilt := ReconstructBuiltinComposites(root);
    if rebuilt.Err? {
      return Raised;
    }
    TransactionIsNoTag();
    if root.tail != Symbol(TRANSACTION_TEXT) {
      return Dropped;
    }
    return ParseTransaction(rebuilt.value, TreeHash(H, root), TreeHash(H, LinkedBody(root)));
  }

  // -------------------------------------------------------------- the round trip

  /** What a transaction arrives as: its data with composites folded, and the hashes of the tree that was sent. */
  function Arrived(H: Hash, tx: Transaction): Decoded
    requires Rebuilds(tx.data)
  {
    Decoded(tx.(data := Canon(tx.data), signature := SentSignature(tx)), TreeHash(H, TransactionExpr(tx)), TreeHash(H, Body(tx)))
  }

  lemma {:induction false} CanonHere(a: Expr, b: Expr)
    requires !a.Raw? || !b.Symbol?
    ensures Rebuilds(Link(a, b)) <==> Rebuilds(a) && Rebuilds(b)
    ensures Rebuilds(a) && Rebuilds(b) ==> Canon(Link(a, b)) == Link(Canon(a), Canon(b))
  {
  }

  lemma {:induction false} CanonOfLeaf(e: Expr)
    requires !e.Link?
    ensures Rebuilds(e) && Canon(e) == e
  {
  }

  /** A transaction tree is rebuilt exactly when its data is, and then only its data changes. */
  lemma {:induction false} CanonOfTransaction(tx: Transaction)
    ensures var e := TransactionExpr(tx);
      && (Rebuilds(e) <==> Rebuilds(tx.data))
      && (Rebuilds(tx.data) ==> Canon(e) == TransactionExpr(tx.(data := Canon(tx.data))))
  {
    hide Rebuilds, Canon;
    CanonOfBody(tx);
    var signed := Link(Raw(SentSignature(tx)), Nil);
    CanonOfLeaf(Raw(SentSignature(tx)));
    CanonOfLeaf(Nil);
    CanonOfLeaf(Symbol(TRANSACTION_TEXT));
    CanonHere(Raw(SentSignature(tx)), Nil);
    CanonHere(Body(tx), signed);
    CanonHere(Link(Body(tx), signed), Symbol(TRANSACTION_TEXT));
  }

  lemma {:induction false} CanonOfBody(tx: Transaction)
    ensures Rebuilds(Body(tx)) <==> Rebuilds(tx.data)
    ensures Rebuilds(tx.data) ==> Canon(Body(tx)) == Body(tx.(data := Canon(tx.data)))
  {
    hide Rebuilds, Canon;
    CanonOfLeaf(Nil);
    CanonOfLeaf(Raw(tx.sender));
    CanonOfLeaf(Raw(tx.recipient));
    var last := Link(Raw(tx.sender), Nil);
    CanonHere(Raw(tx.sender), Nil);
    CanonHere(Raw(tx.recipient), last);
    var three := Link(tx.data, Link(Raw(tx.recipient), last));
    CanonHere(tx.data, Link(Raw(tx.recipient), last));
    CanonOfField(tx.counter, three);
    var four := Link(IntExpr(tx.counter), three);
    CanonOfField(tx.costLimit, four);
    var five := Link(IntExpr(tx.costLimit), four);
    CanonOfField(tx.code, five);
    var six := Link(IntExpr(tx.code), five);
    CanonOfField(tx.chainId, six);
    CanonOfField(tx.amount, Link(IntExpr(tx.chainId), six));
  }

  lemma {:induction false} CanonOfField(v: int, rest: Expr)
    ensures Rebuilds(Link(IntExpr(v), rest)) <==> Rebuilds(rest)
    ensures Rebuilds(rest) ==> Canon(Link(IntExpr(v), rest)) == Link(IntExpr(v), Canon(rest))
  {
    CanonOfLeaf(IntExpr(v));
    CanonHere(IntExpr(v), rest);
  }

  lemma {:induction false} TransactionWellTyped(tx: Transaction)
    requires WellTyped(tx.data)
    ensures WellTyped(TransactionExpr(tx)) && WellTyped(TransactionExpr(tx).head)
  {
    var (counter, limit, code, chain) := (IntExpr(tx.counter), IntExpr(tx.costLimit), IntExpr(tx.code), IntExpr(tx.chainId));
    PairWellTyped(Raw(tx.sender), Nil);
    PairWellTyped(Raw(tx.recipient), Link(Raw(tx.sender), Nil));
    PairWellTyped(tx.data, Link(Raw(tx.recipient), Link(Raw(tx.sender), Nil)));
    var three := Link(tx.data, Link(Raw(tx.recipient), Link(Raw(tx.sender), Nil)));
    PairWellTyped(counter, three);
    PairWellTyped(limit, Link(counter, three));
    PairWellTyped(code, Link(limit, Link(counter, three)));
    PairWellTyped(chain, Link(code, Link(limit, Link(counter, three))));
    PairWellTyped(IntExpr(tx.amount), Link(chain, Link(code, Link(limit, Link(counter, three)))));
    PairWellTyped(Raw(SentSignature(tx)), Nil);
    PairWellTyped(Body(tx), Link(Raw(SentSignature(tx)), Nil));
    PairWellTyped(TransactionExpr(tx).head, Symbol(TRANSACTION_TEXT));
  }

  lemma {:induction false} PairWellTyped(a: Expr, b: Expr)
    requires (a.Raw? || a.Symbol? || IsInt(a) || WellTyped(a)) && (b.Nil? || b.Symbol? || WellTyped(b))
    ensures WellTyped(Link(a, b))
  {
    assert WellTyped(a);
    assert WellTyped(b);
  }

  lemma {:induction false} ItemsOfBody(tx: Transaction)
    ensures ListItems(Body(tx)) == [IntExpr(tx.amount), IntExpr(tx.chainId), IntExpr(tx.code), IntExpr(tx.costLimit),
                                    IntExpr(tx.counter), tx.data, Raw(tx.recipient), Raw(tx.sender)]
  {
    var last := Link(Raw(tx.recipient), Link(Raw(tx.sender), Nil));
    assert ListItems(Link(Raw(tx.sender), Nil)) == [Raw(tx.sender)];
    assert ListItems(last) == [Raw(tx.recipient), Raw(tx.sender)];
    var three := Link(tx.data, last);
    assert ListItems(three) == [tx.data] + ListItems(last);
    var four := Link(IntExpr(tx.counter), three);
    assert ListItems(four) == [IntExpr(tx.counter)] + ListItems(three);
    var five := Link(IntExpr(tx.costLimit), four);
    assert ListItems(five) == [IntExpr(tx.costLimit)] + ListItems(four);
    var six := Link(IntExpr(tx.code), five);
    assert ListItems(six) == [IntExpr(tx.code)] + ListItems(five);
    var seven := Link(IntExpr(tx.chainId), six);
    assert ListItems(seven) == [IntExpr(tx.chainId)] + ListItems(six);
  }

  lemma {:induction false} ParsedFields(tx: Transaction, hash: Digest, bodyHash: Digest)
    requires tx.code in CODES
    ensures ParseTransaction(TransactionExpr(tx), hash, bodyHash)
         == Parsed(Decoded(tx.(signature := SentSignature(tx)), hash, bodyHash))
  {
    hide ValidUtf8, TagText, EncodeValue;
    ItemsOfBody(tx);
    var signature := Link(Raw(SentSignature(tx)), Nil);
    assert ListItems(signature) == [Raw(SentSignature(tx))];
    assert ListItems(TransactionExpr(tx).head) == [Body(tx)] + ListItems(signature);
  }

  /**
   * The round trip: an encoded transaction decodes to exactly one thing. If every unfolded composite of
   * its data has a payload that its decoder accepts, that is the transaction itself with every field and
   * with the hashes of the tree that was sent; otherwise the decoder raises.
   */
  lemma {:induction false} TransactionRoundTrip(H: Hash, tx: Transaction, content: Bytes, cells: set<Cell>, o: Outcome)
    requires WellTyped(tx.data) && tx.code in CODES
    requires AllCells(H, TransactionExpr(tx)) + KnownCells() + {NIL_CELL} <= cells && CollisionFree(H, cells)
    requires FitPage(Flattened(H, TransactionExpr(tx))) && PageBytes(1, 1, Flattened(H, TransactionExpr(tx))) == Some(content)
    ensures Decodes(H, content, o) <==> o == if Rebuilds(tx.data) then Parsed(Arrived(H, tx)) else Raised
  {
    hide Linked, TableOf, ParsePage, PageBytes, FitPage, AllCells, KnownCells, CollisionFree, WalkedFrom, Understood, Arrived,
      Rebuilds, Plain, CellOf, TreeHash, TransactionExpr, Decodes;
    var e := TransactionExpr(tx);
    var sent := Flattened(H, e);
    assert e.Link? by {
      TransactionIsLink(tx);
    }
    DecodeBuiltPage(1, 1, sent);
    FlattenedSends(H, cells, e);
    RootLinked(H, cells, e, sent);
    PlainRoot(e);
    assert HasRoot(H, content, Plain(e));
    UnderstoodRoot(H, tx);
    DecodesRoot(H, content, Plain(e), o);
  }

  lemma {:induction false} TransactionIsLink(tx: Transaction)
    ensures TransactionExpr(tx).Link?
  {
  }

  lemma {:induction false} DecodesRoot(H: Hash, content: Bytes, root: Expr, o: Outcome)
    requires HasRoot(H, content, root)
    ensures root.Link? && (Decodes(H, content, o) <==> o == Understood(H, root))
  {
    assert root.Link?;
    hide HasRoot, Understood;
    forall other | HasRoot(H, content, other)
      ensures other == root
    {
      RootOnce(H, content, root, other);
    }
  }

  lemma {:induction false} FlattenedSends(H: Hash, cells: set<Cell>, e: Expr)
    requires e.Link? && AllCells(H, e) <= cells && CollisionFree(H, cells)
    ensures var sent := Flattened(H, e);
      Sent(H, e, sent) && sent != [] && sent[0] == CellOf(H, e) && forall x :: x in sent ==> x in cells
  {
    hide CollisionFree;
    assert SeenIsEmitted(H, cells, Walked([], {}));
    WalkSends(H, cells, e, Walked([], {}));
    WalkGrows(H, e, Walked([], {}));
  }

  lemma {:induction false} RootLinked(H: Hash, cells: set<Cell>, e: Expr, sent: seq<Cell>)
    requires CollisionFree(H, cells) && AllCells(H, e) + KnownCells() <= cells && e.Link?
    requires Sent(H, e, sent) && forall x :: x in sent ==> x in cells
    ensures Linked(TableOf(H, sent), CellOf(H, e), Plain(e)) && CellOf(H, e).LinkCell?
  {
    hide CollisionFree, TableOf, KnownCells;
    SentIsLinked(H, cells, e.head, sent);
    SentIsLinked(H, cells, e.tail, sent);
  }

  lemma {:induction false} PlainRoot(e: Expr)
    ensures e.Link? ==> Plain(e).Link?
  {
  }

  lemma {:induction false} UnderstoodRoot(H: Hash, tx: Transaction)
    requires WellTyped(tx.data) && tx.code in CODES
    ensures var root := Plain(TransactionExpr(tx));
      root.Link? && Understood(H, root) == if Rebuilds(tx.data) then Parsed(Arrived(H, tx)) else Raised
  {
    hide ParseTransaction, TreeHash, Canon, Rebuilds, WellTyped;
    var e := TransactionExpr(tx);
    TransactionWellTyped(tx);
    CanonOfPlain(e);
    CanonOfTransaction(tx);
    PlainKeepsHash(H, e);
    PlainKeepsHash(H, Body(tx));
    assert Plain(e).tail == Symbol(TRANSACTION_TEXT) && LinkedBody(Plain(e)) == Plain(Body(tx));
    if Rebuilds(tx.data) {
      ParsedFields(tx.(data := Canon(tx.data)), TreeHash(H, e), TreeHash(H, Body(tx)));
    }
  }

  /** The decoder may be called on every encoded transaction: its table has no cycle. */
  lemma {:induction false} EncodedIsAcyclic(H: Hash, tx: Transaction, content: Bytes, cells: set<Cell>)
    requires AllCells(H, TransactionExpr(tx)) + KnownCells() + {NIL_CELL} <= cells && CollisionFree(H, cells)
    requires FitPage(Flattened(H, TransactionExpr(tx))) && PageBytes(1, 1, Flattened(H, TransactionExpr(tx))) == Some(content)
    ensures ParsePage(content).Ok?
    ensures var table := TableOf(H, ParsePage(content).value.exprs); Shapes.Acyclic(table, h => RankIn(table, h))
  {
    hide TableOf, ParsePage, PageBytes, FitPage, AllCells, KnownCells, CollisionFree, WalkedFrom, RankIn;
    DecodeBuiltPage(1, 1, Flattened(H, TransactionExpr(tx)));
    SentIsAcyclic(H, cells, TransactionExpr(tx));
  }

  /** With folded data and a signature nothing at all changes, and the hashes never do. */
  lemma {:induction false} ArrivesUnchanged(H: Hash, tx: Transaction)
    requires Rebuilds(tx.data)
    ensures Arrived(H, tx).tx == tx <==> Folded(tx.data) && tx.signature != []
    ensures Arrived(H, tx).hash == TreeHash(H, TransactionExpr(tx)) && Arrived(H, tx).bodyHash == TreeHash(H, Body(tx))
  {
    CanonFixesFolded(tx.data);
  }

  /** `_body().hash()` of a transaction whose data has this cached hash, as `verify_signature` computes it. */
  function FieldsHash(H: Hash, tx: Transaction, dataHash: Digest): Digest
  {
    var last := TreeHash(H, Link(Raw(tx.recipient), Link(Raw(tx.sender), Nil)));
    FieldHash(H, tx.amount, FieldHash(H, tx.chainId, FieldHash(H, tx.code, FieldHash(H, tx.costLimit,
      FieldHash(H, tx.counter, H(LinkCell(dataHash, last)))))))
  }

  function FieldHash(H: Hash, v: int, rest: Digest): Digest { H(LinkCell(TreeHash(H, IntExpr(v)), rest)) }

  /** The receiver checks the signature against exactly the hash that the sender signed. */
  lemma {:induction false} SignedHashArrives(H: Hash, tx: Transaction)
    requires Rebuilds(tx.data)
    ensures FieldsHash(H, Arrived(H, tx).tx, TreeHash(H, tx.data)) == TreeHash(H, Body(tx))
  {
    hide Rebuilds, Canon, EncodeValue;
    var last := Link(Raw(tx.recipient), Link(Raw(tx.sender), Nil));
    LinkHash(H, tx.data, last);
    var three := Link(tx.data, last);
    LinkHash(H, IntExpr(tx.counter), three);
    var four := Link(IntExpr(tx.counter), three);
    LinkHash(H, IntExpr(tx.costLimit), four);
    var five := Link(IntExpr(tx.costLimit), four);
    LinkHash(H, IntExpr(tx.code), five);
    var six := Link(IntExpr(tx.code), five);
    LinkHash(H, IntExpr(tx.chainId), six);
    LinkHash(H, IntExpr(tx.amount), Link(IntExpr(tx.chainId), six));
  }

  lemma {:induction false} LinkHash(H: Hash, a: Expr, b: Expr)
    ensures TreeHash(H, Link(a, b)) == H(LinkCell(TreeHash(H, a), TreeHash(H, b)))
  {
    assert CellOf(H, Link(a, b)) == LinkCell(TreeHash(H, a), TreeHash(H, b));
  }

  /** Every linked tree has the hash that named it, whatever the payload: each decoded cell caches it. */
  lemma {:induction false} LinkedKeepsHash(H: Hash, cells: seq<Cell>, c: Cell, e: Expr)
    requires Linked(TableOf(H, cells), c, e)
    ensures CellOf(H, e) == c
    decreases e, 0
  {
    hide TableOf;
    if c.LinkCell? {
      RefKeepsHash(H, cells, c.head, e.head);
      RefKeepsHash(H, cells, c.tail, e.tail);
    }
  }

  lemma {:induction false} RefKeepsHash(H: Hash, cells: seq<Cell>, h: Digest, e: Expr)
    requires LinkedRef(TableOf(H, cells), h, e)
    ensures TreeHash(H, e) == h
    decreases e, 1
  {
    hide TableOf;
    if h != ZERO32 {
      TableIsKeyed(H, cells, h);
      LinkedKeepsHash(H, cells, TableOf(H, cells)[h], e);
    }
  }

  lemma {:induction false} TableIsKeyed(H: Hash, cells: seq<Cell>, h: Digest)
    requires h in TableOf(H, cells)
    ensures H(TableOf(H, cells)[h]) == h
  {
    hide CellMap, TypeSymbols;
    CellMapFrom(H, cells);
    CellMapFrom(H, TypeSymbols());
  }

  /** A received transaction has the hash of the first cell of its payload, whatever was sent. */
  lemma {:induction false} ReceivedHash(H: Hash, content: Bytes, d: Decoded)
    requires Decodes(H, content, Parsed(d))
    ensures ParsePage(content).Ok? && ParsePage(content).value.exprs != []
    ensures d.hash == H(ParsePage(content).value.exprs[0])
  {
    hide ParsePage, TableOf, Rebuilds, Canon, Linked, ListItems, HasIntTag;
    var root :| HasRoot(H, content, root);
    DecodesRoot(H, content, root, Parsed(d));
    var exprs := ParsePage(content).value.exprs;
    LinkedKeepsHash(H, exprs, exprs[0], root);
    assert d.hash == TreeHash(H, root);
    HashOfCell(H, root);
  }

  lemma {:induction false} HashOfCell(H: Hash, e: Expr)
    ensures !e.Nil? ==> TreeHash(H, e) == H(CellOf(H, e))
  {
  }

  lemma {:induction false} ZeroTransactionCost(data: Expr, signature: Bytes)
    ensures var tx := Transaction(0, 0, 0, 0, 0, data, ZERO32, ZERO32, signature);
      TreeCost(TransactionExpr(tx)) <= 2000 + TreeCost(data) + |signature|
  {
    hide EncodeInt;
    var tx := Transaction(0, 0, 0, 0, 0, data, ZERO32, ZERO32, signature);
    var zero := IntExpr(0);
    assert |EncodeInt(0)| == 1 by {
      ZeroIsShort();
    }
    assert TreeCost(zero) == 75 && TreeCost(Raw(ZERO32)) == 37 && TreeCost(Nil) == 69;
    var last := Link(Raw(ZERO32), Link(Raw(ZERO32), Nil));
    assert TreeCost(last) == 2 * (69 + 37) + 69 by {
      assert TreeCost(Link(Raw(ZERO32), Nil)) == 69 + 37 + 69;
    }
    var three := Link(zero, Link(data, last));
    assert TreeCost(three) == 69 + 75 + (69 + TreeCost(data) + TreeCost(last)) by {
      assert TreeCost(Link(data, last)) == 69 + TreeCost(data) + TreeCost(last);
    }
    var five := Link(zero, Link(zero, three));
    assert TreeCost(five) == 2 * (69 + 75) + TreeCost(three) by {
      assert TreeCost(Link(zero, three)) == 69 + 75 + TreeCost(three);
    }
    assert TreeCost(Body(tx)) == 2 * (69 + 75) + TreeCost(five) by {
      assert TreeCost(Link(zero, five)) == 69 + 75 + TreeCost(five);
      assert Body(tx) == Link(zero, Link(zero, five));
    }
    var signed := Link(Raw(SentSignature(tx)), Nil);
    assert TreeCost(signed) == 69 + (5 + |SentSignature(tx)|) + 69;
    assert TreeCost(Link(Body(tx), signed)) == 69 + TreeCost(Body(tx)) + TreeCost(signed);
    assert TreeCost(Symbol(TRANSACTION_TEXT)) == 16;
  }

  lemma {:induction false} ZeroIsShort()
    ensures |EncodeInt(0)| == 1
  {
    assert IntWidth(0) == 1;
  }

  lemma {:induction false} ZeroTransactionFits(H: Hash, data: Expr, signature: Bytes)
    requires TreeCost(data) + |signature| <= 1000
    ensures var tx := Transaction(0, 0, 0, 0, 0, data, ZERO32, ZERO32, signature);
      tx.code in CODES && Used(Flattened(H, TransactionExpr(tx))) <= PAGE_ENTRY_BUDGET
  {
    hide WalkedFrom, TransactionExpr, Used, TreeCost;
    NothingUsed();
    ZeroTransactionCost(data, signature);
    WalkCost(H, TransactionExpr(Transaction(0, 0, 0, 0, 0, data, ZERO32, ZERO32, signature)), Walked([], {}));
  }

  /** The tree of a payload and a type symbol. */
  function Composite(tag: Tag, payload: Bytes): Expr { Link(Raw(payload), Symbol(TagText(tag))) }

  lemma {:induction false} CompositeIsUnfolded(tag: Tag, payload: Bytes)
    requires |payload| <= 8
    ensures var e := Composite(tag, payload);
      && Unfolded(e) && WellTyped(e) && (Rebuilds(e) <==> Accepts(tag, payload)) && TreeCost(e) <= 500
  {
    hide ValidUtf8;
    TagOfText(tag, TagText(tag));
    assert |TagText(tag)| <= 4;
  }

  /**
   * Transactions that are sent and do not arrive identical: one with an int that is not folded, which
   * arrives folded, and one without a signature, which arrives with ZERO32 as its signature.
   */
  lemma {:induction false} SentAndChanged(H: Hash)
    ensures var unfolded := Transaction(0, 0, 0, 0, 0, Composite(IntTag, [1]), ZERO32, ZERO32, [1]);
      && WellTyped(unfolded.data) && unfolded.code in CODES && Rebuilds(unfolded.data)
      && Used(Flattened(H, TransactionExpr(unfolded))) <= PAGE_ENTRY_BUDGET
      && Arrived(H, unfolded).tx != unfolded
    ensures var unsigned := Transaction(0, 0, 0, 0, 0, Nil, ZERO32, ZERO32, []);
      && WellTyped(unsigned.data) && unsigned.code in CODES && Rebuilds(unsigned.data)
      && Used(Flattened(H, TransactionExpr(unsigned))) <= PAGE_ENTRY_BUDGET
      && Arrived(H, unsigned).tx != unsigned
  {
    hide WalkedFrom, TransactionExpr, Used;
    CompositeIsUnfolded(IntTag, [1]);
    ZeroTransactionFits(H, Composite(IntTag, [1]), [1]);
    ZeroTransactionFits(H, Nil, []);
  }

  /** `(0xff . str)` is no UTF-8, and `(0x01 . fp64)` has no 8 bytes. */
  function RaisingTransaction(text: bool): Transaction
  {
    Transaction(0, 0, 0, 0, 0, if text then Composite(StrTag, [255]) else Composite(Fp64Tag, [1]), ZERO32, ZERO32, [1])
  }

  lemma {:induction false} RaisingData(text: bool)
    ensures var tx := RaisingTransaction(text);
      WellTyped(tx.data) && tx.code in CODES && !Rebuilds(tx.data) && TreeCost(tx.data) <= 500
  {
    hide Rebuilds, WellTyped, TreeCost, ValidUtf8, TagText;
    CompositeIsUnfolded(if text then StrTag else Fp64Tag, if text then [255] else [1]);
    NotUtf8();
  }

  lemma {:induction false} NotUtf8()
    ensures !ValidUtf8([255])
  {
  }

  /** These transactions are encoded, and make the receiver raise. */
  lemma {:induction false} SentAndRaised(H: Hash, text: bool, content: Bytes, cells: set<Cell>)
    requires AllCells(H, TransactionExpr(RaisingTransaction(text))) + KnownCells() + {NIL_CELL} <= cells && CollisionFree(H, cells)
    ensures var sent := Flattened(H, TransactionExpr(RaisingTransaction(text)));
      && Used(sent) <= PAGE_ENTRY_BUDGET
      && (FitPage(sent) && PageBytes(1, 1, sent) == Some(content) ==> Decodes(H, content, Raised))
  {
    hide TransactionExpr, AllCells, KnownCells, CollisionFree, FitPage, PageBytes, Decodes, Rebuilds, WellTyped, TreeCost,
      Flattened, Used, Composite;
    var tx := RaisingTransaction(text);
    RaisingData(text);
    ZeroTransactionFits(H, tx.data, [1]);
    var sent := Flattened(H, TransactionExpr(tx));
    if FitPage(sent) && PageBytes(1, 1, sent) == Some(content) {
      TransactionRoundTrip(H, tx, content, cells, Raised);
    }
  }

  lemma {:induction false} NothingUsed()
    ensures Used([]) == 0
  {
  }

  lemma {:induction false} SameDataHash(H: Hash, a: Transaction, b: Transaction)
    requires b == a.(data := b.data) && TreeHash(H, a.data) == TreeHash(H, b.data)
    ensures TreeHash(H, Body(a)) == TreeHash(H, Body(b)) && TreeHash(H, TransactionExpr(a)) == TreeHash(H, TransactionExpr(b))
  {
    var last := Link(Raw(a.recipient), Link(Raw(a.sender), Nil));
    SameTail(H, a.data, b.data, last, last);
    var (x, y) := (Link(a.data, last), Link(b.data, last));
    SameTail(H, IntExpr(a.counter), IntExpr(a.counter), x, y);
    x, y := Link(IntExpr(a.counter), x), Link(IntExpr(a.counter), y);
    SameTail(H, IntExpr(a.costLimit), IntExpr(a.costLimit), x, y);
    x, y := Link(IntExpr(a.costLimit), x), Link(IntExpr(a.costLimit), y);
    SameTail(H, IntExpr(a.code), IntExpr(a.code), x, y);
    x, y := Link(IntExpr(a.code), x), Link(IntExpr(a.code), y);
    SameTail(H, IntExpr(a.chainId), IntExpr(a.chainId), x, y);
    x, y := Link(IntExpr(a.chainId), x), Link(IntExpr(a.chainId), y);
    SameTail(H, IntExpr(a.amount), IntExpr(a.amount), x, y);
    var signature := Link(Raw(SentSignature(a)), Nil);
    SameTail(H, Body(a), Body(b), signature, signature);
    SameTail(H, Link(Body(a), signature), Link(Body(b), signature), Symbol(TRANSACTION_TEXT), Symbol(TRANSACTION_TEXT));
  }

  lemma {:induction false} SameTail(H: Hash, a: Expr, b: Expr, x: Expr, y: Expr)
    requires TreeHash(H, a) == TreeHash(H, b) && TreeHash(H, x) == TreeHash(H, y)
    ensures TreeHash(H, Link(a, x)) == TreeHash(H, Link(b, y))
  {
    assert CellOf(H, Link(a, x)) == CellOf(H, Link(b, y));
  }
}
