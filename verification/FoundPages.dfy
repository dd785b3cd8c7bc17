/** The pages of a STORAGE_FOUND reply: `communication/storage_response/storage_found.py`. */
module FoundPages {
  import opened Common
  import opened Endian
  import opened ExprCodec

  const MAX_UDP_DATAGRAM_BYTES := 65507
  const MESSAGE_FRAMING_BYTES := 8 + 1 + 32 + 12 + 8 + 1 + 16
  const MAX_INLINE_MESSAGE_BYTES := MAX_UDP_DATAGRAM_BYTES - MESSAGE_FRAMING_BYTES
  const RESPONSE_HEADER_BYTES := 33
  const PAGE_HEADER_BYTES := 7
  const PAGE_ENTRY_BUDGET := MAX_INLINE_MESSAGE_BYTES - RESPONSE_HEADER_BYTES - PAGE_HEADER_BYTES
  const STORAGE_FOUND_PAYLOAD: Byte := 1

  // ------------------------------------------------------------ greedy grouping

  function Cost(c: Cell): nat { 4 + |EncodeExpr(c)| }

  function Used(page: seq<Cell>): nat
  {
    if page == [] then 0 else Used(page[..|page| - 1]) + Cost(page[|page| - 1])
  }

  function Flatten(pages: seq<seq<Cell>>): seq<Cell>
  {
    if pages == [] then [] else Flatten(pages[..|pages| - 1]) + pages[|pages| - 1]
  }

  /** The exprs that fit a page, in order. */
  function Packable(exprs: seq<Cell>): seq<Cell>
  {
    if exprs == [] then []
    else
      var rest := Packable(exprs[..|exprs| - 1]);
      var last := exprs[|exprs| - 1];
      if Cost(last) > PAGE_ENTRY_BUDGET then rest else rest + [last]
  }

  predicate FitPage(page: seq<Cell>) { page != [] && Used(page) <= PAGE_ENTRY_BUDGET }

  /** A new page starts only where the next expr would not fit the one before it. */
  predicate ForcedBreak(page: seq<Cell>, next: seq<Cell>)
  {
    next != [] && Used(page) + Cost(next[0]) > PAGE_ENTRY_BUDGET
  }

  /** The greedy pages of the items: in order, none empty, none too full, no break before it is forced. */
  ghost predicate Greedy(pages: seq<seq<Cell>>, items: seq<Cell>)
  {
    && Flatten(pages) == items
    && (forall i :: 0 <= i < |pages| ==> FitPage(pages[i]))
    && (forall i :: 0 <= i < |pages| - 1 ==> ForcedBreak(pages[i], pages[i + 1]))
  }

  /** What a page holds: 65507 bytes of datagram, less 78 of framing, 33 of response header and 7 of page header. */
  lemma {:induction false} PageHolds(page: seq<Cell>, c: Cell)
    ensures FitPage(page) <==> page != [] && 78 + 33 + 7 + Used(page) <= 65507
    ensures Used(page + [c]) == Used(page) + 4 + |EncodeExpr(c)|
    ensures Packable(page + [c]) == Packable(page) + if 78 + 33 + 7 + 4 + |EncodeExpr(c)| <= 65507 then [c] else []
  {
    hide EncodeExpr;
    assert (page + [c])[..|page|] == page;
  }

  lemma {:induction false} UsedOne(c: Cell)
    ensures Used([c]) == Cost(c)
  {
    assert [c][..0] == [];
    assert Used([c]) == Used([c][..0]) + Cost(c);
  }

  lemma {:induction false} GreedyAppend(pages: seq<seq<Cell>>, items: seq<Cell>, c: Cell)
    requires Greedy(pages, items) && pages != [] && Cost(c) <= PAGE_ENTRY_BUDGET
    ensures var n := |pages| - 1;
      if Used(pages[n]) + Cost(c) > PAGE_ENTRY_BUDGET then Greedy(pages + [[c]], items + [c])
      else Greedy(pages[n := pages[n] + [c]], items + [c])
    ensures Used(pages[|pages| - 1] + [c]) == Used(pages[|pages| - 1]) + Cost(c) && Used([c]) == Cost(c)
  {
    hide Cost;
    var n := |pages| - 1;
    var last := pages[n];
    assert FitPage(last);
    assert (last + [c])[..|last|] == last;
    UsedOne(c);
    var broken := pages + [[c]];
    assert broken[..|pages|] == pages;
    var grown := pages[n := last + [c]];
    assert grown[..n] == pages[..n];
    assert Flatten(grown) == Flatten(pages[..n]) + (last + [c]) == items + [c];
    if Used(last) + Cost(c) > PAGE_ENTRY_BUDGET {
      forall i | 0 <= i < |broken|
        ensures FitPage(broken[i]) && (i < |broken| - 1 ==> ForcedBreak(broken[i], broken[i + 1]))
      {
        assert i < |pages| ==> broken[i] == pages[i] && FitPage(pages[i]);
        assert i == |pages| ==> broken[i] == [c] && FitPage([c]);
        assert i < n ==> ForcedBreak(pages[i], pages[i + 1]);
      }
    } else {
      forall i | 0 <= i < |grown|
        ensures FitPage(grown[i]) && (i < |grown| - 1 ==> ForcedBreak(grown[i], grown[i + 1]))
      {
        assert FitPage(pages[i]);
        assert i < n ==> ForcedBreak(pages[i], pages[i + 1]);
      }
    }
  }

  lemma {:induction false} UsedPrefix(page: seq<Cell>, k: nat)
    requires k <= |page|
    ensures Used(page[..k]) <= Used(page)
    decreases |page|
  {
    if k < |page| {
      UsedPrefix(page[..|page| - 1], k);
      assert page[..|page| - 1][..k] == page[..k];
    } else {
      assert page[..k] == page;
    }
  }

  lemma {:induction false} FlattenLast(pages: seq<seq<Cell>>)
    ensures Flatten([]) == []
    ensures pages != [] ==> Flatten(pages) == Flatten(pages[..|pages| - 1]) + pages[|pages| - 1]
  {
  }

  lemma {:induction false} FlattenFirst(pages: seq<seq<Cell>>)
    requires pages != []
    ensures Flatten(pages) == pages[0] + Flatten(pages[1..])
  {
    hide Flatten;
    var n := |pages| - 1;
    FlattenLast(pages);
    FlattenLast(pages[1..]);
    if n == 0 {
      assert pages[..0] == [] && pages[1..] == [];
    } else {
      FlattenFirst(pages[..n]);
      assert pages[..n][1..] == pages[1..][..n - 1];
    }
  }

  lemma {:induction false} GreedyTail(pages: seq<seq<Cell>>, items: seq<Cell>)
    requires Greedy(pages, items) && pages != []
    ensures pages[0] <= items && Greedy(pages[1..], items[|pages[0]|..])
  {
    hide Used, Cost;
    FlattenFirst(pages);
    var rest := pages[1..];
    forall i | 0 <= i < |rest|
      ensures FitPage(rest[i]) && (i < |rest| - 1 ==> ForcedBreak(rest[i], rest[i + 1]))
    {
      assert rest[i] == pages[i + 1];
    }
  }

  /** Where the first page ends, the next item would not have fitted. */
  lemma {:induction false} FirstBreak(pages: seq<seq<Cell>>, items: seq<Cell>)
    requires Greedy(pages, items)
    ensures pages == [] <==> items == []
    ensures pages != [] ==> pages[0] <= items && (|pages| == 1 ==> pages[0] == items)
    ensures |pages| > 1 ==>
              |pages[0]| < |items| && Used(pages[0]) + Cost(items[|pages[0]|]) > PAGE_ENTRY_BUDGET
  {
    hide Used, Cost;
    if pages != [] {
      FlattenFirst(pages);
      assert FitPage(pages[0]);
      if |pages| > 1 {
        assert ForcedBreak(pages[0], pages[1]);
        FlattenFirst(pages[1..]);
        assert items[|pages[0]|] == pages[1][0];
      } else {
        assert pages[1..] == [];
      }
    }
  }

  lemma {:induction false} FirstPageFits(pages: seq<seq<Cell>>, items: seq<Cell>, k: nat)
    requires Greedy(pages, items) && pages != [] && k < |pages[0]|
    ensures k < |items| && Used(items[..k]) + Cost(items[k]) <= PAGE_ENTRY_BUDGET
  {
    hide Cost;
    FirstBreak(pages, items);
    var longer := pages[0][..k + 1];
    assert longer[..k] == items[..k] && longer[k] == items[k];
    UsedPrefix(pages[0], k + 1);
    assert FitPage(pages[0]);
  }

  /** The first page of one grouping is not shorter than that of another. */
  lemma {:induction false} FirstPageForced(a: seq<seq<Cell>>, b: seq<seq<Cell>>, items: seq<Cell>)
    requires Greedy(a, items) && Greedy(b, items) && a != [] && b != []
    ensures |a[0]| >= |b[0]|
  {
    hide Used, Cost, Greedy;
    FirstBreak(a, items);
    FirstBreak(b, items);
    assert items[..|a[0]|] == a[0];
    if |a[0]| < |b[0]| {
      FirstPageFits(b, items, |a[0]|);
    }
  }

  /** Greedy grouping has one result. */
  lemma {:induction false} GreedyUnique(a: seq<seq<Cell>>, b: seq<seq<Cell>>, items: seq<Cell>)
    requires Greedy(a, items) && Greedy(b, items)
    ensures a == b
  {
    hide Used, Cost, Greedy;
    FirstBreak(a, items);
    FirstBreak(b, items);
    if items != [] {
      FirstPageForced(a, b, items);
      FirstPageForced(b, a, items);
      GreedyTail(a, items);
      GreedyTail(b, items);
      GreedyUnique(a[1..], b[1..], items[|a[0]|..]);
      assert a[0] == b[0];
      assert a == [a[0]] + a[1..] && b == [b[0]] + b[1..];
    }
  }

  lemma {:induction false} UsedAppend(a: seq<Cell>, b: seq<Cell>)
    ensures Used(a + b) == Used(a) + Used(b)
  {
    hide Cost;
    if b == [] {
      assert a + b == a;
    } else {
      var n := |b| - 1;
      UsedAppend(a, b[..n]);
      assert (a + b)[..|a| + n] == a + b[..n];
    }
  }

  /** Pages in order, none over the budget. */
  ghost predicate InBudget(pages: seq<seq<Cell>>)
  {
    forall i :: 0 <= i < |pages| ==> Used(pages[i]) <= PAGE_ENTRY_BUDGET
  }

  /** A page of any split ends no later than the greedy page that starts at or after it. */
  lemma {:induction false} FirstPageIsLongest(greedy: seq<seq<Cell>>, items: seq<Cell>, before: seq<Cell>, page: seq<Cell>)
    requires Greedy(greedy, items) && greedy != [] && page <= before + items && Used(page) <= PAGE_ENTRY_BUDGET
    ensures |page| <= |before| + |greedy[0]|
  {
    hide Used, Cost, Greedy;
    FirstBreak(greedy, items);
    var a := |greedy[0]|;
    if |page| > |before| + a {
      var tail := page[|before| + a + 1..];
      assert page == before + (greedy[0] + ([items[a]] + tail));
      UsedAppend(before, greedy[0] + ([items[a]] + tail));
      UsedAppend(greedy[0], [items[a]] + tail);
      UsedAppend([items[a]], tail);
      UsedOne(items[a]);
    }
  }

  lemma {:induction false} GreedyIsAhead(greedy: seq<seq<Cell>>, items: seq<Cell>, before: seq<Cell>, pages: seq<seq<Cell>>)
    requires Greedy(greedy, items) && Flatten(pages) == before + items && InBudget(pages)
    ensures |greedy| <= |pages|
  {
    hide Used, Cost, Greedy;
    FirstBreak(greedy, items);
    if items != [] {
      assert pages != [];
      FlattenFirst(pages);
      var (all, a, m) := (before + items, |greedy[0]|, |pages[0]|);
      assert pages[0] <= all;
      FirstPageIsLongest(greedy, items, before, pages[0]);
      assert Flatten(pages[1..]) == all[m..] == all[m..|before| + a] + items[a..];
      GreedyTail(greedy, items);
      GreedyIsAhead(greedy[1..], items[a..], all[m..|before| + a], pages[1..]);
    }
  }

  /** No split of the items into pages within the budget, in their order, has fewer pages than the greedy one. */
  lemma {:induction false} GreedyIsFewest(greedy: seq<seq<Cell>>, pages: seq<seq<Cell>>, items: seq<Cell>)
    requires Greedy(greedy, items) && Flatten(pages) == items && InBudget(pages)
    ensures |greedy| <= |pages|
  {
    hide Greedy;
    assert [] + items == items;
    GreedyIsAhead(greedy, items, [], pages);
  }

  // ----------------------------------------------------------------- page bytes

  function EntryBytes(entries: seq<Cell>): Bytes
    requires Used(entries) < Pow256(4)
  {
    if entries == [] then []
    else
      var last := EncodeExpr(entries[|entries| - 1]);
      EntryBytes(entries[..|entries| - 1]) + ToBig(|last|, 4) + last
  }

  lemma {:induction false} EntryBytesLength(entries: seq<Cell>)
    requires Used(entries) < Pow256(4)
    ensures |EntryBytes(entries)| == Used(entries) && 5 * |entries| <= Used(entries)
  {
    if entries != [] {
      EntryBytesLength(entries[..|entries| - 1]);
    }
  }

  lemma {:induction false} Widths()
    ensures Pow256(1) == 256 && Pow256(2) == 65536 && Pow256(4) == 4294967296
  {
    assert Pow256(3) == 16777216;
  }

  /** `_build_page`: an OverflowError of `to_bytes` is None. */
  function PageBytes(page: nat, total: nat, entries: seq<Cell>): Option<Bytes>
  {
    if page < Pow256(2) && total < Pow256(2) && |entries| < Pow256(2) && Used(entries) < Pow256(4) then
      Some([STORAGE_FOUND_PAYLOAD] + ToBig(page, 2) + ToBig(total, 2) + ToBig(|entries|, 2) + EntryBytes(entries))
    else None
  }

  /** A page within the budget always fits its counters and the datagram. */
  lemma {:induction false} PageFits(page: nat, total: nat, entries: seq<Cell>)
    requires FitPage(entries) && page <= total <= 0xFFFF
    ensures PageBytes(page, total, entries).Some?
    ensures |PageBytes(page, total, entries).value| == PAGE_HEADER_BYTES + Used(entries)
    ensures RESPONSE_HEADER_BYTES + |PageBytes(page, total, entries).value| <= MAX_INLINE_MESSAGE_BYTES
    ensures 1 <= |entries| <= 13077
  {
    hide Used;
    Widths();
    EntryBytesLength(entries);
  }

  method BuildPage(page: nat, total: nat, entries: seq<Cell>) returns (payload: Bytes)
    requires PageBytes(page, total, entries).Some?
    ensures payload == PageBytes(page, total, entries).value
  {
    payload := [STORAGE_FOUND_PAYLOAD] + ToBig(page, 2) + ToBig(total, 2) + ToBig(|entries|, 2);
    ghost var header := payload;
    for i := 0 to |entries|
      invariant Used(entries[..i]) < Pow256(4)
      invariant payload == header + EntryBytes(entries[..i])
    {
      assert entries[..i + 1][..i] == entries[..i];
      UsedPrefix(entries, i + 1);
      var b := EncodeExpr(entries[i]);
      payload := payload + ToBig(|b|, 4) + b;
    }
    assert entries[..|entries|] == entries;
  }

  /** The payloads of the pages, numbered from 1. */
  ghost predicate ArePayloads(payloads: seq<Bytes>, pages: seq<seq<Cell>>)
  {
    |payloads| == |pages|
    && forall i :: 0 <= i < |pages| ==> PageBytes(i + 1, |pages|, pages[i]) == Some(payloads[i])
  }

  /** The greedy loop of `encode_found_pages`. */
  method GroupExprs(exprs: seq<Cell>) returns (groups: seq<seq<Cell>>)
    requires exprs != [] && Cost(exprs[0]) <= PAGE_ENTRY_BUDGET
    ensures Greedy(groups, Packable(exprs)) && groups != [] && groups[0] != [] && groups[0][0] == exprs[0]
  {
    hide Cost, Used, Greedy;
    groups := [[exprs[0]]];
    var used := Cost(exprs[0]);
    OnePage(exprs[0]);
    assert exprs[..1] == [exprs[0]] && [exprs[0]][..0] == [];
    for i := 1 to |exprs|
      invariant groups != [] && Greedy(groups, Packable(exprs[..i])) && groups[0] != [] && groups[0][0] == exprs[0]
      invariant used == Used(groups[|groups| - 1])
    {
      assert exprs[..i + 1][..i] == exprs[..i];
      var cost := Cost(exprs[i]);
      if cost <= PAGE_ENTRY_BUDGET {
        GreedyAppend(groups, Packable(exprs[..i]), exprs[i]);
        if used + cost > PAGE_ENTRY_BUDGET {
          groups := groups + [[exprs[i]]];
          used := cost;
        } else {
          groups := groups[|groups| - 1 := groups[|groups| - 1] + [exprs[i]]];
          used := used + cost;
        }
      }
    }
    assert exprs[..|exprs|] == exprs;
  }

  method BuildPages(groups: seq<seq<Cell>>) returns (payloads: seq<Bytes>)
    requires |groups| <= 0xFFFF && forall i :: 0 <= i < |groups| ==> FitPage(groups[i])
    ensures ArePayloads(payloads, groups)
  {
    hide PageBytes, FitPage;
    payloads := [];
    for i := 0 to |groups|
      invariant |payloads| == i
      invariant forall j :: 0 <= j < i ==> PageBytes(j + 1, |groups|, groups[j]) == Some(payloads[j])
    {
      PageFits(i + 1, |groups|, groups[i]);
      var payload := BuildPage(i + 1, |groups|, groups[i]);
      payloads := payloads + [payload];
    }
  }

  /** `encode_found_pages`, root first. */
  method EncodeFoundPages(exprs: seq<Cell>) returns (r: Result<seq<Bytes>>, ghost pages: seq<seq<Cell>>)
    ensures exprs == [] || Cost(exprs[0]) > PAGE_ENTRY_BUDGET ==> r.Err?
    ensures exprs != [] && Cost(exprs[0]) <= PAGE_ENTRY_BUDGET ==>
              && Greedy(pages, Packable(exprs)) && pages != [] && pages[0][0] == exprs[0]
              && (r.Ok? <==> |pages| <= 0xFFFF)
              && (r.Ok? ==> ArePayloads(r.value, pages))
  {
    hide Cost, Used;
    pages := [];
    if exprs == [] {
      return Err("no exprs to page"), pages;
    }
    if Cost(exprs[0]) > PAGE_ENTRY_BUDGET {
      return Err("root expr too large for a STORAGE_FOUND page"), pages;
    }
    var groups := GroupExprs(exprs);
    pages := groups;
    if |groups| > 0xFFFF {
      return Err("too many STORAGE_FOUND pages"), pages;
    }
    var payloads := BuildPages(groups);
    return Ok(payloads), pages;
  }

  lemma {:induction false} OnePage(c: Cell)
    requires Cost(c) <= PAGE_ENTRY_BUDGET
    ensures Greedy([[c]], [c]) && Used([c]) == Cost(c) && Packable([c]) == [c]
  {
    hide Cost;
    var pages := [[c]];
    assert [c][..0] == [] && pages[..0] == [];
    assert Used([c]) == Cost(c);
    assert Flatten(pages) == Flatten(pages[..0]) + [c] == [c];
    assert Packable([c]) == Packable([]) + [c] == [c];
    assert FitPage(pages[0]);
  }

  // -------------------------------------------------------------------- decoding

  datatype Page = Page(number: nat, total: nat, exprs: seq<Cell>)

  /** The entries of a payload from an offset on. */
  function ParseEntries(payload: Bytes, offset: nat, count: nat): Result<seq<Cell>>
    requires offset <= |payload|
    decreases count
  {
    if count == 0 then
      if offset == |payload| then Ok([]) else Err("trailing bytes after page entries")
    else if |payload| - offset < 4 then Err("truncated expr length")
    else
      var n := FromBig(payload[offset..offset + 4]);
      var end := offset + 4 + n;
      if n <= 0 then Err("invalid expr length")
      else if end > |payload| then Err("truncated expr payload")
      else
        var c := DecodeExpr(payload[offset + 4..end]);
        if c.Err? then Err(c.reason)
        else
          var rest := ParseEntries(payload, end, count - 1);
          if rest.Ok? then Ok([c.value] + rest.value) else rest
  }

  function ParsePage(payload: Bytes): Result<Page>
  {
    if |payload| < PAGE_HEADER_BYTES then Err("truncated page header")
    else if payload[0] != STORAGE_FOUND_PAYLOAD then Err("not a STORAGE_FOUND page payload")
    else
      var (page, total, count) := (FromBig(payload[1..3]), FromBig(payload[3..5]), FromBig(payload[5..7]));
      if total == 0 then Err("page total must be at least 1")
      else if page == 0 || page > total then Err("page number out of range")
      else if count == 0 then Err("page carries no exprs")
      else
        var exprs := ParseEntries(payload, PAGE_HEADER_BYTES, count);
        if exprs.Ok? then Ok(Page(page, total, exprs.value)) else Err(exprs.reason)
  }

  /** The entry loop of `decode_found_page`. */
  method DecodeEntries(payload: Bytes, count: nat) returns (r: Result<seq<Cell>>)
    requires |payload| >= PAGE_HEADER_BYTES
    ensures r == ParseEntries(payload, PAGE_HEADER_BYTES, count)
  {
    hide FromBig, DecodeExpr;
    var exprs: seq<Cell> := [];
    var offset := PAGE_HEADER_BYTES;
    ghost var whole := ParseEntries(payload, offset, count);
    assert whole.Ok? ==> [] + whole.value == whole.value;
    for i := 0 to count
      invariant PAGE_HEADER_BYTES <= offset <= |payload|
      invariant var rest := ParseEntries(payload, offset, count - i);
        whole == if rest.Ok? then Ok(exprs + rest.value) else rest
    {
      if |payload| - offset < 4 {
        return Err("truncated expr length");
      }
      var n := FromBig(payload[offset..offset + 4]);
      offset := offset + 4;
      if n <= 0 {
        return Err("invalid expr length");
      }
      var end := offset + n;
      if end > |payload| {
        return Err("truncated expr payload");
      }
      var c := DecodeExpr(payload[offset..end]);
      if c.Err? {
        return Err(c.reason);
      }
      ghost var rest := ParseEntries(payload, end, count - i - 1);
      if rest.Ok? {
        assert exprs + ([c.value] + rest.value) == exprs + [c.value] + rest.value;
      }
      exprs := exprs + [c.value];
      offset := end;
    }
    if offset != |payload| {
      return Err("trailing bytes after page entries");
    }
    assert exprs + [] == exprs;
    return Ok(exprs);
  }

  /** `decode_found_page`. */
  method DecodeFoundPage(payload: Bytes) returns (r: Result<Page>)
    ensures r == ParsePage(payload)
  {
    if |payload| < PAGE_HEADER_BYTES {
      return Err("truncated page header");
    }
    if payload[0] != STORAGE_FOUND_PAYLOAD {
      return Err("not a STORAGE_FOUND page payload");
    }
    var page, total, count := FromBig(payload[1..3]), FromBig(payload[3..5]), FromBig(payload[5..7]);
    if total == 0 {
      return Err("page total must be at least 1");
    }
    if page == 0 || page > total {
      return Err("page number out of range");
    }
    if count == 0 {
      return Err("page carries no exprs");
    }
    var exprs := DecodeEntries(payload, count);
    if exprs.Err? {
      return Err(exprs.reason);
    }
    return Ok(Page(page, total, exprs.value));
  }

  lemma {:induction false} ParseBuiltEntries(payload: Bytes, entries: seq<Cell>, k: nat)
    requires Used(entries) < Pow256(4) && k <= |entries| && Used(entries[..k]) <= Used(entries)
    requires |payload| == PAGE_HEADER_BYTES + Used(entries) && payload[PAGE_HEADER_BYTES..] == EntryBytes(entries)
    ensures ParseEntries(payload, PAGE_HEADER_BYTES + Used(entries[..k]), |entries| - k) == Ok(entries[k..])
    decreases |entries| - k
  {
    hide Used, EncodeExpr, EntryBytes, ParseEntries, FromBig, ToBig, DecodeExpr;
    if k == |entries| {
      assert entries[..k] == entries && entries[k..] == [];
      ParseNone(payload);
    } else {
      UsedPrefix(entries, k + 1);
      ParseBuiltEntries(payload, entries, k + 1);
      var b := EncodeExpr(entries[k]);
      var at := Used(entries[..k]);
      EntryAt(entries, k);
      SliceOfRest(payload, PAGE_HEADER_BYTES, at, at + 4);
      SliceOfRest(payload, PAGE_HEADER_BYTES, at + 4, at + 4 + |b|);
      FromToBig(|b|, 4);
      DecodeEncodedExpr(entries[k]);
      ParseOne(payload, PAGE_HEADER_BYTES + at, |entries| - k, entries[k], entries[k + 1..]);
      assert entries[k..] == [entries[k]] + entries[k + 1..];
    }
  }

  lemma {:induction false} ParseNone(payload: Bytes)
    ensures ParseEntries(payload, |payload|, 0) == Ok([])
  {
  }

  lemma {:induction false} ParseOne(payload: Bytes, offset: nat, count: nat, c: Cell, rest: seq<Cell>)
    requires count > 0 && |EncodeExpr(c)| < Pow256(4)
    requires var end := offset + 4 + |EncodeExpr(c)|;
      && end <= |payload| && FromBig(payload[offset..offset + 4]) == |EncodeExpr(c)|
      && payload[offset + 4..end] == EncodeExpr(c) && ParseEntries(payload, end, count - 1) == Ok(rest)
    ensures ParseEntries(payload, offset, count) == Ok([c] + rest)
  {
    DecodeEncodedExpr(c);
  }

  lemma {:induction false} SliceOfRest(b: Bytes, skip: nat, i: nat, j: nat)
    requires i <= j && skip + j <= |b|
    ensures b[skip + i..skip + j] == b[skip..][i..j]
  {
  }

  /** Where entry k stands in the bytes. */
  lemma {:induction false} EntryAt(entries: seq<Cell>, k: nat)
    requires Used(entries) < Pow256(4) && k < |entries|
    ensures var (at, b) := (Used(entries[..k]), EncodeExpr(entries[k]));
      && |EntryBytes(entries)| == Used(entries) && |b| < Pow256(4)
      && Used(entries[..k + 1]) == at + 4 + |b| <= Used(entries)
      && EntryBytes(entries)[at..at + 4] == ToBig(|b|, 4)
      && EntryBytes(entries)[at + 4..at + 4 + |b|] == b
    decreases |entries|
  {
    hide EncodeExpr, ToBig;
    EntryBytesLength(entries);
    var n := |entries| - 1;
    var before := EntryBytes(entries[..n]);
    EntryBytesLength(entries[..n]);
    if k == n {
      assert entries[..k + 1] == entries;
    } else {
      EntryAt(entries[..n], k);
      assert entries[..n][..k] == entries[..k] && entries[..n][..k + 1] == entries[..k + 1];
      assert before <= EntryBytes(entries);
    }
  }

  /** Decoding a page gives back its number, the total and its exprs. */
  lemma {:induction false} DecodeBuiltPage(page: nat, total: nat, entries: seq<Cell>)
    requires FitPage(entries) && 1 <= page <= total <= 0xFFFF
    ensures PageBytes(page, total, entries).Some?
    ensures ParsePage(PageBytes(page, total, entries).value) == Ok(Page(page, total, entries))
  {
    hide Used, EncodeExpr, EntryBytes;
    PageFits(page, total, entries);
    var payload := PageBytes(page, total, entries).value;
    Widths();
    FromToBig(page, 2);
    FromToBig(total, 2);
    FromToBig(|entries|, 2);
    assert payload[1..3] == ToBig(page, 2);
    assert payload[3..5] == ToBig(total, 2);
    assert payload[5..7] == ToBig(|entries|, 2);
    assert payload[PAGE_HEADER_BYTES..] == EntryBytes(entries);
    UsedPrefix(entries, 0);
    ParseBuiltEntries(payload, entries, 0);
    NothingUsed(entries);
    assert entries[0..] == entries;
  }

  lemma {:induction false} NothingUsed(entries: seq<Cell>)
    ensures Used(entries[..0]) == 0
  {
  }

  /** The layout of a page: type 1, number, total and count in two bytes each, then every expr after its length. */
  lemma {:induction false} PageLayout(page: nat, total: nat, entries: seq<Cell>)
    requires PageBytes(page, total, entries).Some?
    ensures var p: seq<int> := PageBytes(page, total, entries).value;
      && |p| == 7 + Used(entries) && p[0] == 1
      && 256 * p[1] + p[2] == page && 256 * p[3] + p[4] == total && 256 * p[5] + p[6] == |entries|
    ensures forall k :: 0 <= k < |entries| ==>
              EntryStands(PageBytes(page, total, entries).value, 7 + Used(entries[..k]), EncodeExpr(entries[k]))
    ensures entries != [] ==>
              var (p: seq<int>, first) := (PageBytes(page, total, entries).value, EncodeExpr(entries[0]));
              && |p| >= 11 + |first| && p[11..11 + |first|] == first
              && 16777216 * p[7] + 65536 * p[8] + 256 * p[9] + p[10] == |first|
  {
    hide Used, EncodeExpr, EntryBytes, ToBig, FromBig, EntryStands, Pow256;
    var payload := PageBytes(page, total, entries).value;
    EntryBytesLength(entries);
    TwoByteField(payload, 1, page);
    TwoByteField(payload, 3, total);
    TwoByteField(payload, 5, |entries|);
    assert payload[7..] == EntryBytes(entries);
    forall k | 0 <= k < |entries|
      ensures EntryStands(payload, 7 + Used(entries[..k]), EncodeExpr(entries[k]))
    {
      EntryPlace(payload, entries, k);
    }
    if entries != [] {
      NothingUsed(entries);
      StandsMeans(payload, 7 + Used(entries[..0]), EncodeExpr(entries[0]));
    }
  }

  lemma {:induction false} StandsMeans(payload: Bytes, at: nat, b: Bytes)
    requires EntryStands(payload, at, b)
    ensures var p: seq<int> := payload;
      && at + 4 + |b| <= |payload| && p[at + 4..at + 4 + |b|] == b
      && 16777216 * p[at] + 65536 * p[at + 1] + 256 * p[at + 2] + p[at + 3] == |b|
  {
  }

  lemma {:induction false} EntryPlace(payload: Bytes, entries: seq<Cell>, k: nat)
    requires Used(entries) < Pow256(4) && k < |entries|
    requires |payload| == 7 + Used(entries) && payload[7..] == EntryBytes(entries)
    ensures EntryStands(payload, 7 + Used(entries[..k]), EncodeExpr(entries[k]))
  {
    hide Used, EncodeExpr, EntryBytes, ToBig, FromBig, Pow256;
    var (at, b) := (Used(entries[..k]), EncodeExpr(entries[k]));
    EntryAt(entries, k);
    SliceOfRest(payload, 7, at, at + 4);
    SliceOfRest(payload, 7, at + 4, at + 4 + |b|);
    FromToBig(|b|, 4);
    FourByteField(payload, 7 + at, |b|);
  }

  lemma {:induction false} FourByteField(payload: Bytes, at: nat, n: nat)
    requires n < Pow256(4) && at + 4 <= |payload| && payload[at..at + 4] == ToBig(n, 4)
    ensures var p: seq<int> := payload; 16777216 * p[at] + 65536 * p[at + 1] + 256 * p[at + 2] + p[at + 3] == n
  {
    hide ToBig, FromBig, Pow256;
    FromToBig(n, 4);
    var field := payload[at..at + 4];
    FromBigShort(field);
    assert field[0] == payload[at] && field[1] == payload[at + 1] && field[2] == payload[at + 2] && field[3] == payload[at + 3];
  }

  /** At this place stand the four bytes of a length, the highest first, and so many bytes. */
  ghost predicate EntryStands(payload: Bytes, at: nat, b: Bytes)
  {
    var p: seq<int> := payload;
    && at + 4 + |b| <= |payload| && payload[at + 4..at + 4 + |b|] == b
    && 16777216 * p[at] + 65536 * p[at + 1] + 256 * p[at + 2] + p[at + 3] == |b|
  }

  lemma {:induction false} TwoByteField(payload: Bytes, at: nat, n: nat)
    requires n < Pow256(2) && at + 2 <= |payload| && payload[at..at + 2] == ToBig(n, 2)
    ensures var p: seq<int> := payload; 256 * p[at] + p[at + 1] == n
  {
    hide ToBig, FromBig, Pow256;
    FromToBig(n, 2);
    FromBigShort(payload[at..at + 2]);
    assert payload[at..at + 2][0] == payload[at] && payload[at..at + 2][1] == payload[at + 1];
  }

  // ------------------------------------------------------ what decoding accepts

  /** The header of every page that decodes. */
  lemma {:induction false} DecodedHeader(payload: Bytes)
    requires ParsePage(payload).Ok?
    ensures var (p: seq<int>, page) := (payload, ParsePage(payload).value);
      && |p| >= 7 && p[0] == 1 && 1 <= page.number <= page.total && |page.exprs| >= 1
      && page.number == 256 * p[1] + p[2] && page.total == 256 * p[3] + p[4] && |page.exprs| == 256 * p[5] + p[6]
  {
    hide FromBig, ParseEntries;
    FromBigShort(payload[1..3]);
    FromBigShort(payload[3..5]);
    FromBigShort(payload[5..7]);
    ParsedCount(payload, 7, FromBig(payload[5..7]));
  }

  lemma {:induction false} ParsedCount(payload: Bytes, offset: nat, count: nat)
    requires offset <= |payload|
    ensures ParseEntries(payload, offset, count).Ok? ==> |ParseEntries(payload, offset, count).value| == count
    decreases count
  {
    hide FromBig, DecodeExpr;
    if count > 0 && |payload| - offset >= 4 {
      var end := offset + 4 + FromBig(payload[offset..offset + 4]);
      if end <= |payload| {
        ParsedCount(payload, end, count - 1);
      }
    }
  }

  /** A page that decodes ends with its last expr: with any byte more it is refused. */
  lemma {:induction false} LongerPageIsRefused(payload: Bytes, extra: Bytes)
    requires ParsePage(payload).Ok? && extra != []
    ensures ParsePage(payload + extra).Err?
  {
    hide FromBig, ParseEntries;
    var longer := payload + extra;
    assert longer[0] == payload[0] && longer[1..3] == payload[1..3] && longer[3..5] == payload[3..5] && longer[5..7] == payload[5..7];
    LongerEntriesRefused(payload, extra, PAGE_HEADER_BYTES, FromBig(payload[5..7]));
  }

  lemma {:induction false} LongerEntriesRefused(payload: Bytes, extra: Bytes, offset: nat, count: nat)
    requires offset <= |payload| && ParseEntries(payload, offset, count).Ok? && extra != []
    ensures ParseEntries(payload + extra, offset, count).Err?
    decreases count
  {
    hide FromBig, DecodeExpr;
    if count > 0 {
      var longer := payload + extra;
      assert longer[offset..offset + 4] == payload[offset..offset + 4];
      var end := offset + 4 + FromBig(payload[offset..offset + 4]);
      assert longer[offset + 4..end] == payload[offset + 4..end];
      LongerEntriesRefused(payload, extra, end, count - 1);
    }
  }

  lemma {:induction false} EntryBytesLast(entries: seq<Cell>)
    requires entries != [] && Used(entries) < Pow256(4)
    ensures var (before, last) := (entries[..|entries| - 1], EncodeExpr(entries[|entries| - 1]));
      && Used(before) <= Used(entries) && |last| < Pow256(4)
      && EntryBytes(entries) == EntryBytes(before) + (ToBig(|last|, 4) + last)
  {
    hide EncodeExpr, ToBig, Pow256;
  }

  lemma {:induction false} EntryBytesAppend(a: seq<Cell>, b: seq<Cell>)
    requires Used(a + b) < Pow256(4) && Used(a) + Used(b) == Used(a + b)
    ensures EntryBytes(a + b) == EntryBytes(a) + EntryBytes(b)
  {
    hide Used, EntryBytes, EncodeExpr, ToBig, Pow256;
    if b == [] {
      assert a + b == a;
      EntryBytesNone();
    } else {
      var n := |b| - 1;
      assert (a + b)[..|a + b| - 1] == a + b[..n];
      UsedAppend(a, b[..n]);
      EntryBytesLast(a + b);
      EntryBytesLast(b);
      EntryBytesAppend(a, b[..n]);
    }
  }

  lemma {:induction false} EntryBytesNone()
    ensures Used([]) == 0 && Used([]) < Pow256(4) && EntryBytes([]) == []
  {
  }

  lemma {:induction false} EntryBytesFirst(c: Cell, rest: seq<Cell>)
    requires Used([c] + rest) < Pow256(4)
    ensures Used([c] + rest) == 4 + |EncodeExpr(c)| + Used(rest) && |EncodeExpr(c)| < Pow256(4)
    ensures EntryBytes([c] + rest) == ToBig(|EncodeExpr(c)|, 4) + EncodeExpr(c) + EntryBytes(rest)
  {
    hide Used, EncodeExpr, ToBig, EntryBytes;
    UsedAppend([c], rest);
    UsedOne(c);
    EntryBytesAppend([c], rest);
    EntryBytesOne(c);
  }

  lemma {:induction false} EntryBytesOne(c: Cell)
    requires Used([c]) < Pow256(4)
    ensures Used([c]) == 4 + |EncodeExpr(c)| && EntryBytes([c]) == ToBig(|EncodeExpr(c)|, 4) + EncodeExpr(c)
  {
    hide EncodeExpr, ToBig;
    assert [c][..0] == [];
  }

  /** One entry that decodes: its bytes are the expr's own, or those of a link and more. */
  lemma {:induction false} ParsedEntry(payload: Bytes, offset: nat, count: nat) returns (end: nat, c: Cell, rest: seq<Cell>)
    requires offset <= |payload| && count > 0 && ParseEntries(payload, offset, count).Ok?
    ensures offset + 4 <= end <= |payload| && FromBig(payload[offset..offset + 4]) == end - offset - 4
    ensures ParseEntries(payload, end, count - 1) == Ok(rest) && ParseEntries(payload, offset, count) == Ok([c] + rest)
    ensures |EncodeExpr(c)| <= end - offset - 4
    ensures |EncodeExpr(c)| == end - offset - 4 ==> payload[offset + 4..end] == EncodeExpr(c)
  {
    hide FromBig, DecodeExpr, EncodeExpr;
    end := offset + 4 + FromBig(payload[offset..offset + 4]);
    var b := payload[offset + 4..end];
    c := DecodeExpr(b).value;
    rest := ParseEntries(payload, end, count - 1).value;
    DecodedIsEncoded(b, c);
    LinkWidth(c);
  }

  lemma {:induction false} LinkWidth(c: Cell)
    ensures c.LinkCell? ==> |EncodeExpr(c)| == 65
  {
  }

  lemma {:induction false} ParsedEntriesAreEncoded(payload: Bytes, offset: nat, count: nat)
    requires offset <= |payload| < Pow256(4) && ParseEntries(payload, offset, count).Ok?
    ensures var cells := ParseEntries(payload, offset, count).value;
      && offset + Used(cells) <= |payload|
      && (offset + Used(cells) == |payload| ==> payload[offset..] == EntryBytes(cells))
    decreases count
  {
    hide FromBig, ToBig, EncodeExpr, Used, ParseEntries, EntryBytes, Pow256;
    if count == 0 {
      ParsedNothing(payload, offset);
    } else {
      var end, c, rest := ParsedEntry(payload, offset, count);
      var length := payload[offset..offset + 4];
      ParsedEntriesAreEncoded(payload, end, count - 1);
      UsedAppend([c], rest);
      UsedOne(c);
      EntryBytesFirst(c, rest);
      ToFromBig(length);
      if offset + Used([c] + rest) == |payload| {
        assert payload[offset..] == length + payload[offset + 4..end] + payload[end..];
      }
    }
  }

  lemma {:induction false} ParsedNothing(payload: Bytes, offset: nat)
    requires offset <= |payload| && ParseEntries(payload, offset, 0).Ok?
    ensures ParseEntries(payload, offset, 0).value == [] && offset == |payload| && payload[offset..] == []
    ensures Used([]) == 0 && Used([]) < Pow256(4) && EntryBytes([]) == []
  {
  }

  /**
   * The converse of the round trip: a page that decodes takes at least as many bytes as the page of its exprs, and
   * where it takes no more, which means that no link in it has surplus bytes, it is that page.
   */
  lemma {:induction false} DecodedIsBuilt(payload: Bytes)
    requires ParsePage(payload).Ok? && |payload| < Pow256(4)
    ensures var page := ParsePage(payload).value;
      && 7 + Used(page.exprs) <= |payload|
      && (7 + Used(page.exprs) == |payload| ==> PageBytes(page.number, page.total, page.exprs) == Some(payload))
  {
    hide FromBig, ToBig, Used, ParseEntries, EntryBytes;
    DecodedHeader(payload);
    var page := ParsePage(payload).value;
    Widths();
    ParsedEntriesAreEncoded(payload, 7, FromBig(payload[5..7]));
    ToFromBig(payload[1..3]);
    ToFromBig(payload[3..5]);
    ToFromBig(payload[5..7]);
    FromBigShort(payload[1..3]);
    FromBigShort(payload[3..5]);
    FromBigShort(payload[5..7]);
    assert payload == [payload[0]] + payload[1..3] + payload[3..5] + payload[5..7] + payload[7..];
  }
}
