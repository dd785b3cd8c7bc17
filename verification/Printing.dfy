/**
 * The printer of `expression/expr.py` (`__repr__`), the tokenizer and the parser of `machine/`,
 * and the proof that parsing undoes printing.
 */
module Printing {
  import opened Common

  /**
   * An expr as the printer sees it. `Ref` and `RefPair` are links known by hash only; `Float` is a
   * token that reads as a float; a `Pair` that ends in a type symbol is a composite without a value.
   */
  datatype Sexp =
    | Nil
    | Int(v: int)
    | Str(text: string)
    | Sym(name: string)
    | Raw(value: Bytes)
    | Float(token: string)
    | Ref(hash: Bytes)
    | RefPair(headHash: Bytes, tailHash: Bytes)
    | Pair(head: Sexp, tail: Sexp)

  const COMPOSITES := {"int", "str", "e4m3", "e5m2", "fp16", "bf16", "fp32", "fp64"}

  // -------------------------------------------------------------------- numbers

  function DigitChar(d: nat): char
    requires d < 10
  {
    "0123456789"[d]
  }

  function DigitsText(n: nat): (s: string)
    ensures |s| > 0
  {
    if n < 10 then [DigitChar(n)] else DigitsText(n / 10) + [DigitChar(n % 10)]
  }

  function IntText(v: int): string { if v < 0 then "-" + DigitsText(-v) else DigitsText(v) }

  predicate IsDigit(c: char) { '0' <= c <= '9' }

  /** What Python's Unicode tables say: the tokens that `float` accepts, and the decimal digits beyond ASCII. */
  datatype Python = Python(isFloat: string -> bool, digit: char -> Option<nat>)

  /** The value of a character as a decimal digit, of any script. */
  function DigitOf(c: char, py: Python): Option<nat>
  {
    if IsDigit(c) then Some(c as int - '0' as int) else if c as int < 128 then None else py.digit(c)
  }

  /** Decimal digits, with single underscores between them. */
  function DigitsValue(s: string, py: Python): Option<nat>
  {
    if s == "" || DigitOf(s[|s| - 1], py).None? then None
    else
      var d := DigitOf(s[|s| - 1], py).value;
      var before := s[..|s| - 1];
      if before == "" then Some(d)
      else
        var more := DigitsValue(if before[|before| - 1] == '_' then before[..|before| - 1] else before, py);
        if more.None? then None else Some(10 * more.value + d)
  }

  function Negated(n: nat): Option<int> { Some(-1 * n) }

  /** Python's `int(tok)`; None is its ValueError. */
  function ParseInt(tok: string, py: Python): Option<int>
  {
    if tok == "" then None
    else if tok[0] == '-' then
      var n := DigitsValue(tok[1..], py);
      if n.None? then None else Negated(n.value)
    else if tok[0] == '+' then
      var n := DigitsValue(tok[1..], py);
      if n.None? then None else Some(n.value)
    else
      var n := DigitsValue(tok, py);
      if n.None? then None else Some(n.value)
  }

  lemma {:induction false} DigitsRoundTrip(n: nat, py: Python)
    ensures DigitsValue(DigitsText(n), py) == Some(n)
    ensures forall k :: 0 <= k < |DigitsText(n)| ==> IsDigit(DigitsText(n)[k])
  {
    if n >= 10 {
      DigitsRoundTrip(n / 10, py);
      var s := DigitsText(n);
      assert s[..|s| - 1] == DigitsText(n / 10);
    }
  }

  lemma {:induction false} IntRoundTrip(v: int, py: Python)
    ensures ParseInt(IntText(v), py) == Some(v)
  {
    var n: nat := if v < 0 then -v else v;
    DigitsRoundTrip(n, py);
    if v < 0 {
      assert IntText(v)[1..] == DigitsText(n);
    } else {
      assert IsDigit(DigitsText(n)[0]);
    }
  }

  function HexChar(d: nat): char
    requires d < 16
  {
    "0123456789abcdef"[d]
  }

  function HexText(b: Bytes): string
  {
    if b == [] then "" else [HexChar(b[0] / 16), HexChar(b[0] % 16)] + HexText(b[1..])
  }

  function HexDigit(c: char): Option<nat>
  {
    if '0' <= c <= '9' then Some(c as int - '0' as int)
    else if 'a' <= c <= 'f' then Some(c as int - 'a' as int + 10)
    else if 'A' <= c <= 'F' then Some(c as int - 'A' as int + 10)
    else None
  }

  /** `bytes.fromhex`; None is its ValueError. */
  function FromHex(s: string): Option<Bytes>
  {
    if s == "" then Some([])
    else if |s| == 1 then None
    else
      var (a, b) := (HexDigit(s[0]), HexDigit(s[1]));
      if a.None? || b.None? then None
      else
        var rest := FromHex(s[2..]);
        if rest.None? then None else Some([16 * a.value + b.value] + rest.value)
  }

  lemma {:induction false} HexHere(b: Bytes)
    requires b != []
    ensures HexText(b) == [HexChar(b[0] / 16), HexChar(b[0] % 16)] + HexText(b[1..])
    ensures HexText(b)[2..] == HexText(b[1..])
  {
  }

  lemma {:induction false} FromHexHere(s: string, x: nat, y: nat, rest: Bytes)
    requires |s| >= 2 && x < 16 && y < 16 && HexDigit(s[0]) == Some(x) && HexDigit(s[1]) == Some(y)
    requires FromHex(s[2..]) == Some(rest)
    ensures FromHex(s) == Some([16 * x + y] + rest)
  {
  }

  lemma {:induction false} HexRoundTrip(b: Bytes)
    ensures FromHex(HexText(b)) == Some(b) && |HexText(b)| == 2 * |b|
    ensures forall k :: 0 <= k < |HexText(b)| ==> HexDigit(HexText(b)[k]).Some?
  {
    if b != [] {
      hide HexText, FromHex, HexDigit, HexChar;
      HexRoundTrip(b[1..]);
      var s := HexText(b);
      HexHere(b);
      HexCharDigit(b[0] / 16);
      HexCharDigit(b[0] % 16);
      FromHexHere(s, b[0] / 16, b[0] % 16, b[1..]);
      assert b == [b[0]] + b[1..];
      forall k | 0 <= k < |s|
        ensures HexDigit(s[k]).Some?
      {
        assert k >= 2 ==> s[k] == HexText(b[1..])[k - 2];
      }
    }
  }

  lemma {:induction false} HexCharDigit(d: nat)
    requires d < 16
    ensures HexDigit(HexChar(d)) == Some(d)
  {
  }

  // -------------------------------------------------------------------- printing

  /** The tail of a list goes on inside the same parentheses. */
  predicate Continues(tail: Sexp) { tail.Pair? && !(tail.tail.Sym? && tail.tail.name in COMPOSITES) }

  function Text(e: Sexp): string
    decreases e, 1
  {
    match e
    case Nil => "nil"
    case Int(v) => IntText(v)
    case Str(text) => "\"" + text + "\""
    case Sym(name) => name
    case Raw(value) => "0x" + HexText(value)
    case Float(token) => token
    case Ref(hash) => "#" + HexText(hash)
    case RefPair(headHash, tailHash) => "(#" + HexText(headHash) + " . #" + HexText(tailHash) + ")"
    case Pair(_, _) => "(" + ItemsText(e) + ")"
  }

  /** What stands between the parentheses of a link. */
  function ItemsText(e: Sexp): string
    requires e.Pair?
    decreases e, 0
  {
    Text(e.head)
    + if e.tail.Nil? then ""
      else if Continues(e.tail) then " " + ItemsText(e.tail)
      else " . " + Text(e.tail)
  }

  function Join(parts: seq<string>): string
  {
    if parts == [] then ""
    else if |parts| == 1 then parts[0]
    else Join(parts[..|parts| - 1]) + " " + parts[|parts| - 1]
  }

  lemma {:induction false} JoinMore(parts: seq<string>, part: string)
    ensures Join(parts + [part]) == if parts == [] then part else Join(parts) + " " + part
  {
    assert (parts + [part])[..|parts|] == parts;
  }

  /** The part of a link's text that is not in the list of parts yet. */
  function Prefixed(parts: seq<string>, rest: string): string { if parts == [] then rest else Join(parts) + " " + rest }

  /** `_repr_link` on a link with loaded children: the loop along the tail chain. */
  method ReprLink(e: Sexp) returns (s: string)
    requires e.Pair?
    ensures s == Text(e)
    decreases e, 0
  {
    hide Text, ItemsText, Join, Continues;
    var parts: seq<string> := [];
    var current := e;
    while true
      invariant current.Pair? && (current == e || current < e)
      invariant Prefixed(parts, ItemsText(current)) == ItemsText(e)
      decreases current
    {
      ItemsHere(current);
      var first := Repr(current.head);
      JoinMore(parts, first);
      ghost var before := parts;
      parts := parts + [first];
      if current.tail.Nil? {
        break;
      }
      if Continues(current.tail) {
        PrefixedMore(before, first, ItemsText(current.tail));
        current := current.tail;
        continue;
      }
      var last := Repr(current.tail);
      JoinMore(parts, ". " + last);
      PrefixedMore(before, first, ". " + last);
      assert first + " . " + last == first + " " + (". " + last);
      parts := parts + [". " + last];
      break;
    }
    s := "(" + Join(parts) + ")";
    TextOfPair(e);
  }

  lemma {:induction false} TextOfPair(e: Sexp)
    ensures e.Pair? ==> Text(e) == "(" + ItemsText(e) + ")"
  {
  }

  lemma {:induction false} ItemsHere(e: Sexp)
    requires e.Pair?
    ensures e.tail.Nil? ==> ItemsText(e) == Text(e.head)
    ensures Continues(e.tail) ==> !e.tail.Nil? && e.tail.Pair? && ItemsText(e) == Text(e.head) + " " + ItemsText(e.tail)
    ensures !e.tail.Nil? && !Continues(e.tail) ==> ItemsText(e) == Text(e.head) + " . " + Text(e.tail)
  {
    hide Text;
  }

  lemma {:induction false} PrefixedMore(parts: seq<string>, part: string, rest: string)
    ensures Prefixed(parts, part + " " + rest) == Prefixed(parts + [part], rest)
  {
    JoinMore(parts, part);
    assert parts != [] ==> Join(parts) + " " + (part + " " + rest) == (Join(parts) + " " + part) + " " + rest;
  }

  /** `__repr__`. */
  method Repr(e: Sexp) returns (s: string)
    ensures s == Text(e)
    decreases e, 1
  {
    match e
    case Pair(_, _) => s := ReprLink(e);
    case Nil => s := "nil";
    case Int(v) => s := IntText(v);
    case Str(text) => s := "\"" + text + "\"";
    case Sym(name) => s := name;
    case Raw(value) => s := "0x" + HexText(value);
    case Float(token) => s := token;
    case Ref(hash) => s := "#" + HexText(hash);
    case RefPair(headHash, tailHash) =>
      var (a, b) := (HexText(headHash), HexText(tailHash));
      s := "(" + Join(["#" + a, ". #" + b]) + ")";
      JoinMore(["#" + a], ". #" + b);
      assert ["#" + a] + [". #" + b] == ["#" + a, ". #" + b];
      assert "(" + ("#" + a + " " + (". #" + b)) + ")" == "(#" + a + " . #" + b + ")";
  }

  // ------------------------------------------------------------------ tokenizing

  /** Python's `str.isspace`. */
  predicate IsSpace(c: char)
  {
    var n := c as int;
    9 <= n <= 13 || 28 <= n <= 32 || n == 0x85 || n == 0xA0 || n == 0x1680 || 0x2000 <= n <= 0x200A
    || n == 0x2028 || n == 0x2029 || n == 0x202F || n == 0x205F || n == 0x3000
  }

  /** How far `skip_line_comment` goes. */
  function LineLength(s: string): (k: nat)
    ensures k <= |s|
  {
    if s == "" || s[0] == '\n' then 0 else 1 + LineLength(s[1..])
  }

  /** How far a string literal goes on after its opening quote, the closing quote included. */
  function StringLength(s: string): (k: nat)
    ensures k <= |s|
  {
    if s == "" then 0 else if s[0] == '"' then 1 else 1 + StringLength(s[1..])
  }

  /** A word of a quote shorthand. */
  function WordLength(s: string): (k: nat)
    ensures k <= |s|
  {
    if s == "" || IsSpace(s[0]) || s[0] in {'(', ')', '"', ';'} || (s[0] == '#' && |s| > 1 && s[1] == ';') then 0
    else 1 + WordLength(s[1..])
  }

  /** The balanced list that `skip_expression` skips; strings in it are not looked at. */
  function ListLength(s: string, depth: nat): (k: nat)
    ensures k <= |s|
    decreases |s|
  {
    if s == "" then 0
    else if s[0] == '(' then 1 + ListLength(s[1..], depth + 1)
    else if s[0] == ')' then if depth <= 1 then 1 else 1 + ListLength(s[1..], depth - 1)
    else if s[0] == ';' then
      var skip := 1 + LineLength(s[1..]);
      skip + ListLength(s[skip..], depth)
    else 1 + ListLength(s[1..], depth)
  }

  /** A quote directly before an expression: `'x` stands for a list of the quote and x. */
  predicate Shorthand(s: string)
    requires s != ""
  {
    |s| > 1 && s[1] !in {' ', '\t', '\n', '\r', ')', '"', ';'} && !(s[1] == '#' && |s| > 2 && s[2] == ';')
  }

  function Flushed(cur: string): seq<string> { if cur == "" then [] else [cur] }

  /** The tokens of the rest of a source, with the characters of an unfinished token. */
  function Scan(s: string, cur: string): seq<string>
    decreases |s|
  {
    if s == "" then Flushed(cur)
    else if IsSpace(s[0]) then Flushed(cur) + Scan(s[1..], "")
    else if s[0] == ';' then Flushed(cur) + Scan(s[1 + LineLength(s[1..])..], "")
    else if s[0] == '"' then
      var k := 1 + StringLength(s[1..]);
      Flushed(cur) + [s[..k]] + Scan(s[k..], "")
    else if s[0] == '\'' then
      if !Shorthand(s) then Flushed(cur) + ["'"] + Scan(s[1..], "")
      else if s[1] == '(' then
        var k := 1 + ListLength(s[1..], 0);
        Flushed(cur) + ["(", "'"] + Scan(s[1..k], "") + [")"] + Scan(s[k..], "")
      else
        var k := 1 + WordLength(s[1..]);
        Flushed(cur) + ["(", "'"] + [s[1..k]] + [")"] + Scan(s[k..], "")
    else if s[0] == '(' || s[0] == ')' then Flushed(cur) + [[s[0]]] + Scan(s[1..], "")
    else Scan(s[1..], cur + [s[0]])
  }

  lemma {:induction false} RestParts(source: string, i: nat, k: nat)
    requires 1 <= k && i + k <= |source|
    ensures source[i..][1..k] == source[i + 1..i + k] && source[i..][k..] == source[i + k..]
  {
  }

  /** `skip_line_comment`. */
  method SkipLineComment(source: string, from: nat) returns (end: nat)
    requires from <= |source|
    ensures end == from + LineLength(source[from..])
  {
    end := from;
    while end < |source| && source[end] != '\n'
      invariant from <= end <= |source| && end + LineLength(source[end..]) == from + LineLength(source[from..])
    {
      assert source[end..][1..] == source[end + 1..];
      end := end + 1;
    }
  }

  /** The list branch of `skip_expression`, which is entered at an opening parenthesis. */
  method SkipList(source: string, from: nat) returns (end: nat)
    requires from < |source| && source[from] == '('
    ensures end == from + ListLength(source[from..], 0)
  {
    hide ListLength, LineLength;
    end := from;
    var depth := 0;
    while end < |source|
      invariant from <= end <= |source| && depth >= 0 && (depth > 0 || end == from)
      invariant end + ListLength(source[end..], depth) == from + ListLength(source[from..], 0)
      decreases |source| - end
    {
      var ch := source[end];
      assert source[end..][1..] == source[end + 1..];
      ListLengthHere(source[end..], depth);
      if ch == '(' {
        depth := depth + 1;
        end := end + 1;
        continue;
      }
      if ch == ')' {
        depth := depth - 1;
        end := end + 1;
        if depth == 0 {
          break;
        }
        continue;
      }
      if ch == ';' {
        var line := SkipLineComment(source, end + 1);
        RestParts(source, end, 1 + LineLength(source[end + 1..]));
        end := line;
        continue;
      }
      end := end + 1;
    }
    ListLengthEnd(depth);
  }

  lemma {:induction false} ListLengthEnd(depth: nat)
    ensures ListLength("", depth) == 0
  {
  }

  lemma {:induction false} ListLengthHere(s: string, depth: nat)
    requires s != ""
    ensures s[0] == '(' ==> ListLength(s, depth) == 1 + ListLength(s[1..], depth + 1)
    ensures s[0] == ')' ==> ListLength(s, depth) == if depth <= 1 then 1 else 1 + ListLength(s[1..], depth - 1)
    ensures s[0] == ';' ==> ListLength(s, depth) == 1 + LineLength(s[1..]) + ListLength(s[1 + LineLength(s[1..])..], depth)
    ensures s[0] !in {'(', ')', ';'} ==> ListLength(s, depth) == 1 + ListLength(s[1..], depth)
  {
  }

  method SkipString(source: string, from: nat) returns (end: nat)
    requires from <= |source|
    ensures end == from + StringLength(source[from..])
  {
    end := from;
    while end < |source| && source[end] != '"'
      invariant from <= end <= |source| && end + StringLength(source[end..]) == from + StringLength(source[from..])
    {
      assert source[end..][1..] == source[end + 1..];
      end := end + 1;
    }
    if end < |source| {
      end := end + 1;
    }
  }

  method SkipWord(source: string, from: nat) returns (end: nat)
    requires from <= |source|
    ensures end == from + WordLength(source[from..])
  {
    end := from;
    while end < |source| && !IsSpace(source[end]) && source[end] !in {'(', ')', '"', ';'}
      invariant from <= end <= |source| && end + WordLength(source[end..]) == from + WordLength(source[from..])
    {
      assert source[end..][1..] == source[end + 1..];
      if source[end] == '#' && end + 1 < |source| && source[end + 1] == ';' {
        break;
      }
      end := end + 1;
    }
  }

  /** One turn of the loop of `tokenize` at a quote. */
  method QuoteTokens(source: string, i: nat, cur: string) returns (more: seq<string>, next: nat)
    requires i < |source| && source[i] == '\''
    ensures i < next <= |source| && Scan(source[i..], cur) == more + Scan(source[next..], "")
    decreases |source|, 0
  {
    hide Scan, ListLength, WordLength, LineLength, StringLength;
    ghost var s := source[i..];
    assert s[1..] == source[i + 1..];
    ScanHere(s, cur);
    more := Flushed(cur);
    if !Shorthand(source[i..]) {
      return more + ["'"], i + 1;
    }
    if source[i + 1] == '(' {
      next := SkipList(source, i + 1);
      ghost var k := 1 + ListLength(s[1..], 0);
      RestParts(source, i, k);
      var inner := Tokenize(source[i + 1..next]);
      more := more + ["(", "'"] + inner + [")"];
    } else {
      next := SkipWord(source, i + 1);
      ghost var k := 1 + WordLength(s[1..]);
      RestParts(source, i, k);
      more := more + ["(", "'"] + [source[i + 1..next]] + [")"];
    }
  }

  /** One turn of the loop of `tokenize` anywhere else. */
  method NextTokens(source: string, i: nat, cur0: string) returns (more: seq<string>, cur: string, next: nat)
    requires i < |source| && source[i] != '\''
    ensures i < next <= |source| && Scan(source[i..], cur0) == more + Scan(source[next..], cur)
  {
    hide Scan;
    var ch := source[i];
    ghost var s := source[i..];
    assert s[0] == ch && s[1..] == source[i + 1..];
    ScanHere(s, cur0);
    cur, next := "", i + 1;
    more := Flushed(cur0);
    if IsSpace(ch) {
      return;
    }
    if ch == ';' {
      next := SkipLineComment(source, i + 1);
      assert s[1 + LineLength(s[1..])..] == source[next..];
      return;
    }
    if ch == '"' {
      next := SkipString(source, i + 1);
      ghost var k := 1 + StringLength(s[1..]);
      assert s[..k] == source[i..next] && s[k..] == source[next..];
      more := more + [source[i..next]];
      return;
    }
    if ch == '(' || ch == ')' {
      more := more + [[ch]];
      return;
    }
    more, cur := [], cur0 + [ch];
    assert [] + Scan(source[next..], cur) == Scan(source[next..], cur);
  }

  /** `tokenize`. */
  method Tokenize(source: string) returns (tokens: seq<string>)
    ensures tokens == Scan(source, "")
    decreases |source|, 1
  {
    hide Scan;
    tokens := [];
    var cur := "";
    var i: nat := 0;
    assert source[0..] == source && [] + Scan(source, "") == Scan(source, "");
    while i < |source|
      invariant i <= |source|
      invariant tokens + Scan(source[i..], cur) == Scan(source, "")
      decreases |source| - i
    {
      var more: seq<string>;
      var next: nat;
      ghost var was := Scan(source[i..], cur);
      if source[i] == '\'' {
        more, next := QuoteTokens(source, i, cur);
        cur := "";
      } else {
        more, cur, next := NextTokens(source, i, cur);
      }
      assert tokens + was == tokens + more + Scan(source[next..], cur);
      tokens := tokens + more;
      i := next;
    }
    assert source[i..] == "";
    ScanNothing(cur);
    tokens := tokens + Flushed(cur);
  }

  lemma {:induction false} ScanNothing(cur: string)
    ensures Scan("", cur) == Flushed(cur)
  {
  }

  /** One step of `Scan`. */
  lemma {:induction false} ScanHere(s: string, cur: string)
    requires s != ""
    ensures var scan := Scan(s, cur);
      if IsSpace(s[0]) then scan == Flushed(cur) + Scan(s[1..], "")
      else if s[0] == ';' then scan == Flushed(cur) + Scan(s[1 + LineLength(s[1..])..], "")
      else if s[0] == '"' then
        var k := 1 + StringLength(s[1..]);
        scan == Flushed(cur) + [s[..k]] + Scan(s[k..], "")
      else if s[0] == '\'' then
        if !Shorthand(s) then scan == Flushed(cur) + ["'"] + Scan(s[1..], "")
        else if s[1] == '(' then
          var k := 1 + ListLength(s[1..], 0);
          scan == Flushed(cur) + ["(", "'"] + Scan(s[1..k], "") + [")"] + Scan(s[k..], "")
        else
          var k := 1 + WordLength(s[1..]);
          scan == Flushed(cur) + ["(", "'"] + [s[1..k]] + [")"] + Scan(s[k..], "")
      else if s[0] == '(' || s[0] == ')' then scan == Flushed(cur) + [[s[0]]] + Scan(s[1..], "")
      else scan == Scan(s[1..], cur + [s[0]])
  {
    hide IsSpace, LineLength, StringLength, ListLength, WordLength, Shorthand, Flushed;
  }

  // --------------------------------------------------------------------- parsing

  /** The link chain of the items, ending in a tail. */
  function Chain(items: seq<Sexp>, tail: Sexp): Sexp
  {
    if items == [] then tail else Pair(items[0], Chain(items[1..], tail))
  }

  /** `_build_chain`: `()` is the list of a quote. */
  function BuildChain(items: seq<Sexp>): Sexp { if items == [] then Pair(Sym("'"), Nil) else Chain(items, Nil) }

  predicate HashLink(e: Sexp) { e.Ref? || e.RefPair? }

  function HeadHash(e: Sexp): Bytes
    requires HashLink(e)
  {
    if e.Ref? then e.hash else e.headHash
  }

  /** A dotted list; two bare hash pointers merge into one link. */
  function DottedChain(items: seq<Sexp>, tail: Sexp): Sexp
  {
    if |items| == 1 && HashLink(items[0]) && HashLink(tail) then RefPair(HeadHash(items[0]), HeadHash(tail))
    else Chain(items, tail)
  }

  function Lower(c: char): char { if 'A' <= c <= 'Z' then (c as int + 32) as char else c }

  /** The token of an atom. */
  function ParseAtom(tok: string, py: Python): Result<Sexp>
  {
    if tok == "nil" then Ok(Nil)
    else if tok != "" && tok[0] == '#' then
      if |tok| != 65 then Err("invalid hash literal")
      else
        var h := FromHex(tok[1..]);
        if h.None? then Err("invalid hex in hash literal") else Ok(Ref(h.value))
    else if tok != "" && tok[0] == '"' then
      Ok(Str(if |tok| >= 2 && tok[|tok| - 1] == '"' then tok[1..|tok| - 1] else tok[1..]))
    else if |tok| >= 2 && tok[0] == '0' && Lower(tok[1]) == 'x' then
      var b := FromHex(tok[2..]);
      if b.None? then Err("non-hexadecimal number") else Ok(Raw(b.value))
    else if ParseInt(tok, py).Some? then Ok(Int(ParseInt(tok, py).value))
    else if '.' in tok && py.isFloat(tok) then Ok(Float(tok))
    else Ok(Sym(tok))
  }

  /** One expression at the front of the tokens, and the tokens after it. */
  function Parse(tokens: seq<string>, py: Python): (r: Result<(Sexp, seq<string>)>)
    ensures r.Ok? ==> |r.value.1| < |tokens|
    decreases |tokens|, 0
  {
    if tokens == [] then Err("unexpected end")
    else if tokens[0] == "(" then ParseItems(tokens[1..], [], py)
    else if tokens[0] == ")" then Err("unexpected ')'")
    else
      var atom := ParseAtom(tokens[0], py);
      if atom.Err? then Err(atom.reason) else Ok((atom.value, tokens[1..]))
  }

  /** The rest of a list after the items so far. */
  function ParseItems(tokens: seq<string>, items: seq<Sexp>, py: Python): (r: Result<(Sexp, seq<string>)>)
    ensures r.Ok? ==> |r.value.1| < |tokens|
    decreases |tokens|, 1
  {
    if tokens == [] then Err("expected ')'")
    else if tokens[0] == ")" then Ok((BuildChain(items), tokens[1..]))
    else if tokens[0] == "." then
      if items == [] then Err("unexpected '.' without preceding car")
      else
        var tail := Parse(tokens[1..], py);
        if tail.Err? then tail
        else if tail.value.1 == [] || tail.value.1[0] != ")" then Err("expected ')' after dotted pair cdr")
        else Ok((DottedChain(items, tail.value.0), tail.value.1[1..]))
    else
      var item := Parse(tokens, py);
      if item.Err? then item else ParseItems(item.value.1, items + [item.value.0], py)
  }

  method BuildChainLoop(items: seq<Sexp>, tail: Sexp) returns (result: Sexp)
    ensures result == Chain(items, tail)
  {
    result := tail;
    for i := |items| downto 0
      invariant result == Chain(items[i..], tail)
    {
      assert items[i..][1..] == items[i + 1..];
      result := Pair(items[i], result);
    }
    assert items[0..] == items;
  }

  /** `_parse_one`, with the position of the next token. */
  method ParseOne(tokens: seq<string>, pos: nat, py: Python) returns (r: Result<(Sexp, nat)>)
    requires pos <= |tokens|
    ensures r.Ok? <==> Parse(tokens[pos..], py).Ok?
    ensures r.Ok? ==> pos < r.value.1 <= |tokens| && Parse(tokens[pos..], py) == Ok((r.value.0, tokens[r.value.1..]))
    decreases |tokens| - pos, 1
  {
    if pos >= |tokens| {
      return Err("unexpected end");
    }
    assert tokens[pos..][1..] == tokens[pos + 1..];
    if tokens[pos] == "(" {
      r := ParseList(tokens, pos + 1, py);
      return;
    }
    if tokens[pos] == ")" {
      return Err("unexpected ')'");
    }
    var atom := ParseAtom(tokens[pos], py);
    if atom.Err? {
      return Err(atom.reason);
    }
    return Ok((atom.value, pos + 1));
  }

  /** The list loop of `_parse_one`. */
  method ParseList(tokens: seq<string>, start: nat, py: Python) returns (r: Result<(Sexp, nat)>)
    requires start <= |tokens|
    ensures r.Ok? <==> ParseItems(tokens[start..], [], py).Ok?
    ensures r.Ok? ==>
              start < r.value.1 <= |tokens| && ParseItems(tokens[start..], [], py) == Ok((r.value.0, tokens[r.value.1..]))
    decreases |tokens| - start, 2
  {
    hide Parse;
    var items: seq<Sexp> := [];
    var i := start;
    while i < |tokens|
      invariant start <= i <= |tokens|
      invariant ParseItems(tokens[i..], items, py) == ParseItems(tokens[start..], [], py)
      decreases |tokens| - i
    {
      assert tokens[i..][1..] == tokens[i + 1..];
      if tokens[i] == ")" {
        if items == [] {
          return Ok((Pair(Sym("'"), Nil), i + 1));
        }
        var chain := BuildChainLoop(items, Nil);
        return Ok((chain, i + 1));
      }
      if tokens[i] == "." {
        if items == [] {
          return Err("unexpected '.' without preceding car");
        }
        var tail := ParseOne(tokens, i + 1, py);
        if tail.Err? {
          return tail;
        }
        var (last, next) := tail.value;
        if next >= |tokens| || tokens[next] != ")" {
          return Err("expected ')' after dotted pair cdr");
        }
        assert tokens[next..][1..] == tokens[next + 1..];
        var result := BuildChainLoop(items, last);
        if |items| == 1 && HashLink(items[0]) && HashLink(last) {
          result := RefPair(HeadHash(items[0]), HeadHash(last));
        }
        return Ok((result, next + 1));
      }
      var item := ParseOne(tokens, i, py);
      if item.Err? {
        return item;
      }
      items := items + [item.value.0];
      i := item.value.1;
    }
    return Err("expected ')'");
  }

  // -------------------------------------------------------------- the round trip

  predicate WordChar(c: char) { !IsSpace(c) && c !in {'(', ')', ';', '"', '\''} }

  predicate Word(s: string) { s != "" && forall k :: 0 <= k < |s| ==> WordChar(s[k]) }

  /**
   * A symbol that reads back as itself: the quote, or one word that is no other kind of token; digits
   * of any script make a number.
   */
  predicate PlainSymbol(name: string, py: Python)
  {
    name == "'"
    || (Word(name) && name != "." && ParseAtom(name, py) == Ok(Sym(name)))
  }

  /**
   * What parsing can give back: no float, and no pair whose parts are both known by hash. A pair of
   * two bare hash pointers prints like a link known by both hashes; where a part is such a link
   * itself, the parser merges the pair into one link and drops a hash.
   */
  predicate Printable(e: Sexp, py: Python)
    decreases e, 1
  {
    match e
    case Nil => true
    case Int(_) => true
    case Str(text) => '"' !in text
    case Sym(name) => PlainSymbol(name, py)
    case Raw(_) => true
    case Float(_) => false
    case Ref(hash) => |hash| == 32
    case RefPair(headHash, tailHash) => |headHash| == |tailHash| == 32
    case Pair(head, tail) => !(HashLink(head) && HashLink(tail)) && ItemsPrintable(e, py)
  }

  predicate ItemsPrintable(e: Sexp, py: Python)
    requires e.Pair?
    decreases e, 0
  {
    && Printable(e.head, py)
    && if e.tail.Nil? then true
       else if Continues(e.tail) then ItemsPrintable(e.tail, py)
       else Printable(e.tail, py)
  }

  function TokensOf(e: Sexp): seq<string>
    decreases e, 1
  {
    match e
    case Pair(_, _) => ["("] + ItemTokens(e) + [")"]
    case RefPair(headHash, tailHash) => ["(", "#" + HexText(headHash), ".", "#" + HexText(tailHash), ")"]
    case Nil => [Text(e)]
    case Int(_) => [Text(e)]
    case Str(_) => [Text(e)]
    case Sym(_) => [Text(e)]
    case Raw(_) => [Text(e)]
    case Float(_) => [Text(e)]
    case Ref(_) => [Text(e)]
  }

  function ItemTokens(e: Sexp): seq<string>
    requires e.Pair?
    decreases e, 0
  {
    TokensOf(e.head)
    + if e.tail.Nil? then []
      else if Continues(e.tail) then ItemTokens(e.tail)
      else ["."] + TokensOf(e.tail)
  }

  /** Where a token ends. */
  predicate Boundary(s: string) { s == "" || s[0] == ' ' || s[0] == ')' }

  lemma {:induction false} WordScans(w: string, post: string, cur: string)
    requires w == "" || Word(w)
    ensures Scan(w + post, cur) == Scan(post, cur + w)
    decreases |w|
  {
    hide Scan, IsSpace;
    if w == "" {
      assert w + post == post && cur + w == cur;
    } else {
      ScanHere(w + post, cur);
      assert WordChar(w[0]);
      assert (w + post)[1..] == w[1..] + post;
      forall k | 0 <= k < |w| - 1
        ensures WordChar(w[1..][k])
      {
        assert w[1..][k] == w[k + 1];
      }
      WordScans(w[1..], post, cur + [w[0]]);
      assert cur + [w[0]] + w[1..] == cur + w;
    }
  }

  /** A word before a boundary is one token. */
  lemma {:induction false} WordIsToken(w: string, post: string)
    requires Word(w) && Boundary(post)
    ensures Scan(w + post, "") == [w] + Scan(post, "")
  {
    WordScans(w, post, "");
    assert "" + w == w;
    if post == "" {
      ScanNothing(w);
      ScanNothing("");
    } else {
      hide Scan;
      ScanHere(post, w);
      ScanHere(post, "");
      var rest := Scan(post[1..], "");
      assert [w] + ([] + rest) == [w] + rest;
      assert [w] + ([] + [[post[0]]] + rest) == [w] + [[post[0]]] + rest;
    }
  }

  lemma {:induction false} StringScans(text: string, post: string)
    requires '"' !in text
    ensures StringLength(text + "\"" + post) == |text| + 1
  {
    if text != "" {
      StringScans(text[1..], post);
      assert (text + "\"" + post)[1..] == text[1..] + "\"" + post;
    }
  }

  lemma {:induction false} StringIsToken(text: string, post: string)
    requires '"' !in text
    ensures Scan("\"" + text + "\"" + post, "") == ["\"" + text + "\""] + Scan(post, "")
  {
    hide Scan;
    var s := "\"" + text + "\"" + post;
    ScanHere(s, "");
    assert s[1..] == text + "\"" + post;
    StringScans(text, post);
    assert s[..|text| + 2] == "\"" + text + "\"" && s[|text| + 2..] == post;
  }

  lemma {:induction false} OtherTokens(post: string)
    ensures Scan("(" + post, "") == ["("] + Scan(post, "")
    ensures Scan(")" + post, "") == [")"] + Scan(post, "")
    ensures Scan(" " + post, "") == Scan(post, "")
    ensures Boundary(post) ==> Scan("'" + post, "") == ["'"] + Scan(post, "")
  {
    hide Scan;
    ScanHere("(" + post, "");
    ScanHere(")" + post, "");
    ScanHere(" " + post, "");
    ScanHere("'" + post, "");
    assert ("(" + post)[1..] == (")" + post)[1..] == (" " + post)[1..] == ("'" + post)[1..] == post;
    assert [] + Scan(post, "") == Scan(post, "");
  }

  lemma {:induction false} AtomsAreWords(e: Sexp, py: Python)
    requires Printable(e, py) && !e.Pair? && !e.RefPair? && !e.Str? && e != Sym("'")
    ensures Word(Text(e)) && Text(e) != "." && ParseAtom(Text(e), py) == Ok(e)
  {
    match e
    case Int(v) =>
      IntRoundTrip(v, py);
      DigitsRoundTrip(if v < 0 then -v else v, py);
      IntIsWord(v, py);
    case Raw(value) =>
      HexRoundTrip(value);
      HexIsWord("0x", value);
      assert ("0x" + HexText(value))[2..] == HexText(value);
    case Ref(hash) =>
      HexRoundTrip(hash);
      HexIsWord("#", hash);
      assert ("#" + HexText(hash))[1..] == HexText(hash);
    case Nil =>
    case Sym(_) =>
  }

  /** A token that the parser reads as neither a dot, nil, a hash, a string nor hex bytes. */
  ghost predicate NumberWord(s: string)
  {
    && Word(s) && s != "." && s != "nil" && s[0] != '#' && s[0] != '"'
    && !(|s| >= 2 && s[0] == '0' && Lower(s[1]) == 'x')
  }

  lemma {:induction false} DigitsAreWord(d: string)
    requires d != [] && forall k :: 0 <= k < |d| ==> IsDigit(d[k])
    ensures NumberWord(d) && NumberWord("-" + d)
  {
    forall k | 0 <= k < |d|
      ensures WordChar(d[k])
    {
      assert IsDigit(d[k]);
    }
    assert IsDigit(d[0]) && (|d| > 1 ==> IsDigit(d[1]));
    var s := "-" + d;
    assert s[0] == '-';
    forall k | 0 <= k < |s|
      ensures WordChar(s[k])
    {
      assert k > 0 ==> s[k] == d[k - 1];
    }
  }

  lemma {:induction false} IntIsWord(v: int, py: Python)
    ensures NumberWord(IntText(v))
  {
    hide DigitsText, NumberWord, IsDigit;
    var n: nat := if v < 0 then -v else v;
    DigitsRoundTrip(n, py);
    DigitsAreWord(DigitsText(n));
  }

  lemma {:induction false} HexIsWord(prefix: string, b: Bytes)
    requires Word(prefix)
    ensures Word(prefix + HexText(b))
  {
    HexRoundTrip(b);
    var s := prefix + HexText(b);
    forall k | 0 <= k < |s|
      ensures WordChar(s[k])
    {
      if k < |prefix| {
        assert WordChar(prefix[k]);
      } else {
        assert HexDigit(HexText(b)[k - |prefix|]).Some?;
      }
    }
  }

  lemma {:induction false} RefPairScans(x: Bytes, y: Bytes, post: string)
    requires Boundary(post)
    ensures Scan(Text(RefPair(x, y)) + post, "") == TokensOf(RefPair(x, y)) + Scan(post, "")
  {
    hide Scan, HexText;
    var e := RefPair(x, y);
    var (a, b) := ("#" + HexText(x), "#" + HexText(y));
    HexIsWord("#", x);
    HexIsWord("#", y);
    var last := b + (")" + post);
    assert Text(e) + post == "(" + (a + (" " + ("." + (" " + last))));
    OtherTokens(a + (" " + ("." + (" " + last))));
    WordIsToken(a, " " + ("." + (" " + last)));
    OtherTokens("." + (" " + last));
    WordIsToken(".", " " + last);
    OtherTokens(last);
    WordIsToken(b, ")" + post);
    OtherTokens(post);
    assert ["("] + ([a] + (["."] + ([b] + ([")"] + Scan(post, ""))))) == TokensOf(e) + Scan(post, "");
  }

  /** Scanning the text of an expr gives its tokens and leaves the rest. */
  lemma {:induction false} TextScans(e: Sexp, post: string, py: Python)
    requires Printable(e, py) && Boundary(post)
    ensures Scan(Text(e) + post, "") == TokensOf(e) + Scan(post, "")
    decreases e, 1
  {
    hide Scan, ParseAtom;
    if e.Pair? {
      var inside := ItemsText(e);
      assert Text(e) + post == "(" + (inside + (")" + post));
      OtherTokens(inside + (")" + post));
      ItemsScan(e, ")" + post, py);
      OtherTokens(post);
      assert ["("] + (ItemTokens(e) + ([")"] + Scan(post, ""))) == TokensOf(e) + Scan(post, "");
    } else if e.RefPair? {
      RefPairScans(e.headHash, e.tailHash, post);
    } else if e.Str? {
      StringIsToken(e.text, post);
    } else if e == Sym("'") {
      OtherTokens(post);
    } else {
      AtomsAreWords(e, py);
      WordIsToken(Text(e), post);
    }
  }

  lemma {:induction false} ItemsScan(e: Sexp, post: string, py: Python)
    requires e.Pair? && ItemsPrintable(e, py) && Boundary(post)
    ensures Scan(ItemsText(e) + post, "") == ItemTokens(e) + Scan(post, "")
    decreases e, 0
  {
    hide Scan, ParseAtom, Text, TokensOf;
    var first := Text(e.head);
    if e.tail.Nil? {
      TextScans(e.head, post, py);
      assert ItemsText(e) == first && ItemTokens(e) == TokensOf(e.head);
    } else if Continues(e.tail) {
      var rest := ItemsText(e.tail) + post;
      assert ItemsText(e) + post == first + (" " + rest);
      TextScans(e.head, " " + rest, py);
      OtherTokens(rest);
      ItemsScan(e.tail, post, py);
      assert TokensOf(e.head) + (ItemTokens(e.tail) + Scan(post, "")) == ItemTokens(e) + Scan(post, "");
    } else {
      var rest := Text(e.tail) + post;
      assert ItemsText(e) + post == first + (" " + ("." + (" " + rest)));
      TextScans(e.head, " " + ("." + (" " + rest)), py);
      OtherTokens("." + (" " + rest));
      WordIsToken(".", " " + rest);
      OtherTokens(rest);
      TextScans(e.tail, post, py);
      assert TokensOf(e.head) + (["."] + (TokensOf(e.tail) + Scan(post, ""))) == ItemTokens(e) + Scan(post, "");
    }
  }

  lemma {:induction false} ChainAppend(items: seq<Sexp>, item: Sexp, tail: Sexp)
    ensures Chain(items + [item], tail) == Chain(items, Pair(item, tail))
  {
    if items != [] {
      ChainAppend(items[1..], item, tail);
      assert (items + [item])[1..] == items[1..] + [item];
    } else {
      assert (items + [item])[1..] == [];
    }
  }

  lemma {:induction false} FirstToken(e: Sexp, py: Python)
    requires Printable(e, py)
    ensures TokensOf(e) != [] && TokensOf(e)[0] != ")" && TokensOf(e)[0] != "."
    ensures TokensOf(e)[0] == "(" ==> e.Pair? || e.RefPair?
  {
    hide ParseAtom;
    if !e.Pair? && !e.RefPair? && !e.Str? && e != Sym("'") {
      AtomsAreWords(e, py);
      assert WordChar(Text(e)[0]);
    }
  }

  lemma {:induction false} AtomParses(e: Sexp, py: Python)
    requires Printable(e, py) && !e.Pair? && !e.RefPair?
    ensures ParseAtom(Text(e), py) == Ok(e)
  {
    if e.Str? {
      assert ("\"" + e.text + "\"")[1..|e.text| + 1] == e.text;
    } else if e == Sym("'") {
      assert ParseInt("'", py) == None;
    } else {
      AtomsAreWords(e, py);
    }
  }

  lemma {:induction false} ParseAtomToken(e: Sexp, post: seq<string>, py: Python)
    requires Printable(e, py) && !e.Pair? && !e.RefPair?
    ensures Parse([Text(e)] + post, py) == Ok((e, post))
  {
    hide ParseAtom, Text, Printable;
    FirstOfAtom(e, py);
    AtomParses(e, py);
    assert ([Text(e)] + post)[1..] == post;
  }

  lemma {:induction false} FirstOfAtom(e: Sexp, py: Python)
    requires Printable(e, py) && !e.Pair? && !e.RefPair?
    ensures Text(e) != "(" && Text(e) != ")" && Text(e) != "."
  {
    FirstToken(e, py);
  }

  /** Parsing the tokens of an expr gives it back and leaves the rest. */
  lemma {:induction false} TokensParse(e: Sexp, post: seq<string>, py: Python)
    requires Printable(e, py)
    ensures Parse(TokensOf(e) + post, py) == Ok((e, post))
    decreases e, 1
  {
    hide ParseAtom, Text;
    if e.Pair? {
      var tokens := TokensOf(e) + post;
      assert tokens[1..] == ItemTokens(e) + ([")"] + post);
      ItemsParse(e, [], post, py);
    } else if e.RefPair? {
      RefPairParses(e, post, py);
    } else {
      ParseAtomToken(e, post, py);
    }
  }

  lemma {:induction false} RefPairParses(e: Sexp, post: seq<string>, py: Python)
    requires e.RefPair? && Printable(e, py)
    ensures Parse(TokensOf(e) + post, py) == Ok((e, post))
  {
    hide ParseAtom;
    var (x, y) := (Ref(e.headHash), Ref(e.tailHash));
    var tokens := TokensOf(e) + post;
    var after := [".", Text(y), ")"] + post;
    assert tokens == ["("] + ([Text(x)] + after) && tokens[1..] == [Text(x)] + after;
    ParseAtomToken(x, after, py);
    ParseAtomToken(y, [")"] + post, py);
    assert after[1..] == [Text(y)] + ([")"] + post);
    assert ([")"] + post)[1..] == post;
    FirstOfAtom(x, py);
    ItemStep([Text(x)] + after, [], x, after, py);
    assert [] + [x] == [x];
  }

  /** The one link that the parser makes of a dotted pair of hash links. */
  function Merged(e: Sexp): Sexp
    requires e.Pair? && HashLink(e.head) && HashLink(e.tail)
  {
    RefPair(HeadHash(e.head), HeadHash(e.tail))
  }

  lemma {:induction false} ItemStep(tokens: seq<string>, items: seq<Sexp>, item: Sexp, rest: seq<string>, py: Python)
    requires Parse(tokens, py) == Ok((item, rest)) && tokens != [] && tokens[0] != ")" && tokens[0] != "."
    ensures ParseItems(tokens, items, py) == ParseItems(rest, items + [item], py)
  {
  }

  lemma {:induction false} ItemsParse(e: Sexp, items: seq<Sexp>, post: seq<string>, py: Python)
    requires e.Pair? && ItemsPrintable(e, py)
    ensures ParseItems(ItemTokens(e) + ([")"] + post), items, py)
         == Ok((if items == [] && HashLink(e.head) && HashLink(e.tail) then Merged(e) else Chain(items, e), post))
    decreases e, 0
  {
    hide ParseAtom, Text, TokensOf, Parse;
    var close := [")"] + post;
    assert close[1..] == post;
    var all := items + [e.head];
    ChainAppend(items, e.head, e.tail);
    FirstToken(e.head, py);
    if e.tail.Nil? {
      assert ItemTokens(e) + close == TokensOf(e.head) + close;
      TokensParse(e.head, close, py);
      ItemStep(ItemTokens(e) + close, items, e.head, close, py);
    } else if Continues(e.tail) {
      assert ItemTokens(e) + close == TokensOf(e.head) + (ItemTokens(e.tail) + close);
      TokensParse(e.head, ItemTokens(e.tail) + close, py);
      ItemStep(ItemTokens(e) + close, items, e.head, ItemTokens(e.tail) + close, py);
      ItemsParse(e.tail, all, post, py);
    } else {
      var rest := ["."] + (TokensOf(e.tail) + close);
      assert ItemTokens(e) + close == TokensOf(e.head) + rest;
      TokensParse(e.head, rest, py);
      ItemStep(ItemTokens(e) + close, items, e.head, rest, py);
      assert rest[1..] == TokensOf(e.tail) + close;
      TokensParse(e.tail, close, py);
      assert DottedChain(all, e.tail)
          == if items == [] && HashLink(e.head) && HashLink(e.tail) then Merged(e) else Chain(all, e.tail);
    }
  }

  /** The round trip: parsing what is printed gives the expr back, with no token left. */
  lemma {:induction false} ParseUndoesPrint(e: Sexp, py: Python)
    requires Printable(e, py)
    ensures Parse(Scan(Text(e), ""), py) == Ok((e, []))
  {
    hide Scan, Parse, Text, TokensOf, Printable;
    TextScans(e, "", py);
    assert Text(e) + "" == Text(e);
    ScanNothing("");
    TokensParse(e, [], py);
    assert TokensOf(e) + [] == TokensOf(e);
  }

  /**
   * A pair of printable parts is read back if and only if its parts are not both known by hash;
   * such a pair becomes one link, with the first hash of each part.
   */
  lemma {:induction false} PairReadsBackIff(e: Sexp, py: Python)
    requires e.Pair? && ItemsPrintable(e, py)
    ensures Parse(Scan(Text(e), ""), py) == Ok((e, [])) <==> !(HashLink(e.head) && HashLink(e.tail))
    ensures HashLink(e.head) && HashLink(e.tail) ==> Parse(Scan(Text(e), ""), py) == Ok((Merged(e), []))
  {
    hide Scan, ItemsPrintable, ParseItems, ItemTokens, ItemsText;
    var inside := ItemsText(e);
    assert Text(e) == "(" + (inside + ")");
    OtherTokens(inside + ")");
    ItemsScan(e, ")", py);
    OtherTokens("");
    assert ")" + "" == ")" && inside + ")" + "" == inside + ")";
    ScanNothing("");
    assert Scan(Text(e), "") == ["("] + (ItemTokens(e) + ([")"] + []));
    ItemsParse(e, [], [], py);
    assert (["("] + (ItemTokens(e) + ([")"] + [])))[1..] == ItemTokens(e) + ([")"] + []);
  }

  /** A symbol that is a decimal digit of another script is not printable: `int` reads it as a number. */
  lemma {:induction false} DigitSymbolReadsAsInt(c: char, py: Python)
    requires c as int >= 128 && !IsSpace(c) && py.digit(c).Some?
    ensures Parse(Scan(Text(Sym([c])), ""), py) == Ok((Int(py.digit(c).value), []))
    ensures !Printable(Sym([c]), py)
  {
    hide Scan;
    assert WordChar([c][0]);
    WordIsToken([c], "");
    assert [c] + "" == [c];
    ScanNothing("");
    assert [[c]] + [] == [[c]];
    assert [c][..0] == "";
    assert DigitsValue([c], py) == py.digit(c);
  }

  /** Why a pair of two bare hash pointers is left out: a link known by both hashes prints the same. */
  lemma {:induction false} HashPairIsAmbiguous(a: Bytes, b: Bytes)
    ensures Text(Pair(Ref(a), Ref(b))) == Text(RefPair(a, b)) && Pair(Ref(a), Ref(b)) != RefPair(a, b)
  {
    hide HexText;
    assert Text(Ref(a)) == "#" + HexText(a) && Text(Ref(b)) == "#" + HexText(b);
    var e := Pair(Ref(a), Ref(b));
    assert ItemsText(e) == Text(Ref(a)) + (" . " + Text(Ref(b)));
  }

  // ------------------------------------------------------------ the written forms

  /** What is printable: every atom but floats, with no quote in a string and 32 bytes in a hash, and what is made of such. */
  lemma {:induction false} PrintableParts(v: int, text: string, value: Bytes, other: Bytes, head: Sexp, tail: Sexp, py: Python)
    ensures Printable(Nil, py) && Printable(Int(v), py) && Printable(Raw(value), py) && Printable(Sym("'"), py)
    ensures Printable(Str(text), py) <==> '"' !in text
    ensures Printable(Ref(value), py) <==> |value| == 32
    ensures Printable(RefPair(value, other), py) <==> |value| == 32 && |other| == 32
    ensures Printable(head, py) && Printable(tail, py) && !(HashLink(head) && HashLink(tail)) ==> Printable(Pair(head, tail), py)
  {
    hide PlainSymbol;
    assert PlainSymbol("'", py) by { QuoteIsPlain(py); }
  }

  lemma {:induction false} QuoteIsPlain(py: Python)
    ensures PlainSymbol("'", py)
  {
  }

  /** Two lower-case hex digits for each byte, the high one first. */
  lemma {:induction false} HexForm(b: Bytes, i: nat)
    requires i < |b|
    ensures |HexText(b)| == 2 * |b|
    ensures HexText(b)[2 * i] == "0123456789abcdef"[b[i] / 16] && HexText(b)[2 * i + 1] == "0123456789abcdef"[b[i] % 16]
  {
    HexRoundTrip(b);
    if i > 0 {
      HexForm(b[1..], i - 1);
      assert HexText(b)[2..] == HexText(b[1..]);
    }
  }

  /** Hex is read exactly from an even number of hex digits of either case. */
  lemma {:induction false} FromHexIff(s: string)
    ensures FromHex(s).Some? <==>
              |s| % 2 == 0 && forall k :: 0 <= k < |s| ==> '0' <= s[k] <= '9' || 'a' <= s[k] <= 'f' || 'A' <= s[k] <= 'F'
  {
    if |s| >= 2 {
      FromHexIff(s[2..]);
      forall k | 2 <= k < |s|
        ensures s[k] == s[2..][k - 2]
      {
      }
    }
  }

  /** An integer is written as plain digits, with a minus if negative and no zero in front. */
  lemma {:induction false} IntForm(v: int)
    ensures var (s, skip) := (IntText(v), if v < 0 then 1 else 0);
      && |s| > skip && (v < 0 ==> s[0] == '-')
      && (forall k :: skip <= k < |s| ==> '0' <= s[k] <= '9')
      && (v != 0 ==> s[skip] != '0') && (v == 0 ==> s == "0")
  {
    var n: nat := if v < 0 then -v else v;
    DigitsRoundTrip(n, Python(s => false, c => None));
    NoLeadingZero(n);
    if v < 0 {
      var s := IntText(v);
      assert forall k :: 1 <= k < |s| ==> s[k] == DigitsText(n)[k - 1];
    }
  }

  lemma {:induction false} NoLeadingZero(n: nat)
    ensures n > 0 ==> DigitsText(n)[0] != '0'
    ensures n == 0 ==> DigitsText(n) == "0"
  {
    if n >= 10 {
      NoLeadingZero(n / 10);
    }
  }

  /** The texts of atoms, lists and dotted pairs; a tail that ends in a type symbol keeps its own parentheses. */
  lemma {:induction false} WrittenForms(a: string, b: string, c: string, value: Bytes)
    ensures Text(Nil) == "nil" && Text(Sym(a)) == a && Text(Str(a)) == "\"" + a + "\""
    ensures Text(Raw(value)) == "0x" + HexText(value) && Text(Ref(value)) == "#" + HexText(value)
    ensures Text(Pair(Sym(a), Nil)) == "(" + a + ")"
    ensures Text(Pair(Sym(a), Sym(b))) == "(" + a + " . " + b + ")"
    ensures Text(Pair(Sym(a), Pair(Sym(b), Nil))) == "(" + a + " " + b + ")"
    ensures Text(Pair(Sym(a), Pair(Sym(b), Sym(c)))) ==
              if c in {"int", "str", "e4m3", "e5m2", "fp16", "bf16", "fp32", "fp64"} then "(" + a + " . (" + b + " . " + c + "))"
              else "(" + a + " " + b + " . " + c + ")"
  {
    var (x, y, z) := (Sym(a), Sym(b), Sym(c));
    assert Text(x) == a && Text(y) == b && Text(z) == c;
    var last := Pair(y, z);
    TextOfPair(last);
    ItemsHere(last);
    ItemsHere(Pair(y, Nil));
    ItemsHere(Pair(x, Nil));
    ItemsHere(Pair(x, y));
    ItemsHere(Pair(x, Pair(y, Nil)));
    ItemsHere(Pair(x, last));
    TextOfPair(Pair(x, Nil));
    TextOfPair(Pair(x, y));
    TextOfPair(Pair(x, Pair(y, Nil)));
    TextOfPair(Pair(x, last));
    assert "(" + (a + " . " + ("(" + (b + " . " + c) + ")")) + ")" == "(" + a + " . (" + b + " . " + c + "))";
    assert "(" + (a + " " + (b + " . " + c)) + ")" == "(" + a + " " + b + " . " + c + ")";
    assert "(" + (a + " . " + b) + ")" == "(" + a + " . " + b + ")";
    assert "(" + (a + " " + b) + ")" == "(" + a + " " + b + ")";
  }

  lemma {:induction false} LineScans(text: string, post: string)
    requires '\n' !in text
    ensures LineLength(text + "\n" + post) == |text|
  {
    if text != "" {
      LineScans(text[1..], post);
      assert (text + "\n" + post)[1..] == text[1..] + "\n" + post;
    }
  }

  /** A comment reaches to the end of its line and ends a token. */
  lemma {:induction false} CommentIsSkipped(text: string, post: string, cur: string)
    requires '\n' !in text
    ensures Scan(";" + text + "\n" + post, cur) == Flushed(cur) + Scan(post, "")
  {
    hide Scan;
    var s := ";" + text + "\n" + post;
    ScanHere(s, cur);
    assert s[1..] == text + "\n" + post;
    LineScans(text, post);
    assert s[1 + |text|..] == "\n" + post;
    ScanHere("\n" + post, "");
    assert ("\n" + post)[1..] == post;
    assert [] + Scan(post, "") == Scan(post, "");
  }

  lemma {:induction false} WordLengthOf(w: string, post: string)
    requires (w == "" || Word(w)) && Boundary(post)
    ensures WordLength(w + post) == |w|
  {
    hide IsSpace;
    assert IsSpace(' ') by { SpaceIsSpace(); }
    if w == "" {
      assert w + post == post;
    } else {
      assert WordChar(w[0]) && (|w| > 1 ==> WordChar(w[1]));
      assert (w + post)[1..] == w[1..] + post;
      forall k | 0 <= k < |w| - 1
        ensures WordChar(w[1..][k])
      {
        assert w[1..][k] == w[k + 1];
      }
      WordLengthOf(w[1..], post);
    }
  }

  lemma {:induction false} SpaceIsSpace()
    ensures IsSpace(' ') && IsSpace('\t') && IsSpace('\n') && IsSpace('\r')
  {
  }

  lemma {:induction false} WordStarts(w: string, post: string)
    requires Word(w) && Boundary(post)
    ensures Shorthand("'" + w + post) && w[0] != '('
  {
    hide IsSpace;
    SpaceIsSpace();
    var s := "'" + w + post;
    assert WordChar(w[0]) && s[1] == w[0];
    if |w| > 1 {
      assert WordChar(w[1]) && s[2] == w[1];
    } else if |s| > 2 {
      assert s[2] == post[0];
    }
  }

  /** A quoted word is a list of the quote and the word. */
  lemma {:induction false} QuotedWord(w: string, post: string)
    requires Word(w) && Boundary(post)
    ensures Scan("'" + w + post, "") == ["(", "'", w, ")"] + Scan(post, "")
  {
    hide Scan, Shorthand, WordLength, Word, Boundary, Flushed;
    var s := "'" + w + post;
    WordStarts(w, post);
    WordLengthOf(w, post);
    ScanHere(s, "");
    WordNotEmpty(w);
    QuoteParts(w, post);
    NothingFlushed();
    assert [] + ["(", "'"] + [w] + [")"] == ["(", "'", w, ")"];
  }

  lemma {:induction false} NothingFlushed()
    ensures Flushed("") == []
  {
  }

  lemma {:induction false} QuoteParts(w: string, post: string)
    requires w != ""
    ensures var s := "'" + w + post;
      |s| > 1 && s[0] == '\'' && s[1..] == w + post && s[1] == w[0] && s[1..1 + |w|] == w && s[1 + |w|..] == post
  {
  }

  lemma {:induction false} WordNotEmpty(w: string)
    requires Word(w)
    ensures w != ""
  {
  }

  lemma {:induction false} ListLengthOfWord(w: string, post: string, depth: nat)
    requires (w == "" || Word(w)) && depth > 0
    ensures ListLength(w + post, depth) == |w| + ListLength(post, depth)
    decreases |w|
  {
    hide ListLength, IsSpace;
    if w == "" {
      assert w + post == post;
    } else {
      assert WordChar(w[0]);
      ListLengthHere(w + post, depth);
      assert (w + post)[1..] == w[1..] + post;
      forall k | 0 <= k < |w| - 1
        ensures WordChar(w[1..][k])
      {
        assert w[1..][k] == w[k + 1];
      }
      ListLengthOfWord(w[1..], post, depth);
    }
  }

  /** A quoted list of two words is a list of the quote and that list. */
  lemma {:induction false} QuotedList(a: string, b: string, post: string)
    requires Word(a) && Word(b)
    ensures Scan("'(" + a + " " + b + ")" + post, "") == ["(", "'", "(", a, b, ")", ")"] + Scan(post, "")
  {
    hide Scan, ListLength, Word, Shorthand;
    var list := "(" + (a + (" " + (b + ")")));
    var s := "'" + list + post;
    assert s == "'(" + a + " " + b + ")" + post;
    assert Shorthand(s) by { ListStarts(s); }
    ScanHere(s, "");
    assert s[1..] == list + post;
    TwoWordList(a, b, post);
    assert s[1..1 + |list|] == list && s[1 + |list|..] == post;
    OtherTokens(a + (" " + (b + ")")));
    WordIsToken(a, " " + (b + ")"));
    OtherTokens(b + ")");
    WordIsToken(b, ")");
    OtherTokens("");
    assert ")" + "" == ")";
    ScanNothing("");
    assert Scan(list, "") == ["(", a, b, ")"];
  }

  lemma {:induction false} ListStarts(s: string)
    requires |s| > 1 && s[1] == '('
    ensures Shorthand(s)
  {
  }

  lemma {:induction false} TwoWordList(a: string, b: string, post: string)
    requires Word(a) && Word(b)
    ensures var list := "(" + (a + (" " + (b + ")"))); ListLength(list + post, 0) == |list|
  {
    hide ListLength, Word;
    var last := ")" + post;
    var middle := " " + (b + last);
    var s := "(" + (a + middle);
    assert "(" + (a + (" " + (b + ")"))) + post == s;
    ListLengthHere(s, 0);
    assert s[1..] == a + middle;
    ListLengthOfWord(a, middle, 1);
    ListLengthHere(middle, 1);
    assert middle[1..] == b + last;
    ListLengthOfWord(b, last, 1);
    ListLengthHere(last, 1);
  }

  /** Tokens that begin like a hash or like bytes are refused exactly when they are malformed. */
  lemma {:induction false} HashAndBytesIff(tok: string, py: Python)
    requires tok != "" && tok != "nil"
    ensures tok[0] == '#' ==> (ParseAtom(tok, py).Ok? <==> |tok| == 65 && FromHex(tok[1..]).Some?)
    ensures tok[0] == '#' && ParseAtom(tok, py).Ok? ==> ParseAtom(tok, py).value == Ref(FromHex(tok[1..]).value)
    ensures |tok| >= 2 && tok[0] == '0' && tok[1] in {'x', 'X'} ==> (ParseAtom(tok, py).Ok? <==> FromHex(tok[2..]).Some?)
    ensures |tok| >= 2 && tok[0] == '0' && tok[1] in {'x', 'X'} && ParseAtom(tok, py).Ok? ==>
              ParseAtom(tok, py).value == Raw(FromHex(tok[2..]).value)
    ensures tok[0] != '#' && !(|tok| >= 2 && tok[0] == '0' && tok[1] in {'x', 'X'}) ==> ParseAtom(tok, py).Ok?
  {
    hide FromHex, ParseInt;
  }

  /** Brackets that are not balanced, a dot without a part before it or with two after it, and `()`. */
  lemma {:induction false} OddLists(a: string, b: string, c: string, py: Python)
    requires Printable(Sym(a), py) && Printable(Sym(b), py) && Printable(Sym(c), py)
    ensures Parse(["(", ")"], py) == Ok((Pair(Sym("'"), Nil), []))
    ensures Parse([], py).Err? && Parse([")"], py).Err? && Parse(["(", a], py).Err?
    ensures Parse(["(", ".", a, ")"], py).Err? && Parse(["(", a, ".", b, c, ")"], py).Err?
  {
    hide ParseAtom, Printable;
    assert Text(Sym(a)) == a && Text(Sym(b)) == b && Text(Sym(c)) == c;
    FirstOfAtom(Sym(a), py);
    ParseAtomToken(Sym(a), [], py);
    ParseAtomToken(Sym(a), [".", b, c, ")"], py);
    ParseAtomToken(Sym(b), [c, ")"], py);
    FirstOfAtom(Sym(c), py);
    ItemStep([a] + [], [], Sym(a), [], py);
    ItemStep([a] + [".", b, c, ")"], [], Sym(a), [".", b, c, ")"], py);
    assert ["(", a][1..] == [a] + [] && ["(", ")"][1..] == [")"] && ["(", ".", a, ")"][1..] == [".", a, ")"];
    assert ["(", a, ".", b, c, ")"][1..] == [a] + [".", b, c, ")"];
    assert [".", b, c, ")"][1..] == [b] + [c, ")"];
    assert [")"][1..] == [];
  }
}
