/**
 * The wire form of one expression cell: `expression/encoding/encoder.py` and `decoder.py`.
 * A symbol is given by the UTF-8 bytes of its text; `ValidUtf8` is section 4 of RFC 3629,
 * which Python's strict decoder follows.
 */
module ExprCodec {
  import opened Common

  predicate Continuation(b: Byte) { 0x80 <= b <= 0xBF }

  /** The bytes of the first character, 0 where no character begins. */
  function CharWidth(b: Bytes): (n: nat)
    requires b != []
    ensures n <= |b|
  {
    if b[0] <= 0x7F then 1
    else if 0xC2 <= b[0] <= 0xDF && |b| >= 2 && Continuation(b[1]) then 2
    else if |b| >= 3 && ThreeByteLead(b[0], b[1]) && Continuation(b[2]) then 3
    else if |b| >= 4 && FourByteLead(b[0], b[1]) && Continuation(b[2]) && Continuation(b[3]) then 4
    else 0
  }

  /** No overlong form and no surrogate. */
  predicate ThreeByteLead(x: Byte, y: Byte)
  {
    0xE0 <= x <= 0xEF && Continuation(y) && (x == 0xE0 ==> y >= 0xA0) && (x == 0xED ==> y <= 0x9F)
  }

  /** No overlong form and nothing beyond U+10FFFF. */
  predicate FourByteLead(x: Byte, y: Byte)
  {
    0xF0 <= x <= 0xF4 && Continuation(y) && (x == 0xF0 ==> y >= 0x90) && (x == 0xF4 ==> y <= 0x8F)
  }

  predicate ValidUtf8(b: Bytes)
  {
    b == [] || (CharWidth(b) > 0 && ValidUtf8(b[CharWidth(b)..]))
  }

  lemma {:induction false} AsciiIsUtf8(b: Bytes)
    requires forall i :: 0 <= i < |b| ==> b[i] <= 0x7F
    ensures ValidUtf8(b)
  {
    if b != [] {
      AsciiIsUtf8(b[1..]);
    }
  }

  /** The characters that UTF-8 can encode: every code point but the surrogates. */
  predicate Scalar(c: nat) { c <= 0xD7FF || 0xE000 <= c <= 0x10FFFF }

  /** The table of section 3 of RFC 3629. */
  function Utf8Char(c: nat): (b: Bytes)
    requires Scalar(c)
    ensures 1 <= |b| <= 4
  {
    if c <= 0x7F then [c]
    else if c <= 0x7FF then [0xC0 + c / 64, 0x80 + c % 64]
    else if c <= 0xFFFF then [0xE0 + c / 4096, 0x80 + c / 64 % 64, 0x80 + c % 64]
    else [0xF0 + c / 262144, 0x80 + c / 4096 % 64, 0x80 + c / 64 % 64, 0x80 + c % 64]
  }

  predicate Scalars(text: seq<nat>) { forall i :: 0 <= i < |text| ==> Scalar(text[i]) }

  function Utf8(text: seq<nat>): Bytes
    requires Scalars(text)
  {
    if text == [] then [] else Utf8Char(text[0]) + Utf8(text[1..])
  }

  lemma {:induction false} WidthOfChar(c: nat)
    requires Scalar(c)
    ensures CharWidth(Utf8Char(c)) == |Utf8Char(c)|
  {
    if c <= 0x7FF {
    } else if c <= 0xFFFF {
      var (x, y) := (c / 4096, c / 64);
      assert x <= 15 && 64 * x <= y < 64 * x + 64;
    } else {
      var (x, y) := (c / 262144, c / 4096);
      assert x <= 4 && 64 * x <= y < 64 * x + 64;
    }
  }

  lemma {:induction false} WidthIsLocal(b: Bytes, rest: Bytes)
    requires b != [] && CharWidth(b) > 0
    ensures CharWidth(b + rest) == CharWidth(b)
  {
    assert (b + rest)[0] == b[0];
    assert |b| > 1 ==> (b + rest)[1] == b[1];
    assert |b| > 2 ==> (b + rest)[2] == b[2];
    assert |b| > 3 ==> (b + rest)[3] == b[3];
  }

  lemma {:induction false} CharIsRead(c: nat, rest: Bytes)
    requires Scalar(c)
    ensures var b := Utf8Char(c); CharWidth(b + rest) == |b|
  {
    hide CharWidth, Utf8Char;
    WidthOfChar(c);
    WidthIsLocal(Utf8Char(c), rest);
  }

  lemma {:induction false} TwoByteChar(x: int, y: int) returns (c: nat)
    requires 0xC2 <= x <= 0xDF && 0x80 <= y <= 0xBF
    ensures Scalar(c) && Utf8Char(c) == [x, y]
  {
    c := 64 * (x - 0xC0) + (y - 0x80);
    assert c / 64 == x - 0xC0 && c % 64 == y - 0x80;
  }

  lemma {:induction false} ThreeByteChar(x: int, y: int, z: int) returns (c: nat)
    requires 0xE0 <= x <= 0xEF && 0x80 <= y <= 0xBF && 0x80 <= z <= 0xBF
    requires (x == 0xE0 ==> y >= 0xA0) && (x == 0xED ==> y <= 0x9F)
    ensures Scalar(c) && Utf8Char(c) == [x, y, z]
  {
    c := 4096 * (x - 0xE0) + 64 * (y - 0x80) + (z - 0x80);
    assert c / 4096 == x - 0xE0 && c % 64 == z - 0x80;
    assert c / 64 == 64 * (x - 0xE0) + (y - 0x80);
  }

  lemma {:induction false} FourByteChar(w: int, x: int, y: int, z: int) returns (c: nat)
    requires 0xF0 <= w <= 0xF4 && 0x80 <= x <= 0xBF && 0x80 <= y <= 0xBF && 0x80 <= z <= 0xBF
    requires (w == 0xF0 ==> x >= 0x90) && (w == 0xF4 ==> x <= 0x8F)
    ensures Scalar(c) && Utf8Char(c) == [w, x, y, z]
  {
    c := 262144 * (w - 0xF0) + 4096 * (x - 0x80) + 64 * (y - 0x80) + (z - 0x80);
    assert c / 262144 == w - 0xF0 && c % 64 == z - 0x80;
    assert c / 4096 == 64 * (w - 0xF0) + (x - 0x80);
    assert c / 64 == 4096 * (w - 0xF0) + 64 * (x - 0x80) + (y - 0x80);
  }

  /** The character at the front of bytes that begin with one. */
  lemma {:induction false} ReadIsChar(b: Bytes) returns (c: nat)
    requires b != [] && CharWidth(b) > 0
    ensures Scalar(c) && b[..CharWidth(b)] == Utf8Char(c)
  {
    hide Utf8Char, Scalar;
    var n := CharWidth(b);
    if n == 1 {
      c := b[0];
      OneByteChar(c);
    } else if n == 2 {
      c := TwoByteChar(b[0], b[1]);
    } else if n == 3 {
      c := ThreeByteChar(b[0], b[1], b[2]);
    } else {
      c := FourByteChar(b[0], b[1], b[2], b[3]);
    }
  }

  lemma {:induction false} OneByteChar(c: nat)
    requires c <= 0x7F
    ensures Scalar(c) && Utf8Char(c) == [c]
  {
  }

  ghost predicate IsUtf8(b: Bytes, text: seq<nat>) { Scalars(text) && b == Utf8(text) }

  lemma {:induction false} TextIsValid(text: seq<nat>)
    requires Scalars(text)
    ensures ValidUtf8(Utf8(text))
  {
    hide CharWidth, Utf8Char;
    if text != [] {
      TextIsValid(text[1..]);
      CharIsRead(text[0], Utf8(text[1..]));
      var b := Utf8(text);
      assert b[|Utf8Char(text[0])|..] == Utf8(text[1..]);
    }
  }

  lemma {:induction false} ValidHasText(b: Bytes) returns (text: seq<nat>)
    requires ValidUtf8(b)
    ensures IsUtf8(b, text)
    decreases |b|
  {
    hide CharWidth, Utf8Char, Scalar;
    if b == [] {
      text := [];
    } else {
      var n := CharWidth(b);
      var c := ReadIsChar(b);
      var more := ValidHasText(b[n..]);
      text := [c] + more;
      assert text[1..] == more && b == b[..n] + b[n..];
    }
  }

  /** The bytes accepted are exactly the UTF-8 encodings of sequences of characters. */
  lemma {:induction false} ValidIsUtf8(b: Bytes)
    ensures ValidUtf8(b) <==> exists text: seq<nat> :: IsUtf8(b, text)
  {
    hide ValidUtf8, Utf8, Scalars;
    if text: seq<nat> :| IsUtf8(b, text) {
      TextIsValid(text);
    }
    if ValidUtf8(b) {
      var text := ValidHasText(b);
      assert IsUtf8(b, text);
    }
  }

  /** The UTF-8 bytes of a Python string. */
  type Text = b: Bytes | ValidUtf8(b) witness []

  datatype Cell = LinkCell(head: Digest, tail: Digest) | SymbolCell(text: Text) | BytesCell(value: Bytes)

  function EncodeExpr(c: Cell): (b: Bytes)
    ensures |b| > 0
  {
    match c
    case LinkCell(head, tail) => [0] + head + tail
    case SymbolCell(text) => [1] + text
    case BytesCell(value) => [2] + value
  }

  function DecodeExpr(b: Bytes): Result<Cell>
  {
    if b == [] then Err("empty bytes")
    else if b[0] == 0 then
      if |b| < 65 then Err("link requires 65 bytes") else Ok(LinkCell(b[1..33], b[33..65]))
    else if b[0] == 1 then
      if ValidUtf8(b[1..]) then Ok(SymbolCell(b[1..])) else Err("invalid UTF-8")
    else if b[0] == 2 then Ok(BytesCell(b[1..]))
    else Err("unknown wire tag")
  }

  lemma {:induction false} DecodeEncodedExpr(c: Cell)
    ensures DecodeExpr(EncodeExpr(c)) == Ok(c)
  {
    if c.LinkCell? {
      assert EncodeExpr(c)[1..33] == c.head;
      assert EncodeExpr(c)[33..65] == c.tail;
    }
  }

  /** The wire form, byte by byte: a tag of 0, 1 or 2, then the two hashes of a link or the content. */
  lemma {:induction false} WireBytes(c: Cell)
    ensures c.LinkCell? ==>
              && |EncodeExpr(c)| == 65 && EncodeExpr(c)[0] == 0
              && forall i :: 0 <= i < 32 ==> EncodeExpr(c)[1 + i] == c.head[i] && EncodeExpr(c)[33 + i] == c.tail[i]
    ensures c.SymbolCell? ==> EncodeExpr(c)[0] == 1 && EncodeExpr(c)[1..] == c.text
    ensures c.BytesCell? ==> EncodeExpr(c)[0] == 2 && EncodeExpr(c)[1..] == c.value
  {
  }

  /** Decoding accepts exactly the encodings, and links with any bytes after them. */
  lemma {:induction false} DecodedIsEncoded(b: Bytes, c: Cell)
    ensures DecodeExpr(b) == Ok(c) <==> b == EncodeExpr(c) || (c.LinkCell? && |b| > 65 && b[..65] == EncodeExpr(c))
  {
    hide ValidUtf8;
    DecodeEncodedExpr(c);
    if c.LinkCell? && |b| >= 65 {
      assert b[..65] == [b[0]] + b[1..33] + b[33..65];
      assert EncodeExpr(c)[1..33] == c.head && EncodeExpr(c)[33..65] == c.tail;
      assert b[..65][1..33] == b[1..33] && b[..65][33..65] == b[33..65] && b[..65][0] == b[0];
      assert |b| == 65 ==> b[..65] == b;
    }
    if DecodeExpr(b) == Ok(c) && !c.LinkCell? {
      assert b == [b[0]] + b[1..];
    }
  }

  lemma {:induction false} EncodeExprInjective(c: Cell, d: Cell)
    requires EncodeExpr(c) == EncodeExpr(d)
    ensures c == d
  {
    DecodeEncodedExpr(c);
    DecodeEncodedExpr(d);
  }
}
