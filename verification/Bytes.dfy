/** Bytes, texts and the characters the JSON code names. */
module Bytes {

  type byte = x: int | 0 <= x < 256
  type Text = seq<byte>

  datatype Option<+T> = None | Some(value: T)

  /** Every text is followed by a terminating NUL, and reads as NUL from there on. */
  function Peek(s: Text, p: nat): (c: byte)
    ensures c != 0 ==> p < |s|
  {
    if p < |s| then s[p] else 0
  }

  const NUL: byte := 0x00
  const TAB: byte := 0x09
  const LF: byte := 0x0A
  const CR: byte := 0x0D
  const SPACE: byte := 0x20
  const QUOTE: byte := 0x22
  const HASH: byte := 0x23
  const PERCENT: byte := 0x25
  const STAR: byte := 0x2A
  const PLUS: byte := 0x2B
  const COMMA: byte := 0x2C
  const MINUS: byte := 0x2D
  const DOT: byte := 0x2E
  const SLASH: byte := 0x2F
  const ZERO: byte := 0x30
  const NINE: byte := 0x39
  const COLON: byte := 0x3A
  const LBRACKET: byte := 0x5B
  const BACKSLASH: byte := 0x5C
  const RBRACKET: byte := 0x5D
  const LBRACE: byte := 0x7B
  const RBRACE: byte := 0x7D
  const TILDE: byte := 0x7E

  predicate IsDigit(c: byte) {
    ZERO <= c <= NINE
  }

  predicate IsSpace(c: byte) {
    c == SPACE || c == LF || c == CR || c == TAB
  }

  /** Hexadecimal digits, upper case as every writer of the library prints them. */
  function HexDigit(d: nat): byte
    requires d < 16
  {
    if d < 10 then 0x30 + d else 0x41 + (d - 10)
  }

  predicate IsHex(c: byte) {
    IsDigit(c) || 0x41 <= c <= 0x46 || 0x61 <= c <= 0x66
  }

  function HexValue(c: byte): (v: nat)
    requires IsHex(c)
    ensures v < 16
  {
    if IsDigit(c) then c - 0x30 else if c <= 0x46 then c - 0x41 + 10 else c - 0x61 + 10
  }

  /** A piece of text stands at a position. */
  predicate At(s: Text, p: nat, t: Text) {
    p + |t| <= |s| && s[p..p + |t|] == t
  }

  lemma AtConcat(s: Text, p: nat, a: Text, b: Text)
    ensures At(s, p, a + b) <==> At(s, p, a) && At(s, p + |a|, b)
  {
    if p + |a| + |b| <= |s| {
      var l, r := s[p..p + |a|], s[p + |a|..p + |a| + |b|];
      assert s[p..p + |a + b|] == l + r;
      assert l == (l + r)[..|a|] && r == (l + r)[|a|..];
      assert a == (a + b)[..|a|] && b == (a + b)[|a|..];
    }
  }

  lemma AtPeek(s: Text, p: nat, t: Text, i: nat)
    requires At(s, p, t) && i < |t|
    ensures Peek(s, p + i) == t[i]
  {
    assert s[p + i] == s[p..p + |t|][i];
  }
}
