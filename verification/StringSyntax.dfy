/** What the string part of the reader accepts, and the bytes it yields. */
module StringSyntax {
  import opened Bytes
  import opened Json
  import Utf8

  datatype Decoded =
    | Done(str: Text, pos: nat)
    | Bad(code: ErrorCode, offset: nat)

  /** The byte a two-character escape stands for, or NUL when there is none. */
  function Unescape(e: byte): byte {
    if e == QUOTE || e == BACKSLASH || e == SLASH then e
    else if e == 0x62 then 0x08
    else if e == 0x66 then 0x0C
    else if e == 0x6E then LF
    else if e == 0x72 then CR
    else if e == 0x74 then TAB
    else NUL
  }

  /** The value of `n` hexadecimal digits. */
  function HexRun(s: Text, p: nat, n: nat): (r: Option<nat>)
    ensures r.Some? && n > 0 ==> p + n <= |s|
    ensures r.Some? && n <= 1 ==> r.value < 0x10
    ensures r.Some? && n == 2 ==> r.value < 0x100
    ensures r.Some? && n == 3 ==> r.value < 0x1000
    ensures r.Some? && n == 4 ==> r.value < 0x10000
  {
    if n == 0 then Some(0)
    else
      match HexRun(s, p, n - 1)
      case None => None
      case Some(v) => if IsHex(Peek(s, p + n - 1)) then Some(v * 16 + HexValue(Peek(s, p + n - 1))) else None
  }

  /** `ParseHex4`. */
  function Hex4(s: Text, p: nat): (r: Option<nat>)
    ensures r.Some? ==> p + 4 <= |s| && r.value < 0x10000
  {
    HexRun(s, p, 4)
  }

  datatype Escape =
    | Codepoint(cp: nat, next: nat)
    | BadEscape(code: ErrorCode)

  /** The Unicode escape whose backslash is at `p`, with its second half when it is a surrogate pair. */
  function UnicodeEscape(s: Text, p: nat): (r: Escape)
    ensures r.Codepoint? ==> r.cp <= 0x10FFFF && p + 6 <= r.next <= |s|
  {
    match Hex4(s, p + 2)
    case None => BadEscape(StringUnicodeEscapeInvalidHex)
    case Some(cp) =>
      if !(0xD800 <= cp <= 0xDBFF) then Codepoint(cp, p + 6)
      else if Peek(s, p + 6) != BACKSLASH || Peek(s, p + 7) != 0x75 then
        BadEscape(StringUnicodeSurrogateInvalid)
      else
        match Hex4(s, p + 8)
        case None => BadEscape(StringUnicodeEscapeInvalidHex)
        case Some(cp2) =>
          if cp2 < 0xDC00 || cp2 > 0xDFFF then BadEscape(StringUnicodeSurrogateInvalid)
          else Codepoint((cp - 0xD800) * 0x400 + (cp2 - 0xDC00) + 0x10000, p + 12)
  }

  /** What one turn of the string loop finds: bytes to put, the closing quotation mark, or an error. */
  datatype Turn =
    | Piece(bytes: Text, next: nat)
    | Closing
    | Wrong(code: ErrorCode)

  function TurnAt(validate: bool, s: Text, p: nat): (r: Turn)
    requires p <= |s|
    ensures r.Piece? ==> p < r.next <= |s|
    ensures r.Closing? ==> p < |s|
  {
    var c := Peek(s, p);
    if c == BACKSLASH then EscapeAt(s, p)
    else if c == QUOTE then Closing
    else if c == NUL then Wrong(StringMissQuotationMark)
    else if c < 0x20 then Wrong(StringInvalidEncoding)
    else if !validate then Piece([c], p + 1)
    else
      var t := Utf8.Validate(s, p);
      if t.ok then Piece(s[p..p + t.length], p + t.length) else Wrong(StringInvalidEncoding)
  }

  /** The escape whose backslash is at `p`. */
  function EscapeAt(s: Text, p: nat): (r: Turn)
    requires p < |s|
    ensures r.Piece? ==> p < r.next <= |s|
    ensures !r.Closing?
  {
    var e := Peek(s, p + 1);
    if Unescape(e) != NUL then Piece([Unescape(e)], p + 2)
    else if e == 0x75 then
      match UnicodeEscape(s, p)
      case BadEscape(code) => Wrong(code)
      case Codepoint(cp, next) => Piece(Utf8.Encode(cp), next)
    else Wrong(StringEscapeInvalid)
  }

  /** `ParseStringToStream` from inside a string: `out` is what has been put so far. */
  function Decode(validate: bool, s: Text, p: nat, out: Text): (r: Decoded)
    requires p <= |s|
    ensures r.Done? ==> p < r.pos <= |s|
    decreases |s| - p
  {
    match TurnAt(validate, s, p)
    case Closing => Done(out, p + 1)
    case Wrong(code) => Bad(code, p)
    case Piece(bytes, next) => Decode(validate, s, next, out + bytes)
  }

  /** The string whose opening quotation mark is at `p`. */
  function ParseString(validate: bool, s: Text, p: nat): (r: Decoded)
    requires p < |s|
    ensures r.Done? ==> p < r.pos <= |s|
  {
    Decode(validate, s, p + 1, [])
  }
}
