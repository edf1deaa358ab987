/**
 The recursive-descent reader as functions of the text: where each production ends, which events it
 sends, and which error it reports where.
 */
module Grammar {
  import opened Bytes
  import opened Json
  import Strings = StringSyntax
  import Numbers = NumberSyntax

  /** The outcome of a production.  `events` is everything sent since parsing began. */
  datatype Parsed =
    | Parsed(pos: nat, events: seq<Event>)
    | Failed(code: ErrorCode, offset: nat, events: seq<Event>)

  // ---- white space and comments ----

  function SkipSpaces(s: Text, p: nat): (q: nat)
    ensures p <= q && !IsSpace(Peek(s, q))
    ensures p <= |s| ==> q <= |s|
    decreases |s| - p
  {
    if IsSpace(Peek(s, p)) then SkipSpaces(s, p + 1) else p
  }

  datatype Skipped =
    | To(pos: nat)
    | Unterminated(offset: nat)

  /** Past the end of a block comment, from just after its opening. */
  function SkipBlock(s: Text, p: nat): (r: Skipped)
    requires p <= |s|
    ensures r.To? ==> p < r.pos <= |s|
    ensures r.Unterminated? ==> r.offset <= |s|
    decreases |s| - p
  {
    if Peek(s, p) == NUL then Unterminated(p)
    else if Peek(s, p) == STAR then
      if Peek(s, p + 1) == SLASH then To(p + 2) else SkipBlock(s, p + 1)
    else SkipBlock(s, p + 1)
  }

  /** Past the end of a line comment, from just after its opening. */
  function SkipLine(s: Text, p: nat): (q: nat)
    requires p <= |s|
    ensures p <= q <= |s|
    decreases |s| - p
  {
    if Peek(s, p) == NUL then p
    else if Peek(s, p) == LF then p + 1
    else SkipLine(s, p + 1)
  }

  function SkipComments(s: Text, p: nat): (r: Skipped)
    requires p <= |s|
    ensures r.To? ==> p <= r.pos <= |s|
    ensures r.Unterminated? ==> r.offset <= |s|
    decreases |s| - p
  {
    if Peek(s, p) != SLASH then To(p)
    else if Peek(s, p + 1) == STAR then
      match SkipBlock(s, p + 2)
      case Unterminated(q) => Unterminated(q)
      case To(q) => SkipComments(s, SkipSpaces(s, q))
    else if Peek(s, p + 1) == SLASH then
      SkipComments(s, SkipSpaces(s, SkipLine(s, p + 2)))
    else Unterminated(p + 1)
  }

  /** `SkipWhitespaceAndComments`. */
  function Skip(fl: Flags, s: Text, p: nat): (r: Skipped)
    requires p <= |s|
    ensures r.To? ==> p <= r.pos <= |s|
    ensures r.Unterminated? ==> r.offset <= |s|
  {
    var q := SkipSpaces(s, p);
    if fl.comments then SkipComments(s, q) else To(q)
  }

  // ---- scalar values ----

  /** How many characters of a literal stand at `p`. */
  function Matched(s: Text, p: nat, literal: Text): (n: nat)
    ensures n <= |literal|
    ensures forall i :: 0 <= i < n ==> Peek(s, p + i) == literal[i]
    ensures n < |literal| ==> Peek(s, p + n) != literal[n]
    decreases |literal|
  {
    if literal != [] && Peek(s, p) == literal[0] then 1 + Matched(s, p + 1, literal[1..]) else 0
  }

  function ParseLiteral(s: Text, p: nat, literal: Text, ev: Event, evs: seq<Event>): (r: Parsed)
    requires p <= |s| && literal != [] && forall i :: 0 <= i < |literal| ==> literal[i] != NUL
    ensures r.Parsed? ==> p < r.pos <= |s|
  {
    var n := Matched(s, p, literal);
    if n == |literal| then
      assert Peek(s, p + (n - 1)) == literal[n - 1];
      Parsed(p + n, evs + [ev])
    else Failed(ValueInvalid, p + n, evs)
  }

  function SendNumber(r: Numbers.Scanned, evs: seq<Event>): Parsed {
    match r
    case Number(ev, q) => Parsed(q, evs + [ev])
    case NotNumber(code, offset) => Failed(code, offset, evs)
  }

  function ParseNumber(fl: Flags, s: Text, p: nat, evs: seq<Event>): (r: Parsed)
    requires p <= |s|
    ensures r.Parsed? ==> p < r.pos <= |s|
  {
    SendNumber(Numbers.ParseNumber(fl, s, p), evs)
  }

  function ParseString(fl: Flags, s: Text, p: nat, isKey: bool, evs: seq<Event>): (r: Parsed)
    requires p < |s|
    ensures r.Parsed? ==> p < r.pos <= |s|
  {
    match Strings.ParseString(fl.validateEncoding, s, p)
    case Done(str, q) => Parsed(q, evs + [if isKey then Key(str) else String(str)])
    case Bad(code, offset) => Failed(code, offset, evs)
  }

  /** The values that `ParseValue` handles without calling itself. */
  function ParseScalar(fl: Flags, s: Text, p: nat, evs: seq<Event>): (r: Parsed)
    requires p <= |s|
    ensures r.Parsed? ==> p < r.pos <= |s|
  {
    var c := Peek(s, p);
    if c == NULL_TEXT[0] then ParseLiteral(s, p, NULL_TEXT, Null, evs)
    else if c == TRUE_TEXT[0] then ParseLiteral(s, p, TRUE_TEXT, Bool(true), evs)
    else if c == FALSE_TEXT[0] then ParseLiteral(s, p, FALSE_TEXT, Bool(false), evs)
    else if c == QUOTE then ParseString(fl, s, p, false, evs)
    else ParseNumber(fl, s, p, evs)
  }

  // ---- values ----

  function ParseValue(fl: Flags, s: Text, p: nat, evs: seq<Event>): (r: Parsed)
    requires p <= |s|
    ensures r.Parsed? ==> p < r.pos <= |s|
    decreases |s| - p, 2
  {
    if Peek(s, p) == LBRACE then ParseObject(fl, s, p, evs)
    else if Peek(s, p) == LBRACKET then ParseArray(fl, s, p, evs)
    else ParseScalar(fl, s, p, evs)
  }

  function ParseArray(fl: Flags, s: Text, p: nat, evs: seq<Event>): (r: Parsed)
    requires p < |s|
    ensures r.Parsed? ==> p < r.pos <= |s|
    decreases |s| - p, 1
  {
    var evs := evs + [StartArray];
    match Skip(fl, s, p + 1)
    case Unterminated(o) => Failed(UnspecificSyntaxError, o, evs)
    case To(q) =>
      if Peek(s, q) == RBRACKET then Parsed(q + 1, evs + [EndArray(0)])
      else ParseElements(fl, s, q, 0, evs)
  }

  /** The loop of `ParseArray` at an element, after `n` elements. */
  function ParseElements(fl: Flags, s: Text, p: nat, n: nat, evs: seq<Event>): (r: Parsed)
    requires p <= |s|
    ensures r.Parsed? ==> p < r.pos <= |s|
    decreases |s| - p, 3
  {
    match ParseValue(fl, s, p, evs)
    case Failed(code, o, evs) => Failed(code, o, evs)
    case Parsed(q, evs) =>
      match Skip(fl, s, q)
      case Unterminated(o) => Failed(UnspecificSyntaxError, o, evs)
      case To(q) =>
        if Peek(s, q) == COMMA then
          match Skip(fl, s, q + 1)
          case Unterminated(o) => Failed(UnspecificSyntaxError, o, evs)
          case To(q) =>
            if fl.trailingCommas && Peek(s, q) == RBRACKET then Parsed(q + 1, evs + [EndArray(n + 1)])
            else ParseElements(fl, s, q, n + 1, evs)
        else if Peek(s, q) == RBRACKET then Parsed(q + 1, evs + [EndArray(n + 1)])
        else Failed(ArrayMissCommaOrSquareBracket, q, evs)
  }

  function ParseObject(fl: Flags, s: Text, p: nat, evs: seq<Event>): (r: Parsed)
    requires p < |s|
    ensures r.Parsed? ==> p < r.pos <= |s|
    decreases |s| - p, 1
  {
    var evs := evs + [StartObject];
    match Skip(fl, s, p + 1)
    case Unterminated(o) => Failed(UnspecificSyntaxError, o, evs)
    case To(q) =>
      if Peek(s, q) == RBRACE then Parsed(q + 1, evs + [EndObject(0)])
      else ParseMembers(fl, s, q, 0, evs)
  }

  /** A name and the colon after it, up to the value. */
  function ParseName(fl: Flags, s: Text, p: nat, evs: seq<Event>): (r: Parsed)
    requires p <= |s|
    ensures r.Parsed? ==> p < r.pos <= |s|
  {
    if Peek(s, p) != QUOTE then Failed(ObjectMissName, p, evs)
    else
      match ParseString(fl, s, p, true, evs)
      case Failed(code, o, evs) => Failed(code, o, evs)
      case Parsed(q, evs) =>
        match Skip(fl, s, q)
        case Unterminated(o) => Failed(UnspecificSyntaxError, o, evs)
        case To(q) =>
          if Peek(s, q) != COLON then Failed(ObjectMissColon, q, evs)
          else
            match Skip(fl, s, q + 1)
            case Unterminated(o) => Failed(UnspecificSyntaxError, o, evs)
            case To(q) => Parsed(q, evs)
  }

  /** The loop of `ParseObject` at a member, after `n` members. */
  function ParseMembers(fl: Flags, s: Text, p: nat, n: nat, evs: seq<Event>): (r: Parsed)
    requires p <= |s|
    ensures r.Parsed? ==> p < r.pos <= |s|
    decreases |s| - p, 3
  {
    match ParseName(fl, s, p, evs)
    case Failed(code, o, evs) => Failed(code, o, evs)
    case Parsed(q, evs) =>
      match ParseValue(fl, s, q, evs)
      case Failed(code, o, evs) => Failed(code, o, evs)
      case Parsed(q, evs) =>
        match Skip(fl, s, q)
        case Unterminated(o) => Failed(UnspecificSyntaxError, o, evs)
        case To(q) =>
          if Peek(s, q) == COMMA then
            match Skip(fl, s, q + 1)
            case Unterminated(o) => Failed(UnspecificSyntaxError, o, evs)
            case To(q) =>
              if fl.trailingCommas && Peek(s, q) == RBRACE then Parsed(q + 1, evs + [EndObject(n + 1)])
              else ParseMembers(fl, s, q, n + 1, evs)
          else if Peek(s, q) == RBRACE then Parsed(q + 1, evs + [EndObject(n + 1)])
          else Failed(ObjectMissCommaOrCurlyBracket, q, evs)
  }

  // ---- documents ----

  /** `Parse`, by recursive descent. */
  function ParseDocument(fl: Flags, s: Text): Parsed {
    match Skip(fl, s, 0)
    case Unterminated(o) => Failed(UnspecificSyntaxError, o, [])
    case To(p) =>
      if Peek(s, p) == NUL then Failed(DocumentEmpty, p, [])
      else
        EndDocument(fl, s, ParseValue(fl, s, p, []))
  }

  /** After the root value nothing but white space and comments may follow, unless parsing stops here. */
  function EndDocument(fl: Flags, s: Text, r: Parsed): Parsed
    requires r.Parsed? ==> r.pos <= |s|
  {
    match r
    case Failed(_, _, _) => r
    case Parsed(q, evs) =>
      if fl.stopWhenDone then r
      else
        match Skip(fl, s, q)
        case Unterminated(o) => Failed(UnspecificSyntaxError, o, evs)
        case To(q) => if Peek(s, q) != NUL then Failed(DocumentRootNotSingular, q, evs) else Parsed(q, evs)
  }
}
