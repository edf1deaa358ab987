/** The vocabulary shared by readers, writers and documents: values, events, parse errors, flags. */
module Json {
  import opened Bytes

  /** The calls a reader makes on its handler, and a value on a writer. */
  datatype Event =
    | Null
    | Bool(b: bool)
    | Int(i: int)
    | Uint(u: int)
    | Int64(i64: int)
    | Uint64(u64: int)
    | Double(numeral: Text)
    | String(str: Text)
    | StartObject
    | Key(name: Text)
    | EndObject(memberCount: nat)
    | StartArray
    | EndArray(elementCount: nat)

  /** A document value.  A double is represented by the numeral it was read from. */
  datatype Value =
    | NullValue
    | BoolValue(b: bool)
    | NumberValue(n: int)
    | DoubleValue(numeral: Text)
    | StringValue(str: Text)
    | ArrayValue(elements: seq<Value>)
    | ObjectValue(members: seq<Member>)

  datatype Member = Member(name: Text, value: Value)

  const NULL_TEXT: Text := [0x6E, 0x75, 0x6C, 0x6C]
  const TRUE_TEXT: Text := [0x74, 0x72, 0x75, 0x65]
  const FALSE_TEXT: Text := [0x66, 0x61, 0x6C, 0x73, 0x65]

  datatype ErrorCode =
    | DocumentEmpty
    | DocumentRootNotSingular
    | ValueInvalid
    | ObjectMissName
    | ObjectMissColon
    | ObjectMissCommaOrCurlyBracket
    | ArrayMissCommaOrSquareBracket
    | StringUnicodeEscapeInvalidHex
    | StringUnicodeSurrogateInvalid
    | StringEscapeInvalid
    | StringMissQuotationMark
    | StringInvalidEncoding
    | NumberTooBig
    | NumberMissFraction
    | NumberMissExponent
    | UnspecificSyntaxError

  /** The parse flags, and what the reader asks of the conversion to `double`: whether the value of
      a numeral, scaled by its exponent, exceeds the largest finite one. */
  datatype Flags = Flags(
    validateEncoding: bool,
    stopWhenDone: bool,
    comments: bool,
    trailingCommas: bool,
    overflows: Text -> bool
  )

  const MIN_INT64: int := -0x8000_0000_0000_0000
  const MAX_UINT64: int := 0xFFFF_FFFF_FFFF_FFFF

  predicate FitsMachine(n: int) {
    MIN_INT64 <= n <= MAX_UINT64
  }

  /** No doubles anywhere, and integers that a machine word holds. */
  predicate Integral(v: Value)
    decreases v, 1
  {
    match v
    case NumberValue(n) => FitsMachine(n)
    case DoubleValue(_) => false
    case ArrayValue(es) => IntegralElements(es)
    case ObjectValue(ms) => IntegralMembers(ms)
    case _ => true
  }

  predicate IntegralElements(es: seq<Value>)
    decreases es, 0
  {
    es != [] ==> Integral(es[0]) && IntegralElements(es[1..])
  }

  predicate IntegralMembers(ms: seq<Member>)
    decreases ms, 0
  {
    ms != [] ==> Integral(ms[0].value) && IntegralMembers(ms[1..])
  }

  /** The number event `Accept` sends for a number value: the first of the four ranges that holds it. */
  function NumberEvent(n: int): Event {
    if -0x8000_0000 <= n <= 0x7FFF_FFFF then Int(n)
    else if 0 <= n <= 0xFFFF_FFFF then Uint(n)
    else if n <= 0x7FFF_FFFF_FFFF_FFFF then Int64(n)
    else Uint64(n)
  }
}
