/** JSON texts by the grammar of RFC 8259, as trees that spell themselves out. */
module JsonText {
  import opened Bytes
  import opened Json
  import Numbers = NumberSyntax
  import Utf8

  // ---- characters ----

  /** Section 2: space, horizontal tab, line feed and carriage return. */
  predicate IsWhite(c: byte) {
    c == 0x20 || c == 0x09 || c == 0x0A || c == 0x0D
  }

  function Ascii(t: string): (r: Text)
    requires forall i :: 0 <= i < |t| ==> (t[i] as int) < 0x80
    ensures |r| == |t|
  {
    seq(|t|, i requires 0 <= i < |t| => t[i] as int)
  }

  /** Sections 2, 3 and 6: the structural characters, the literals and the characters of numbers. */
  lemma Vocabulary(c: byte)
    ensures [LBRACKET, LBRACE, RBRACKET, RBRACE, COLON, COMMA] == Ascii("[{]}:,")
    ensures [QUOTE, BACKSLASH, PLUS, MINUS, DOT, ZERO] == Ascii("\"\\+-.0")
    ensures NULL_TEXT == Ascii("null") && TRUE_TEXT == Ascii("true") && FALSE_TEXT == Ascii("false")
    ensures IsDigit(c) <==> c in Ascii("0123456789")
    ensures Numbers.IsExponentMark(c) <==> c in Ascii("eE")
  {
    var digits, marks := Ascii("0123456789"), Ascii("eE");
    assert digits == [0x30, 0x31, 0x32, 0x33, 0x34, 0x35, 0x36, 0x37, 0x38, 0x39] && marks == [0x65, 0x45];
  }

  // ---- gaps: white space, and comments where the flags admit them ----

  /** From `/*` up to the first `*/` behind it. */
  predicate BlockComment(t: Text) {
    && |t| >= 4 && t[0] == 0x2F && t[1] == 0x2A && t[|t| - 2] == 0x2A && t[|t| - 1] == 0x2F && NUL !in t
    && forall i :: 2 <= i < |t| - 2 ==> t[i] != 0x2A || t[i + 1] != 0x2F
  }

  /** From `//` on, on one line. */
  predicate OpenComment(t: Text) {
    |t| >= 2 && t[0] == 0x2F && t[1] == 0x2F && NUL !in t && 0x0A !in t
  }

  predicate LineComment(t: Text) {
    t != [] && t[|t| - 1] == 0x0A && OpenComment(t[..|t| - 1])
  }

  predicate Comment(t: Text) {
    BlockComment(t) || LineComment(t)
  }

  predicate Gap(fl: Flags, w: Text)
    decreases |w|
  {
    || w == []
    || (IsWhite(w[0]) && Gap(fl, w[1..]))
    || (fl.comments && exists n | 2 < n <= |w| :: Comment(w[..n]) && Gap(fl, w[n..]))
  }

  /** At the end of a text the last comment needs no line break. */
  predicate LastGap(fl: Flags, w: Text) {
    Gap(fl, w) || (fl.comments && exists n | 0 <= n <= |w| :: Gap(fl, w[..n]) && OpenComment(w[n..]))
  }

  /** The value of a hexadecimal digit of either case. */
  function HexDigitValue(c: byte): (v: Option<nat>)
    ensures v.Some? ==> v.value < 16
  {
    if 0x30 <= c <= 0x39 then Some(c - 0x30)
    else if c == 0x61 || c == 0x41 then Some(10)
    else if c == 0x62 || c == 0x42 then Some(11)
    else if c == 0x63 || c == 0x43 then Some(12)
    else if c == 0x64 || c == 0x44 then Some(13)
    else if c == 0x65 || c == 0x45 then Some(14)
    else if c == 0x66 || c == 0x46 then Some(15)
    else None
  }

  /** Section 7: the character a two-character escape stands for. */
  function EscapedBy(letter: byte): Option<byte> {
    if letter == 0x22 then Some(0x22)
    else if letter == 0x5C then Some(0x5C)
    else if letter == 0x2F then Some(0x2F)
    else if letter == 0x62 then Some(0x08)
    else if letter == 0x66 then Some(0x0C)
    else if letter == 0x6E then Some(0x0A)
    else if letter == 0x72 then Some(0x0D)
    else if letter == 0x74 then Some(0x09)
    else None
  }

  // ---- strings: section 7 ----

  /** A character of a string: as it stands, in a two-character escape, or in numeric escapes. */
  datatype Unit =
    | Plain(bytes: Text)
    | Short(letter: byte)
    | Hex(digits: Text)
    | Pair(high: Text, low: Text)

  predicate FourHex(t: Text) {
    |t| == 4 && forall i :: 0 <= i < 4 ==> HexDigitValue(t[i]).Some?
  }

  function HexNumber(t: Text): (v: nat)
    requires FourHex(t)
    ensures v < 0x10000
  {
    HexDigitValue(t[0]).value * 0x1000 + HexDigitValue(t[1]).value * 0x100
    + HexDigitValue(t[2]).value * 0x10 + HexDigitValue(t[3]).value
  }

  /** Quotation mark, reverse solidus and control characters must be escaped; what else stands for
      itself is a byte, or a UTF-8 sequence where the encoding is checked.  A high surrogate needs a low
      one behind it. */
  predicate UnitOk(validate: bool, u: Unit) {
    match u
    case Plain(b) =>
      && b != [] && b[0] >= 0x20 && b[0] != QUOTE && b[0] != BACKSLASH
      && (if validate then Utf8.WellFormed(b) else |b| == 1)
    case Short(letter) => EscapedBy(letter).Some?
    case Hex(d) => FourHex(d) && !(0xD800 <= HexNumber(d) <= 0xDBFF)
    case Pair(h, l) => FourHex(h) && FourHex(l) && 0xD800 <= HexNumber(h) <= 0xDBFF && 0xDC00 <= HexNumber(l) <= 0xDFFF
  }

  function UnitText(u: Unit): Text {
    match u
    case Plain(b) => b
    case Short(letter) => [BACKSLASH, letter]
    case Hex(d) => [BACKSLASH, 0x75] + d
    case Pair(h, l) => [BACKSLASH, 0x75] + h + ([BACKSLASH, 0x75] + l)
  }

  function UnitBytes(u: Unit): Text {
    match u
    case Plain(b) => b
    case Short(letter) => if EscapedBy(letter).Some? then [EscapedBy(letter).value] else []
    case Hex(d) => if FourHex(d) then Utf8.Encode(HexNumber(d)) else []
    case Pair(h, l) =>
      if FourHex(h) && FourHex(l) && 0xD800 <= HexNumber(h) <= 0xDBFF && 0xDC00 <= HexNumber(l) <= 0xDFFF then
        Utf8.Encode((HexNumber(h) - 0xD800) * 0x400 + (HexNumber(l) - 0xDC00) + 0x10000)
      else []
  }

  predicate UnitsOk(validate: bool, us: seq<Unit>) {
    us != [] ==> UnitOk(validate, us[0]) && UnitsOk(validate, us[1..])
  }

  function UnitsText(us: seq<Unit>): Text {
    if us == [] then [] else UnitText(us[0]) + UnitsText(us[1..])
  }

  function UnitsBytes(us: seq<Unit>): Text {
    if us == [] then [] else UnitBytes(us[0]) + UnitsBytes(us[1..])
  }

  function StringText(us: seq<Unit>): Text {
    [QUOTE] + UnitsText(us) + [QUOTE]
  }

  // ---- numbers: section 6 ----

  datatype Exponent = Exponent(mark: byte, sign: Text, digits: Text)

  datatype Numeral = Numeral(minus: bool, whole: Text, fraction: Option<Text>, exponent: Option<Exponent>)

  predicate NumeralOk(n: Numeral) {
    && n.whole != [] && Numbers.AllDigits(n.whole) && (n.whole[0] == ZERO ==> |n.whole| == 1)
    && (n.fraction.Some? ==> n.fraction.value != [] && Numbers.AllDigits(n.fraction.value))
    && (n.exponent.Some? ==>
          var x := n.exponent.value;
          && Numbers.IsExponentMark(x.mark) && (x.sign == [] || x.sign == [PLUS] || x.sign == [MINUS])
          && x.digits != [] && Numbers.AllDigits(x.digits))
  }

  function SignText(n: Numeral): Text {
    if n.minus then [MINUS] else []
  }

  function FractionText(n: Numeral): Text {
    if n.fraction.Some? then [DOT] + n.fraction.value else []
  }

  function ExponentText(n: Numeral): Text {
    if n.exponent.Some? then [n.exponent.value.mark] + n.exponent.value.sign + n.exponent.value.digits else []
  }

  function NumeralText(n: Numeral): Text {
    SignText(n) + n.whole + FractionText(n) + ExponentText(n)
  }

  predicate Fits(n: int, bits: nat, signed: bool)
    requires bits == 32 || bits == 64
  {
    if signed then
      if bits == 32 then -0x8000_0000 <= n <= 0x7FFF_FFFF
      else -0x8000_0000_0000_0000 <= n <= 0x7FFF_FFFF_FFFF_FFFF
    else
      if bits == 32 then 0 <= n <= 0xFFFF_FFFF else 0 <= n <= 0xFFFF_FFFF_FFFF_FFFF
  }

  /** The narrowest kind that holds an integer: a signed one behind a minus sign, and unsigned without. */
  function WholeEvent(minus: bool, v: nat): Option<Event> {
    var n: int := if minus then -(v as int) else v;
    if Fits(n, 32, minus) then Some(if minus then Int(n) else Uint(n))
    else if Fits(n, 64, minus) then Some(if minus then Int64(n) else Uint64(n))
    else None
  }

  /** An integer numeral is the narrowest kind that holds its value; every other is a double. */
  function NumeralEvent(n: Numeral): Event
    requires NumeralOk(n)
  {
    var whole := WholeEvent(n.minus, Numbers.Decimal(n.whole));
    if n.fraction.None? && n.exponent.None? && whole.Some? then whole.value else Double(NumeralText(n))
  }

  /** What the reader refuses as too big: a positive exponent beyond 308 and the counted fraction
      digits, and a double that overflows. */
  predicate InRange(fl: Flags, n: Numeral)
    requires NumeralOk(n)
  {
    var whole := WholeEvent(n.minus, Numbers.Decimal(n.whole));
    var lowered :=
      if n.fraction.None? || whole.None? then 0
      else Numbers.FractionDigits(Numbers.Decimal(n.whole), |n.whole| - 1, n.fraction.value);
    && (n.exponent.Some? && n.exponent.value.sign != [MINUS] && |n.exponent.value.digits| > 1 ==>
          Numbers.Decimal(n.exponent.value.digits) <= 308 + lowered)
    && (NumeralEvent(n).Double? ==> !fl.overflows(NumeralText(n)))
  }

  // ---- values: sections 2 to 5 ----

  datatype Tree =
    | NullTree
    | BoolTree(b: bool)
    | NumberTree(numeral: Numeral)
    | StringTree(units: seq<Unit>)
    | ArrayTree(gap: Text, items: seq<Item>, last: Text)
    | ObjectTree(gap: Text, fields: seq<Field>, last: Text)

  /** An element with the gaps around it. */
  datatype Item = Item(before: Text, tree: Tree, after: Text)

  /** A member with the gaps around its name, its colon and its value. */
  datatype Field =
    Field(before: Text, name: seq<Unit>, beforeColon: Text, afterColon: Text, tree: Tree, after: Text)

  /** Where the flags admit it, a comma and a gap behind the last element or member. */
  predicate Trailing(fl: Flags, last: Text) {
    last != [] ==> fl.trailingCommas && last[0] == COMMA && Gap(fl, last[1..])
  }

  /** The tree is a JSON text that the flags admit.  A gap stands in for no items. */
  predicate TreeOk(fl: Flags, t: Tree)
    decreases t, 1
  {
    match t
    case NumberTree(n) => NumeralOk(n) && InRange(fl, n)
    case StringTree(us) => UnitsOk(fl.validateEncoding, us)
    case ArrayTree(gap, items, last) =>
      Gap(fl, gap) && (if items == [] then last == [] else gap == []) && ItemsOk(fl, items) && Trailing(fl, last)
    case ObjectTree(gap, fields, last) =>
      Gap(fl, gap) && (if fields == [] then last == [] else gap == []) && FieldsOk(fl, fields) && Trailing(fl, last)
    case _ => true
  }

  predicate ItemsOk(fl: Flags, items: seq<Item>)
    decreases items, 0
  {
    items != [] ==>
      && Gap(fl, items[0].before) && TreeOk(fl, items[0].tree) && Gap(fl, items[0].after)
      && ItemsOk(fl, items[1..])
  }

  predicate FieldsOk(fl: Flags, fields: seq<Field>)
    decreases fields, 0
  {
    fields != [] ==>
      && var f := fields[0];
      && Gap(fl, f.before) && UnitsOk(fl.validateEncoding, f.name)
      && Gap(fl, f.beforeColon) && Gap(fl, f.afterColon) && TreeOk(fl, f.tree) && Gap(fl, f.after)
      && FieldsOk(fl, fields[1..])
  }

  /** The text of a tree. */
  function Spell(t: Tree): Text
    decreases t, 1
  {
    match t
    case NullTree => NULL_TEXT
    case BoolTree(b) => if b then TRUE_TEXT else FALSE_TEXT
    case NumberTree(n) => NumeralText(n)
    case StringTree(us) => StringText(us)
    case ArrayTree(gap, items, last) => [LBRACKET] + (gap + (SpellItems(items) + (last + [RBRACKET])))
    case ObjectTree(gap, fields, last) => [LBRACE] + (gap + (SpellFields(fields) + (last + [RBRACE])))
  }

  /** Items with a comma between each two. */
  function SpellItems(items: seq<Item>): Text
    decreases items, 0
  {
    if items == [] then []
    else
      var it := items[0];
      it.before + (Spell(it.tree) + (it.after + (if |items| == 1 then [] else [COMMA] + SpellItems(items[1..]))))
  }

  /** A name up to its value. */
  function SpellName(f: Field): Text {
    StringText(f.name) + (f.beforeColon + ([COLON] + f.afterColon))
  }

  function SpellFields(fields: seq<Field>): Text
    decreases fields, 0
  {
    if fields == [] then []
    else
      var f := fields[0];
      f.before + (SpellName(f)
          + (Spell(f.tree) + (f.after + (if |fields| == 1 then [] else [COMMA] + SpellFields(fields[1..])))))
  }

  /** The events of a tree. */
  function Send(t: Tree): seq<Event>
    decreases t, 1
  {
    match t
    case NullTree => [Null]
    case BoolTree(b) => [Bool(b)]
    case NumberTree(n) => if NumeralOk(n) then [NumeralEvent(n)] else []
    case StringTree(us) => [String(UnitsBytes(us))]
    case ArrayTree(_, items, _) => [StartArray] + SendItems(items) + [EndArray(|items|)]
    case ObjectTree(_, fields, _) => [StartObject] + SendFields(fields) + [EndObject(|fields|)]
  }

  function SendItems(items: seq<Item>): seq<Event>
    decreases items, 0
  {
    if items == [] then [] else Send(items[0].tree) + SendItems(items[1..])
  }

  function SendFields(fields: seq<Field>): seq<Event>
    decreases fields, 0
  {
    if fields == [] then []
    else [Key(UnitsBytes(fields[0].name))] + Send(fields[0].tree) + SendFields(fields[1..])
  }

  /** A JSON text: a value between gaps. */
  predicate IsText(fl: Flags, s: Text, before: Text, t: Tree, after: Text) {
    Gap(fl, before) && TreeOk(fl, t) && LastGap(fl, after) && s == before + (Spell(t) + after)
  }
}
