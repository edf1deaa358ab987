/**
 The writers as functions: the text each event adds to the sheet, and the text a whole value comes
 to, in the compact style of `Writer` and the indented styles of `PrettyWriter`.
 */
module WriterText {
  import opened Bytes
  import opened Json
  import opened Document
  import Utf8

  /** `Writer`, or `PrettyWriter` with its indentation and array format. */
  datatype Style =
    | Compact
    | Pretty(indentChar: byte, indentCount: nat, singleLineArrays: bool)

  /** The indentation characters `SetIndent` admits. */
  predicate Indents(style: Style) {
    style.Pretty? ==> IsSpace(style.indentChar)
  }

  /** The target encoding, ASCII or UTF-8, and whether strings are checked on the way out. */
  datatype Target = Target(ascii: bool, validate: bool)

  // ---- strings ----

  function Hex4Text(n: nat): (t: Text)
    requires n < 0x10000
    ensures |t| == 4
  {
    [HexDigit(n / 0x1000), HexDigit(n / 0x100 % 16), HexDigit(n / 16 % 16), HexDigit(n % 16)]
  }

  /** The letter of the two-character escape of a byte, `u` for a numeric one, or 0 for none. */
  function EscapeLetter(c: byte): byte {
    if c == 0x08 then 0x62
    else if c == TAB then 0x74
    else if c == LF then 0x6E
    else if c == 0x0C then 0x66
    else if c == CR then 0x72
    else if c < 0x20 then 0x75
    else if c == QUOTE || c == BACKSLASH then c
    else NUL
  }

  function EscapeText(c: byte): Text
    requires EscapeLetter(c) != NUL
  {
    if EscapeLetter(c) == 0x75 then [BACKSLASH, 0x75, ZERO, ZERO, HexDigit(c / 16), HexDigit(c % 16)]
    else [BACKSLASH, EscapeLetter(c)]
  }

  /** A code point in escapes, as a surrogate pair when it lies beyond the basic plane. */
  function UnicodeText(cp: nat): Text
    requires Utf8.Scalar(cp)
  {
    if cp <= 0xFFFF then [BACKSLASH, 0x75] + Hex4Text(cp)
    else
      var s := cp - 0x10000;
      [BACKSLASH, 0x75] + Hex4Text(s / 0x400 + 0xD800) + [BACKSLASH, 0x75] + Hex4Text(s % 0x400 + 0xDC00)
  }

  /** What one turn of the `WriteString` loop puts, and where it goes on. */
  datatype Printed = Printed(bytes: Text, next: nat)

  function PrintedAt(tg: Target, s: Text, p: nat): (r: Option<Printed>)
    requires p < |s|
    ensures r.Some? ==> p < r.value.next <= |s|
  {
    var c := s[p];
    if tg.ascii && c >= 0x80 then
      if Utf8.Decode(s, p).None? then None
      else
        var cp := Utf8.Decode(s, p).value;
        Utf8.EncodeDecode(s, p);
        Some(Printed(UnicodeText(cp), p + Utf8.Validate(s, p).length))
    else if EscapeLetter(c) != NUL then Some(Printed(EscapeText(c), p + 1))
    else if tg.validate then
      var t := Utf8.Validate(s, p);
      if t.ok then Some(Printed(s[p..p + t.length], p + t.length)) else None
    else Some(Printed([c], p + 1))
  }

  /** The characters of a string from `p`, escaped; nothing when an ill-formed sequence stops the writer. */
  function Escaped(tg: Target, s: Text, p: nat): (r: Option<Text>)
    requires p <= |s|
    decreases |s| - p
  {
    if p == |s| then Some([])
    else
      match PrintedAt(tg, s, p)
      case None => None
      case Some(piece) =>
        match Escaped(tg, s, piece.next)
        case None => None
        case Some(rest) => Some(piece.bytes + rest)
  }

  /** `WriteString`. */
  function Quoted(tg: Target, s: Text): Option<Text> {
    match Escaped(tg, s, 0)
    case None => None
    case Some(t) => Some([QUOTE] + t + [QUOTE])
  }

  // ---- numbers ----

  /** The shortest decimal of a number, as the integer printers give it. */
  function Digits(n: nat): (t: Text)
    ensures |t| > 0
  {
    if n < 10 then [ZERO + n] else Digits(n / 10) + [ZERO + n % 10]
  }

  function IntegerText(n: int): (t: Text)
    ensures |t| > 0
  {
    if n < 0 then [MINUS] + Digits(-n) else Digits(n)
  }

  // ---- punctuation ----

  datatype Level = Level(valueCount: nat, inArray: bool)

  function Indent(style: Style, depth: nat): (t: Text)
    requires style.Pretty?
  {
    seq(depth * style.indentCount, i => style.indentChar)
  }

  function NewLine(style: Style, depth: nat): Text
    requires style.Pretty?
  {
    [LF] + Indent(style, depth)
  }

  function Comma(count: nat): Text {
    if count > 0 then [COMMA] else []
  }

  /** The white space before an element, a name, a member's value and a closing bracket. */
  function ElementGap(style: Style, count: nat, depth: nat): Text {
    if style.Compact? then []
    else if style.singleLineArrays then (if count > 0 then [SPACE] else [])
    else NewLine(style, depth)
  }

  function NameGap(style: Style, depth: nat): Text {
    if style.Compact? then [] else NewLine(style, depth)
  }

  function ValueGap(style: Style): Text {
    if style.Compact? then [] else [SPACE]
  }

  function CloseGap(style: Style, level: Level, depth: nat): Text {
    if style.Compact? || level.valueCount == 0 || (level.inArray && style.singleLineArrays) then []
    else NewLine(style, depth)
  }

  /** `Prefix` and `PrettyPrefix`: what comes before the next value of a level. */
  function PrefixText(style: Style, level: Level, depth: nat): Text {
    if level.inArray then Comma(level.valueCount) + ElementGap(style, level.valueCount, depth)
    else if level.valueCount % 2 == 0 then Comma(level.valueCount) + NameGap(style, depth)
    else [COLON] + ValueGap(style)
  }

  // ---- events ----

  /** The output so far, the open levels, and whether a root has been begun. */
  datatype Sheet = Sheet(out: Text, levels: seq<Level>, hasRoot: bool)

  /** A root has been begun and everything is closed. */
  predicate Complete(st: Sheet) {
    st.hasRoot && st.levels == []
  }

  function Top(st: Sheet): Level
    requires st.levels != []
  {
    st.levels[|st.levels| - 1]
  }

  /** What the writers assert of their caller. */
  predicate Allowed(st: Sheet, ev: Event) {
    match ev
    case EndObject(_) => st.levels != [] && !Top(st).inArray && Top(st).valueCount % 2 == 0
    case EndArray(_) => st.levels != [] && Top(st).inArray
    case _ => if ev.String? || ev.Key? then ReadyForString(st) else ReadyForValue(st)
  }

  predicate ReadyForString(st: Sheet) {
    st.levels == [] ==> !st.hasRoot
  }

  predicate ReadyForValue(st: Sheet) {
    ReadyForString(st) && (st.levels != [] && !Top(st).inArray ==> Top(st).valueCount % 2 == 1)
  }

  /** After the prefix of a value. */
  function Entered(style: Style, st: Sheet): (r: Sheet)
    ensures |r.levels| == |st.levels|
  {
    if st.levels == [] then st.(hasRoot := true)
    else
      var top := Top(st);
      Sheet(
        st.out + PrefixText(style, top, |st.levels|),
        st.levels[|st.levels| - 1 := top.(valueCount := top.valueCount + 1)],
        st.hasRoot)
  }

  /** The text of an event that is a whole value or a name. */
  function ScalarText(tg: Target, ev: Event): Option<Text> {
    match ev
    case Null => Some(NULL_TEXT)
    case Bool(b) => Some(if b then TRUE_TEXT else FALSE_TEXT)
    case Int(n) => Some(IntegerText(n))
    case Uint(n) => Some(IntegerText(n))
    case Int64(n) => Some(IntegerText(n))
    case Uint64(n) => Some(IntegerText(n))
    case String(str) => Quoted(tg, str)
    case Key(name) => Quoted(tg, name)
    case _ => None
  }

  /** One handler call: no outcome when it is not allowed, or when it reports failure. */
  function Write(style: Style, tg: Target, st: Sheet, ev: Event): Option<Sheet> {
    if !Allowed(st, ev) then None
    else if ev.EndObject? || ev.EndArray? then
      var outer := st.levels[..|st.levels| - 1];
      Some(Sheet(
        st.out + CloseGap(style, Top(st), |outer|) + [if ev.EndObject? then RBRACE else RBRACKET],
        outer, st.hasRoot))
    else
      var e := Entered(style, st);
      if ev.StartObject? || ev.StartArray? then
        Some(Sheet(
          e.out + [if ev.StartObject? then LBRACE else LBRACKET],
          e.levels + [Level(0, ev.StartArray?)], e.hasRoot))
      else if ScalarText(tg, ev).None? then None
      else
        Some(e.(out := e.out + ScalarText(tg, ev).value))
  }

  /** A whole sequence of calls. */
  function WriteAll(style: Style, tg: Target, st: Sheet, evs: seq<Event>): Option<Sheet>
    decreases |evs|
  {
    if evs == [] then Some(st)
    else
      match Write(style, tg, st, evs[0])
      case None => None
      case Some(next) => WriteAll(style, tg, next, evs[1..])
  }

  // ---- the text of a value ----

  /** Every string of the value can be written. */
  predicate Printable(tg: Target, v: Value)
    decreases v, 1
  {
    match v
    case StringValue(str) => Quoted(tg, str).Some?
    case ArrayValue(es) => PrintableElements(tg, es)
    case ObjectValue(ms) => PrintableMembers(tg, ms)
    case _ => true
  }

  predicate PrintableElements(tg: Target, es: seq<Value>)
    decreases es, 0
  {
    es != [] ==> Printable(tg, es[0]) && PrintableElements(tg, es[1..])
  }

  predicate PrintableMembers(tg: Target, ms: seq<Member>)
    decreases ms, 0
  {
    ms != [] ==>
      && Quoted(tg, ms[0].name).Some? && Printable(tg, ms[0].value)
      && PrintableMembers(tg, ms[1..])
  }

  function QuotedText(tg: Target, s: Text): Text {
    match Quoted(tg, s)
    case None => []
    case Some(t) => t
  }

  /** The text of a value that has `depth` open levels around it. */
  function Print(style: Style, tg: Target, v: Value, depth: nat): Text
    decreases v, 1
  {
    match v
    case NullValue => NULL_TEXT
    case BoolValue(b) => if b then TRUE_TEXT else FALSE_TEXT
    case NumberValue(n) => IntegerText(n)
    case DoubleValue(_) => []
    case StringValue(str) => QuotedText(tg, str)
    case ArrayValue(es) =>
      [LBRACKET] + PrintElements(style, tg, es, 0, depth + 1)
      + CloseGap(style, Level(|es|, true), depth) + [RBRACKET]
    case ObjectValue(ms) =>
      [LBRACE] + PrintMembers(style, tg, ms, 0, depth + 1)
      + CloseGap(style, Level(2 * |ms|, false), depth) + [RBRACE]
  }

  /** Elements after the first `i` of their array. */
  function PrintElements(style: Style, tg: Target, es: seq<Value>, i: nat, depth: nat): Text
    decreases es, 0
  {
    if es == [] then []
    else
      PrefixText(style, Level(i, true), depth) + Print(style, tg, es[0], depth)
      + PrintElements(style, tg, es[1..], i + 1, depth)
  }

  /** Members after the first `i` of their object. */
  function PrintMembers(style: Style, tg: Target, ms: seq<Member>, i: nat, depth: nat): Text
    decreases ms, 0
  {
    if ms == [] then []
    else
      PrefixText(style, Level(2 * i, false), depth) + QuotedText(tg, ms[0].name)
      + PrefixText(style, Level(2 * i + 1, false), depth) + Print(style, tg, ms[0].value, depth)
      + PrintMembers(style, tg, ms[1..], i + 1, depth)
  }

  // ---- the events of a value write its text ----

  lemma {:induction false} WriteAllConcat(style: Style, tg: Target, st: Sheet, a: seq<Event>, b: seq<Event>)
    ensures WriteAll(style, tg, st, a).None? ==> WriteAll(style, tg, st, a + b).None?
    ensures WriteAll(style, tg, st, a).Some? ==>
      WriteAll(style, tg, st, a + b) == WriteAll(style, tg, WriteAll(style, tg, st, a).value, b)
    decreases |a|
  {
    hide Write;
    if a == [] {
      assert a + b == b;
    } else {
      assert (a + b)[0] == a[0] && (a + b)[1..] == a[1..] + b;
      var next := Write(style, tg, st, a[0]);
      if next.Some? {
        WriteAllConcat(style, tg, next.value, a[1..], b);
      }
    }
  }

  lemma WriteAllOne(style: Style, tg: Target, st: Sheet, ev: Event)
    ensures WriteAll(style, tg, st, [ev]) == Write(style, tg, st, ev)
  {
    hide Write;
    assert [ev][1..] == [];
    if Write(style, tg, st, ev).Some? {
      assert WriteAll(style, tg, Write(style, tg, st, ev).value, []) == Write(style, tg, st, ev);
    }
  }

  /** The sheet after a value. */
  function Written(style: Style, tg: Target, st: Sheet, v: Value): Sheet {
    var e := Entered(style, st);
    e.(out := e.out + Print(style, tg, v, |st.levels|))
  }

  /** The events of a value write exactly its text, and fail exactly when a string cannot be written. */
  lemma {:induction false} WritesValue(style: Style, tg: Target, st: Sheet, v: Value)
    requires Integral(v) && ReadyForValue(st)
    ensures WriteAll(style, tg, st, Accept(v))
         == if Printable(tg, v) then Some(Written(style, tg, st, v)) else None
    decreases v, 3
  {
    hide WriteAll, Entered, AcceptElements, AcceptMembers, Quoted, IntegerText;
    match v
    case ArrayValue(es) => WritesArray(style, tg, st, v);
    case ObjectValue(ms) => WritesObject(style, tg, st, v);
    case DoubleValue(_) =>
    case _ =>
      WriteAllOne(style, tg, st, Accept(v)[0]);
      assert [Accept(v)[0]] == Accept(v);
  }

  lemma {:induction false} WritesArray(style: Style, tg: Target, st: Sheet, v: Value)
    requires Integral(v) && ReadyForValue(st) && v.ArrayValue?
    ensures WriteAll(style, tg, st, Accept(v))
         == if Printable(tg, v) then Some(Written(style, tg, st, v)) else None
    decreases v, 2
  {
    hide WriteAll, Write, Entered, Written;
    hide PrintElements, PrintableElements, IntegralElements, AcceptElements, AfterElements;
    var es := v.elements;
    var open, close := StartArray, [EndArray(|es|)];
    var e := Entered(style, st);
    var opened' := Sheet(e.out + [LBRACKET], e.levels + [Level(0, true)], e.hasRoot);
    WriteStart(style, tg, st, open);
    WriteAllOne(style, tg, st, open);
    WriteAllConcat(style, tg, st, [open], AcceptElements(es) + close);
    assert Accept(v) == [open] + (AcceptElements(es) + close);
    WritesElements(style, tg, opened', es, 0);
    WriteAllConcat(style, tg, opened', AcceptElements(es), close);
    if Printable(tg, v) {
      ArrayWritten(style, tg, st, es);
      WriteAllOne(style, tg, AfterElements(style, tg, opened', es, 0), close[0]);
    }
  }

  lemma ArrayWritten(style: Style, tg: Target, st: Sheet, es: seq<Value>)
    ensures var e := Entered(style, st);
      var opened' := Sheet(e.out + [LBRACKET], e.levels + [Level(0, true)], e.hasRoot);
      Write(style, tg, AfterElements(style, tg, opened', es, 0), EndArray(|es|))
      == Some(Written(style, tg, st, ArrayValue(es)))
  {
    hide Write, Entered, CloseGap, PrintElements;
    var e := Entered(style, st);
    var opened' := Sheet(e.out + [LBRACKET], e.levels + [Level(0, true)], e.hasRoot);
    var full := AfterElements(style, tg, opened', es, 0);
    assert full.levels == e.levels + [Level(|es|, true)];
    WriteEnd(style, tg, full, e.levels, Level(|es|, true), EndArray(|es|));
    var inner := PrintElements(style, tg, es, 0, |st.levels| + 1);
    var gap := CloseGap(style, Level(|es|, true), |st.levels|);
    assert e.out + [LBRACKET] + inner + gap + [RBRACKET] == e.out + ([LBRACKET] + inner + gap + [RBRACKET]);
  }

  lemma {:induction false} WritesObject(style: Style, tg: Target, st: Sheet, v: Value)
    requires Integral(v) && ReadyForValue(st) && v.ObjectValue?
    ensures WriteAll(style, tg, st, Accept(v))
         == if Printable(tg, v) then Some(Written(style, tg, st, v)) else None
    decreases v, 2
  {
    hide WriteAll, Write, Entered, Written;
    hide PrintMembers, PrintableMembers, IntegralMembers, AcceptMembers, AfterMembers;
    var ms := v.members;
    var open, close := StartObject, [EndObject(|ms|)];
    var e := Entered(style, st);
    var opened' := Sheet(e.out + [LBRACE], e.levels + [Level(0, false)], e.hasRoot);
    WriteStart(style, tg, st, open);
    WriteAllOne(style, tg, st, open);
    WriteAllConcat(style, tg, st, [open], AcceptMembers(ms) + close);
    assert Accept(v) == [open] + (AcceptMembers(ms) + close);
    WritesMembers(style, tg, opened', ms, 0);
    WriteAllConcat(style, tg, opened', AcceptMembers(ms), close);
    if Printable(tg, v) {
      ObjectWritten(style, tg, st, ms);
      WriteAllOne(style, tg, AfterMembers(style, tg, opened', ms, 0), close[0]);
    }
  }

  lemma ObjectWritten(style: Style, tg: Target, st: Sheet, ms: seq<Member>)
    ensures var e := Entered(style, st);
      var opened' := Sheet(e.out + [LBRACE], e.levels + [Level(0, false)], e.hasRoot);
      Write(style, tg, AfterMembers(style, tg, opened', ms, 0), EndObject(|ms|))
      == Some(Written(style, tg, st, ObjectValue(ms)))
  {
    hide Write, Entered, CloseGap, PrintMembers;
    var e := Entered(style, st);
    var opened' := Sheet(e.out + [LBRACE], e.levels + [Level(0, false)], e.hasRoot);
    var full := AfterMembers(style, tg, opened', ms, 0);
    assert full.levels == e.levels + [Level(2 * |ms|, false)];
    WriteEnd(style, tg, full, e.levels, Level(2 * |ms|, false), EndObject(|ms|));
    var inner := PrintMembers(style, tg, ms, 0, |st.levels| + 1);
    var gap := CloseGap(style, Level(2 * |ms|, false), |st.levels|);
    assert e.out + [LBRACE] + inner + gap + [RBRACE] == e.out + ([LBRACE] + inner + gap + [RBRACE]);
  }

  lemma WriteStart(style: Style, tg: Target, st: Sheet, ev: Event)
    requires ReadyForValue(st) && (ev.StartArray? || ev.StartObject?)
    ensures var e := Entered(style, st);
      Write(style, tg, st, ev) == Some(Sheet(
        e.out + [if ev.StartObject? then LBRACE else LBRACKET], e.levels + [Level(0, ev.StartArray?)], e.hasRoot))
  {
    hide Entered;
  }

  lemma WriteEnd(style: Style, tg: Target, st: Sheet, outer: seq<Level>, level: Level, ev: Event)
    requires st.levels == outer + [level]
    requires (ev.EndArray? && level.inArray) || (ev.EndObject? && !level.inArray && level.valueCount % 2 == 0)
    ensures Write(style, tg, st, ev) == Some(Sheet(
      st.out + CloseGap(style, level, |outer|) + [if ev.EndObject? then RBRACE else RBRACKET], outer, st.hasRoot))
  {
    hide Entered, CloseGap;
    assert st.levels[..|outer|] == outer;
  }

  function AfterElements(style: Style, tg: Target, st: Sheet, es: seq<Value>, i: nat): Sheet
    requires st.levels != []
  {
    var n := |st.levels|;
    Sheet(st.out + PrintElements(style, tg, es, i, n), st.levels[n - 1 := Level(i + |es|, true)], st.hasRoot)
  }

  lemma {:induction false} WritesElements(style: Style, tg: Target, st: Sheet, es: seq<Value>, i: nat)
    requires IntegralElements(es)
    requires st.levels != [] && Top(st) == Level(i, true)
    ensures WriteAll(style, tg, st, AcceptElements(es))
         == if PrintableElements(tg, es) then Some(AfterElements(style, tg, st, es, i)) else None
    decreases es, 0
  {
    hide WriteAll, PrefixText, Print, Accept, Printable, Integral, AcceptElements, Written, AfterElements,
        PrintElements;
    if es == [] {
      NoElements(style, tg, st, i);
    } else {
      WritesValue(style, tg, st, es[0]);
      SplitElements(es);
      WriteAllConcat(style, tg, st, Accept(es[0]), AcceptElements(es[1..]));
      if Printable(tg, es[0]) {
        var next := Written(style, tg, st, es[0]);
        AfterElement(style, tg, st, es, i);
        WritesElements(style, tg, next, es[1..], i + 1);
      }
    }
  }

  lemma NoElements(style: Style, tg: Target, st: Sheet, i: nat)
    requires st.levels != [] && Top(st) == Level(i, true)
    ensures WriteAll(style, tg, st, AcceptElements([])) == Some(AfterElements(style, tg, st, [], i))
  {
    assert st.levels[|st.levels| - 1 := Level(i, true)] == st.levels;
    assert AfterElements(style, tg, st, [], i) == st;
  }

  lemma SplitElements(es: seq<Value>)
    requires es != []
    ensures AcceptElements(es) == Accept(es[0]) + AcceptElements(es[1..])
  {
    hide Accept;
  }

  lemma AfterElement(style: Style, tg: Target, st: Sheet, es: seq<Value>, i: nat)
    requires es != [] && st.levels != [] && Top(st) == Level(i, true)
    ensures var next := Written(style, tg, st, es[0]);
      && next.levels != [] && Top(next) == Level(i + 1, true)
      && AfterElements(style, tg, next, es[1..], i + 1) == AfterElements(style, tg, st, es, i)
  {
    hide PrefixText, Print;
  }

  function AfterMembers(style: Style, tg: Target, st: Sheet, ms: seq<Member>, i: nat): Sheet
    requires st.levels != []
  {
    var n := |st.levels|;
    Sheet(st.out + PrintMembers(style, tg, ms, i, n), st.levels[n - 1 := Level(2 * (i + |ms|), false)], st.hasRoot)
  }

  /** The sheet after a name, inside an object that expects one. */
  function Named(style: Style, tg: Target, st: Sheet, name: Text, i: nat): Sheet
    requires st.levels != []
  {
    var n := |st.levels|;
    Sheet(
      st.out + PrefixText(style, Level(2 * i, false), n) + QuotedText(tg, name),
      st.levels[n - 1 := Level(2 * i + 1, false)], st.hasRoot)
  }

  lemma WritesName(style: Style, tg: Target, st: Sheet, name: Text, i: nat)
    requires st.levels != [] && Top(st) == Level(2 * i, false)
    ensures Write(style, tg, st, Key(name))
         == if Quoted(tg, name).Some? then Some(Named(style, tg, st, name, i)) else None
    ensures ReadyForValue(Named(style, tg, st, name, i))
  {
    hide PrefixText, Quoted;
  }

  lemma {:induction false} WritesMembers(style: Style, tg: Target, st: Sheet, ms: seq<Member>, i: nat)
    requires IntegralMembers(ms)
    requires st.levels != [] && Top(st) == Level(2 * i, false)
    ensures WriteAll(style, tg, st, AcceptMembers(ms))
         == if PrintableMembers(tg, ms) then Some(AfterMembers(style, tg, st, ms, i)) else None
    decreases ms, 0
  {
    hide WriteAll, Write, PrefixText, Print, Accept, Printable, Integral, Quoted, QuotedText, AcceptMembers;
    hide Written, Named, AfterMembers;
    if ms == [] {
      NoMembers(style, tg, st, i);
    } else {
      var m, rest := ms[0], ms[1..];
      WritesName(style, tg, st, m.name, i);
      WriteAllOne(style, tg, st, Key(m.name));
      WriteAllConcat(style, tg, st, [Key(m.name)], Accept(m.value) + AcceptMembers(rest));
      SplitMembers(ms);
      if Quoted(tg, m.name).Some? {
        var named := Named(style, tg, st, m.name, i);
        WritesValue(style, tg, named, m.value);
        WriteAllConcat(style, tg, named, Accept(m.value), AcceptMembers(rest));
        if Printable(tg, m.value) {
          var next := Written(style, tg, named, m.value);
          AfterMember(style, tg, st, ms, i);
          WritesMembers(style, tg, next, rest, i + 1);
        }
      }
    }
  }

  lemma NoMembers(style: Style, tg: Target, st: Sheet, i: nat)
    requires st.levels != [] && Top(st) == Level(2 * i, false)
    ensures WriteAll(style, tg, st, AcceptMembers([])) == Some(AfterMembers(style, tg, st, [], i))
  {
    assert st.levels[|st.levels| - 1 := Level(2 * i, false)] == st.levels;
    assert AfterMembers(style, tg, st, [], i) == st;
  }

  lemma SplitMembers(ms: seq<Member>)
    requires ms != []
    ensures AcceptMembers(ms) == [Key(ms[0].name)] + (Accept(ms[0].value) + AcceptMembers(ms[1..]))
  {
    hide Accept;
  }

  lemma AfterMember(style: Style, tg: Target, st: Sheet, ms: seq<Member>, i: nat)
    requires ms != [] && st.levels != [] && Top(st) == Level(2 * i, false)
    ensures var next := Written(style, tg, Named(style, tg, st, ms[0].name, i), ms[0].value);
      && next.levels != [] && Top(next) == Level(2 * (i + 1), false)
      && AfterMembers(style, tg, next, ms[1..], i + 1) == AfterMembers(style, tg, st, ms, i)
  {
    hide PrefixText, Print, QuotedText;
  }
}
