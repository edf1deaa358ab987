/** Print, then parse: the text of a value replays its events and rebuilds it. */
module RoundTrip {
  import opened Bytes
  import opened Json
  import opened Document
  import opened Grammar
  import opened JsonText
  import opened WriterText
  import Equivalence
  import JsonGrammar
  import Machine
  import Numbers = NumberSyntax
  import Strings = StringSyntax
  import StringRoundTrip
  import TokenGrammar
  import Utf8

  // ---- events up to the kind of integers ----

  /** The event a reader sends where a writer received `ev`: integers change their kind, not their value. */
  function AsRead(ev: Event): Event {
    if ev.Int? then Integer(ev.i)
    else if ev.Uint? then Integer(ev.u)
    else if ev.Int64? then Integer(ev.i64)
    else if ev.Uint64? then Integer(ev.u64)
    else ev
  }

  function Integer(n: int): Event {
    var ev := WholeEvent(n < 0, if n < 0 then -n else n);
    if ev.Some? then ev.value else Double([])
  }

  function AsReadAll(evs: seq<Event>): seq<Event> {
    seq(|evs|, i requires 0 <= i < |evs| => AsRead(evs[i]))
  }

  lemma AsReadConcat(a: seq<Event>, b: seq<Event>)
    ensures AsReadAll(a + b) == AsReadAll(a) + AsReadAll(b)
  {
    hide AsRead;
  }

  lemma AsReadOne(ev: Event)
    ensures AsReadAll([ev]) == [AsRead(ev)]
  {
  }

  /** The document handlers cannot tell the difference. */
  lemma AsReadStep(stack: seq<Value>, ev: Event)
    requires ev.Int? ==> FitsMachine(ev.i)
    requires ev.Uint? ==> FitsMachine(ev.u)
    requires ev.Int64? ==> FitsMachine(ev.i64)
    requires ev.Uint64? ==> FitsMachine(ev.u64)
    ensures Step(stack, AsRead(ev)) == Step(stack, ev)
  {
    hide Paired;
  }

  /** Every string of a value is valid UTF-8. */
  predicate ValidStrings(v: Value)
    decreases v, 1
  {
    match v
    case StringValue(str) => Utf8.ValidText(str)
    case ArrayValue(es) => ValidElements(es)
    case ObjectValue(ms) => ValidMembers(ms)
    case _ => true
  }

  predicate ValidElements(es: seq<Value>)
    decreases es, 0
  {
    es != [] ==> ValidStrings(es[0]) && ValidElements(es[1..])
  }

  predicate ValidMembers(ms: seq<Member>)
    decreases ms, 0
  {
    ms != [] ==> Utf8.ValidText(ms[0].name) && ValidStrings(ms[0].value) && ValidMembers(ms[1..])
  }

  // ---- which values can be written ----

  lemma QuotedIff(tg: Target, str: Text)
    ensures Quoted(tg, str).Some? <==> ((tg.ascii || tg.validate) ==> Utf8.ValidText(str))
  {
    hide Utf8.ValidText, Escaped;
    StringRoundTrip.EscapedIff(tg, str, 0);
    assert str[0..] == str;
  }

  /** A value can be written exactly when its strings are valid UTF-8, or nothing asks for that. */
  lemma {:induction false} PrintableIff(tg: Target, v: Value)
    ensures Printable(tg, v) <==> ((tg.ascii || tg.validate) ==> ValidStrings(v))
    decreases v, 1
  {
    hide Quoted, Utf8.ValidText, PrintableElements, PrintableMembers, ValidElements, ValidMembers;
    match v
    case StringValue(str) => QuotedIff(tg, str);
    case ArrayValue(es) => PrintableElementsIff(tg, es);
    case ObjectValue(ms) => PrintableMembersIff(tg, ms);
    case _ =>
  }

  lemma {:induction false} PrintableElementsIff(tg: Target, es: seq<Value>)
    ensures PrintableElements(tg, es) <==> ((tg.ascii || tg.validate) ==> ValidElements(es))
    decreases es, 0
  {
    hide Printable, ValidStrings;
    if es != [] {
      PrintableIff(tg, es[0]);
      PrintableElementsIff(tg, es[1..]);
    }
  }

  lemma {:induction false} PrintableMembersIff(tg: Target, ms: seq<Member>)
    ensures PrintableMembers(tg, ms) <==> ((tg.ascii || tg.validate) ==> ValidMembers(ms))
    decreases ms, 0
  {
    hide Printable, ValidStrings, Quoted, Utf8.ValidText;
    if ms != [] {
      QuotedIff(tg, ms[0].name);
      PrintableIff(tg, ms[0].value);
      PrintableMembersIff(tg, ms[1..]);
    }
  }

  // ---- what is printed is a JSON text ----

  lemma PrintedGaps(fl: Flags, style: Style, level: Level, count: nat, depth: nat)
    requires Indents(style)
    ensures Gap(fl, ElementGap(style, count, depth)) && Gap(fl, NameGap(style, depth))
    ensures Gap(fl, ValueGap(style)) && Gap(fl, CloseGap(style, level, depth))
  {
    hide Gap;
    JsonGrammar.WhiteGap(fl, ElementGap(style, count, depth));
    JsonGrammar.WhiteGap(fl, NameGap(style, depth));
    JsonGrammar.WhiteGap(fl, ValueGap(style));
    JsonGrammar.WhiteGap(fl, CloseGap(style, level, depth));
  }

  lemma {:induction false} DigitsDecimal(n: nat)
    ensures Numbers.AllDigits(Digits(n)) && Numbers.Decimal(Digits(n)) == n
    ensures Digits(n)[0] == ZERO ==> n == 0 && |Digits(n)| == 1
  {
    if n >= 10 {
      DigitsDecimal(n / 10);
      var t := Digits(n);
      assert t[..|t| - 1] == Digits(n / 10);
    } else {
      assert Digits(n)[..0] == [];
      assert Numbers.Decimal([]) == 0;
    }
  }

  /** A printed string is a string of the grammar. */
  lemma PrintedString(validate: bool, tg: Target, str: Text) returns (us: seq<Unit>)
    requires Quoted(tg, str).Some? && (validate ==> Utf8.ValidText(str))
    ensures UnitsOk(validate, us) && StringText(us) == QuotedText(tg, str) && UnitsBytes(us) == str
  {
    hide Utf8.ValidText, Escaped, Strings.ParseString, StringText, UnitsOk, UnitsBytes;
    var s := Quoted(tg, str).value;
    assert At(s, 0, s);
    StringRoundTrip.QuotedRead(tg, validate, str, s, 0);
    us := TokenGrammar.StringSound(validate, s, 0);
    assert s[0..|s|] == s;
  }

  /** A printed integer is a numeral of the grammar, and is read in the narrowest kind that holds it. */
  lemma PrintedInteger(fl: Flags, n: int) returns (numeral: Numeral)
    requires FitsMachine(n)
    ensures NumeralOk(numeral) && InRange(fl, numeral)
    ensures NumeralText(numeral) == IntegerText(n) && NumeralEvent(numeral) == Integer(n)
  {
    hide Digits, Numbers.Decimal, Numbers.AllDigits;
    var v: nat := if n < 0 then -n else n;
    DigitsDecimal(v);
    numeral := Numeral(n < 0, Digits(v), None, None);
    assert NumeralText(numeral) == SignText(numeral) + Digits(v);
  }

  lemma {:induction false} PrintedTree(fl: Flags, style: Style, tg: Target, v: Value, depth: nat) returns (t: Tree)
    requires Indents(style) && Integral(v) && Printable(tg, v) && (fl.validateEncoding ==> ValidStrings(v))
    ensures TreeOk(fl, t) && Spell(t) == Print(style, tg, v, depth) && Send(t) == AsReadAll(Accept(v))
    decreases v, 2
  {
    hide Quoted, QuotedText, IntegerText, StringText, NumeralText, NumeralEvent, NumeralOk, InRange, Integer, AsReadAll;
    hide UnitsOk, UnitsBytes, Utf8.ValidText, AsRead;
    match v
    case NullValue =>
      t := NullTree;
      AsReadOne(Null);
      KeptAsRead(Null);
    case BoolValue(b) =>
      t := BoolTree(b);
      AsReadOne(Bool(b));
      KeptAsRead(Bool(b));
    case NumberValue(n) =>
      var numeral := PrintedInteger(fl, n);
      t := NumberTree(numeral);
      AsReadOne(NumberEvent(n));
      NumberAsRead(n);
    case StringValue(str) =>
      var us := PrintedString(fl.validateEncoding, tg, str);
      t := StringTree(us);
      AsReadOne(String(str));
      KeptAsRead(String(str));
    case ArrayValue(es) => t := PrintedArray(fl, style, tg, es, depth);
    case ObjectValue(ms) => t := PrintedObject(fl, style, tg, ms, depth);
    case DoubleValue(_) => t := NullTree;
  }

  lemma KeptAsRead(ev: Event)
    requires !ev.Int? && !ev.Uint? && !ev.Int64? && !ev.Uint64?
    ensures AsRead(ev) == ev
  {
  }

  lemma NumberAsRead(n: int)
    requires FitsMachine(n)
    ensures AsRead(NumberEvent(n)) == Integer(n)
  {
  }

  lemma {:induction false} PrintedArray(fl: Flags, style: Style, tg: Target, es: seq<Value>, depth: nat)
    returns (t: Tree)
    requires Indents(style) && IntegralElements(es) && PrintableElements(tg, es)
    requires fl.validateEncoding ==> ValidElements(es)
    ensures TreeOk(fl, t) && Spell(t) == Print(style, tg, ArrayValue(es), depth)
    ensures Send(t) == AsReadAll(Accept(ArrayValue(es)))
    decreases es, 1
  {
    hide IntegralElements, PrintableElements, ValidElements, Indents, AsReadAll, Gap, SpellItems, SendItems,
        ItemsOk;
    hide PrintElements, CloseGap, AcceptElements;
    AsReadArray(es);
    JsonGrammar.NothingSpelled();
    JsonGrammar.NoItems(fl);
    if es == [] {
      t := ArrayTree([], [], []);
      EmptyText(style, tg, depth);
      assert [LBRACKET] + ([] + ([] + [RBRACKET])) == [LBRACKET] + [] + [] + [RBRACKET];
    } else {
      var close := CloseGap(style, Level(|es|, true), depth);
      PrintedGaps(fl, style, Level(|es|, true), 0, depth);
      var items := PrintedItems(fl, style, tg, es, 0, depth + 1, close);
      t := ArrayTree([], items, []);
      var inner := PrintElements(style, tg, es, 0, depth + 1);
      assert SpellItems(items) == inner + close;
      assert [LBRACKET] + ([] + (inner + close + [RBRACKET])) == [LBRACKET] + inner + close + [RBRACKET];
    }
  }

  lemma EmptyText(style: Style, tg: Target, depth: nat)
    ensures PrintElements(style, tg, [], 0, depth + 1) == [] && CloseGap(style, Level(0, true), depth) == []
    ensures PrintMembers(style, tg, [], 0, depth + 1) == [] && CloseGap(style, Level(0, false), depth) == []
    ensures AsReadAll(AcceptElements([])) == [] && AsReadAll(AcceptMembers([])) == []
  {
  }

  lemma AsReadArray(es: seq<Value>)
    ensures AsReadAll(Accept(ArrayValue(es))) == [StartArray] + AsReadAll(AcceptElements(es)) + [EndArray(|es|)]
    ensures es == [] ==> AsReadAll(AcceptElements(es)) == []
  {
    hide AsReadAll, AcceptElements;
    AsReadConcat([StartArray] + AcceptElements(es), [EndArray(|es|)]);
    AsReadConcat([StartArray], AcceptElements(es));
    AsReadOne(StartArray);
    AsReadOne(EndArray(|es|));
    EmptyText(Compact, Target(false, false), 0);
  }

  /** Elements after the first `i`, the closing gap behind the last of them. */
  lemma {:induction false} PrintedItems(fl: Flags, style: Style, tg: Target, es: seq<Value>, i: nat, depth: nat,
      close: Text)
    returns (items: seq<Item>)
    requires Indents(style) && IntegralElements(es) && PrintableElements(tg, es)
    requires fl.validateEncoding ==> ValidElements(es)
    requires es != [] && Gap(fl, close)
    ensures |items| == |es| && ItemsOk(fl, items) && SendItems(items) == AsReadAll(AcceptElements(es))
    ensures Comma(i) + SpellItems(items) == PrintElements(style, tg, es, i, depth) + close
    decreases es, 0
  {
    hide *;
    var gap, rest := ElementGap(style, i, depth), es[1..];
    PrintedGaps(fl, style, Level(0, true), i, depth);
    ElementsOf(tg, es);
    var t := PrintedTree(fl, style, tg, es[0], depth);
    var head := Print(style, tg, es[0], depth);
    ElementText(style, tg, es, i, depth);
    ElementEvents(es);
    if rest == [] {
      items := [Item(gap, t, close)];
      assert items[1..] == [];
      ItemsUnfold(fl, items);
      ItemText(Comma(i), gap, head, close, [], []);
    } else {
      var more := PrintedItems(fl, style, tg, rest, i + 1, depth, close);
      items := [Item(gap, t, [])] + more;
      assert items[1..] == more;
      ItemsUnfold(fl, items);
      CommaText(i);
      ItemText(Comma(i), gap, head, [], SpellItems(more), close);
    }
  }

  lemma CommaText(i: nat)
    ensures Comma(i + 1) == [COMMA]
  {
  }

  lemma ElementsOf(tg: Target, es: seq<Value>)
    requires es != []
    ensures IntegralElements(es) ==> Integral(es[0]) && IntegralElements(es[1..])
    ensures PrintableElements(tg, es) ==> Printable(tg, es[0]) && PrintableElements(tg, es[1..])
    ensures ValidElements(es) ==> ValidStrings(es[0]) && ValidElements(es[1..])
  {
    hide Integral, Printable, ValidStrings;
  }

  lemma ElementText(style: Style, tg: Target, es: seq<Value>, i: nat, depth: nat)
    requires es != []
    ensures PrintElements(style, tg, es, i, depth)
         == Comma(i) + ElementGap(style, i, depth) + Print(style, tg, es[0], depth)
             + PrintElements(style, tg, es[1..], i + 1, depth)
    ensures es[1..] == [] ==> PrintElements(style, tg, es[1..], i + 1, depth) == []
  {
    hide Print, ElementGap, Comma;
  }

  lemma ElementEvents(es: seq<Value>)
    requires es != []
    ensures AsReadAll(AcceptElements(es)) == AsReadAll(Accept(es[0])) + AsReadAll(AcceptElements(es[1..]))
    ensures es[1..] == [] ==> AsReadAll(AcceptElements(es[1..])) == []
  {
    hide AsReadAll, Accept, AcceptElements;
    SplitElements(es);
    AsReadConcat(Accept(es[0]), AcceptElements(es[1..]));
    EmptyText(Compact, Target(false, false), 0);
  }

  lemma ItemsUnfold(fl: Flags, items: seq<Item>)
    requires items != []
    ensures var it := items[0];
      && SpellItems(items)
          == it.before + (Spell(it.tree)
              + (it.after + (if items[1..] == [] then [] else [COMMA] + SpellItems(items[1..]))))
      && SendItems(items) == Send(it.tree) + SendItems(items[1..])
      && (Gap(fl, it.before) && TreeOk(fl, it.tree) && Gap(fl, it.after) && ItemsOk(fl, items[1..]) ==>
          ItemsOk(fl, items))
    ensures ItemsOk(fl, []) && SendItems([]) == [] && Gap(fl, [])
  {
    hide Spell, Send, TreeOk;
  }

  lemma ItemText(comma: Text, gap: Text, head: Text, after: Text, rest: Text, close: Text)
    ensures comma + (gap + (head + (after + []))) == comma + gap + head + [] + after
    ensures comma + (gap + (head + ([] + ([COMMA] + rest)))) == comma + gap + head + ([COMMA] + rest)
  {
  }

  lemma {:induction false} PrintedObject(fl: Flags, style: Style, tg: Target, ms: seq<Member>, depth: nat)
    returns (t: Tree)
    requires Indents(style) && IntegralMembers(ms) && PrintableMembers(tg, ms)
    requires fl.validateEncoding ==> ValidMembers(ms)
    ensures TreeOk(fl, t) && Spell(t) == Print(style, tg, ObjectValue(ms), depth)
    ensures Send(t) == AsReadAll(Accept(ObjectValue(ms)))
    decreases ms, 1
  {
    hide IntegralMembers, PrintableMembers, ValidMembers, Indents, AsReadAll, Gap, SpellFields, SendFields,
        FieldsOk;
    hide PrintMembers, CloseGap, AcceptMembers;
    AsReadObject(ms);
    JsonGrammar.NothingSpelled();
    JsonGrammar.NoItems(fl);
    if ms == [] {
      t := ObjectTree([], [], []);
      EmptyText(style, tg, depth);
      assert [LBRACE] + ([] + ([] + [RBRACE])) == [LBRACE] + [] + [] + [RBRACE];
    } else {
      var close := CloseGap(style, Level(2 * |ms|, false), depth);
      PrintedGaps(fl, style, Level(2 * |ms|, false), 0, depth);
      var fields := PrintedFields(fl, style, tg, ms, 0, depth + 1, close);
      t := ObjectTree([], fields, []);
      var inner := PrintMembers(style, tg, ms, 0, depth + 1);
      assert SpellFields(fields) == inner + close;
      assert [LBRACE] + ([] + (inner + close + [RBRACE])) == [LBRACE] + inner + close + [RBRACE];
    }
  }

  lemma AsReadObject(ms: seq<Member>)
    ensures AsReadAll(Accept(ObjectValue(ms))) == [StartObject] + AsReadAll(AcceptMembers(ms)) + [EndObject(|ms|)]
    ensures ms == [] ==> AsReadAll(AcceptMembers(ms)) == []
  {
    hide AsReadAll, AcceptMembers;
    AsReadConcat([StartObject] + AcceptMembers(ms), [EndObject(|ms|)]);
    AsReadConcat([StartObject], AcceptMembers(ms));
    AsReadOne(StartObject);
    AsReadOne(EndObject(|ms|));
    EmptyText(Compact, Target(false, false), 0);
  }

  lemma AsReadMembers(ms: seq<Member>)
    requires ms != []
    ensures AsReadAll(AcceptMembers(ms))
         == [Key(ms[0].name)] + AsReadAll(Accept(ms[0].value)) + AsReadAll(AcceptMembers(ms[1..]))
  {
    hide AsReadAll, Accept, AcceptMembers;
    SplitMembers(ms);
    AsReadConcat([Key(ms[0].name)], Accept(ms[0].value) + AcceptMembers(ms[1..]));
    AsReadConcat(Accept(ms[0].value), AcceptMembers(ms[1..]));
    AsReadOne(Key(ms[0].name));
    KeptAsRead(Key(ms[0].name));
  }

  lemma MemberPrefixes(style: Style, i: nat, depth: nat)
    ensures PrefixText(style, Level(2 * i, false), depth) == Comma(i) + NameGap(style, depth)
    ensures PrefixText(style, Level(2 * i + 1, false), depth) == [COLON] + ValueGap(style)
  {
    hide NameGap, ValueGap;
  }

  /** Members after the first `i`, the closing gap behind the last of them. */
  lemma {:induction false} PrintedFields(fl: Flags, style: Style, tg: Target, ms: seq<Member>, i: nat, depth: nat,
      close: Text)
    returns (fields: seq<Field>)
    requires Indents(style) && IntegralMembers(ms) && PrintableMembers(tg, ms)
    requires fl.validateEncoding ==> ValidMembers(ms)
    requires ms != [] && Gap(fl, close)
    ensures |fields| == |ms| && FieldsOk(fl, fields) && SendFields(fields) == AsReadAll(AcceptMembers(ms))
    ensures Comma(i) + SpellFields(fields) == PrintMembers(style, tg, ms, i, depth) + close
    decreases ms, 0
  {
    hide *;
    var m, rest := ms[0], ms[1..];
    var gap, vgap := NameGap(style, depth), ValueGap(style);
    PrintedGaps(fl, style, Level(0, false), 0, depth);
    MembersOf(tg, ms);
    var us := PrintedString(fl.validateEncoding, tg, m.name);
    var t := PrintedTree(fl, style, tg, m.value, depth);
    var name, head := QuotedText(tg, m.name), Print(style, tg, m.value, depth);
    MemberText(style, tg, ms, i, depth);
    MemberEvents(ms);
    if rest == [] {
      fields := [Field(gap, us, [], vgap, t, close)];
      assert fields[1..] == [];
      FieldsUnfold(fl, fields);
      FieldText(Comma(i), gap, name, vgap, head, close, []);
    } else {
      var more := PrintedFields(fl, style, tg, rest, i + 1, depth, close);
      fields := [Field(gap, us, [], vgap, t, [])] + more;
      assert fields[1..] == more;
      FieldsUnfold(fl, fields);
      CommaText(i);
      FieldText(Comma(i), gap, name, vgap, head, [], [COMMA] + SpellFields(more));
      var text := PrintMembers(style, tg, rest, i + 1, depth);
      assert Comma(i) + gap + name + ([COLON] + vgap) + head + (text + close)
          == Comma(i) + gap + name + ([COLON] + vgap) + head + text + close;
    }
  }

  lemma MembersOf(tg: Target, ms: seq<Member>)
    requires ms != []
    ensures IntegralMembers(ms) ==> Integral(ms[0].value) && IntegralMembers(ms[1..])
    ensures PrintableMembers(tg, ms) ==>
      Quoted(tg, ms[0].name).Some? && Printable(tg, ms[0].value) && PrintableMembers(tg, ms[1..])
    ensures ValidMembers(ms) ==> Utf8.ValidText(ms[0].name) && ValidStrings(ms[0].value) && ValidMembers(ms[1..])
  {
    hide Integral, Printable, ValidStrings, Quoted, Utf8.ValidText;
  }

  lemma MemberText(style: Style, tg: Target, ms: seq<Member>, i: nat, depth: nat)
    requires ms != []
    ensures PrintMembers(style, tg, ms, i, depth)
         == Comma(i) + NameGap(style, depth) + QuotedText(tg, ms[0].name) + ([COLON] + ValueGap(style))
            + Print(style, tg, ms[0].value, depth) + PrintMembers(style, tg, ms[1..], i + 1, depth)
    ensures ms[1..] == [] ==> PrintMembers(style, tg, ms[1..], i + 1, depth) == []
  {
    hide Print, PrefixText, QuotedText, NameGap, ValueGap, Comma;
    MemberPrefixes(style, i, depth);
  }

  lemma MemberEvents(ms: seq<Member>)
    requires ms != []
    ensures AsReadAll(AcceptMembers(ms))
         == [Key(ms[0].name)] + AsReadAll(Accept(ms[0].value)) + AsReadAll(AcceptMembers(ms[1..]))
    ensures ms[1..] == [] ==> AsReadAll(AcceptMembers(ms[1..])) == []
  {
    hide AsReadAll, Accept, AcceptMembers;
    AsReadMembers(ms);
    EmptyText(Compact, Target(false, false), 0);
  }

  lemma FieldsUnfold(fl: Flags, fields: seq<Field>)
    requires fields != []
    ensures var f := fields[0];
      && SpellFields(fields)
         == f.before + ((StringText(f.name) + (f.beforeColon + ([COLON] + f.afterColon)))
            + (Spell(f.tree) + (f.after + (if fields[1..] == [] then [] else [COMMA] + SpellFields(fields[1..])))))
      && SendFields(fields) == [Key(UnitsBytes(f.name))] + Send(f.tree) + SendFields(fields[1..])
      && ((&& Gap(fl, f.before) && UnitsOk(fl.validateEncoding, f.name)
           && Gap(fl, f.beforeColon) && Gap(fl, f.afterColon) && TreeOk(fl, f.tree) && Gap(fl, f.after)
           && FieldsOk(fl, fields[1..])) ==> FieldsOk(fl, fields))
    ensures FieldsOk(fl, []) && SendFields([]) == [] && Gap(fl, [])
  {
    hide Spell, Send, TreeOk, StringText, UnitsOk, UnitsBytes;
  }

  lemma FieldText(comma: Text, gap: Text, name: Text, vgap: Text, head: Text, after: Text, rest: Text)
    ensures comma + (gap + ((name + ([] + ([COLON] + vgap))) + (head + (after + rest))))
         == comma + gap + name + ([COLON] + vgap) + head + (after + rest)
    ensures comma + gap + name + ([COLON] + vgap) + head + (after + [])
        == comma + gap + name + ([COLON] + vgap) + head + [] + after
  {
  }

  // ---- rebuilding ----

  predicate EventFits(ev: Event) {
    && (ev.Int? ==> FitsMachine(ev.i)) && (ev.Uint? ==> FitsMachine(ev.u))
    && (ev.Int64? ==> FitsMachine(ev.i64)) && (ev.Uint64? ==> FitsMachine(ev.u64))
  }

  predicate AllFit(evs: seq<Event>) {
    forall i :: 0 <= i < |evs| ==> EventFits(evs[i])
  }

  lemma {:induction false} AcceptFits(v: Value)
    requires Integral(v)
    ensures AllFit(Accept(v))
    decreases v, 1
  {
    hide AcceptElements, AcceptMembers;
    match v
    case ArrayValue(es) => ElementsFit(es);
    case ObjectValue(ms) => MembersFit(ms);
    case _ =>
  }

  lemma {:induction false} ElementsFit(es: seq<Value>)
    requires IntegralElements(es)
    ensures AllFit(AcceptElements(es))
    decreases es, 0
  {
    hide Accept;
    if es != [] {
      AcceptFits(es[0]);
      ElementsFit(es[1..]);
    }
  }

  lemma {:induction false} MembersFit(ms: seq<Member>)
    requires IntegralMembers(ms)
    ensures AllFit(AcceptMembers(ms))
    decreases ms, 0
  {
    hide Accept;
    if ms != [] {
      AcceptFits(ms[0].value);
      MembersFit(ms[1..]);
    }
  }

  lemma {:induction false} BuildAsRead(evs: seq<Event>)
    requires AllFit(evs)
    ensures Build(AsReadAll(evs)) == Build(evs)
    decreases |evs|
  {
    hide Step, AsRead;
    if evs != [] {
      var front, last := evs[..|evs| - 1], evs[|evs| - 1];
      assert evs == front + [last];
      AsReadConcat(front, [last]);
      AsReadOne(last);
      BuildAsRead(front);
      BuildOne(AsReadAll(front), AsRead(last));
      if Build(front).Some? {
        AsReadStep(Build(front).value, last);
      }
    }
  }

  const BLANK: Sheet := Sheet([], [], false)

  /**
   Print, then parse.  For every value without doubles, every style, both target encodings and all
   parse flags: the writer accepts the value exactly when its strings can be written, and then both
   readers accept the text to its end, send the events the writer received (integers up to the kind
   of their event), and the document handlers rebuild the value.  Only a reader that validates needs
   the strings to be valid UTF-8.
   */
  lemma PrintThenParse(fl: Flags, style: Style, tg: Target, v: Value)
    requires Indents(style) && Integral(v) && (fl.validateEncoding ==> ValidStrings(v))
    ensures WriteAll(style, tg, BLANK, Accept(v)).Some? <==> Printable(tg, v)
    ensures Printable(tg, v) ==>
      var sheet := WriteAll(style, tg, BLANK, Accept(v)).value;
      && sheet == Sheet(Print(style, tg, v, 0), [], true)
      && ParseDocument(fl, sheet.out) == Parsed(|sheet.out|, AsReadAll(Accept(v)))
      && Machine.IterativeDocument(fl, sheet.out) == Parsed(|sheet.out|, AsReadAll(Accept(v)))
      && Build(AsReadAll(Accept(v))) == Some([v])
  {
    hide *;
    assert ReadyForValue(BLANK) && |BLANK.levels| == 0 by { BlankSheet(style); }
    WritesValue(style, tg, BLANK, v);
    if Printable(tg, v) {
      var text := Print(style, tg, v, 0);
      assert Written(style, tg, BLANK, v) == Sheet(text, [], true) by { BlankWritten(style, tg, v); }
      TextReads(fl, style, tg, v);
      Equivalence.ReadersAgree(fl, text);
      AcceptFits(v);
      BuildAsRead(Accept(v));
      assert Build([]) == Some([]) by { NothingBuilt(); }
      Rebuilds([], [], v);
      assert [] + Accept(v) == Accept(v) && [] + [v] == [v];
    }
  }

  lemma BlankSheet(style: Style)
    ensures ReadyForValue(BLANK) && |BLANK.levels| == 0
  {
  }

  lemma BlankWritten(style: Style, tg: Target, v: Value)
    ensures Written(style, tg, BLANK, v) == Sheet(Print(style, tg, v, 0), [], true)
  {
    hide Print;
  }

  lemma NothingBuilt()
    ensures Build([]) == Some([])
  {
  }

  lemma TextReads(fl: Flags, style: Style, tg: Target, v: Value)
    requires Indents(style) && Integral(v) && Printable(tg, v) && (fl.validateEncoding ==> ValidStrings(v))
    ensures var s := Print(style, tg, v, 0);
      ParseDocument(fl, s) == Parsed(|s|, AsReadAll(Accept(v))) && !Equivalence.StartsStray(fl, s)
  {
    hide Skip, ParseValue, Print, Integral, Printable, ValidStrings, Indents, Spell, TreeOk, Send, JsonGrammar.Opens,
        AsReadAll;
    var s := Print(style, tg, v, 0);
    var t := PrintedTree(fl, style, tg, v, 0);
    JsonGrammar.FirstChar(fl, t);
    JsonGrammar.OpensSomething(s[0]);
    JsonGrammar.NoGap(fl, s, 0);
    assert At(s, 0, s);
    JsonGrammar.NulStops();
    JsonGrammar.ValueComplete(fl, t, s, 0, []);
    assert [] + Send(t) == Send(t);
    JsonGrammar.NoGap(fl, s, |s|);
    if Equivalence.StartsStray(fl, s) {
      Equivalence.ReadersAgree(fl, s);
    }
  }
}
