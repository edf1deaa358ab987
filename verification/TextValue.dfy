/** The value a JSON text denotes, and the document that reading the text builds. */
module TextValue {
  import opened Bytes
  import opened Json
  import opened Document
  import opened JsonText
  import DocumentParse
  import Grammar
  import JsonGrammar
  import Numbers = NumberSyntax

  // ---- the value of a tree ----

  function NumeralValue(n: Numeral): Value
    requires NumeralOk(n)
  {
    var v := Numbers.Decimal(n.whole);
    if n.fraction.None? && n.exponent.None? && WholeEvent(n.minus, v).Some? then
      NumberValue(if n.minus then -(v as int) else v)
    else DoubleValue(NumeralText(n))
  }

  function ValueOf(t: Tree): Value
    decreases t, 1
  {
    match t
    case NullTree => NullValue
    case BoolTree(b) => BoolValue(b)
    case NumberTree(n) => if NumeralOk(n) then NumeralValue(n) else NullValue
    case StringTree(us) => StringValue(UnitsBytes(us))
    case ArrayTree(_, items, _) => ArrayValue(ValuesOf(items))
    case ObjectTree(_, fields, _) => ObjectValue(MembersOf(fields))
  }

  function ValuesOf(items: seq<Item>): (r: seq<Value>)
    ensures |r| == |items|
    decreases items, 0
  {
    if items == [] then [] else [ValueOf(items[0].tree)] + ValuesOf(items[1..])
  }

  function MembersOf(fields: seq<Field>): (r: seq<Member>)
    ensures |r| == |fields|
    decreases fields, 0
  {
    if fields == [] then []
    else [Member(UnitsBytes(fields[0].name), ValueOf(fields[0].tree))] + MembersOf(fields[1..])
  }

  // ---- the handlers build it ----

  lemma NumeralStep(stack: seq<Value>, n: Numeral)
    requires NumeralOk(n)
    ensures Step(stack, NumeralEvent(n)) == Some(stack + [NumeralValue(n)])
  {
    hide Paired, NumeralText, Numbers.Decimal;
  }

  lemma {:induction false} TreeBuilds(fl: Flags, evs: seq<Event>, stack: seq<Value>, t: Tree)
    requires TreeOk(fl, t) && Build(evs) == Some(stack)
    ensures Build(evs + Send(t)) == Some(stack + [ValueOf(t)])
    decreases t, 1
  {
    hide Build, Step, SendItems, SendFields, ValuesOf, MembersOf, ItemsOk, FieldsOk, Unpaired, UnitsBytes, UnitsOk;
    hide NumeralOk, NumeralEvent, NumeralValue, InRange;
    StepStart(stack);
    match t
    case ArrayTree(_, items, _) =>
      BuildOne(evs, StartArray);
      ItemsBuild(fl, evs + [StartArray], stack + [ArrayValue([])], items);
      var inner := evs + [StartArray] + SendItems(items);
      BuildOne(inner, EndArray(|items|));
      assert evs + Send(t) == inner + [EndArray(|items|)];
      StepEndArray(stack, ValuesOf(items));
    case ObjectTree(_, fields, _) =>
      BuildOne(evs, StartObject);
      FieldsBuild(fl, evs + [StartObject], stack + [ObjectValue([])], fields);
      var inner := evs + [StartObject] + SendFields(fields);
      BuildOne(inner, EndObject(|fields|));
      assert evs + Send(t) == inner + [EndObject(|fields|)];
      StepEndObject(stack, MembersOf(fields));
    case NumberTree(n) =>
      BuildOne(evs, NumeralEvent(n));
      NumeralStep(stack, n);
    case _ =>
      BuildOne(evs, Send(t)[0]);
      LeafStep(stack, t);
  }

  lemma LeafStep(stack: seq<Value>, t: Tree)
    requires t.NullTree? || t.BoolTree? || t.StringTree?
    ensures |Send(t)| == 1 && Step(stack, Send(t)[0]) == Some(stack + [ValueOf(t)]) && [Send(t)[0]] == Send(t)
  {
    hide Paired, UnitsBytes;
  }

  lemma {:induction false} ItemsBuild(fl: Flags, evs: seq<Event>, stack: seq<Value>, items: seq<Item>)
    requires ItemsOk(fl, items) && Build(evs) == Some(stack)
    ensures Build(evs + SendItems(items)) == Some(stack + ValuesOf(items))
    decreases items, 0
  {
    hide Build, Send, ValueOf, TreeOk, Gap, SendItems, ValuesOf, ItemsOk;
    if items == [] {
      NoItems();
      assert evs + [] == evs && stack + [] == stack;
    } else {
      var t, rest := items[0].tree, items[1..];
      ItemsUnfold(fl, items);
      TreeBuilds(fl, evs, stack, t);
      ItemsBuild(fl, evs + Send(t), stack + [ValueOf(t)], rest);
      assert evs + SendItems(items) == evs + Send(t) + SendItems(rest);
      assert stack + ValuesOf(items) == stack + [ValueOf(t)] + ValuesOf(rest);
    }
  }

  lemma NoItems()
    ensures SendItems([]) == [] && ValuesOf([]) == [] && SendFields([]) == [] && Unpaired(MembersOf([])) == []
  {
  }

  lemma ItemsUnfold(fl: Flags, items: seq<Item>)
    requires items != [] && ItemsOk(fl, items)
    ensures TreeOk(fl, items[0].tree) && ItemsOk(fl, items[1..])
    ensures SendItems(items) == Send(items[0].tree) + SendItems(items[1..])
    ensures ValuesOf(items) == [ValueOf(items[0].tree)] + ValuesOf(items[1..])
  {
    hide Send, ValueOf, TreeOk, Gap;
  }

  lemma FieldsUnfold(fl: Flags, fields: seq<Field>)
    requires fields != [] && FieldsOk(fl, fields)
    ensures TreeOk(fl, fields[0].tree) && FieldsOk(fl, fields[1..])
    ensures SendFields(fields) == [Key(UnitsBytes(fields[0].name))] + Send(fields[0].tree) + SendFields(fields[1..])
    ensures MembersOf(fields) == [Member(UnitsBytes(fields[0].name), ValueOf(fields[0].tree))] + MembersOf(fields[1..])
  {
    hide Send, ValueOf, TreeOk, Gap, UnitsOk, UnitsBytes;
  }

  lemma {:induction false} FieldsBuild(fl: Flags, evs: seq<Event>, stack: seq<Value>, fields: seq<Field>)
    requires FieldsOk(fl, fields) && Build(evs) == Some(stack)
    ensures Build(evs + SendFields(fields)) == Some(stack + Unpaired(MembersOf(fields)))
    decreases fields, 0
  {
    hide Build, Step, Send, ValueOf, TreeOk, Gap, UnitsOk, UnitsBytes, SendFields, MembersOf, FieldsOk, Unpaired;
    if fields == [] {
      NoItems();
      assert evs + [] == evs && stack + [] == stack;
    } else {
      var f, rest := fields[0], fields[1..];
      FieldsUnfold(fl, fields);
      var name, v := UnitsBytes(f.name), ValueOf(f.tree);
      BuildOne(evs, Key(name));
      StepStart(stack);
      TreeBuilds(fl, evs + [Key(name)], stack + [StringValue(name)], f.tree);
      FieldsBuild(fl, evs + [Key(name)] + Send(f.tree), stack + [StringValue(name)] + [v], rest);
      assert evs + SendFields(fields) == evs + [Key(name)] + Send(f.tree) + SendFields(rest);
      UnpairedFirst(Member(name, v), MembersOf(rest));
      assert stack + ([StringValue(name), v] + Unpaired(MembersOf(rest)))
          == stack + [StringValue(name)] + [v] + Unpaired(MembersOf(rest));
    }
  }

  lemma UnpairedFirst(m: Member, ms: seq<Member>)
    ensures Unpaired([m] + ms) == [StringValue(m.name), m.value] + Unpaired(ms)
  {
    assert ([m] + ms)[1..] == ms;
  }

  /** Reading an accepted text builds the value the text denotes. */
  lemma DocumentDenotes(fl: Flags, s: Text) returns (before: Text, t: Tree, after: Text)
    requires Grammar.ParseDocument(fl, s).Parsed?
    ensures var r := Grammar.ParseDocument(fl, s);
      r.pos <= |s| && IsText(fl, s[..r.pos], before, t, after) && Build(r.events) == Some([ValueOf(t)])
  {
    hide Grammar.ParseDocument, Build, Send, ValueOf, TreeOk;
    before, t, after := JsonGrammar.DocumentSound(fl, s);
    DocumentParse.BuildNothing();
    TreeBuilds(fl, [], [], t);
    assert [] + Send(t) == Send(t) && [] + [ValueOf(t)] == [ValueOf(t)];
  }
}
