/** Documents as handlers: `Accept` sends the events of a value, and the stack of handlers rebuilds it. */
module Document {
  import opened Bytes
  import opened Json

  // ---- the events of a value ----

  /** `GenericValue::Accept`. */
  function Accept(v: Value): seq<Event>
    decreases v, 1
  {
    match v
    case NullValue => [Null]
    case BoolValue(b) => [Bool(b)]
    case NumberValue(n) => [NumberEvent(n)]
    case DoubleValue(numeral) => [Double(numeral)]
    case StringValue(str) => [String(str)]
    case ArrayValue(es) => [StartArray] + AcceptElements(es) + [EndArray(|es|)]
    case ObjectValue(ms) => [StartObject] + AcceptMembers(ms) + [EndObject(|ms|)]
  }

  function AcceptElements(es: seq<Value>): seq<Event>
    decreases es, 0
  {
    if es == [] then [] else Accept(es[0]) + AcceptElements(es[1..])
  }

  function AcceptMembers(ms: seq<Member>): seq<Event>
    decreases ms, 0
  {
    if ms == [] then [] else [Key(ms[0].name)] + Accept(ms[0].value) + AcceptMembers(ms[1..])
  }

  // ---- the stack machine of the handlers ----

  /** The members held as name and value on the stack. */
  function Paired(stack: seq<Value>): (r: Option<seq<Member>>)
    ensures r.Some? ==> 2 * |r.value| == |stack|
  {
    if stack == [] then Some([])
    else if |stack| == 1 || !stack[0].StringValue? then None
    else
      match Paired(stack[2..])
      case None => None
      case Some(ms) => Some([Member(stack[0].str, stack[1])] + ms)
  }

  /** One handler call.  Popping below the open container, or a name that is no string, has no outcome. */
  function Step(stack: seq<Value>, ev: Event): Option<seq<Value>> {
    match ev
    case Null => Some(stack + [NullValue])
    case Bool(b) => Some(stack + [BoolValue(b)])
    case Int(n) => Some(stack + [NumberValue(n)])
    case Uint(n) => Some(stack + [NumberValue(n)])
    case Int64(n) => Some(stack + [NumberValue(n)])
    case Uint64(n) => Some(stack + [NumberValue(n)])
    case Double(numeral) => Some(stack + [DoubleValue(numeral)])
    case String(str) => Some(stack + [StringValue(str)])
    case Key(name) => Some(stack + [StringValue(name)])
    case StartObject => Some(stack + [ObjectValue([])])
    case StartArray => Some(stack + [ArrayValue([])])
    case EndObject(n) =>
      if |stack| < 2 * n + 1 || stack[|stack| - 2 * n - 1] != ObjectValue([]) then None
      else
        (match Paired(stack[|stack| - 2 * n..])
         case None => None
         case Some(ms) => Some(stack[..|stack| - 2 * n - 1] + [ObjectValue(ms)]))
    case EndArray(n) =>
      if |stack| < n + 1 || stack[|stack| - n - 1] != ArrayValue([]) then None
      else Some(stack[..|stack| - n - 1] + [ArrayValue(stack[|stack| - n..])])
  }

  /** The stack after a whole sequence of calls. */
  function Build(evs: seq<Event>): Option<seq<Value>> {
    if evs == [] then Some([])
    else
      Then(Build(evs[..|evs| - 1]), evs[|evs| - 1])
  }

  function Then(stack: Option<seq<Value>>, ev: Event): Option<seq<Value>> {
    match stack
    case None => None
    case Some(stack) => Step(stack, ev)
  }

  lemma BuildOne(evs: seq<Event>, ev: Event)
    ensures Build(evs + [ev]) == Then(Build(evs), ev)
  {
    var all := evs + [ev];
    assert all[..|all| - 1] == evs && all[|all| - 1] == ev;
  }

  // ---- rebuilding ----

  function Unpaired(ms: seq<Member>): (stack: seq<Value>)
    ensures |stack| == 2 * |ms|
  {
    if ms == [] then [] else [StringValue(ms[0].name), ms[0].value] + Unpaired(ms[1..])
  }

  lemma {:induction false} PairedUnpaired(ms: seq<Member>)
    ensures Paired(Unpaired(ms)) == Some(ms)
  {
    if ms != [] {
      PairedUnpaired(ms[1..]);
      var stack := Unpaired(ms);
      assert stack[2..] == Unpaired(ms[1..]);
      assert stack[0] == StringValue(ms[0].name) && stack[1] == ms[0].value;
      assert [Member(stack[0].str, stack[1])] + ms[1..] == ms;
    }
  }

  lemma StepEndArray(stack: seq<Value>, es: seq<Value>)
    ensures Step(stack + [ArrayValue([])] + es, EndArray(|es|)) == Some(stack + [ArrayValue(es)])
  {
    var full := stack + [ArrayValue([])] + es;
    assert full[|full| - |es|..] == es && full[..|full| - |es| - 1] == stack;
  }

  lemma StepEndObject(stack: seq<Value>, ms: seq<Member>)
    ensures Step(stack + [ObjectValue([])] + Unpaired(ms), EndObject(|ms|)) == Some(stack + [ObjectValue(ms)])
  {
    hide Paired, Unpaired;
    var full := stack + [ObjectValue([])] + Unpaired(ms);
    assert full[|full| - 2 * |ms|..] == Unpaired(ms) && full[..|full| - 2 * |ms| - 1] == stack;
    PairedUnpaired(ms);
  }

  lemma StepScalar(stack: seq<Value>, v: Value)
    requires !v.ArrayValue? && !v.ObjectValue?
    ensures |Accept(v)| == 1 && Step(stack, Accept(v)[0]) == Some(stack + [v])
  {
    hide Paired, AcceptElements, AcceptMembers, NumberEvent;
    match v
    case NumberValue(n) => NumberStep(stack, n);
    case _ =>
  }

  lemma NumberStep(stack: seq<Value>, n: int)
    ensures Step(stack, NumberEvent(n)) == Some(stack + [NumberValue(n)])
  {
    hide Paired;
  }

  /** Running the events of a value on the handlers pushes that value and nothing else. */
  lemma {:induction false} Rebuilds(evs: seq<Event>, stack: seq<Value>, v: Value)
    requires Build(evs) == Some(stack)
    ensures Build(evs + Accept(v)) == Some(stack + [v])
    decreases v, 1
  {
    hide Build, Step, AcceptElements, AcceptMembers, Unpaired;
    match v
    case ArrayValue(es) =>
      BuildOne(evs, StartArray);
      assert Step(stack, StartArray) == Some(stack + [ArrayValue([])]) by { StepStart(stack); }
      RebuildsElements(evs + [StartArray], stack + [ArrayValue([])], es);
      var inner := evs + [StartArray] + AcceptElements(es);
      BuildOne(inner, EndArray(|es|));
      assert evs + Accept(v) == inner + [EndArray(|es|)];
      StepEndArray(stack, es);
    case ObjectValue(ms) =>
      BuildOne(evs, StartObject);
      assert Step(stack, StartObject) == Some(stack + [ObjectValue([])]) by { StepStart(stack); }
      RebuildsMembers(evs + [StartObject], stack + [ObjectValue([])], ms);
      var inner := evs + [StartObject] + AcceptMembers(ms);
      BuildOne(inner, EndObject(|ms|));
      assert evs + Accept(v) == inner + [EndObject(|ms|)];
      StepEndObject(stack, ms);
    case _ =>
      StepScalar(stack, v);
      BuildOne(evs, Accept(v)[0]);
      assert [Accept(v)[0]] == Accept(v);
  }

  lemma StepStart(stack: seq<Value>)
    ensures Step(stack, StartArray) == Some(stack + [ArrayValue([])])
    ensures Step(stack, StartObject) == Some(stack + [ObjectValue([])])
    ensures forall name: Text :: Step(stack, Key(name)) == Some(stack + [StringValue(name)])
  {
  }

  lemma {:induction false} RebuildsElements(evs: seq<Event>, stack: seq<Value>, es: seq<Value>)
    requires Build(evs) == Some(stack)
    ensures Build(evs + AcceptElements(es)) == Some(stack + es)
    decreases es, 0
  {
    hide Build, Accept;
    if es == [] {
      assert evs + AcceptElements(es) == evs && stack + es == stack;
    } else {
      Rebuilds(evs, stack, es[0]);
      RebuildsElements(evs + Accept(es[0]), stack + [es[0]], es[1..]);
      assert evs + AcceptElements(es) == evs + Accept(es[0]) + AcceptElements(es[1..]);
      assert stack + es == stack + [es[0]] + es[1..];
    }
  }

  lemma {:induction false} RebuildsMembers(evs: seq<Event>, stack: seq<Value>, ms: seq<Member>)
    requires Build(evs) == Some(stack)
    ensures Build(evs + AcceptMembers(ms)) == Some(stack + Unpaired(ms))
    decreases ms, 0
  {
    hide Build, Step, Accept;
    if ms == [] {
      assert evs + AcceptMembers(ms) == evs && stack + Unpaired(ms) == stack;
    } else {
      var m := ms[0];
      var named := stack + [StringValue(m.name)];
      BuildOne(evs, Key(m.name));
      StepStart(stack);
      Rebuilds(evs + [Key(m.name)], named, m.value);
      RebuildsMembers(evs + [Key(m.name)] + Accept(m.value), named + [m.value], ms[1..]);
      assert evs + AcceptMembers(ms) == evs + [Key(m.name)] + Accept(m.value) + AcceptMembers(ms[1..]);
      assert stack + Unpaired(ms) == named + [m.value] + Unpaired(ms[1..]);
    }
  }
}
