/** Reading a document: every accepted text leaves exactly one value on the handlers' stack. */
module DocumentParse {
  import opened Bytes
  import opened Json
  import opened Grammar
  import opened Document
  import Numbers = NumberSyntax
  import Strings = StringSyntax

  /** A production added exactly one value, or failed with all its calls in order. */
  predicate AddsOne(r: Parsed, stack: seq<Value>, v: Value) {
    if r.Parsed? then Build(r.events) == Some(stack + [v]) else Build(r.events).Some?
  }

  lemma ScalarBuilds(fl: Flags, s: Text, p: nat, evs: seq<Event>, stack: seq<Value>) returns (v: Value)
    requires p <= |s| && Build(evs) == Some(stack)
    ensures AddsOne(ParseScalar(fl, s, p, evs), stack, v)
  {
    hide Build, Step;
    v := NullValue;
    var r := ParseScalar(fl, s, p, evs);
    if r.Parsed? {
      var ev := r.events[|evs|];
      assert r.events == evs + [ev] && !ev.StartObject? && !ev.StartArray? && !ev.EndObject? && !ev.EndArray? &&
          !ev.Key? by {
        ScalarEvent(fl, s, p, evs);
      }
      BuildOne(evs, ev);
      v := ScalarStep(stack, ev);
    }
  }

  lemma ScalarStep(stack: seq<Value>, ev: Event) returns (v: Value)
    requires !ev.StartObject? && !ev.StartArray? && !ev.EndObject? && !ev.EndArray?
    ensures Step(stack, ev) == Some(stack + [v])
  {
    match ev
    case Null => v := NullValue;
    case Bool(b) => v := BoolValue(b);
    case Int(n) => v := NumberValue(n);
    case Uint(n) => v := NumberValue(n);
    case Int64(n) => v := NumberValue(n);
    case Uint64(n) => v := NumberValue(n);
    case Double(t) => v := DoubleValue(t);
    case String(t) => v := StringValue(t);
    case Key(t) => v := StringValue(t);
  }

  lemma ScalarEvent(fl: Flags, s: Text, p: nat, evs: seq<Event>)
    requires p <= |s| && ParseScalar(fl, s, p, evs).Parsed?
    ensures var e := ParseScalar(fl, s, p, evs).events;
      |e| == |evs| + 1 && e == evs + [e[|evs|]]
      && var ev := e[|evs|]; !ev.StartObject? && !ev.StartArray? && !ev.EndObject? && !ev.EndArray? && !ev.Key?
  {
    hide Numbers.ParseNumber, Strings.ParseString, Matched;
  }

  /** A value that is read is one value on the stack. */
  lemma {:induction false} ValueBuilds(fl: Flags, s: Text, p: nat, evs: seq<Event>, stack: seq<Value>)
    returns (v: Value)
    requires p <= |s| && Build(evs) == Some(stack)
    ensures AddsOne(ParseValue(fl, s, p, evs), stack, v)
    decreases |s| - p, 2
  {
    hide Build, ParseArray, ParseObject, ParseScalar;
    if Peek(s, p) == LBRACKET {
      v := ArrayBuilds(fl, s, p, evs, stack);
    } else if Peek(s, p) == LBRACE {
      v := ObjectBuilds(fl, s, p, evs, stack);
    } else {
      v := ScalarBuilds(fl, s, p, evs, stack);
    }
  }

  lemma {:induction false} ArrayBuilds(fl: Flags, s: Text, p: nat, evs: seq<Event>, stack: seq<Value>)
    returns (v: Value)
    requires p < |s| && Build(evs) == Some(stack)
    ensures AddsOne(ParseArray(fl, s, p, evs), stack, v)
    decreases |s| - p, 1
  {
    hide Build, Step, Skip, ParseElements;
    v := ArrayValue([]);
    var evs' := evs + [StartArray];
    BuildOne(evs, StartArray);
    StepStart(stack);
    match Skip(fl, s, p + 1) {
      case Unterminated(o) =>
      case To(q) =>
        if Peek(s, q) == RBRACKET {
          BuildOne(evs', EndArray(0));
          StepEndArray(stack, []);
          assert stack + [ArrayValue([])] + [] == stack + [ArrayValue([])];
        } else {
          var es := ElementsBuild(fl, s, q, evs', stack, []);
          v := ArrayValue(es);
        }
    }
  }

  /** The element loop closes the array over the elements it found: its count is theirs. */
  lemma {:induction false} ElementsBuild(fl: Flags, s: Text, p: nat, evs: seq<Event>, stack: seq<Value>,
      done: seq<Value>) returns (es: seq<Value>)
    requires p <= |s| && Build(evs) == Some(stack + [ArrayValue([])] + done)
    ensures AddsOne(ParseElements(fl, s, p, |done|, evs), stack, ArrayValue(es))
    decreases |s| - p, 3
  {
    hide Build, Step, Skip, ParseValue;
    var open := stack + [ArrayValue([])];
    var v := ValueBuilds(fl, s, p, evs, open + done);
    es := done + [v];
    assert open + done + [v] == open + es;
    var r := ParseValue(fl, s, p, evs);
    if r.Parsed? {
      BuildOne(r.events, EndArray(|es|));
      StepEndArray(stack, es);
      match Skip(fl, s, r.pos) {
        case Unterminated(o) =>
        case To(q) =>
          if Peek(s, q) == COMMA {
            match Skip(fl, s, q + 1) {
              case Unterminated(o) =>
              case To(q) =>
                if !(fl.trailingCommas && Peek(s, q) == RBRACKET) {
                  es := ElementsBuild(fl, s, q, r.events, stack, es);
                }
            }
          }
      }
    }
  }

  lemma {:induction false} ObjectBuilds(fl: Flags, s: Text, p: nat, evs: seq<Event>, stack: seq<Value>)
    returns (v: Value)
    requires p < |s| && Build(evs) == Some(stack)
    ensures AddsOne(ParseObject(fl, s, p, evs), stack, v)
    decreases |s| - p, 1
  {
    hide Build, Step, Skip, ParseMembers;
    v := ObjectValue([]);
    var evs' := evs + [StartObject];
    BuildOne(evs, StartObject);
    StepStart(stack);
    match Skip(fl, s, p + 1) {
      case Unterminated(o) =>
      case To(q) =>
        assert stack + [ObjectValue([])] + Unpaired([]) == stack + [ObjectValue([])];
        if Peek(s, q) == RBRACE {
          BuildOne(evs', EndObject(0));
          StepEndObject(stack, []);
        } else {
          var ms := MembersBuild(fl, s, q, evs', stack, []);
          v := ObjectValue(ms);
        }
    }
  }

  lemma NameBuilds(fl: Flags, s: Text, p: nat, evs: seq<Event>, stack: seq<Value>) returns (name: Text)
    requires p <= |s| && Build(evs) == Some(stack)
    ensures AddsOne(ParseName(fl, s, p, evs), stack, StringValue(name))
  {
    hide Build, Step, Skip;
    name := [];
    if Peek(s, p) == QUOTE {
      var r := ParseString(fl, s, p, true, evs);
      if r.Parsed? {
        name := r.events[|evs|].name;
        BuildOne(evs, Key(name));
        StepStart(stack);
      }
    }
  }

  lemma {:induction false} UnpairedSnoc(ms: seq<Member>, m: Member)
    ensures Unpaired(ms + [m]) == Unpaired(ms) + [StringValue(m.name), m.value]
  {
    if ms == [] {
      assert ms + [m] == [m] && [m][1..] == [];
      assert Unpaired([m]) == [StringValue(m.name), m.value] + Unpaired([]);
    } else {
      UnpairedSnoc(ms[1..], m);
      assert (ms + [m])[1..] == ms[1..] + [m] && (ms + [m])[0] == ms[0];
    }
  }

  /** The member loop closes the object over the members it found: its count is theirs. */
  lemma {:induction false} MembersBuild(fl: Flags, s: Text, p: nat, evs: seq<Event>, stack: seq<Value>,
      done: seq<Member>) returns (ms: seq<Member>)
    requires p <= |s| && Build(evs) == Some(stack + [ObjectValue([])] + Unpaired(done))
    ensures AddsOne(ParseMembers(fl, s, p, |done|, evs), stack, ObjectValue(ms))
    decreases |s| - p, 3
  {
    hide Build, Step, Skip, ParseValue, ParseName, Unpaired;
    var open := stack + [ObjectValue([])];
    var name := NameBuilds(fl, s, p, evs, open + Unpaired(done));
    ms := done;
    var k := ParseName(fl, s, p, evs);
    if k.Parsed? {
      var v := ValueBuilds(fl, s, k.pos, k.events, open + Unpaired(done) + [StringValue(name)]);
      ms := done + [Member(name, v)];
      UnpairedSnoc(done, Member(name, v));
      assert open + Unpaired(done) + [StringValue(name)] + [v] == open + Unpaired(ms);
      var r := ParseValue(fl, s, k.pos, k.events);
      if r.Parsed? {
        BuildOne(r.events, EndObject(|ms|));
        StepEndObject(stack, ms);
        match Skip(fl, s, r.pos) {
          case Unterminated(o) =>
          case To(q) =>
            if Peek(s, q) == COMMA {
              match Skip(fl, s, q + 1) {
                case Unterminated(o) =>
                case To(q) =>
                  if !(fl.trailingCommas && Peek(s, q) == RBRACE) {
                    ms := MembersBuild(fl, s, q, r.events, stack, ms);
                  }
              }
            }
        }
      }
    }
  }

  /** Every accepted text leaves one root. */
  lemma OneRoot(fl: Flags, s: Text) returns (v: Value)
    ensures AddsOne(ParseDocument(fl, s), [], v)
  {
    hide Build, Skip, ParseValue;
    v := NullValue;
    match Skip(fl, s, 0) {
      case Unterminated(o) =>
        BuildNothing();
      case To(p) =>
        BuildNothing();
        v := ValueBuilds(fl, s, p, [], []);
        assert [] + [v] == [v];
    }
  }

  lemma BuildNothing()
    ensures Build([]) == Some([])
  {
  }
}
