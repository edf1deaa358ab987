/** `GenericDocument`: a stack of values that the handler calls change in place, and the root taken from it. */
module Dom {
  import opened Bytes
  import opened Json
  import opened Document
  import DocumentParse
  import Grammar
  import Reader

  class GenericDocument {
    var stack: seq<Value>
    var root: Value
    var parseResult: Reader.ParseResult

    constructor ()
      ensures stack == [] && root == NullValue && parseResult == Reader.Ok
    {
      stack, root, parseResult := [], NullValue, Reader.Ok;
    }

    method Push(v: Value)
      modifies this`stack
      ensures stack == old(stack) + [v]
    {
      stack := stack + [v];
    }

    /** The top `n` values, taken off. */
    method Pop(n: nat) returns (top: seq<Value>)
      requires n <= |stack|
      modifies this`stack
      ensures stack + top == old(stack) && |top| == n
    {
      top := stack[|stack| - n..];
      stack := stack[..|stack| - n];
    }

    method EndArray(elementCount: nat)
      requires Step(stack, Event.EndArray(elementCount)).Some?
      modifies this`stack
      ensures Some(stack) == Step(old(stack), Event.EndArray(elementCount))
    {
      var elements := Pop(elementCount);
      assert old(stack)[|old(stack)| - elementCount..] == elements;
      ghost var k := |stack| - 1;
      stack := stack[|stack| - 1 := ArrayValue(elements)];
      assert stack == old(stack)[..k] + [ArrayValue(elements)];
    }

    /** Pops the members as pairs of values and closes the object below them. */
    method EndObject(memberCount: nat)
      requires Step(stack, Event.EndObject(memberCount)).Some?
      modifies this`stack
      ensures Some(stack) == Step(old(stack), Event.EndObject(memberCount))
    {
      hide Paired;
      var values := Pop(2 * memberCount);
      assert old(stack)[|old(stack)| - 2 * memberCount..] == values;
      var members := Members(values);
      ghost var k := |stack| - 1;
      stack := stack[|stack| - 1 := ObjectValue(members)];
      assert stack == old(stack)[..k] + [ObjectValue(members)];
    }

    /** The values of an object's members, reinterpreted as members. */
    method Members(values: seq<Value>) returns (members: seq<Member>)
      requires Paired(values).Some?
      ensures Paired(values) == Some(members)
    {
      members := [];
      var i := 0;
      while i < |values|
        invariant i <= |values| && Paired(values[i..]).Some?
        invariant Paired(values).value == members + Paired(values[i..]).value
      {
        assert values[i..][2..] == values[i + 2..];
        ghost var rest := Paired(values[i + 2..]).value;
        assert Paired(values[i..]).value == [Member(values[i].str, values[i + 1])] + rest;
        members := members + [Member(values[i].str, values[i + 1])];
        i := i + 2;
      }
      assert values[i..] == [] && Paired([]) == Some([]);
      assert members + [] == members;
    }

    /** The handler call of an event. */
    method Handle(ev: Event)
      requires Step(stack, ev).Some?
      modifies this`stack
      ensures Some(stack) == Step(old(stack), ev)
    {
      match ev
      case Null => Push(NullValue);
      case Bool(b) => Push(BoolValue(b));
      case Int(i) => Push(NumberValue(i));
      case Uint(u) => Push(NumberValue(u));
      case Int64(i64) => Push(NumberValue(i64));
      case Uint64(u64) => Push(NumberValue(u64));
      case Double(numeral) => Push(DoubleValue(numeral));
      case String(str) => Push(StringValue(str));
      case Key(name) => Push(StringValue(name));
      case StartObject => Push(ObjectValue([]));
      case StartArray => Push(ArrayValue([]));
      case EndObject(n) => EndObject(n);
      case EndArray(n) => EndArray(n);
    }

    /** Receives a sequence of calls. */
    method HandleAll(evs: seq<Event>)
      requires stack == [] && Build(evs).Some?
      modifies this`stack
      ensures Some(stack) == Build(evs)
    {
      hide Step;
      for i := 0 to |evs|
        invariant Build(evs[..i]) == Some(stack)
      {
        PrefixBuilds(evs, i + 1);
        assert evs[..i + 1] == evs[..i] + [evs[i]];
        BuildOne(evs[..i], evs[i]);
        Handle(evs[i]);
      }
      assert evs[..|evs|] == evs;
    }

    /** `ParseStream`: an accepted text leaves exactly one value on the stack, which becomes the root. */
    method ParseStream(fl: Flags, text: Text)
      requires stack == []
      modifies this
      ensures var r := Grammar.ParseDocument(fl, text);
        && (r.Failed? ==> parseResult == Reader.Error(r.code, r.offset) && root == old(root))
        && (r.Parsed? ==> parseResult == Reader.Ok && Build(r.events) == Some([root]))
      ensures stack == []
    {
      hide Build, Grammar.ParseDocument;
      ghost var v := DocumentParse.OneRoot(fl, text);
      var reader := new Reader.GenericReader();
      var s := new Reader.StringStream(text);
      var calls := new Reader.Handler();
      reader.Parse(fl, s, calls);
      HandleAll(calls.events);
      parseResult := reader.parseResult;
      if parseResult.Ok? {
        assert |stack| == 1;
        var top := Pop(1);
        root := top[0];
        assert [root] == top == [] + top;
      }
      stack := [];
    }
  }

  lemma {:induction false} PrefixBuilds(evs: seq<Event>, n: nat)
    requires n <= |evs| && Build(evs).Some?
    ensures Build(evs[..n]).Some?
    decreases |evs| - n
  {
    hide Step;
    if n == |evs| {
      assert evs[..n] == evs;
    } else {
      PrefixBuilds(evs, n + 1);
      assert evs[..n + 1][..n] == evs[..n];
    }
  }
}
