/** The schema validator's document path: which value its character stack points at while it validates. */
module SchemaPath {
  import opened Bytes
  import opened Json
  import opened Document
  import PointerText
  import WriterText
  import Numbers = NumberSyntax

  /** The part of a schema context that tracks the position inside an array. */
  datatype Context = Context(inArray: bool, arrayElementIndex: nat)

  /** The schema stack and the document stack. */
  datatype State = State(contexts: seq<Context>, doc: Text)

  /** What `AppendToken` pushes behind the slash. */
  function Escape(name: Text): Text {
    PointerText.PlainPrints(name, 0);
    PointerText.PrintName(false, name, 0).value
  }

  function AppendToken(doc: Text, token: Text): Text {
    doc + [SLASH] + token
  }

  /** The last token and its slash, popped. */
  function PopToken(doc: Text): Text {
    if doc == [] then []
    else if doc[|doc| - 1] == SLASH then doc[..|doc| - 1]
    else PopToken(doc[..|doc| - 1])
  }

  function Top(st: State): Context
    requires st.contexts != []
  {
    st.contexts[|st.contexts| - 1]
  }

  function WithTop(st: State, c: Context): State
    requires st.contexts != []
  {
    st.(contexts := st.contexts[|st.contexts| - 1 := c])
  }

  /** `BeginValue`: an element of an array appends its index; every value pushes a context. */
  function Begin(st: State): (r: State)
    ensures r.contexts != []
  {
    var counted :=
      if st.contexts != [] && Top(st).inArray then
        WithTop(st, Top(st).(arrayElementIndex := Top(st).arrayElementIndex + 1))
          .(doc := AppendToken(st.doc, WriterText.Digits(Top(st).arrayElementIndex)))
      else st;
    counted.(contexts := counted.contexts + [Context(false, 0)])
  }

  /** `EndValue`. */
  function End(st: State): State {
    if st.contexts == [] then st
    else State(st.contexts[..|st.contexts| - 1], PopToken(st.doc))
  }

  predicate BeginsValue(ev: Event) {
    !ev.Key? && !ev.EndObject? && !ev.EndArray?
  }

  predicate EndsValue(ev: Event) {
    !ev.Key? && !ev.StartObject? && !ev.StartArray?
  }

  /** The state in which the schema judges an event. */
  function Judged(st: State, ev: Event): State {
    if ev.Key? then st.(doc := AppendToken(st.doc, Escape(ev.name)))
    else if BeginsValue(ev) then Begin(st)
    else st
  }

  /** The state after an event that passed. */
  function Passed(st: State, ev: Event): State {
    var j := Judged(st, ev);
    if ev.StartArray? then WithTop(j, Context(true, 0))
    else if EndsValue(ev) then End(j)
    else j
  }

  /** Where the document stack points while each of the events is judged. */
  function Pointed(st: State, evs: seq<Event>): (r: seq<Text>)
    ensures |r| == |evs|
    decreases |evs|
  {
    if evs == [] then [] else [Judged(st, evs[0]).doc] + Pointed(Passed(st, evs[0]), evs[1..])
  }

  function Run(st: State, evs: seq<Event>): State
    decreases |evs|
  {
    if evs == [] then st else Run(Passed(st, evs[0]), evs[1..])
  }

  // ---- the same, in place ----

  class Validator {
    var schemaStack: seq<Context>
    var documentStack: Text
    var valid: bool

    constructor ()
      ensures Now() == State([], []) && valid
    {
      schemaStack, documentStack, valid := [], [], true;
    }

    function Now(): State
      reads this
    {
      State(schemaStack, documentStack)
    }

    /** The token loop: `~` and `/` take two characters. */
    method AppendName(name: Text)
      modifies this`documentStack
      ensures documentStack == AppendToken(old(documentStack), Escape(name))
    {
      documentStack := documentStack + [SLASH];
      ghost var from := documentStack;
      PointerText.PlainPrints(name, 0);
      ghost var done: Text := [];
      for i := 0 to |name|
        invariant documentStack == from + done
        invariant PointerText.PrintName(false, name, i).Some?
        invariant Escape(name) == done + PointerText.PrintName(false, name, i).value
      {
        var piece: Text :=
          if name[i] == TILDE then [TILDE, ZERO] else if name[i] == SLASH then [TILDE, 0x31] else [name[i]];
        PointerText.PlainPrints(name, i + 1);
        ghost var rest := PointerText.PrintName(false, name, i + 1).value;
        assert done + (piece + rest) == (done + piece) + rest;
        documentStack := documentStack + piece;
        done := done + piece;
      }
      assert done + [] == done;
    }

    /** `Pop` until a slash has been popped or nothing is left. */
    method RemoveToken()
      modifies this`documentStack
      ensures documentStack == PopToken(old(documentStack))
    {
      while documentStack != []
        invariant PopToken(documentStack) == PopToken(old(documentStack))
        decreases |documentStack|
      {
        var c := documentStack[|documentStack| - 1];
        documentStack := documentStack[..|documentStack| - 1];
        if c == SLASH {
          return;
        }
      }
    }

    method BeginValue()
      modifies this
      ensures Now() == Begin(old(Now())) && valid == old(valid)
    {
      hide WriterText.Digits;
      if schemaStack != [] {
        var c := schemaStack[|schemaStack| - 1];
        if c.inArray {
          documentStack := documentStack + [SLASH] + WriterText.Digits(c.arrayElementIndex);
          schemaStack := schemaStack[|schemaStack| - 1 := c.(arrayElementIndex := c.arrayElementIndex + 1)];
        }
      }
      schemaStack := schemaStack + [Context(false, 0)];
    }

    method EndValue()
      requires schemaStack != []
      modifies this
      ensures Now() == End(old(Now())) && valid == old(valid)
    {
      hide PopToken;
      schemaStack := schemaStack[..|schemaStack| - 1];
      RemoveToken();
    }

    /**
     One handler call.  `verdict` is what the current schema says of the event; a call on a validator
     that is no longer valid changes nothing, and a rejected event leaves the stack pointing at the
     value it was rejected for.
     */
    method Handle(ev: Event, verdict: bool) returns (ok: bool)
      requires !BeginsValue(ev) && !ev.Key? ==> schemaStack != []
      modifies this
      ensures ok == (old(valid) && verdict) == valid
      ensures !old(valid) ==> Now() == old(Now())
      ensures old(valid) && !verdict ==> documentStack == Judged(old(Now()), ev).doc
      ensures ok ==> Now() == Passed(old(Now()), ev)
    {
      hide Escape, PopToken, WriterText.Digits;
      if !valid {
        return false;
      }
      if ev.Key? {
        AppendName(ev.name);
      } else if BeginsValue(ev) {
        BeginValue();
      }
      if !verdict {
        valid := false;
        return false;
      }
      if ev.StartArray? {
        schemaStack := schemaStack[|schemaStack| - 1 := Context(true, 0)];
      } else if EndsValue(ev) {
        EndValue();
      }
      ok := true;
    }
  }

  // ---- where it should point ----

  /** The pointer string of a list of names. */
  function Doc(path: seq<Text>): Text {
    PointerText.PlainTokensPrint(path);
    PointerText.PrintTokens(false, path).value
  }

  function Docs(paths: seq<seq<Text>>): (r: seq<Text>)
    ensures |r| == |paths|
  {
    seq(|paths|, i requires 0 <= i < |paths| => Doc(paths[i]))
  }

  /** The location of the value each event of `Accept` belongs to, for a value at `path`. */
  function Places(v: Value, path: seq<Text>): seq<seq<Text>>
    decreases v, 1
  {
    match v
    case ArrayValue(es) => [path] + ElementPlaces(es, 0, path) + [path]
    case ObjectValue(ms) => [path] + MemberPlaces(ms, path) + [path]
    case _ => [path]
  }

  function ElementPlaces(es: seq<Value>, i: nat, path: seq<Text>): seq<seq<Text>>
    decreases es, 0
  {
    if es == [] then []
    else Places(es[0], path + [WriterText.Digits(i)]) + ElementPlaces(es[1..], i + 1, path)
  }

  function MemberPlaces(ms: seq<Member>, path: seq<Text>): seq<seq<Text>>
    decreases ms, 0
  {
    if ms == [] then []
    else
      var place := path + [ms[0].name];
      [place] + Places(ms[0].value, place) + MemberPlaces(ms[1..], path)
  }

  // ---- tokens ----

  lemma {:induction false} DocMore(path: seq<Text>, name: Text)
    ensures Doc(path + [name]) == AppendToken(Doc(path), Escape(name))
  {
    hide PointerText.PrintName;
    PointerText.PlainTokensPrint(path + [name]);
    PointerText.PlainTokensPrint(path);
    PointerText.PlainPrints(name, 0);
    if path == [] {
      assert [] + [name] == [name] && [name][1..] == [];
    } else {
      assert (path + [name])[0] == path[0] && (path + [name])[1..] == path[1..] + [name];
      DocMore(path[1..], name);
      PointerText.PlainPrints(path[0], 0);
    }
  }

  /** An escaped name holds no slash. */
  lemma {:induction false} EscapedHasNoSlash(name: Text, j: nat)
    requires j <= |name|
    ensures PointerText.PrintName(false, name, j).Some?
    ensures forall k :: 0 <= k < |PointerText.PrintName(false, name, j).value| ==>
      PointerText.PrintName(false, name, j).value[k] != SLASH
    decreases |name| - j
  {
    if j < |name| {
      EscapedHasNoSlash(name, j + 1);
    }
  }

  lemma {:induction false} PopAppended(doc: Text, token: Text)
    requires forall k :: 0 <= k < |token| ==> token[k] != SLASH
    ensures PopToken(AppendToken(doc, token)) == doc
  {
    var all := AppendToken(doc, token);
    if token == [] {
      assert all[|all| - 1] == SLASH && all[..|all| - 1] == doc;
    } else {
      var front := token[..|token| - 1];
      assert all[..|all| - 1] == AppendToken(doc, front) && all[|all| - 1] == token[|token| - 1];
      PopAppended(doc, front);
    }
  }

  /** Popping to the slash takes off exactly the last token. */
  lemma PopMore(path: seq<Text>, name: Text)
    ensures PopToken(Doc(path + [name])) == Doc(path)
  {
    hide PopToken, Doc, PointerText.PrintName;
    DocMore(path, name);
    EscapedHasNoSlash(name, 0);
    PopAppended(Doc(path), Escape(name));
  }

  lemma {:induction false} DigitsPlain(t: Text, j: nat)
    requires Numbers.AllDigits(t) && j <= |t|
    ensures PointerText.PrintName(false, t, j) == Some(t[j..])
    decreases |t| - j
  {
    if j < |t| {
      DigitsPlain(t, j + 1);
      assert t[j..] == [t[j]] + t[j + 1..];
    } else {
      assert t[j..] == [];
    }
  }

  lemma {:induction false} DigitsAreDigits(n: nat)
    ensures Numbers.AllDigits(WriterText.Digits(n))
  {
    if n >= 10 {
      DigitsAreDigits(n / 10);
    }
  }

  /** Indices need no escaping. */
  lemma IndexToken(path: seq<Text>, i: nat)
    ensures Doc(path + [WriterText.Digits(i)]) == AppendToken(Doc(path), WriterText.Digits(i))
  {
    hide Doc, WriterText.Digits, PointerText.PrintName;
    DocMore(path, WriterText.Digits(i));
    DigitsAreDigits(i);
    DigitsPlain(WriterText.Digits(i), 0);
    assert WriterText.Digits(i)[0..] == WriterText.Digits(i);
  }

  // ---- the invariant ----

  /** The stacks just before the events of the value at `path`. */
  predicate Before(st: State, path: seq<Text>) {
    if st.contexts == [] then path == [] && st.doc == Doc([])
    else if Top(st).inArray then
      path != [] && path[|path| - 1] == WriterText.Digits(Top(st).arrayElementIndex) &&
          st.doc == Doc(path[..|path| - 1])
    else path != [] && st.doc == Doc(path)
  }

  /** The stacks just after them. */
  function After(st: State, path: seq<Text>): State {
    if st.contexts == [] then st
    else
      var counted :=
        if Top(st).inArray then WithTop(st, Top(st).(arrayElementIndex := Top(st).arrayElementIndex + 1)) else st;
      if path == [] then counted else counted.(doc := Doc(path[..|path| - 1]))
  }

  /** At the beginning of a value the document stack is its pointer. */
  lemma BeginPoints(st: State, path: seq<Text>)
    requires Before(st, path)
    ensures Begin(st).doc == Doc(path)
    ensures End(Begin(st)) == After(st, path)
    ensures Begin(st).contexts == After(st, path).contexts + [Context(false, 0)]
  {
    hide Doc, WriterText.Digits, PopToken;
    var b := Begin(st);
    assert b.contexts[..|b.contexts| - 1] == After(st, path).contexts;
    if path != [] {
      var front, last := path[..|path| - 1], path[|path| - 1];
      assert path == front + [last];
      PopMore(front, last);
      if st.contexts != [] && Top(st).inArray {
        IndexToken(front, Top(st).arrayElementIndex);
      }
    } else {
      assert PopToken(Doc([])) == Doc([]) by { DocOfRoot(); }
    }
  }

  lemma DocOfRoot()
    ensures Doc([]) == [] && PopToken([]) == []
  {
  }

  lemma {:induction false} PointedConcat(st: State, a: seq<Event>, b: seq<Event>)
    ensures Pointed(st, a + b) == Pointed(st, a) + Pointed(Run(st, a), b)
    ensures Run(st, a + b) == Run(Run(st, a), b)
    decreases |a|
  {
    hide Judged, Passed;
    if a == [] {
      assert a + b == b;
    } else {
      assert (a + b)[0] == a[0] && (a + b)[1..] == a[1..] + b;
      PointedConcat(Passed(st, a[0]), a[1..], b);
    }
  }

  lemma PointedOne(st: State, ev: Event)
    ensures Pointed(st, [ev]) == [Judged(st, ev).doc] && Run(st, [ev]) == Passed(st, ev)
  {
    hide Judged, Passed;
    assert [ev][1..] == [];
    assert Run(Passed(st, ev), []) == Passed(st, ev) && Pointed(Passed(st, ev), []) == [];
  }

  lemma DocsConcat(a: seq<seq<Text>>, b: seq<seq<Text>>)
    ensures Docs(a + b) == Docs(a) + Docs(b)
  {
    hide Doc;
  }

  lemma DocsOne(path: seq<Text>)
    ensures Docs([path]) == [Doc(path)]
  {
    hide Doc;
  }

  /** Judging the events of a value, the document stack is the pointer of the value each belongs to. */
  lemma {:induction false} ValuePointed(st: State, v: Value, path: seq<Text>)
    requires Before(st, path)
    ensures Pointed(st, Accept(v)) == Docs(Places(v, path))
    ensures Run(st, Accept(v)) == After(st, path)
    decreases v, 2
  {
    hide Pointed, Run, Doc, Docs, Begin, End, Before, After, AcceptElements, AcceptMembers, ElementPlaces, MemberPlaces;
    BeginPoints(st, path);
    DocsOne(path);
    if v.ArrayValue? || v.ObjectValue? {
      ContainerPointed(st, v, path);
    } else {
      PointedOne(st, Accept(v)[0]);
      assert [Accept(v)[0]] == Accept(v);
    }
  }

  lemma {:induction false} ContainerPointed(st: State, v: Value, path: seq<Text>)
    requires Before(st, path) && (v.ArrayValue? || v.ObjectValue?)
    ensures Pointed(st, Accept(v)) == Docs(Places(v, path))
    ensures Run(st, Accept(v)) == After(st, path)
    decreases v, 1
  {
    hide *;
    BeginPoints(st, path);
    DocsOne(path);
    var start, inner, close, places := Split(v, path);
    var opened' := Passed(st, start);
    StartPasses(st, start);
    PointedOne(st, start);
    PointedConcat(st, [start], inner + [close]);
    PointedConcat(opened', inner, [close]);
    DocsConcat([path] + places, [path]);
    DocsConcat([path], places);
    if v.ArrayValue? {
      ElementsPointed(opened', v.elements, 0, path);
      TopChanged(opened', Context(true, 0 + |v.elements|));
    } else {
      MembersPointed(opened', v.members, path);
    }
    var full := Run(opened', inner);
    PointedOne(full, close);
    EndPasses(Begin(st), full, close);
  }

  lemma Split(v: Value, path: seq<Text>) returns (start: Event, inner: seq<Event>, close: Event, places: seq<seq<Text>>)
    requires v.ArrayValue? || v.ObjectValue?
    ensures Accept(v) == [start] + (inner + [close]) && Places(v, path) == [path] + places + [path]
    ensures v.ArrayValue? ==>
        start == StartArray && inner == AcceptElements(v.elements) && places == ElementPlaces(v.elements, 0, path)
    ensures v.ArrayValue? ==> close == EndArray(|v.elements|)
    ensures v.ObjectValue? ==>
        start == StartObject && inner == AcceptMembers(v.members) && places == MemberPlaces(v.members, path)
    ensures v.ObjectValue? ==> close == EndObject(|v.members|)
  {
    hide AcceptElements, AcceptMembers, ElementPlaces, MemberPlaces;
    if v.ArrayValue? {
      start, inner, close, places := StartArray, AcceptElements(v.elements), EndArray(|v.elements|),
          ElementPlaces(v.elements, 0, path);
    } else {
      start, inner, close, places := StartObject, AcceptMembers(v.members), EndObject(|v.members|),
          MemberPlaces(v.members, path);
    }
  }

  lemma StartPasses(st: State, ev: Event)
    requires ev.StartArray? || ev.StartObject?
    ensures Judged(st, ev) == Begin(st)
    ensures Passed(st, ev).doc == Begin(st).doc && |Passed(st, ev).contexts| == |Begin(st).contexts| > 0
    ensures Passed(st, ev).contexts[..|Begin(st).contexts| - 1] == Begin(st).contexts[..|Begin(st).contexts| - 1]
    ensures ev.StartArray? ==> Top(Passed(st, ev)) == Context(true, 0)
    ensures ev.StartObject? ==> Passed(st, ev) == Begin(st) && Top(Begin(st)) == Context(false, 0)
  {
  }

  lemma TopChanged(st: State, c: Context)
    requires st.contexts != []
    ensures |WithTop(st, c).contexts| == |st.contexts| && WithTop(st, c).doc == st.doc
    ensures WithTop(st, c).contexts[..|st.contexts| - 1] == st.contexts[..|st.contexts| - 1]
  {
  }

  /** The end of a container whose context may have counted its elements. */
  lemma EndPasses(begun: State, full: State, ev: Event)
    requires (ev.EndArray? || ev.EndObject?) && |full.contexts| == |begun.contexts| > 0 && full.doc == begun.doc
    requires full.contexts[..|begun.contexts| - 1] == begun.contexts[..|begun.contexts| - 1]
    ensures Judged(full, ev).doc == begun.doc && Passed(full, ev) == End(begun)
  {
  }

  lemma {:induction false} ElementsPointed(st: State, es: seq<Value>, i: nat, path: seq<Text>)
    requires st.contexts != [] && Top(st) == Context(true, i) && st.doc == Doc(path)
    ensures Pointed(st, AcceptElements(es)) == Docs(ElementPlaces(es, i, path))
    ensures Run(st, AcceptElements(es)) == WithTop(st, Context(true, i + |es|))
    decreases es, 0
  {
    hide *;
    if es == [] {
      NoEvents(st, path, i);
    } else {
      var place := path + [WriterText.Digits(i)];
      var next := ElementStep(st, i, path);
      ValuePointed(st, es[0], place);
      ElementSplit(es, i, path);
      PointedConcat(st, Accept(es[0]), AcceptElements(es[1..]));
      DocsConcat(Places(es[0], place), ElementPlaces(es[1..], i + 1, path));
      ElementsPointed(next, es[1..], i + 1, path);
    }
  }

  lemma NoEvents(st: State, path: seq<Text>, i: nat)
    requires st.contexts != []
    ensures Pointed(st, AcceptElements([])) == Docs(ElementPlaces([], i, path)) && Run(st, AcceptElements([])) == st
    ensures Pointed(st, AcceptMembers([])) == Docs(MemberPlaces([], path)) && Run(st, AcceptMembers([])) == st
    ensures WithTop(st, Top(st)) == st
  {
    assert st.contexts[|st.contexts| - 1 := Top(st)] == st.contexts;
  }

  lemma ElementSplit(es: seq<Value>, i: nat, path: seq<Text>)
    requires es != []
    ensures AcceptElements(es) == Accept(es[0]) + AcceptElements(es[1..])
    ensures ElementPlaces(es, i, path)
        == Places(es[0], path + [WriterText.Digits(i)]) + ElementPlaces(es[1..], i + 1, path)
  {
    hide Accept, Places, WriterText.Digits;
  }

  lemma ElementStep(st: State, i: nat, path: seq<Text>) returns (next: State)
    requires st.contexts != [] && Top(st) == Context(true, i) && st.doc == Doc(path)
    ensures Before(st, path + [WriterText.Digits(i)])
    ensures next == After(st, path + [WriterText.Digits(i)])
    ensures next.contexts != [] && Top(next) == Context(true, i + 1) && next.doc == Doc(path)
    ensures forall c :: WithTop(next, c) == WithTop(st, c)
  {
    hide Doc, WriterText.Digits;
    var place := path + [WriterText.Digits(i)];
    assert place[..|place| - 1] == path;
    next := After(st, place);
  }

  lemma {:induction false} MembersPointed(st: State, ms: seq<Member>, path: seq<Text>)
    requires st.contexts != [] && Top(st) == Context(false, 0) && st.doc == Doc(path)
    ensures Pointed(st, AcceptMembers(ms)) == Docs(MemberPlaces(ms, path))
    ensures Run(st, AcceptMembers(ms)) == st
    decreases ms, 0
  {
    hide *;
    if ms == [] {
      NoEvents(st, path, 0);
    } else {
      var m, rest := ms[0], ms[1..];
      var place := path + [m.name];
      var named := MemberStep(st, m.name, path);
      PointedOne(st, Key(m.name));
      ValuePointed(named, m.value, place);
      MemberSplit(ms, path);
      PointedConcat(st, [Key(m.name)], Accept(m.value) + AcceptMembers(rest));
      PointedConcat(named, Accept(m.value), AcceptMembers(rest));
      DocsOne(place);
      DocsConcat([place] + Places(m.value, place), MemberPlaces(rest, path));
      DocsConcat([place], Places(m.value, place));
      MembersPointed(st, rest, path);
    }
  }

  lemma MemberSplit(ms: seq<Member>, path: seq<Text>)
    requires ms != []
    ensures AcceptMembers(ms) == [Key(ms[0].name)] + (Accept(ms[0].value) + AcceptMembers(ms[1..]))
    ensures var place := path + [ms[0].name];
      MemberPlaces(ms, path) == [place] + Places(ms[0].value, place) + MemberPlaces(ms[1..], path)
  {
    hide Accept, Places;
  }

  lemma MemberStep(st: State, name: Text, path: seq<Text>) returns (named: State)
    requires st.contexts != [] && Top(st) == Context(false, 0) && st.doc == Doc(path)
    ensures named == Passed(st, Key(name)) && Judged(st, Key(name)).doc == Doc(path + [name])
    ensures Before(named, path + [name]) && After(named, path + [name]) == st
  {
    hide Doc, Escape;
    DocMore(path, name);
    var place := path + [name];
    assert place[..|place| - 1] == path;
    named := Passed(st, Key(name));
  }

  /**
   A run over a whole document: while each event is judged, the document stack is a pointer string
   that parses to the names leading to the value the event belongs to; when the root has closed both
   stacks are empty.
   */
  lemma DocumentPointed(v: Value, k: nat)
    requires k < |Accept(v)|
    ensures |Places(v, [])| == |Accept(v)|
    ensures Pointed(State([], []), Accept(v))[k] == Doc(Places(v, [])[k])
    ensures PointerText.ParsePointer(Doc(Places(v, [])[k])) == PointerText.Tokens(PointerText.Named(Places(v, [])[k]))
    ensures Run(State([], []), Accept(v)) == State([], [])
  {
    hide Accept, Places, Pointed, Run, PointerText.ParsePointer, PointerText.PrintTokens, PointerText.Named;
    var st := State([], []);
    assert Before(st, []) && After(st, []) == st by { DocOfRoot(); }
    ValuePointed(st, v, []);
    PointerText.PointerRoundTrip(Places(v, [])[k]);
  }
}
