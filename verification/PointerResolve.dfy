/** Resolving a pointer in a document: `Get` reads a location, `Create` makes it, `Set` and `Erase` change it. */
module PointerResolve {
  import opened Bytes
  import opened Json
  import opened PointerText
  import Equality

  // ---- locations in a value: child indices from the root ----

  function Size(v: Value): nat {
    if v.ArrayValue? then |v.elements| else if v.ObjectValue? then |v.members| else 0
  }

  function Child(v: Value, i: nat): Value
    requires i < Size(v)
  {
    if v.ArrayValue? then v.elements[i] else v.members[i].value
  }

  function WithChild(v: Value, i: nat, x: Value): (r: Value)
    requires i < Size(v)
    ensures Size(r) == Size(v) && SameKind(r, v)
  {
    if v.ArrayValue? then ArrayValue(v.elements[i := x])
    else ObjectValue(v.members[i := v.members[i].(value := x)])
  }

  predicate SameKind(v: Value, w: Value) {
    v.ArrayValue? == w.ArrayValue? && v.ObjectValue? == w.ObjectValue?
  }

  function ValueAt(v: Value, path: seq<nat>): Option<Value>
    decreases |path|
  {
    if path == [] then Some(v)
    else if path[0] < Size(v) then ValueAt(Child(v, path[0]), path[1..])
    else None
  }

  /** The document after the value at a location has changed. */
  function Replace(v: Value, path: seq<nat>, x: Value): Value
    requires ValueAt(v, path).Some?
    decreases |path|
  {
    if path == [] then x else WithChild(v, path[0], Replace(Child(v, path[0]), path[1..], x))
  }

  // ---- Get ----

  /** One token: the child it names, if there is one. */
  function Resolve(v: Value, t: Token): (r: Option<nat>)
    ensures r.Some? ==> r.value < Size(v)
  {
    match v
    case ObjectValue(ms) =>
      var i := Equality.FindMember(ms, t.name);
      if i < |ms| then Some(i) else None
    case ArrayValue(es) =>
      if t.index == INVALID_INDEX || t.index >= |es| then None else Some(t.index)
    case _ => None
  }

  datatype Found =
    | Found(path: seq<nat>)
    | Unresolved(token: nat)

  function Get(v: Value, ts: seq<Token>): (r: Found)
    ensures r.Found? ==> |r.path| == |ts|
    ensures r.Unresolved? ==> r.token < |ts|
    decreases |ts|
  {
    if ts == [] then Found([])
    else
      match Resolve(v, ts[0])
      case None => Unresolved(0)
      case Some(i) =>
        match Get(Child(v, i), ts[1..])
        case Found(path) => Found([i] + path)
        case Unresolved(k) => Unresolved(k + 1)
  }

  // ---- Create ----

  /** `-` names the element after the last, in arrays only. */
  predicate Appends(v: Value, t: Token) {
    v.ArrayValue? && t.name == [MINUS]
  }

  /** The container changes its type when the token cannot apply to it. */
  function Coerced(v: Value, t: Token): Value {
    if t.index == INVALID_INDEX then
      if v.ObjectValue? then v else ObjectValue([])
    else
      if v.ArrayValue? || v.ObjectValue? then v else ArrayValue([])
  }

  function Padded(es: seq<Value>, n: nat): (r: seq<Value>)
    ensures |r| == if |es| < n then n else |es|
    ensures forall i :: 0 <= i < |es| ==> r[i] == es[i]
    ensures forall i :: |es| <= i < |r| ==> r[i] == NullValue
    decreases n - |es|
  {
    if |es| < n then Padded(es + [NullValue], n) else es
  }

  /** The container with the child in place, and whether the child was there. */
  datatype Prepared = Prepared(v: Value, i: nat, exist: bool)

  function Prepare(v: Value, t: Token): (r: Prepared)
    ensures r.i < Size(r.v)
  {
    if Appends(v, t) then Prepared(ArrayValue(v.elements + [NullValue]), |v.elements|, false)
    else
      var c := Coerced(v, t);
      if c.ArrayValue? then Prepared(ArrayValue(Padded(c.elements, t.index + 1)), t.index, t.index < |c.elements|)
      else
        var i := Equality.FindMember(c.members, t.name);
        if i < |c.members| then Prepared(c, i, true)
        else Prepared(ObjectValue(c.members + [Member(t.name, NullValue)]), i, false)
  }

  datatype Created = Created(root: Value, path: seq<nat>, exist: bool)

  function Create(v: Value, ts: seq<Token>): Created
    decreases |ts|
  {
    if ts == [] then Created(v, [], true)
    else
      var p := Prepare(v, ts[0]);
      var c := Create(Child(p.v, p.i), ts[1..]);
      Created(WithChild(p.v, p.i, c.root), [p.i] + c.path, p.exist && c.exist)
  }

  /** `Set`. */
  function Set(v: Value, ts: seq<Token>, x: Value): Value {
    var c := Create(v, ts);
    CreatedAt(v, ts);
    Replace(c.root, c.path, x)
  }

  // ---- facts about locations ----

  lemma {:induction false} AtReplace(v: Value, path: seq<nat>, x: Value, more: seq<nat>)
    requires ValueAt(v, path).Some?
    ensures ValueAt(Replace(v, path, x), path) == Some(x)
    ensures ValueAt(Replace(v, path, x), path + more) == ValueAt(x, more)
    decreases |path|
  {
    if path == [] {
      assert path + more == more;
    } else {
      AtReplace(Child(v, path[0]), path[1..], x, more);
      assert (path + more)[0] == path[0] && (path + more)[1..] == path[1..] + more;
    }
  }

  lemma {:induction false} ValueAtConcat(v: Value, path: seq<nat>, more: seq<nat>)
    requires ValueAt(v, path).Some?
    ensures ValueAt(v, path + more) == ValueAt(ValueAt(v, path).value, more)
    decreases |path|
  {
    if path == [] {
      assert path + more == more;
    } else {
      ValueAtConcat(Child(v, path[0]), path[1..], more);
      assert (path + more)[0] == path[0] && (path + more)[1..] == path[1..] + more;
    }
  }

  lemma {:induction false} ReplaceTwice(v: Value, path: seq<nat>, x: Value, y: Value)
    requires ValueAt(v, path).Some?
    ensures ValueAt(Replace(v, path, x), path).Some?
    ensures Replace(Replace(v, path, x), path, y) == Replace(v, path, y)
    decreases |path|
  {
    AtReplace(v, path, x, []);
    if path != [] {
      ReplaceTwice(Child(v, path[0]), path[1..], x, y);
    }
  }

  lemma {:induction false} ReplaceSame(v: Value, path: seq<nat>)
    requires ValueAt(v, path).Some?
    ensures Replace(v, path, ValueAt(v, path).value) == v
    decreases |path|
  {
    if path != [] {
      ReplaceSame(Child(v, path[0]), path[1..]);
      WithChildSame(v, path[0]);
    }
  }

  lemma WithChildSame(v: Value, i: nat)
    requires i < Size(v)
    ensures WithChild(v, i, Child(v, i)) == v
  {
  }

  lemma ReplaceAll(v: Value, x: Value)
    ensures Replace(v, [], x) == x
  {
  }

  lemma {:induction false} ReplaceDeep(v: Value, path: seq<nat>, i: nat, w: Value, x: Value)
    requires ValueAt(v, path).Some? && i < Size(w)
    ensures ValueAt(Replace(v, path, w), path + [i]).Some?
    ensures Replace(Replace(v, path, w), path + [i], x) == Replace(v, path, WithChild(w, i, x))
    decreases |path|
  {
    AtReplace(v, path, w, [i]);
    if path == [] {
      assert path + [i] == [i] && [i][1..] == [];
      assert Replace(Child(w, i), [], x) == x;
    } else {
      assert (path + [i])[0] == path[0] && (path + [i])[1..] == path[1..] + [i];
      ReplaceDeep(Child(v, path[0]), path[1..], i, w, x);
    }
  }

  // ---- the lens ----

  /** The tokens the parser makes: `-` is no index. */
  predicate Parsed(ts: seq<Token>) {
    forall k :: 0 <= k < |ts| && ts[k].name == [MINUS] ==> ts[k].index == INVALID_INDEX
  }

  lemma NamedParsed(names: seq<Text>)
    ensures Parsed(Named(names))
  {
    assert !IsDigit([MINUS][0]);
    assert IndexOf([MINUS]) == INVALID_INDEX;
  }

  /** `-` is applied to an array somewhere on the way. */
  predicate AppendsOnTheWay(v: Value, ts: seq<Token>)
    decreases |ts|
  {
    ts != [] && (Appends(v, ts[0]) || (var p := Prepare(v, ts[0]); AppendsOnTheWay(Child(p.v, p.i), ts[1..])))
  }

  /** `Create` finds a child exactly when `Get` does, and then changes nothing at that step. */
  lemma PrepareResolves(v: Value, t: Token)
    requires Parsed([t])
    ensures Prepare(v, t).exist <==> Resolve(v, t).Some?
    ensures Prepare(v, t).exist ==> Prepare(v, t).v == v && Resolve(v, t) == Some(Prepare(v, t).i)
    ensures !Prepare(v, t).exist ==> Child(Prepare(v, t).v, Prepare(v, t).i) == NullValue
  {
    assert [t][0] == t;
    if v.ArrayValue? && t.index < |v.elements| {
      assert Padded(v.elements, t.index + 1) == v.elements;
    }
  }

  lemma {:induction false} FindAppended(ms: seq<Member>, m: Member)
    requires Equality.FindMember(ms, m.name) == |ms|
    ensures Equality.FindMember(ms + [m], m.name) == |ms|
  {
    Equality.FirstOfName(ms + [m], m.name, |ms|);
  }

  lemma FindUpdated(ms: seq<Member>, i: nat, x: Value, name: Text)
    requires i < |ms|
    ensures Equality.FindMember(ms[i := ms[i].(value := x)], name) == Equality.FindMember(ms, name)
  {
    var r := Equality.FindMember(ms, name);
    Equality.FirstOfName(ms[i := ms[i].(value := x)], name, r);
  }

  /** The child put in place is the child the token names, unless the token appended it. */
  lemma PreparedResolves(v: Value, t: Token, x: Value)
    requires Parsed([t])
    ensures var p := Prepare(v, t);
      Resolve(WithChild(p.v, p.i, x), t) == if Appends(v, t) then None else Some(p.i)
  {
    hide Equality.FindMember;
    assert [t][0] == t;
    var p := Prepare(v, t);
    if p.v.ObjectValue? {
      FindUpdated(p.v.members, p.i, x, t.name);
      var c := Coerced(v, t);
      if !p.exist {
        FindAppended(c.members, Member(t.name, NullValue));
      }
    }
  }

  lemma ChildOfWithChild(v: Value, i: nat, x: Value)
    requires i < Size(v)
    ensures Child(WithChild(v, i, x), i) == x
    ensures forall j :: 0 <= j < Size(v) && j != i ==> Child(WithChild(v, i, x), j) == Child(v, j)
  {
  }

  /** What `Create` returns is in the document: the value that was there, or a null. */
  lemma {:induction false} CreatedAt(v: Value, ts: seq<Token>)
    ensures ValueAt(Create(v, ts).root, Create(v, ts).path).Some?
    decreases |ts|
  {
    hide Prepare;
    if ts != [] {
      var p := Prepare(v, ts[0]);
      CreatedAt(Child(p.v, p.i), ts[1..]);
      ChildOfWithChild(p.v, p.i, Create(Child(p.v, p.i), ts[1..]).root);
    }
  }

  lemma {:induction false} CreateInNull(ts: seq<Token>)
    ensures ValueAt(Create(NullValue, ts).root, Create(NullValue, ts).path) == Some(NullValue)
    ensures Create(NullValue, ts).exist ==> ts == []
    decreases |ts|
  {
    if ts != [] {
      var p := Prepare(NullValue, ts[0]);
      assert !p.exist && Child(p.v, p.i) == NullValue;
      CreateInNull(ts[1..]);
      ChildOfWithChild(p.v, p.i, Create(NullValue, ts[1..]).root);
    }
  }

  /** `alreadyExist` is set exactly when `Get` would have succeeded; then nothing changes and `Create`
      returns what `Get` finds, and otherwise it returns a null. */
  lemma {:induction false} CreateFinds(v: Value, ts: seq<Token>)
    requires Parsed(ts)
    ensures Create(v, ts).exist <==> Get(v, ts).Found?
    ensures Create(v, ts).exist ==> Create(v, ts).root == v && Get(v, ts) == Found(Create(v, ts).path)
    ensures !Create(v, ts).exist ==> ValueAt(Create(v, ts).root, Create(v, ts).path) == Some(NullValue)
    decreases |ts|
  {
    hide Prepare, Resolve;
    if ts != [] {
      assert [ts[0]][0] == ts[0];
      PrepareResolves(v, ts[0]);
      var p := Prepare(v, ts[0]);
      var c := Create(Child(p.v, p.i), ts[1..]);
      if p.exist {
        CreateFinds(Child(p.v, p.i), ts[1..]);
        WithChildSame(v, p.i);
      } else {
        CreateInNull(ts[1..]);
      }
      ChildOfWithChild(p.v, p.i, c.root);
    }
  }

  /** After `Create`, whatever is then stored at the location, `Get` finds that location, exactly
      when `-` was applied to no array on the way. */
  lemma {:induction false} GetAfterCreate(v: Value, ts: seq<Token>, x: Value)
    requires Parsed(ts)
    ensures Get(Set(v, ts, x), ts) == Found(Create(v, ts).path) <==> !AppendsOnTheWay(v, ts)
    ensures Get(Set(v, ts, x), ts).Found? <==> !AppendsOnTheWay(v, ts)
    decreases |ts|
  {
    hide Prepare, Resolve, Appends;
    if ts != [] {
      assert [ts[0]][0] == ts[0];
      var p := Prepare(v, ts[0]);
      var c := Create(Child(p.v, p.i), ts[1..]);
      CreatedAt(Child(p.v, p.i), ts[1..]);
      SetFirst(v, ts, x);
      var inner := Set(Child(p.v, p.i), ts[1..], x);
      PreparedResolves(v, ts[0], inner);
      ChildOfWithChild(p.v, p.i, inner);
      GetAfterCreate(Child(p.v, p.i), ts[1..], x);
      if Get(inner, ts[1..]).Found? {
        assert ([p.i] + Get(inner, ts[1..]).path)[1..] == Get(inner, ts[1..]).path;
        assert ([p.i] + c.path)[1..] == c.path;
      }
    }
  }

  lemma SetFirst(v: Value, ts: seq<Token>, x: Value)
    requires ts != []
    ensures var p := Prepare(v, ts[0]);
      Set(v, ts, x) == WithChild(p.v, p.i, Set(Child(p.v, p.i), ts[1..], x))
  {
    hide Prepare;
    var p := Prepare(v, ts[0]);
    var c := Create(Child(p.v, p.i), ts[1..]);
    CreatedAt(v, ts);
    CreatedAt(Child(p.v, p.i), ts[1..]);
    ChildOfWithChild(p.v, p.i, c.root);
    assert ([p.i] + c.path)[1..] == c.path;
    WithChildTwice(p.v, p.i, c.root, Replace(c.root, c.path, x));
  }

  lemma WithChildTwice(v: Value, i: nat, x: Value, y: Value)
    requires i < Size(v)
    ensures WithChild(WithChild(v, i, x), i, y) == WithChild(v, i, y)
  {
  }

  /**
   The three laws of a lens, wherever `-` is applied to no array: what was set is found where it was
   set; setting what was found changes nothing; a second setting overrides the first.
   */
  lemma Lens(v: Value, ts: seq<Token>, x: Value, y: Value)
    requires Parsed(ts) && !AppendsOnTheWay(v, ts)
    ensures var g := Get(Set(v, ts, x), ts);
      g.Found? && ValueAt(Set(v, ts, x), g.path) == Some(x)
    ensures var g := Get(v, ts);
      g.Found? ==> ValueAt(v, g.path).Some? && Set(v, ts, ValueAt(v, g.path).value) == v
    ensures Set(Set(v, ts, x), ts, y) == Set(v, ts, y)
  {
    hide Get, Create, AppendsOnTheWay;
    var c := Create(v, ts);
    CreatedAt(v, ts);
    GetAfterCreate(v, ts, x);
    AtReplace(c.root, c.path, x, []);
    CreateFinds(v, ts);
    if Get(v, ts).Found? {
      ReplaceSame(v, c.path);
    }
    var w := Set(v, ts, x);
    CreateFinds(w, ts);
    ReplaceTwice(c.root, c.path, x, y);
  }

  /** A second `Create` finds what the first one made, and changes nothing. */
  lemma CreateTwice(v: Value, ts: seq<Token>)
    requires Parsed(ts) && !AppendsOnTheWay(v, ts)
    ensures var c := Create(v, ts);
      Create(c.root, ts) == Created(c.root, c.path, true) && Get(c.root, ts) == Found(c.path)
  {
    hide Get, Create, AppendsOnTheWay;
    var c := Create(v, ts);
    CreatedAt(v, ts);
    var x := ValueAt(c.root, c.path).value;
    ReplaceSame(c.root, c.path);
    assert Set(v, ts, x) == c.root;
    GetAfterCreate(v, ts, x);
    CreateFinds(c.root, ts);
  }

  // ---- everything else stays ----

  /** The location leaves the way of the tokens at a container that keeps its kind. */
  predicate Beside(v: Value, ts: seq<Token>, path: seq<nat>)
    decreases |path|
  {
    && path != [] && ts != [] && path[0] < Size(v)
    && var p := Prepare(v, ts[0]);
    && SameKind(v, p.v)
    && (path[0] != p.i || Beside(Child(v, path[0]), ts[1..], path[1..]))
  }

  /** Children that were there stay in place. */
  lemma PrepareKeeps(v: Value, t: Token, j: nat)
    requires SameKind(v, Prepare(v, t).v) && j < Size(v)
    ensures j < Size(Prepare(v, t).v) && Child(Prepare(v, t).v, j) == Child(v, j)
  {
    hide Equality.FindMember;
  }

  lemma FindKept(ms: seq<Member>, more: seq<Member>, name: Text)
    requires Equality.FindMember(ms, name) < |ms|
    ensures Equality.FindMember(ms + more, name) == Equality.FindMember(ms, name)
  {
    Equality.FirstOfName(ms + more, name, Equality.FindMember(ms, name));
  }

  /** A token that named a child names the same child. */
  lemma ResolveKept(v: Value, t: Token, x: Value, u: Token)
    requires SameKind(v, Prepare(v, t).v) && Resolve(v, u).Some?
    ensures Resolve(WithChild(Prepare(v, t).v, Prepare(v, t).i, x), u) == Resolve(v, u)
  {
    hide Equality.FindMember;
    var p := Prepare(v, t);
    if v.ObjectValue? {
      FindUpdated(p.v.members, p.i, x, u.name);
      if !p.exist {
        FindKept(v.members, [Member(t.name, NullValue)], u.name);
      }
    }
  }

  /** Whatever pointer resolved to a location beside the way resolves to it still, with its value. */
  lemma {:induction false} SetKeepsBeside(v: Value, ts: seq<Token>, x: Value, us: seq<Token>)
    requires Get(v, us).Found? && Beside(v, ts, Get(v, us).path)
    ensures Get(Set(v, ts, x), us) == Get(v, us)
    ensures ValueAt(v, Get(v, us).path).Some? && ValueAt(Set(v, ts, x), Get(v, us).path) == ValueAt(v, Get(v, us).path)
    decreases |us|
  {
    hide Prepare, Resolve;
    var path := Get(v, us).path;
    assert us != [];
    var i := Resolve(v, us[0]).value;
    var inner := Get(Child(v, i), us[1..]).path;
    assert path == [i] + inner && path[1..] == inner;
    var p := Prepare(v, ts[0]);
    var c := Set(Child(p.v, p.i), ts[1..], x);
    SetFirst(v, ts, x);
    ResolveKept(v, ts[0], c, us[0]);
    PrepareKeeps(v, ts[0], i);
    ChildOfWithChild(p.v, p.i, c);
    FoundAt(v, us);
    if i == p.i {
      SetKeepsBeside(Child(v, i), ts[1..], x, us[1..]);
    }
  }

  lemma {:induction false} FoundAt(v: Value, us: seq<Token>)
    requires Get(v, us).Found?
    ensures ValueAt(v, Get(v, us).path).Some?
    decreases |us|
  {
    hide Resolve;
    if us != [] {
      var i := Resolve(v, us[0]).value;
      FoundAt(Child(v, i), us[1..]);
      assert ([i] + Get(Child(v, i), us[1..]).path)[1..] == Get(Child(v, i), us[1..]).path;
    }
  }

  // ---- Erase ----

  function Without(v: Value, i: nat): (r: Value)
    requires i < Size(v)
    ensures Size(r) == Size(v) - 1 && SameKind(r, v)
    ensures forall j :: 0 <= j < Size(r) ==> Child(r, j) == Child(v, if j < i then j else j + 1)
  {
    if v.ArrayValue? then ArrayValue(v.elements[..i] + v.elements[i + 1..])
    else ObjectValue(v.members[..i] + v.members[i + 1..])
  }

  datatype Erased = Erased(root: Value, ok: bool)

  function Erase(v: Value, ts: seq<Token>): Erased
    decreases |ts|
  {
    if ts == [] then Erased(v, false)
    else
      match Resolve(v, ts[0])
      case None => Erased(v, false)
      case Some(i) =>
        if |ts| == 1 then Erased(Without(v, i), true)
        else
          var e := Erase(Child(v, i), ts[1..]);
          Erased(WithChild(v, i, e.root), e.ok)
  }

  /** `Erase` succeeds exactly when `Get` would have found something other than the root, takes that
      child out of its container, and otherwise changes nothing. */
  lemma {:induction false} EraseTakesOut(v: Value, ts: seq<Token>)
    ensures Erase(v, ts).ok <==> ts != [] && Get(v, ts).Found?
    ensures !Erase(v, ts).ok ==> Erase(v, ts).root == v
    ensures Erase(v, ts).ok ==>
      var path := Get(v, ts).path;
      var parent, i := path[..|ts| - 1], path[|ts| - 1];
      && ValueAt(v, parent).Some? && i < Size(ValueAt(v, parent).value)
      && ValueAt(Erase(v, ts).root, parent) == Some(Without(ValueAt(v, parent).value, i))
    decreases |ts|
  {
    hide Resolve, Without;
    if ts != [] && Resolve(v, ts[0]).Some? {
      var i := Resolve(v, ts[0]).value;
      var w, rest := Child(v, i), ts[1..];
      if |ts| == 1 {
        assert Get(w, rest) == Found([]) && Get(v, ts) == Found([i] + []);
      } else {
        EraseTakesOut(w, rest);
        WithChildSame(v, i);
        ChildOfWithChild(v, i, Erase(w, rest).root);
        if Get(w, rest).Found? {
          var inner := Get(w, rest).path;
          assert ([i] + inner)[..|ts| - 1][1..] == inner[..|rest| - 1] && ([i] + inner)[|ts| - 1] == inner[|rest| - 1];
        }
      }
    }
  }

  /** The child taken out leaves nothing of its name or index behind. */
  predicate Vanishes(c: Value, i: nat) {
    || (c.ObjectValue? && Equality.DistinctNames(c.members))
    || (c.ArrayValue? && i + 1 == |c.elements|)
  }

  /** Another element moves to the index of the one taken out. */
  predicate MovesUp(c: Value, i: nat) {
    c.ArrayValue? && i + 1 < |c.elements|
  }

  /** An erased name is gone, when names were distinct; behind an erased element the next moves up. */
  lemma {:induction false} EraseThenGet(v: Value, ts: seq<Token>)
    requires ts != [] && Get(v, ts).Found?
    ensures var path := Get(v, ts).path;
      var parent, i := ValueAt(v, path[..|ts| - 1]), path[|ts| - 1];
      && parent.Some?
      && (Vanishes(parent.value, i) ==> Get(Erase(v, ts).root, ts) == Unresolved(|ts| - 1))
      && (MovesUp(parent.value, i) ==>
            Get(Erase(v, ts).root, ts) == Get(v, ts)
            && ValueAt(Erase(v, ts).root, path) == Some(parent.value.elements[i + 1]))
    decreases |ts|
  {
    hide *;
    if |ts| == 1 {
      EraseLast(v, ts);
    } else {
      EraseStep(v, ts);
      var i := Resolve(v, ts[0]).value;
      var w, rest := Child(v, i), ts[1..];
      GetStep(v, ts, i);
      EraseThenGet(w, rest);
      var e := Erase(w, rest).root;
      GetStep(WithChild(v, i, e), ts, i);
      PathStep(v, i, Get(w, rest).path);
      PathStep(WithChild(v, i, e), i, Get(w, rest).path);
    }
  }

  lemma EraseLast(v: Value, ts: seq<Token>)
    requires |ts| == 1 && Get(v, ts).Found?
    ensures |Get(v, ts).path| == 1 && ValueAt(v, Get(v, ts).path[..0]) == Some(v)
    ensures var path := Get(v, ts).path;
      var i := path[0];
      && (Vanishes(v, i) ==> Get(Erase(v, ts).root, ts) == Unresolved(0))
      && (MovesUp(v, i) ==>
            Get(Erase(v, ts).root, ts) == Get(v, ts)
            && ValueAt(Erase(v, ts).root, path) == Some(v.elements[i + 1]))
  {
    hide Resolve, Without, Vanishes;
    ResolveErased(v, ts[0]);
    var i := Resolve(v, ts[0]).value;
    assert Get(Child(v, i), ts[1..]) == Found([]) && [i] + [] == [i] && [i][..0] == [] && [i][1..] == [];
  }

  lemma GetStep(v: Value, ts: seq<Token>, i: nat)
    requires ts != [] && Resolve(v, ts[0]) == Some(i)
    ensures i < Size(v)
    ensures var below := Get(Child(v, i), ts[1..]);
      Get(v, ts) == if below.Found? then Found([i] + below.path) else Unresolved(below.token + 1)
  {
    hide Resolve;
  }

  lemma EraseStep(v: Value, ts: seq<Token>)
    requires |ts| > 1 && Get(v, ts).Found?
    ensures Resolve(v, ts[0]).Some?
    ensures var i := Resolve(v, ts[0]).value;
      var root := Erase(Child(v, i), ts[1..]).root;
      && Get(Child(v, i), ts[1..]).Found?
      && Erase(v, ts).root == WithChild(v, i, root)
      && Child(WithChild(v, i, root), i) == root
      && Resolve(WithChild(v, i, root), ts[0]) == Some(i)
  {
    hide Resolve;
    var i := Resolve(v, ts[0]).value;
    ResolveUpdated(v, ts[0], i, Erase(Child(v, i), ts[1..]).root);
  }

  lemma PathStep(v: Value, i: nat, inner: seq<nat>)
    requires i < Size(v) && inner != []
    ensures ValueAt(v, [i] + inner) == ValueAt(Child(v, i), inner)
    ensures |[i] + inner| == |inner| + 1
    ensures var path := [i] + inner;
      && ValueAt(v, path[..|path| - 1]) == ValueAt(Child(v, i), inner[..|inner| - 1])
      && path[|path| - 1] == inner[|inner| - 1]
  {
    assert ([i] + inner)[..|inner|][1..] == inner[..|inner| - 1];
    assert ([i] + inner)[1..] == inner;
  }

  lemma ResolveUpdated(v: Value, t: Token, i: nat, x: Value)
    requires i < Size(v)
    ensures Resolve(WithChild(v, i, x), t) == Resolve(v, t)
  {
    hide Equality.FindMember;
    if v.ObjectValue? {
      FindUpdated(v.members, i, x, t.name);
    }
  }

  lemma ResolveErased(v: Value, t: Token)
    requires Resolve(v, t).Some?
    ensures var i := Resolve(v, t).value;
      && (Vanishes(v, i) ==> Resolve(Without(v, i), t) == None)
      && (MovesUp(v, i) ==> Resolve(Without(v, i), t) == Some(i) && Child(Without(v, i), i) == v.elements[i + 1])
  {
    if v.ObjectValue? && Equality.DistinctNames(v.members) {
      NameErased(v.members, t.name);
    }
  }

  lemma {:induction false} NameErased(ms: seq<Member>, name: Text)
    requires Equality.DistinctNames(ms) && Equality.FindMember(ms, name) < |ms|
    ensures var i := Equality.FindMember(ms, name);
      Equality.FindMember(ms[..i] + ms[i + 1..], name) == |ms| - 1
  {
    var i := Equality.FindMember(ms, name);
    var rest := ms[..i] + ms[i + 1..];
    forall k | 0 <= k < |rest|
      ensures rest[k].name != name
    {
      var j := if k < i then k else k + 1;
      assert rest[k] == ms[j];
      if ms[j].name == name {
        Equality.FindDistinct(ms, j);
      }
    }
    Equality.FirstOfName(rest, name, |rest|);
  }

  /** What `Get` reports from the root, given what it reports from the child reached so far. */
  function Onward(path: seq<nat>, k: nat, rest: Found): Found {
    match rest
    case Found(p) => Found(path + p)
    case Unresolved(j) => Unresolved(k + j)
  }
}
