/** What a pointer makes of a document, told without the steps of `Create`: container by container. */
module PointerEffect {
  import opened Bytes
  import opened Json
  import opened PointerText
  import opened PointerResolve
  import Equality

  /** What the pointer finds, and a null where it finds nothing. */
  function Reached(v: Value, ts: seq<Token>): Value {
    var g := Get(v, ts);
    if g.Found? then
      FoundAt(v, ts);
      ValueAt(v, g.path).value
    else NullValue
  }

  function Nulls(n: nat): seq<Value> {
    seq(n, _ => NullValue)
  }

  // ---- one token ----

  /** What holds no children becomes an array when the token is an index, and an object otherwise. */
  lemma SetInScalar(v: Value, t: Token, x: Value)
    requires !v.ArrayValue? && !v.ObjectValue?
    ensures t.index == INVALID_INDEX ==> Set(v, [t], x) == ObjectValue([Member(t.name, x)])
    ensures t.index != INVALID_INDEX ==> Set(v, [t], x) == ArrayValue(Nulls(t.index) + [x])
  {
    OneToken(v, t, x);
  }

  /** An array takes the value at the index, behind nulls when the index is beyond it, or at its end for
      `-`; any other token makes it an object. */
  lemma SetInArray(es: seq<Value>, t: Token, x: Value)
    requires Parsed([t])
    ensures t.name == [MINUS] ==> Set(ArrayValue(es), [t], x) == ArrayValue(es + [x])
    ensures t.index == INVALID_INDEX && t.name != [MINUS] ==>
      Set(ArrayValue(es), [t], x) == ObjectValue([Member(t.name, x)])
    ensures t.index < |es| && t.index != INVALID_INDEX ==>
      Set(ArrayValue(es), [t], x) == ArrayValue(es[t.index := x])
    ensures |es| <= t.index && t.index != INVALID_INDEX ==>
      Set(ArrayValue(es), [t], x) == ArrayValue(es + Nulls(t.index - |es|) + [x])
  {
    assert [t][0] == t;
    OneToken(ArrayValue(es), t, x);
  }

  /** An object takes the value under the name, in the first member of that name or in a new last one. */
  lemma SetInObject(ms: seq<Member>, t: Token, x: Value, i: nat)
    requires i <= |ms| && (forall j :: 0 <= j < i ==> ms[j].name != t.name)
    requires i < |ms| ==> ms[i].name == t.name
    ensures i < |ms| ==> Set(ObjectValue(ms), [t], x) == ObjectValue(ms[i := Member(t.name, x)])
    ensures i == |ms| ==> Set(ObjectValue(ms), [t], x) == ObjectValue(ms + [Member(t.name, x)])
  {
    Equality.FirstOfName(ms, t.name, i);
    OneToken(ObjectValue(ms), t, x);
  }

  lemma OneToken(v: Value, t: Token, x: Value)
    ensures var p := Prepare(v, t);
      Set(v, [t], x) == WithChild(p.v, p.i, x)
  {
    hide Prepare;
    SetFirst(v, [t], x);
    assert [t][0] == t && [t][1..] == [];
  }

  // ---- more tokens ----

  /** A longer pointer sets below the first token what the rest makes of what is found there. */
  lemma SetDeep(v: Value, ts: seq<Token>, x: Value)
    requires Parsed(ts) && ts != []
    ensures Set(v, ts, x) == Set(v, [ts[0]], Set(Reached(v, [ts[0]]), ts[1..], x))
  {
    hide Prepare, Resolve;
    var p := Prepare(v, ts[0]);
    SetFirst(v, ts, x);
    OneToken(v, ts[0], Set(Child(p.v, p.i), ts[1..], x));
    ReachedFirst(v, [ts[0]]);
    assert [ts[0]][0] == ts[0] && [ts[0]][1..] == [];
  }

  lemma ReachedFirst(v: Value, ts: seq<Token>)
    requires Parsed(ts) && ts != []
    ensures var p := Prepare(v, ts[0]);
      Reached(v, ts) == Reached(Child(p.v, p.i), ts[1..])
  {
    hide Prepare, Resolve;
    assert [ts[0]][0] == ts[0];
    PrepareResolves(v, ts[0]);
    var p := Prepare(v, ts[0]);
    var inner := Get(Child(p.v, p.i), ts[1..]);
    if !p.exist {
      NothingInNull(ts[1..]);
    } else if inner.Found? {
      assert ([p.i] + inner.path)[1..] == inner.path;
    }
  }

  lemma NothingInNull(ts: seq<Token>)
    ensures Reached(NullValue, ts) == NullValue
  {
  }

  // ---- the containers on the way ----

  /** The kind of container a token needs: it keeps an array for an index or `-`, an object for any
      name, and where there is neither makes an array for an index. */
  predicate WantsArray(was: Value, t: Token) {
    if was.ArrayValue? then t.index != INVALID_INDEX || t.name == [MINUS]
    else !was.ObjectValue? && t.index != INVALID_INDEX
  }

  /** Every location `Create` passes through is then an array or an object, as its token and what was
      there before say. */
  lemma {:induction false} ContainersOnTheWay(v: Value, ts: seq<Token>, k: nat)
    requires Parsed(ts) && k < |ts|
    ensures |Create(v, ts).path| == |ts|
    ensures var at := ValueAt(Create(v, ts).root, Create(v, ts).path[..k]);
      && at.Some?
      && (at.value.ArrayValue? <==> WantsArray(Reached(v, ts[..k]), ts[k]))
      && (at.value.ObjectValue? <==> !WantsArray(Reached(v, ts[..k]), ts[k]))
    decreases |ts|
  {
    hide Prepare, WantsArray;
    PathLength(v, ts);
    var p := Prepare(v, ts[0]);
    var c := Create(Child(p.v, p.i), ts[1..]);
    var path := Create(v, ts).path;
    if k == 0 {
      assert path[..0] == [] && ts[..0] == [];
      KindPrepared(v, ts[0]);
    } else {
      ContainersOnTheWay(Child(p.v, p.i), ts[1..], k - 1);
      assert path[..k][0] == p.i && path[..k][1..] == c.path[..k - 1];
      ChildOfWithChild(p.v, p.i, c.root);
      assert ts[..k][0] == ts[0] && ts[..k][1..] == ts[1..][..k - 1];
      ReachedFirst(v, ts[..k]);
    }
  }

  lemma {:induction false} PathLength(v: Value, ts: seq<Token>)
    ensures |Create(v, ts).path| == |ts|
    decreases |ts|
  {
    hide Prepare;
    if ts != [] {
      var p := Prepare(v, ts[0]);
      PathLength(Child(p.v, p.i), ts[1..]);
    }
  }

  lemma KindPrepared(v: Value, t: Token)
    ensures Prepare(v, t).v.ArrayValue? <==> WantsArray(v, t)
    ensures Prepare(v, t).v.ObjectValue? <==> !WantsArray(v, t)
  {
  }
}
