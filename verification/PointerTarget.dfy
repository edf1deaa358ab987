/** The pointer operations as they change a document in place. */
module PointerTarget {
  import opened Bytes
  import opened Json
  import opened PointerText
  import opened PointerResolve
  import Equality

  /** A document whose root the pointer operations change in place; a location stands for the
      reference to the value there. */
  class Target {
    var root: Value

    constructor (root: Value)
      ensures this.root == root
    {
      this.root := root;
    }

    /** Puts the child a token names into place, growing or replacing the container. */
    static method Descend(v0: Value, t: Token) returns (v: Value, i: nat, exist: bool)
      ensures PointerResolve.Prepared(v, i, exist) == Prepare(v0, t)
    {
      hide Equality.FindMember;
      v, exist := v0, true;
      if v.ArrayValue? && t.name == [MINUS] {
        v := ArrayValue(v.elements + [NullValue]);
        return v, |v.elements| - 1, false;
      }
      if t.index == INVALID_INDEX {
        if !v.ObjectValue? {
          v := ObjectValue([]);
        }
      } else {
        if !v.ArrayValue? && !v.ObjectValue? {
          v := ArrayValue([]);
        }
      }
      if v.ArrayValue? {
        if t.index >= |v.elements| {
          ghost var padded := Padded(v.elements, t.index + 1);
          while t.index >= |v.elements|
            invariant v.ArrayValue? && |v.elements| <= t.index + 1 && Padded(v.elements, t.index + 1) == padded
          {
            v := ArrayValue(v.elements + [NullValue]);
          }
          exist := false;
        }
        i := t.index;
      } else {
        i := Equality.FindMemberLoop(v.members, t.name);
        if i == |v.members| {
          v := ObjectValue(v.members + [Member(t.name, NullValue)]);
          exist := false;
        }
      }
    }

    method Create(ts: seq<Token>) returns (path: seq<nat>, exist: bool)
      modifies this
      ensures PointerResolve.Created(root, path, exist) == PointerResolve.Create(old(root), ts)
      ensures ValueAt(root, path).Some?
    {
      hide Prepare, Replace;
      path, exist := [], true;
      ghost var goal := PointerResolve.Create(root, ts);
      assert Replace(root, [], goal.root) == goal.root by { ReplaceAll(root, goal.root); }
      for k := 0 to |ts|
        invariant ValueAt(root, path).Some?
        invariant var c := PointerResolve.Create(ValueAt(root, path).value, ts[k..]);
          && Replace(root, path, c.root) == goal.root && path + c.path == goal.path && (exist && c.exist) == goal.exist
      {
        ghost var p := Prepare(ValueAt(root, path).value, ts[k]);
        assert ts[k..][1..] == ts[k + 1..];
        var v, i, there := Descend(ValueAt(root, path).value, ts[k]);
        ghost var c := PointerResolve.Create(Child(v, i), ts[k + 1..]);
        AtReplace(root, path, v, [i]);
        assert ValueAt(v, [i]) == Some(Child(v, i)) by { assert [i][1..] == []; }
        ReplaceDeep(root, path, i, v, c.root);
        assert path + ([i] + c.path) == path + [i] + c.path;
        root := Replace(root, path, v);
        path := path + [i];
        exist := exist && there;
      }
      ReplaceSame(root, path);
      assert path + [] == path;
    }

    method Get(ts: seq<Token>) returns (found: Found)
      ensures found == PointerResolve.Get(root, ts)
    {
      hide Resolve;
      var v, path := root, [];
      for k := 0 to |ts|
        invariant PointerResolve.Get(root, ts) == Onward(path, k, PointerResolve.Get(v, ts[k..]))
      {
        assert ts[k..][1..] == ts[k + 1..];
        var i := Step(v, ts[k]);
        if i.None? {
          return Unresolved(k);
        }
        ghost var rest := PointerResolve.Get(Child(v, i.value), ts[k + 1..]);
        if rest.Found? {
          assert path + ([i.value] + rest.path) == path + [i.value] + rest.path;
        }
        v := Child(v, i.value);
        path := path + [i.value];
      }
      assert path + [] == path;
      found := Found(path);
    }

    /** The child a token names. */
    static method Step(v: Value, t: Token) returns (i: Option<nat>)
      ensures i == Resolve(v, t)
    {
      match v
      case ObjectValue(ms) =>
        var m := Equality.FindMemberLoop(ms, t.name);
        i := if m == |ms| then None else Some(m);
      case ArrayValue(es) =>
        i := if t.index == INVALID_INDEX || t.index >= |es| then None else Some(t.index);
      case _ =>
        i := None;
    }

    method Set(ts: seq<Token>, value: Value)
      modifies this
      ensures root == PointerResolve.Set(old(root), ts, value)
    {
      hide PointerResolve.Create;
      var path, _ := Create(ts);
      root := Replace(root, path, value);
    }

    method Erase(ts: seq<Token>) returns (ok: bool)
      modifies this
      ensures Erased(root, ok) == PointerResolve.Erase(old(root), ts)
    {
      hide Resolve, Without, PointerResolve.Get;
      if ts == [] {
        return false;
      }
      ghost var goal := PointerResolve.Erase(root, ts);
      EraseTakesOut(root, ts);
      var v, path: seq<nat>, last := root, [], |ts| - 1;
      assert ts[0..] == ts;
      for k := 0 to last
        invariant ValueAt(root, path) == Some(v) && root == old(root)
        invariant Replace(root, path, PointerResolve.Erase(v, ts[k..]).root) == goal.root
        invariant PointerResolve.Erase(v, ts[k..]).ok == goal.ok
      {
        assert ts[k..][1..] == ts[k + 1..];
        var i := Step(v, ts[k]);
        if i.None? {
          ReplaceSame(root, path);
          return false;
        }
        ValueAtConcat(root, path, [i.value]);
        assert [i.value][1..] == [];
        ReplaceSame(root, path);
        ghost var e := PointerResolve.Erase(Child(v, i.value), ts[k + 1..]);
        ReplaceDeep(root, path, i.value, v, e.root);
        v := Child(v, i.value);
        path := path + [i.value];
      }
      assert ts[last..] == [ts[last]];
      var i := Step(v, ts[last]);
      if i.None? {
        ReplaceSame(root, path);
        return false;
      }
      root := Replace(root, path, Without(v, i.value));
      ok := true;
    }
  }
}
