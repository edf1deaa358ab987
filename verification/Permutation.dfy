/** Values that differ only in the order of members, and when the operator `==` finds them equal. */
module Permutation {
  import opened Bytes
  import opened Json
  import opened Equality

  // ---- taking a member out ----

  function Without(ms: seq<Member>, i: nat): seq<Member>
    requires i < |ms|
  {
    ms[..i] + ms[i + 1..]
  }

  lemma WithoutLater(ms: seq<Member>, i: nat)
    requires 0 < i < |ms|
    ensures Without(ms, i) != [] && Without(ms, i)[0] == ms[0] && Without(ms, i)[1..] == Without(ms[1..], i - 1)
    ensures ms[1..][i - 1] == ms[i]
  {
  }

  /** Taking a member out keeps what is required of the rest. */
  lemma {:induction false} WithoutKeeps(ms: seq<Member>, i: nat)
    requires i < |ms| && IntegralMembers(ms)
    ensures IntegralMembers(Without(ms, i)) && Integral(ms[i].value)
  {
    hide Integral, Without;
    if i == 0 {
      WithoutFirst(ms);
    } else {
      WithoutKeeps(ms[1..], i - 1);
      WithoutLater(ms, i);
    }
  }

  lemma {:induction false} WithoutDistinct(ms: seq<Member>, i: nat)
    requires i < |ms| && DistinctMembers(ms)
    ensures DistinctMembers(Without(ms, i)) && Distinct(ms[i].value)
    ensures FindMember(Without(ms, i), ms[i].name) == |Without(ms, i)|
  {
    hide Distinct, Without;
    if i == 0 {
      WithoutFirst(ms);
    } else {
      WithoutLater(ms, i);
      WithoutDistinct(ms[1..], i - 1);
      MissingStays(ms[1..], i - 1, ms[0].name);
    }
  }

  /** Only the name taken out leaves the table. */
  lemma {:induction false} WithoutMeans(ms: seq<Member>, i: nat)
    requires i < |ms| && IntegralMembers(ms) && DistinctMembers(ms)
    ensures IntegralMembers(Without(ms, i))
    ensures DenoteMembers(Without(ms, i)) == DenoteMembers(ms) - {ms[i].name}
  {
    hide Integral, Distinct, Denote, Without, DenoteMembers, FindMember, IntegralMembers;
    WithoutKeeps(ms, i);
    DenoteFirst(ms);
    var d := DenoteMembers(ms[1..]);
    if i == 0 {
      WithoutFirst(ms);
      EraseSame(d, ms[0].name, Denote(ms[0].value));
    } else {
      WithoutLater(ms, i);
      WithoutMeans(ms[1..], i - 1);
      MissingStays(ms[1..], i - 1, ms[0].name);
      DenoteFirst(Without(ms, i));
      EraseOther(d, ms[i].name, ms[0].name, Denote(ms[0].value));
    }
  }

  lemma EraseSame<K, V>(d: map<K, V>, key: K, value: V)
    requires key !in d
    ensures d[key := value] - {key} == d
  {
  }

  lemma EraseOther<K, V>(d: map<K, V>, erased: K, key: K, value: V)
    requires erased != key
    ensures (d - {erased})[key := value] == d[key := value] - {erased}
  {
  }

  lemma DenoteFirst(ms: seq<Member>)
    requires ms != [] && IntegralMembers(ms)
    ensures IntegralMembers(ms[1..]) && Integral(ms[0].value)
    ensures DenoteMembers(ms) == DenoteMembers(ms[1..])[ms[0].name := Denote(ms[0].value)]
  {
    hide Integral, Denote, FindMember;
  }

  lemma MissingStays(ms: seq<Member>, i: nat, name: Text)
    requires i < |ms| && FindMember(ms, name) == |ms|
    ensures FindMember(Without(ms, i), name) == |Without(ms, i)| && ms[i].name != name
  {
    hide FindMember;
    var rest := Without(ms, i);
    assert forall k :: 0 <= k < |rest| ==> rest[k] == if k < i then ms[k] else ms[k + 1];
  }

  lemma FirstNamed(ms: seq<Member>)
    requires ms != []
    ensures FindMember(ms, ms[0].name) == 0
  {
  }

  lemma WithoutFirst(ms: seq<Member>)
    requires ms != []
    ensures Without(ms, 0) == ms[1..]
  {
  }

  lemma MissingBack(ms: seq<Member>, i: nat, name: Text)
    requires i < |ms| && FindMember(Without(ms, i), name) == |Without(ms, i)| && ms[i].name != name
    ensures FindMember(ms, name) == |ms|
  {
    hide FindMember;
    var rest := Without(ms, i);
    forall k | 0 <= k < |ms|
      ensures ms[k].name != name
    {
      assert k < i ==> rest[k] == ms[k];
      assert k > i ==> rest[k - 1] == ms[k];
    }
    FirstOfName(ms, name, |ms|);
  }

  /** Names stay distinct when a member of a new name is put in, wherever that is. */
  lemma {:induction false} WithDistinct(ms: seq<Member>, i: nat)
    requires i < |ms| && DistinctMembers(Without(ms, i)) && Distinct(ms[i].value)
    requires FindMember(Without(ms, i), ms[i].name) == |Without(ms, i)|
    ensures DistinctMembers(ms)
  {
    hide Distinct, Without;
    if i == 0 {
      WithoutFirst(ms);
    } else {
      WithoutLater(ms, i);
      WithDistinct(ms[1..], i - 1);
      MissingBack(ms[1..], i - 1, ms[0].name);
    }
  }

  // ---- permuted values ----

  /** The same value but for the order of members, at any depth. */
  ghost predicate Permuted(a: Value, b: Value)
    decreases a, 1
  {
    match a
    case ArrayValue(es) => b.ArrayValue? && PermutedElements(es, b.elements)
    case ObjectValue(ms) => b.ObjectValue? && PermutedMembers(ms, b.members)
    case _ => a == b
  }

  ghost predicate PermutedElements(xs: seq<Value>, ys: seq<Value>)
    decreases xs, 0
  {
    |xs| == |ys| && (xs != [] ==> Permuted(xs[0], ys[0]) && PermutedElements(xs[1..], ys[1..]))
  }

  /** The first member stands somewhere in the other list, and the rest is the rest of it. */
  ghost predicate PermutedMembers(ms: seq<Member>, others: seq<Member>)
    decreases ms, 0
  {
    && |ms| == |others|
    && (ms != [] ==>
          exists i :: 0 <= i < |others| && others[i].name == ms[0].name && Permuted(ms[0].value, others[i].value)
              && PermutedMembers(ms[1..], Without(others, i)))
  }

  /** All numbers lie among the 2^64 integers from `lo` on. */
  predicate Within(lo: int, v: Value)
    decreases v, 1
  {
    match v
    case NumberValue(n) => lo <= n < lo + 0x1_0000_0000_0000_0000
    case ArrayValue(es) => WithinElements(lo, es)
    case ObjectValue(ms) => WithinMembers(lo, ms)
    case _ => true
  }

  predicate WithinElements(lo: int, es: seq<Value>)
    decreases es, 0
  {
    es != [] ==> Within(lo, es[0]) && WithinElements(lo, es[1..])
  }

  predicate WithinMembers(lo: int, ms: seq<Member>)
    decreases ms, 0
  {
    ms != [] ==> Within(lo, ms[0].value) && WithinMembers(lo, ms[1..])
  }

  lemma {:induction false} WithoutWithin(lo: int, ms: seq<Member>, i: nat)
    requires i < |ms| && WithinMembers(lo, ms)
    ensures WithinMembers(lo, Without(ms, i)) && Within(lo, ms[i].value)
  {
    hide Within, Without;
    if i == 0 {
      WithoutFirst(ms);
    } else {
      WithoutWithin(lo, ms[1..], i - 1);
      WithoutLater(ms, i);
    }
  }

  // ---- values that mean the same are permuted ----

  lemma {:induction false} MeaningPermutes(lo: int, a: Value, b: Value)
    requires Integral(a) && Integral(b) && Distinct(a) && Distinct(b) && Within(lo, a) && Within(lo, b)
    requires Denote(a) == Denote(b)
    ensures Permuted(a, b)
    decreases a, 1
  {
    hide DenoteMembers, DenoteElements, DistinctMembers, DistinctElements, IntegralElements, IntegralMembers;
    hide WithinElements, WithinMembers, PermutedElements, PermutedMembers;
    match a
    case ArrayValue(es) =>
      assert |DenoteElements(es)| == |DenoteElements(b.elements)|;
      ElementsPermute(lo, es, b.elements);
    case ObjectValue(ms) =>
      MembersPermute(lo, ms, b.members);
    case _ =>
  }

  lemma {:induction false} ElementsPermute(lo: int, xs: seq<Value>, ys: seq<Value>)
    requires |xs| == |ys| && IntegralElements(xs) && IntegralElements(ys) && DistinctElements(xs)
    requires DistinctElements(ys) && WithinElements(lo, xs) && WithinElements(lo, ys)
    requires DenoteElements(xs) == DenoteElements(ys)
    ensures PermutedElements(xs, ys)
    decreases xs, 0
  {
    hide Denote, Distinct, Integral, Within, Permuted;
    if xs != [] {
      var ra, rb := DenoteElements(xs[1..]), DenoteElements(ys[1..]);
      assert ([Denote(xs[0])] + ra)[0] == ([Denote(ys[0])] + rb)[0];
      assert ([Denote(xs[0])] + ra)[1..] == ra && ([Denote(ys[0])] + rb)[1..] == rb;
      MeaningPermutes(lo, xs[0], ys[0]);
      ElementsPermute(lo, xs[1..], ys[1..]);
    }
  }

  lemma {:induction false} MembersPermute(lo: int, ms: seq<Member>, others: seq<Member>)
    requires IntegralMembers(ms) && IntegralMembers(others) && DistinctMembers(ms) && DistinctMembers(others)
    requires WithinMembers(lo, ms) && WithinMembers(lo, others) && DenoteMembers(ms) == DenoteMembers(others)
    ensures PermutedMembers(ms, others)
    decreases ms, 0
  {
    hide Denote, Distinct, Integral, Within, Permuted, DenoteMembers, FindMember, Without;
    SameSize(ms, others);
    if ms != [] {
      var name := ms[0].name;
      FirstNamed(ms);
      DenoteFound(ms, name);
      var i := FindMember(others, name);
      DenoteFound(others, name);
      WithoutKeeps(others, i);
      WithoutWithin(lo, others, i);
      WithoutDistinct(others, i);
      WithoutMeans(others, i);
      WithoutMeans(ms, 0);
      WithoutFirst(ms);
      MeaningPermutes(lo, ms[0].value, others[i].value);
      MembersPermute(lo, ms[1..], Without(others, i));
    }
  }

  // ---- permuted values mean the same ----

  lemma {:induction false} PermutedMeans(a: Value, b: Value)
    requires Integral(a) && Integral(b) && Distinct(a) && Permuted(a, b)
    ensures Distinct(b) && Denote(a) == Denote(b)
    decreases a, 1
  {
    hide DenoteMembers, DenoteElements, DistinctMembers, DistinctElements, IntegralElements, IntegralMembers;
    hide PermutedElements, PermutedMembers;
    match a
    case ArrayValue(es) => PermutedElementsMean(es, b.elements);
    case ObjectValue(ms) => PermutedMembersMean(ms, b.members);
    case _ =>
  }

  lemma {:induction false} PermutedElementsMean(xs: seq<Value>, ys: seq<Value>)
    requires IntegralElements(xs) && IntegralElements(ys) && DistinctElements(xs) && PermutedElements(xs, ys)
    ensures DistinctElements(ys) && DenoteElements(xs) == DenoteElements(ys)
    decreases xs, 0
  {
    hide Denote, Distinct, Integral, Permuted;
    if xs != [] {
      PermutedMeans(xs[0], ys[0]);
      PermutedElementsMean(xs[1..], ys[1..]);
    }
  }

  lemma {:induction false} PermutedMembersMean(ms: seq<Member>, others: seq<Member>)
    requires IntegralMembers(ms) && IntegralMembers(others) && DistinctMembers(ms) && PermutedMembers(ms, others)
    ensures DistinctMembers(others) && DenoteMembers(ms) == DenoteMembers(others)
    decreases ms, 0
  {
    hide Denote, Distinct, Integral, Permuted, DenoteMembers, FindMember, Without;
    if ms != [] {
      var name, rest := ms[0].name, ms[1..];
      var i :| 0 <= i < |others| && others[i].name == name && Permuted(ms[0].value, others[i].value)
        && PermutedMembers(rest, Without(others, i));
      WithoutKeeps(others, i);
      PermutedMeans(ms[0].value, others[i].value);
      PermutedMembersMean(rest, Without(others, i));
      assert name !in DenoteMembers(Without(others, i));
      WithDistinct(others, i);
      PutBack(others, i);
      DenoteFirst(ms);
    }
  }

  lemma PutBack(ms: seq<Member>, i: nat)
    requires i < |ms| && IntegralMembers(ms) && DistinctMembers(ms)
    ensures IntegralMembers(Without(ms, i)) && Integral(ms[i].value)
    ensures DenoteMembers(ms) == DenoteMembers(Without(ms, i))[ms[i].name := Denote(ms[i].value)]
  {
    hide Denote, Distinct, Integral, DenoteMembers, FindMember, Without, DistinctNames, DistinctMembers;
    WithoutKeeps(ms, i);
    WithoutMeans(ms, i);
    DistinctSplit(ms);
    FindDistinct(ms, i);
    DenoteFound(ms, ms[i].name);
  }

  // ---- the operator decides it ----

  /**
   For a left operand without duplicate names, and numbers from one range of 2^64 integers on both
   sides, the operator finds two values equal exactly when they differ in the order of members only.
   */
  lemma EqualIffPermuted(lo: int, a: Value, b: Value)
    requires Integral(a) && Integral(b) && Distinct(a) && Within(lo, a) && Within(lo, b)
    ensures Equal(a, b) <==> Permuted(a, b)
  {
    hide *;
    EqualIff(a, b);
    if Equal(a, b) {
      MeaningPermutes(lo, a, b);
    } else if Permuted(a, b) {
      PermutedMeans(a, b);
    }
  }
}
