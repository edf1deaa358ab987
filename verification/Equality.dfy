/** `GenericValue`: integer payloads and flags, member lookup, and the equality operator. */
module Equality {
  import opened Bytes
  import opened Json

  // ---- integers ----

  /** What the four integer constructors store: the 64-bit payload and the range flags. */
  datatype Stored = Stored(u64: nat, isInt: bool, isUint: bool, isInt64: bool, isUint64: bool)

  /** The payload: two's complement in 64 bits. */
  function Raw(n: int): (w: int)
    requires FitsMachine(n)
    ensures 0 <= w < 0x1_0000_0000_0000_0000
  {
    if n < 0 then n + 0x1_0000_0000_0000_0000 else n
  }

  function FromInt(i: int): Stored
    requires -0x8000_0000 <= i < 0x8000_0000
  {
    Stored(Raw(i), true, i >= 0, true, i >= 0)
  }

  /** The sign bit of the 32-bit pattern decides. */
  function FromUint(u: nat): Stored
    requires u < 0x1_0000_0000
  {
    var high := u / 0x8000_0000 % 2 == 1;
    Stored(u, !high, true, true, true)
  }

  /** The masks of the upper 32 and of the upper 33 bits. */
  function FromInt64(i64: int): Stored
    requires -0x8000_0000_0000_0000 <= i64 < 0x8000_0000_0000_0000
  {
    var w := Raw(i64);
    if i64 >= 0 then Stored(w, w / 0x8000_0000 == 0, w / 0x1_0000_0000 == 0, true, true)
    else Stored(w, i64 >= 0xFFFF_FFFF_8000_0000 - 0x1_0000_0000_0000_0000, false, true, false)
  }

  function FromUint64(u64: nat): Stored
    requires u64 < 0x1_0000_0000_0000_0000
  {
    Stored(u64, u64 / 0x8000_0000 == 0, u64 / 0x1_0000_0000 == 0, u64 / 0x8000_0000_0000_0000 % 2 == 0, true)
  }

  /** The flags a mathematical integer should have. */
  function Ranges(n: int): Stored
    requires FitsMachine(n)
  {
    Stored(
      Raw(n),
      -0x8000_0000 <= n < 0x8000_0000,
      0 <= n < 0x1_0000_0000,
      -0x8000_0000_0000_0000 <= n < 0x8000_0000_0000_0000,
      0 <= n < 0x1_0000_0000_0000_0000)
  }

  /** `Accept` on a number, by its flags. */
  function AcceptStored(st: Stored, n: int): Event {
    if st.isInt then Int(n) else if st.isUint then Uint(n) else if st.isInt64 then Int64(n) else Uint64(n)
  }

  /** Whichever constructor stores an integer, its flags are the ranges that hold it, its payload is
      its two's complement, and `Accept` sends the same event. */
  lemma ConstructorsAgree(n: int)
    requires FitsMachine(n)
    ensures -0x8000_0000 <= n < 0x8000_0000 ==> FromInt(n) == Ranges(n)
    ensures 0 <= n < 0x1_0000_0000 ==> FromUint(n) == Ranges(n)
    ensures -0x8000_0000_0000_0000 <= n < 0x8000_0000_0000_0000 ==> FromInt64(n) == Ranges(n)
    ensures 0 <= n ==> FromUint64(n) == Ranges(n)
    ensures AcceptStored(Ranges(n), n) == NumberEvent(n)
  {
    if 0 <= n < 0x1_0000_0000 {
      assert n / 0x8000_0000 == 0 || n / 0x8000_0000 == 1;
    }
  }

  // ---- member lookup ----

  /** `FindMember`: the index of the first member of that name, or the number of members. */
  function FindMember(ms: seq<Member>, name: Text): (r: nat)
    ensures r <= |ms|
    ensures r < |ms| ==> ms[r].name == name
    ensures forall i :: 0 <= i < r ==> ms[i].name != name
  {
    if ms == [] || ms[0].name == name then 0 else 1 + FindMember(ms[1..], name)
  }

  /** The search loop. */
  method FindMemberLoop(ms: seq<Member>, name: Text) returns (r: nat)
    ensures r == FindMember(ms, name)
  {
    r := 0;
    while r < |ms|
      invariant r <= |ms| && forall i :: 0 <= i < r ==> ms[i].name != name
    {
      if ms[r].name == name {
        break;
      }
      r := r + 1;
    }
    FirstOfName(ms, name, r);
  }

  lemma {:induction false} FirstOfName(ms: seq<Member>, name: Text, r: nat)
    requires r <= |ms| && (r < |ms| ==> ms[r].name == name)
    requires forall i :: 0 <= i < r ==> ms[i].name != name
    ensures FindMember(ms, name) == r
    decreases r
  {
    if r > 0 {
      FirstOfName(ms[1..], name, r - 1);
    }
  }

  // ---- the operator ----

  lemma {:induction false} IntegralAt(ms: seq<Member>, i: nat)
    requires i < |ms| && IntegralMembers(ms)
    ensures Integral(ms[i].value)
  {
    hide Integral;
    if i > 0 {
      IntegralAt(ms[1..], i - 1);
    }
  }

  /** `operator==`. */
  predicate Equal(a: Value, b: Value)
    requires Integral(a) && Integral(b)
    decreases a, 1
  {
    match a
    case NullValue => b.NullValue?
    case BoolValue(x) => b == BoolValue(x)
    case NumberValue(n) => b.NumberValue? && Raw(n) == Raw(b.n)
    case StringValue(str) => b.StringValue? && str == b.str
    case ArrayValue(es) => b.ArrayValue? && |es| == |b.elements| && ElementsEqual(es, b.elements)
    case ObjectValue(ms) => b.ObjectValue? && |ms| == |b.members| && AllFound(ms, b.members)
  }

  predicate ElementsEqual(xs: seq<Value>, bs: seq<Value>)
    requires |xs| == |bs| && IntegralElements(xs) && IntegralElements(bs)
    decreases xs, 0
  {
    xs != [] ==> Equal(xs[0], bs[0]) && ElementsEqual(xs[1..], bs[1..])
  }

  /** The outer loop: every member on the left is looked up on the right. */
  predicate AllFound(ms: seq<Member>, bs: seq<Member>)
    requires IntegralMembers(ms) && IntegralMembers(bs)
    decreases ms, 0
  {
    ms != [] ==>
      && var i := FindMember(bs, ms[0].name);
      && i < |bs|
      && (IntegralAt(bs, i); Equal(ms[0].value, bs[i].value))
      && AllFound(ms[1..], bs)
  }

  /** The operator with its loops. */
  method Compare(a: Value, b: Value) returns (r: bool)
    requires Integral(a) && Integral(b)
    ensures r == Equal(a, b)
    decreases a, 1
  {
    hide ElementsEqual, AllFound, IntegralElements, IntegralMembers;
    match a
    case NullValue => r := b.NullValue?;
    case BoolValue(x) => r := b.BoolValue? && x == b.b;
    case NumberValue(n) => r := b.NumberValue? && Raw(n) == Raw(b.n);
    case StringValue(str) => r := b.StringValue? && str == b.str;
    case ArrayValue(es) =>
      if !b.ArrayValue? || |es| != |b.elements| {
        return false;
      }
      r := CompareElements(es, b.elements);
    case ObjectValue(ms) =>
      if !b.ObjectValue? || |ms| != |b.members| {
        return false;
      }
      r := CompareMembers(ms, b.members);
  }

  method CompareElements(xs: seq<Value>, ys: seq<Value>) returns (r: bool)
    requires |xs| == |ys| && IntegralElements(xs) && IntegralElements(ys)
    ensures r == ElementsEqual(xs, ys)
    decreases xs, 0
  {
    hide Equal, Integral;
    for i := 0 to |xs|
      invariant IntegralElements(xs[i..]) && IntegralElements(ys[i..])
      invariant ElementsEqual(xs[i..], ys[i..]) == ElementsEqual(xs, ys)
    {
      assert xs[i..][1..] == xs[i + 1..] && ys[i..][1..] == ys[i + 1..];
      var same := Compare(xs[i], ys[i]);
      if !same {
        return false;
      }
    }
    r := true;
  }

  method CompareMembers(ms: seq<Member>, others: seq<Member>) returns (r: bool)
    requires IntegralMembers(ms) && IntegralMembers(others)
    ensures r == AllFound(ms, others)
    decreases ms, 0
  {
    hide Equal, Integral, FindMember;
    for i := 0 to |ms|
      invariant IntegralMembers(ms[i..]) && AllFound(ms[i..], others) == AllFound(ms, others)
    {
      assert ms[i..][1..] == ms[i + 1..];
      var j := FindMemberLoop(others, ms[i].name);
      if j == |others| {
        return false;
      }
      IntegralAt(others, j);
      var same := Compare(ms[i].value, others[j].value);
      if !same {
        return false;
      }
    }
    r := true;
  }

  // ---- what equality means ----

  /** A value with its member order forgotten and its integers as machine words. */
  datatype Meaning =
    | Nothing
    | Truth(b: bool)
    | Word(w: int)
    | Str(str: Text)
    | List(items: seq<Meaning>)
    | Table(entries: map<Text, Meaning>)

  function Denote(v: Value): Meaning
    requires Integral(v)
    decreases v, 1
  {
    match v
    case NullValue => Nothing
    case BoolValue(b) => Truth(b)
    case NumberValue(n) => Word(Raw(n))
    case StringValue(str) => Str(str)
    case ArrayValue(es) => List(DenoteElements(es))
    case ObjectValue(ms) => Table(DenoteMembers(ms))
  }

  function DenoteElements(es: seq<Value>): (r: seq<Meaning>)
    requires IntegralElements(es)
    ensures |r| == |es|
    decreases es, 0
  {
    if es == [] then [] else [Denote(es[0])] + DenoteElements(es[1..])
  }

  function DenoteMembers(ms: seq<Member>): (r: map<Text, Meaning>)
    requires IntegralMembers(ms)
    ensures forall name :: name in r <==> FindMember(ms, name) < |ms|
    decreases ms, 0
  {
    if ms == [] then map[] else DenoteMembers(ms[1..])[ms[0].name := Denote(ms[0].value)]
  }

  /** The names of a member list. */
  function Names(ms: seq<Member>): (r: set<Text>)
    ensures |r| <= |ms|
    ensures forall name :: name in r <==> FindMember(ms, name) < |ms|
  {
    if ms == [] then {} else {ms[0].name} + Names(ms[1..])
  }

  /** No name occurs twice in any object. */
  predicate Distinct(v: Value)
    decreases v, 1
  {
    match v
    case ArrayValue(es) => DistinctElements(es)
    case ObjectValue(ms) => DistinctMembers(ms)
    case _ => true
  }

  predicate DistinctElements(es: seq<Value>)
    decreases es, 0
  {
    es != [] ==> Distinct(es[0]) && DistinctElements(es[1..])
  }

  predicate DistinctMembers(ms: seq<Member>)
    decreases ms, 0
  {
    ms != [] ==> FindMember(ms[1..], ms[0].name) == |ms[1..]| && Distinct(ms[0].value) && DistinctMembers(ms[1..])
  }

  /** Whether the names at this level are distinct. */
  predicate DistinctNames(ms: seq<Member>) {
    ms != [] ==> FindMember(ms[1..], ms[0].name) == |ms[1..]| && DistinctNames(ms[1..])
  }

  lemma {:induction false} DistinctCount(ms: seq<Member>)
    ensures DistinctNames(ms) <==> |Names(ms)| == |ms|
  {
    hide FindMember;
    if ms != [] {
      DistinctCount(ms[1..]);
      OneMore(ms[0].name, Names(ms[1..]));
    }
  }

  lemma OneMore(name: Text, rest: set<Text>)
    ensures |{name} + rest| == if name in rest then |rest| else |rest| + 1
  {
    if name in rest {
      assert {name} + rest == rest;
    }
  }

  lemma {:induction false} DistinctSplit(ms: seq<Member>)
    ensures DistinctMembers(ms) <==> DistinctNames(ms) && forall i :: 0 <= i < |ms| ==> Distinct(ms[i].value)
  {
    hide Distinct;
    if ms != [] {
      DistinctSplit(ms[1..]);
      assert forall i :: 0 < i < |ms| ==> ms[i] == ms[1..][i - 1];
    }
  }

  /** A lookup gives the meaning of the member found. */
  lemma {:induction false} DenoteFound(ms: seq<Member>, name: Text)
    requires IntegralMembers(ms) && FindMember(ms, name) < |ms|
    ensures var i := FindMember(ms, name);
      Integral(ms[i].value) && DenoteMembers(ms)[name] == Denote(ms[i].value)
  {
    hide Denote, Integral;
    if ms[0].name != name {
      DenoteFound(ms[1..], name);
    }
  }

  // ---- equal values mean the same ----

  lemma {:induction false} EqualMeans(a: Value, b: Value)
    requires Integral(a) && Integral(b) && Distinct(a) && Equal(a, b)
    ensures Denote(a) == Denote(b) && Distinct(b)
    decreases a, 1
  {
    hide AllFound, ElementsEqual, DenoteMembers, DenoteElements, Names, DistinctMembers, DistinctElements;
    hide IntegralElements, IntegralMembers;
    match a
    case ArrayValue(es) => ElementsMean(es, b.elements);
    case ObjectValue(ms) =>
      FoundMean(ms, b.members);
      AllHit(ms, b.members);
    case _ =>
  }

  lemma {:induction false} ElementsMean(xs: seq<Value>, bs: seq<Value>)
    requires |xs| == |bs| && IntegralElements(xs) && IntegralElements(bs) && DistinctElements(xs) &&
        ElementsEqual(xs, bs)
    ensures DenoteElements(xs) == DenoteElements(bs) && DistinctElements(bs)
    decreases xs, 0
  {
    hide Equal, Denote, Distinct, Integral;
    if xs != [] {
      EqualMeans(xs[0], bs[0]);
      ElementsMean(xs[1..], bs[1..]);
    }
  }

  /** What looking up every member of `ms` in `bs` establishes. */
  lemma {:induction false} FoundMean(ms: seq<Member>, bs: seq<Member>)
    requires IntegralMembers(ms) && IntegralMembers(bs) && DistinctMembers(ms) && AllFound(ms, bs)
    ensures Names(ms) <= Names(bs)
    ensures forall name :: name in DenoteMembers(ms) ==>
      && name in DenoteMembers(bs) && DenoteMembers(bs)[name] == DenoteMembers(ms)[name]
      && Distinct(bs[FindMember(bs, name)].value)
    decreases ms, 0
  {
    hide Equal, Denote, Distinct, Integral;
    if ms != [] {
      var name := ms[0].name;
      var i := FindMember(bs, name);
      IntegralAt(bs, i);
      EqualMeans(ms[0].value, bs[i].value);
      DenoteFound(bs, name);
      FoundMean(ms[1..], bs);
    }
  }

  lemma SubsetFills<T>(a: set<T>, b: set<T>)
    requires a <= b && |a| >= |b|
    ensures a == b
  {
    assert |b - a| == |b| - |a|;
  }

  /** The pigeonhole step: as many distinct names, all found, leave no member of `bs` unmatched. */
  lemma AllHit(ms: seq<Member>, bs: seq<Member>)
    requires IntegralMembers(ms) && IntegralMembers(bs) && DistinctMembers(ms) && |ms| == |bs|
    requires Names(ms) <= Names(bs)
    requires forall name :: name in DenoteMembers(ms) ==>
      && name in DenoteMembers(bs) && DenoteMembers(bs)[name] == DenoteMembers(ms)[name]
      && Distinct(bs[FindMember(bs, name)].value)
    ensures DenoteMembers(ms) == DenoteMembers(bs) && DistinctMembers(bs)
  {
    hide Denote, Distinct, Integral, DenoteMembers, Names, DistinctMembers, DistinctNames, FindMember, IntegralMembers;
    DistinctSplit(ms);
    DistinctCount(ms);
    SubsetFills(Names(ms), Names(bs));
    DistinctCount(bs);
    assert DenoteMembers(ms) == DenoteMembers(bs) by {
      assert forall name :: name in DenoteMembers(bs) <==> name in Names(bs);
      assert forall name :: name in DenoteMembers(ms) <==> name in Names(ms);
    }
    forall i | 0 <= i < |bs|
      ensures Distinct(bs[i].value)
    {
      FindDistinct(bs, i);
      assert bs[i].name in Names(bs);
    }
    DistinctSplit(bs);
  }

  /** Among distinct names, a member is the first of its name. */
  lemma {:induction false} FindDistinct(ms: seq<Member>, i: nat)
    requires DistinctNames(ms) && i < |ms|
    ensures FindMember(ms, ms[i].name) == i
  {
    if i > 0 {
      FindDistinct(ms[1..], i - 1);
      assert ms[i] == ms[1..][i - 1];
      if ms[0].name == ms[i].name {
        assert false;
      }
    }
  }

  // ---- values that mean the same are equal ----

  lemma {:induction false} MeaningEqual(a: Value, b: Value)
    requires Integral(a) && Integral(b) && Distinct(a) && Distinct(b) && Denote(a) == Denote(b)
    ensures Equal(a, b)
    decreases a, 1
  {
    hide AllFound, ElementsEqual, DenoteMembers, DenoteElements, Names, DistinctMembers, DistinctElements;
    hide IntegralElements, IntegralMembers;
    match a
    case ArrayValue(es) =>
      assert |DenoteElements(es)| == |DenoteElements(b.elements)|;
      MeaningElements(es, b.elements);
    case ObjectValue(ms) =>
      SameSize(ms, b.members);
      MeaningFound(ms, b.members);
    case _ =>
  }

  lemma {:induction false} MeaningElements(xs: seq<Value>, bs: seq<Value>)
    requires |xs| == |bs| && IntegralElements(xs) && IntegralElements(bs) && DistinctElements(xs) &&
        DistinctElements(bs)
    requires DenoteElements(xs) == DenoteElements(bs)
    ensures ElementsEqual(xs, bs)
    decreases xs, 0
  {
    hide Equal, Denote, Distinct, Integral;
    if xs != [] {
      var ra, rb := DenoteElements(xs[1..]), DenoteElements(bs[1..]);
      assert ([Denote(xs[0])] + ra)[0] == ([Denote(bs[0])] + rb)[0];
      assert ([Denote(xs[0])] + ra)[1..] == ra && ([Denote(bs[0])] + rb)[1..] == rb;
      MeaningEqual(xs[0], bs[0]);
      MeaningElements(xs[1..], bs[1..]);
    }
  }

  lemma SameSize(ms: seq<Member>, bs: seq<Member>)
    requires IntegralMembers(ms) && IntegralMembers(bs) && DistinctMembers(ms) && DistinctMembers(bs)
    requires DenoteMembers(ms) == DenoteMembers(bs)
    ensures |ms| == |bs|
  {
    hide Denote, Distinct, Integral, DenoteMembers, Names, DistinctMembers, DistinctNames, FindMember, IntegralMembers;
    DistinctSplit(ms);
    DistinctSplit(bs);
    DistinctCount(ms);
    DistinctCount(bs);
    assert forall name :: name in Names(ms) <==> name in DenoteMembers(ms);
    assert forall name :: name in Names(bs) <==> name in DenoteMembers(bs);
    assert Names(ms) == Names(bs);
  }

  lemma {:induction false} MeaningFound(ms: seq<Member>, bs: seq<Member>)
    requires IntegralMembers(ms) && IntegralMembers(bs) && DistinctMembers(ms) && DistinctMembers(bs)
    requires forall name :: name in DenoteMembers(ms) ==>
      name in DenoteMembers(bs) && DenoteMembers(bs)[name] == DenoteMembers(ms)[name]
    ensures AllFound(ms, bs)
    decreases ms, 0
  {
    hide Equal, Denote, Distinct, Integral;
    if ms != [] {
      var name := ms[0].name;
      assert name in DenoteMembers(ms);
      var i := FindMember(bs, name);
      DenoteFound(bs, name);
      DistinctSplit(bs);
      MeaningEqual(ms[0].value, bs[i].value);
      IntegralAt(bs, i);
      forall n | n in DenoteMembers(ms[1..])
        ensures n in DenoteMembers(bs) && DenoteMembers(bs)[n] == DenoteMembers(ms[1..])[n]
      {
        assert n != name;
        assert n in DenoteMembers(ms);
      }
      MeaningFound(ms[1..], bs);
    }
  }

  // ---- equality is transitive, duplicates or not ----

  lemma {:induction false} EqualTransitive(a: Value, b: Value, c: Value)
    requires Integral(a) && Integral(b) && Integral(c) && Equal(a, b) && Equal(b, c)
    ensures Equal(a, c)
    decreases a, 1
  {
    hide AllFound, ElementsEqual, IntegralElements, IntegralMembers;
    match a
    case ArrayValue(es) => ElementsTransitive(es, b.elements, c.elements);
    case ObjectValue(ms) => FoundTransitive(ms, b.members, c.members);
    case _ =>
  }

  lemma {:induction false} ElementsTransitive(xs: seq<Value>, ys: seq<Value>, zs: seq<Value>)
    requires |xs| == |ys| == |zs| && IntegralElements(xs) && IntegralElements(ys) && IntegralElements(zs)
    requires ElementsEqual(xs, ys) && ElementsEqual(ys, zs)
    ensures ElementsEqual(xs, zs)
    decreases xs, 0
  {
    hide Equal, Integral;
    if xs != [] {
      EqualTransitive(xs[0], ys[0], zs[0]);
      ElementsTransitive(xs[1..], ys[1..], zs[1..]);
    }
  }

  /** What is found in a list is found wherever that whole list is. */
  lemma {:induction false} FoundTransitive(ms: seq<Member>, bs: seq<Member>, cs: seq<Member>)
    requires IntegralMembers(ms) && IntegralMembers(bs) && IntegralMembers(cs)
    requires AllFound(ms, bs) && AllFound(bs, cs)
    ensures AllFound(ms, cs)
    decreases ms, 0
  {
    hide Equal, Integral;
    if ms != [] {
      var i := FindMember(bs, ms[0].name);
      IntegralAt(bs, i);
      FoundAt(bs, cs, i);
      var j := FindMember(cs, ms[0].name);
      IntegralAt(cs, j);
      EqualTransitive(ms[0].value, bs[i].value, cs[j].value);
      FoundTransitive(ms[1..], bs, cs);
    }
  }

  lemma {:induction false} FoundAt(bs: seq<Member>, cs: seq<Member>, i: nat)
    requires i < |bs| && IntegralMembers(bs) && IntegralMembers(cs) && AllFound(bs, cs)
    ensures var j := FindMember(cs, bs[i].name);
      j < |cs| && Integral(bs[i].value) && Integral(cs[j].value) && Equal(bs[i].value, cs[j].value)
  {
    hide Equal, Integral;
    var j := FindMember(cs, bs[0].name);
    IntegralAt(cs, j);
    if i > 0 {
      FoundAt(bs[1..], cs, i - 1);
    }
  }

  // ---- the results ----

  /**
   For a left operand without duplicate names, the operator decides equality of meaning, whatever
   the right operand: it is true exactly when the right operand has no duplicate names either and
   both mean the same.  (With a right operand that has duplicates it is false, as documented.)
   */
  lemma EqualIff(a: Value, b: Value)
    requires Integral(a) && Integral(b) && Distinct(a)
    ensures Equal(a, b) <==> Distinct(b) && Denote(a) == Denote(b)
  {
    hide *;
    if Equal(a, b) {
      EqualMeans(a, b);
    } else if Distinct(b) && Denote(a) == Denote(b) {
      MeaningEqual(a, b);
    }
  }

  /** On values without duplicate names it is an equivalence; it is transitive on all values. */
  lemma Equivalence(a: Value, b: Value, c: Value)
    requires Integral(a) && Integral(b) && Integral(c)
    ensures Distinct(a) ==> Equal(a, a)
    ensures Distinct(a) && Equal(a, b) ==> Equal(b, a)
    ensures Equal(a, b) && Equal(b, c) ==> Equal(a, c)
  {
    hide *;
    if Distinct(a) {
      EqualIff(a, a);
      EqualIff(a, b);
      if Equal(a, b) {
        EqualIff(b, a);
      }
    }
    if Equal(a, b) && Equal(b, c) {
      EqualTransitive(a, b, c);
    }
  }

  /** Turned around, the operator fails exactly when the operand that had been on the left has duplicate
      names: it searches one side's names in the other only. */
  lemma SymmetricIff(a: Value, b: Value)
    requires Integral(a) && Integral(b) && Distinct(b) && Equal(a, b)
    ensures Equal(b, a) <==> Distinct(a)
  {
    hide *;
    EqualIff(b, a);
    if Distinct(a) {
      EqualIff(a, b);
    }
  }

  /** Numbers are equal exactly when they are the same integer, or differ by 2^64. */
  lemma NumbersEqual(m: int, n: int)
    requires FitsMachine(m) && FitsMachine(n)
    ensures Equal(NumberValue(m), NumberValue(n)) <==>
      m == n || m == n + 0x1_0000_0000_0000_0000 || n == m + 0x1_0000_0000_0000_0000
    ensures m < 0x8000_0000_0000_0000 && n < 0x8000_0000_0000_0000 ==>
      (Equal(NumberValue(m), NumberValue(n)) <==> m == n)
  {
  }

  /** Mixed signs are where it fails. */
  lemma NegativeEqualsHuge()
    ensures Equal(NumberValue(-1), NumberValue(0xFFFF_FFFF_FFFF_FFFF))
  {
  }

  /** With duplicate names on the left the operator can be true, against its note, and one way only. */
  lemma DuplicatesBreakSymmetry()
    ensures exists a, b ::
      Integral(a) && Integral(b) && !Distinct(a) && Equal(a, b) && !Equal(b, a)
  {
    var x, y: Text := [0x61], [0x62];
    var xx := [Member(x, NumberValue(1)), Member(x, NumberValue(1))];
    var xy := [Member(x, NumberValue(1)), Member(y, NumberValue(2))];
    var a, b := ObjectValue(xx), ObjectValue(xy);
    Pair(xx[0], xx[1]);
    Pair(xy[0], xy[1]);
    assert xx == [xx[0], xx[1]] && xy == [xy[0], xy[1]];
    FirstOfName(xx, x, 0);
    FirstOfName(xy, x, 0);
    FirstOfName(xx, y, 2);
    assert xx[1..] == [xx[1]] && xx[1..][1..] == [];
    assert xy[1..] == [xy[1]];
    FirstOfName(xx[1..], x, 0);
    assert AllFound(xx[1..][1..], xy);
    assert AllFound(xx[1..], xy);
    assert AllFound(xx, xy);
    assert xy[1..][0] == xy[1] && !AllFound(xy[1..], xx);
    assert !AllFound(xy, xx);
    assert !Equal(b, a);
    assert Integral(a) && Integral(b) && !Distinct(a) && Equal(a, b) && !Equal(b, a);
  }

  lemma Pair(m: Member, n: Member)
    requires Integral(m.value) && Integral(n.value)
    ensures IntegralMembers([m, n]) && IntegralMembers([n])
  {
    assert [m, n][1..] == [n] && [n][1..] == [];
  }
}
