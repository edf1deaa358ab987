/** The schema hasher: a stack machine over events whose code forgets the order of members. */
module Hasher {
  import opened Binary
  import opened Bytes
  import opened Json
  import opened Document
  import opened Equality
  import opened Permutation
  import CrcSpec

  // ---- 64-bit words ----

  type Code = w: seq<bool> | |w| == 64 witness CrcSpec.Zeros(64)

  const PRIME := 0x0000_0100_0000_01B3
  const OFFSET := 0x8422_2325_CBF2_9CE4

  function Word64(n: nat): Code {
    FromNat(n, |CrcSpec.Zeros(64)|)
  }

  function Mix(x: Code, y: Code): Code {
    CrcSpec.Xor(x, y)
  }

  /** One step of the hash: exclusive or, then a product that wraps. */
  function Hash(h: Code, d: Code): Code {
    Word64(ToNat(Mix(h, d)) * PRIME % 0x1_0000_0000_0000_0000)
  }

  /** The hash of an empty container. */
  function Seed(kind: nat): Code {
    Hash(Word64(0), Word64(kind))
  }

  // ---- codes of scalars ----

  const FALSE_TYPE: nat := 1
  const TRUE_TYPE: nat := 2
  const NULL_TYPE: nat := 0
  const OBJECT_TYPE: nat := 3
  const ARRAY_TYPE: nat := 4
  const STRING_TYPE: nat := 5
  const NUMBER_TYPE: nat := 6

  function HashBytes(h: Code, data: Text): Code
    decreases |data|
  {
    if data == [] then h else HashBytes(Hash(h, Word64(data[0])), data[1..])
  }

  /** `WriteBuffer`. */
  function Buffer(kind: nat, data: Text): Code {
    HashBytes(Hash(Word64(OFFSET), Word64(kind)), data)
  }

  /** Eight bytes of a payload, least significant first. */
  function Octets(w: nat, n: nat): Text
    decreases n
  {
    if n == 0 then [] else [w % 256] + Octets(w / 256, n - 1)
  }

  /** The bytes of the structure hashed for an integer: its payload, and its conversion to `double`,
      which is a parameter here. */
  function NumberBytes(asDouble: int -> Text, n: int): Text
    requires FitsMachine(n)
  {
    Octets(Raw(n), |CrcSpec.Zeros(8)|) + asDouble(n)
  }

  // ---- the machine ----

  /** The fold of `EndArray`. */
  function Folded(h: Code, es: seq<Code>): Code
    decreases |es|
  {
    if es == [] then h else Folded(Hash(h, es[0]), es[1..])
  }

  /** The fold of `EndObject`, over names and values in turn. */
  function Mixed(kv: seq<Code>): Code
    requires |kv| % 2 == 0
  {
    if kv == [] then CrcSpec.Zeros(64) else Mix(Hash(kv[0], kv[1]), Mixed(kv[2..]))
  }

  /** The code of an object from the codes of its names and values. */
  function ObjectCode(kv: seq<Code>): Code
    requires |kv| % 2 == 0
  {
    Mix(Seed(OBJECT_TYPE), Mixed(kv))
  }

  function ArrayCode(es: seq<Code>): Code {
    Folded(Seed(ARRAY_TYPE), es)
  }

  function IntegerStep(asDouble: int -> Text, stack: seq<Code>, n: int): Option<seq<Code>> {
    if FitsMachine(n) then Some(stack + [Buffer(NUMBER_TYPE, NumberBytes(asDouble, n))]) else None
  }

  /** One handler call.  Doubles have no outcome here. */
  function HashStep(asDouble: int -> Text, stack: seq<Code>, ev: Event): Option<seq<Code>> {
    match ev
    case Null => Some(stack + [Buffer(NULL_TYPE, [])])
    case Bool(b) => Some(stack + [Buffer(if b then TRUE_TYPE else FALSE_TYPE, [])])
    case Int(n) => IntegerStep(asDouble, stack, n)
    case Uint(n) => IntegerStep(asDouble, stack, n)
    case Int64(n) => IntegerStep(asDouble, stack, n)
    case Uint64(n) => IntegerStep(asDouble, stack, n)
    case Double(_) => None
    case String(str) => Some(stack + [Buffer(STRING_TYPE, str)])
    case Key(name) => Some(stack + [Buffer(STRING_TYPE, name)])
    case StartObject => Some(stack)
    case StartArray => Some(stack)
    case EndObject(n) =>
      if |stack| < 2 * n then None
      else
        var k := |stack| - 2 * n;
        Some(stack[..k] + [ObjectCode(stack[k..])])
    case EndArray(n) =>
      if |stack| < n then None
      else
        var k := |stack| - n;
        Some(stack[..k] + [ArrayCode(stack[k..])])
  }

  function HashAll(asDouble: int -> Text, stack: seq<Code>, evs: seq<Event>): Option<seq<Code>>
    decreases |evs|
  {
    if evs == [] then Some(stack)
    else
      match HashStep(asDouble, stack, evs[0])
      case None => None
      case Some(next) => HashAll(asDouble, next, evs[1..])
  }

  /** `Hasher`: the stack the calls change in place. */
  class Hasher {
    var stack: seq<Code>
    const asDouble: int -> Text

    constructor (asDouble: int -> Text)
      ensures stack == [] && this.asDouble == asDouble
    {
      stack := [];
      this.asDouble := asDouble;
    }

    predicate IsValid()
      reads this
    {
      |stack| == 1
    }

    method WriteBuffer(kind: nat, data: Text)
      modifies this`stack
      ensures stack == old(stack) + [Buffer(kind, data)]
    {
      hide Hash;
      var h := Hash(Word64(OFFSET), Word64(kind));
      for i := 0 to |data|
        invariant HashBytes(h, data[i..]) == Buffer(kind, data)
      {
        assert data[i..][1..] == data[i + 1..];
        h := Hash(h, Word64(data[i]));
      }
      stack := stack + [h];
    }

    method EndObject(memberCount: nat)
      requires 2 * memberCount <= |stack|
      modifies this`stack
      ensures Some(stack) == HashStep(asDouble, old(stack), Event.EndObject(memberCount))
    {
      hide Hash, Seed, Mix;
      var h: Code := Seed(OBJECT_TYPE);
      ghost var h0 := h;
      var kv := stack[|stack| - 2 * memberCount..];
      stack := stack[..|stack| - 2 * memberCount];
      assert kv == old(stack)[|old(stack)| - 2 * memberCount..];
      XorZero(h);
      for i := 0 to memberCount
        invariant stack == old(stack)[..|old(stack)| - 2 * memberCount]
        invariant Mix(h, Mixed(kv[2 * i..])) == Mix(h0, Mixed(kv))
      {
        assert kv[2 * i..][2..] == kv[2 * (i + 1)..];
        var item := Hash(kv[2 * i], kv[2 * i + 1]);
        XorShift(h, item, Mixed(kv[2 * (i + 1)..]));
        h := Mix(h, item);
      }
      assert kv[2 * memberCount..] == [] && Mixed([]) == CrcSpec.Zeros(64);
      XorZero(h);
      assert h == ObjectCode(kv);
      stack := stack + [h];
    }

    method EndArray(elementCount: nat)
      requires elementCount <= |stack|
      modifies this`stack
      ensures Some(stack) == HashStep(asDouble, old(stack), Event.EndArray(elementCount))
    {
      hide Hash, Seed;
      var h := Seed(ARRAY_TYPE);
      ghost var h0 := h;
      var e := stack[|stack| - elementCount..];
      stack := stack[..|stack| - elementCount];
      for i := 0 to elementCount
        invariant Folded(h, e[i..]) == Folded(h0, e)
      {
        assert e[i..][1..] == e[i + 1..];
        h := Hash(h, e[i]);
      }
      stack := stack + [h];
    }

    /** The handler call of an event. */
    method Handle(ev: Event)
      requires HashStep(asDouble, stack, ev).Some?
      modifies this`stack
      ensures Some(stack) == HashStep(asDouble, old(stack), ev)
    {
      hide Hash, Seed, Buffer, NumberBytes, Folded, Mixed;
      match ev
      case Null => WriteBuffer(NULL_TYPE, []);
      case Bool(b) => WriteBuffer(if b then TRUE_TYPE else FALSE_TYPE, []);
      case Int(n) => WriteBuffer(NUMBER_TYPE, NumberBytes(asDouble, n));
      case Uint(n) => WriteBuffer(NUMBER_TYPE, NumberBytes(asDouble, n));
      case Int64(n) => WriteBuffer(NUMBER_TYPE, NumberBytes(asDouble, n));
      case Uint64(n) => WriteBuffer(NUMBER_TYPE, NumberBytes(asDouble, n));
      case String(str) => WriteBuffer(STRING_TYPE, str);
      case Key(name) => WriteBuffer(STRING_TYPE, name);
      case StartObject =>
      case StartArray =>
      case EndObject(n) => EndObject(n);
      case EndArray(n) => EndArray(n);
    }
  }

  lemma XorZero(x: Code)
    ensures Mix(x, CrcSpec.Zeros(64)) == x
  {
  }

  lemma XorShift(x: Code, y: Code, z: Code)
    ensures Mix(Mix(x, y), z) == Mix(x, Mix(y, z)) == Mix(y, Mix(x, z))
  {
    var a, b, c := Mix(Mix(x, y), z), Mix(x, Mix(y, z)), Mix(y, Mix(x, z));
    assert forall i :: 0 <= i < 64 ==> a[i] == b[i] && c[i] == b[i];
  }

  // ---- the code of a value ----

  function CodeOf(asDouble: int -> Text, v: Value): Code
    requires Integral(v)
    decreases v, 1
  {
    match v
    case NullValue => Buffer(NULL_TYPE, [])
    case BoolValue(b) => Buffer(if b then TRUE_TYPE else FALSE_TYPE, [])
    case NumberValue(n) => Buffer(NUMBER_TYPE, NumberBytes(asDouble, n))
    case StringValue(str) => Buffer(STRING_TYPE, str)
    case ArrayValue(es) => ArrayCode(CodesOf(asDouble, es))
    case ObjectValue(ms) => ObjectCode(PairsOf(asDouble, ms))
  }

  function CodesOf(asDouble: int -> Text, es: seq<Value>): (r: seq<Code>)
    requires IntegralElements(es)
    ensures |r| == |es|
    decreases es, 0
  {
    if es == [] then [] else [CodeOf(asDouble, es[0])] + CodesOf(asDouble, es[1..])
  }

  function PairsOf(asDouble: int -> Text, ms: seq<Member>): (r: seq<Code>)
    requires IntegralMembers(ms)
    ensures |r| == 2 * |ms|
    decreases ms, 0
  {
    if ms == [] then []
    else [Buffer(STRING_TYPE, ms[0].name), CodeOf(asDouble, ms[0].value)] + PairsOf(asDouble, ms[1..])
  }

  /** What a member adds to its object. */
  function Item(asDouble: int -> Text, m: Member): Code
    requires Integral(m.value)
  {
    Hash(Buffer(STRING_TYPE, m.name), CodeOf(asDouble, m.value))
  }

  function MixOf(asDouble: int -> Text, ms: seq<Member>): Code
    requires IntegralMembers(ms)
  {
    Mixed(PairsOf(asDouble, ms))
  }

  // ---- the machine computes the code ----

  lemma {:induction false} HashAllConcat(asDouble: int -> Text, stack: seq<Code>, a: seq<Event>, b: seq<Event>)
    requires HashAll(asDouble, stack, a).Some?
    ensures HashAll(asDouble, stack, a + b) == HashAll(asDouble, HashAll(asDouble, stack, a).value, b)
    decreases |a|
  {
    hide HashStep;
    if a == [] {
      assert a + b == b;
    } else {
      assert (a + b)[0] == a[0] && (a + b)[1..] == a[1..] + b;
      HashAllConcat(asDouble, HashStep(asDouble, stack, a[0]).value, a[1..], b);
    }
  }

  lemma HashAllOne(asDouble: int -> Text, stack: seq<Code>, ev: Event)
    ensures HashAll(asDouble, stack, [ev]) == HashStep(asDouble, stack, ev)
  {
    hide HashStep;
    assert [ev][1..] == [];
    if HashStep(asDouble, stack, ev).Some? {
      assert HashAll(asDouble, HashStep(asDouble, stack, ev).value, []) == HashStep(asDouble, stack, ev);
    }
  }

  /** Running the events of a value pushes its code and touches nothing below. */
  lemma {:induction false} MachineComputesCode(asDouble: int -> Text, stack: seq<Code>, v: Value)
    requires Integral(v)
    ensures HashAll(asDouble, stack, Accept(v)) == Some(stack + [CodeOf(asDouble, v)])
    decreases v, 1
  {
    hide HashAll, AcceptElements, AcceptMembers, Folded, Mixed, Hash, Seed, Buffer, CodesOf, PairsOf;
    hide IntegralElements, IntegralMembers, NumberBytes;
    match v
    case ArrayValue(es) =>
      var inner, close := AcceptElements(es), [EndArray(|es|)];
      assert Accept(v) == [StartArray] + (inner + close);
      HashAllOne(asDouble, stack, StartArray);
      HashAllConcat(asDouble, stack, [StartArray], inner + close);
      MachineComputesElements(asDouble, stack, es);
      HashAllConcat(asDouble, stack, inner, close);
      var full := stack + CodesOf(asDouble, es);
      HashAllOne(asDouble, full, close[0]);
      assert full[..|stack|] == stack && full[|stack|..] == CodesOf(asDouble, es);
    case ObjectValue(ms) =>
      var inner, close := AcceptMembers(ms), [EndObject(|ms|)];
      assert Accept(v) == [StartObject] + (inner + close);
      HashAllOne(asDouble, stack, StartObject);
      HashAllConcat(asDouble, stack, [StartObject], inner + close);
      MachineComputesMembers(asDouble, stack, ms);
      HashAllConcat(asDouble, stack, inner, close);
      var full := stack + PairsOf(asDouble, ms);
      HashAllOne(asDouble, full, close[0]);
      assert full[..|stack|] == stack && full[|stack|..] == PairsOf(asDouble, ms);
    case DoubleValue(_) =>
    case _ =>
      HashAllOne(asDouble, stack, Accept(v)[0]);
      assert [Accept(v)[0]] == Accept(v);
  }

  lemma {:induction false} MachineComputesElements(asDouble: int -> Text, stack: seq<Code>, es: seq<Value>)
    requires IntegralElements(es)
    ensures HashAll(asDouble, stack, AcceptElements(es)) == Some(stack + CodesOf(asDouble, es))
    decreases es, 0
  {
    hide HashStep, Accept, CodeOf, Integral;
    if es == [] {
      assert stack + [] == stack;
    } else {
      var code := CodeOf(asDouble, es[0]);
      MachineComputesCode(asDouble, stack, es[0]);
      HashAllConcat(asDouble, stack, Accept(es[0]), AcceptElements(es[1..]));
      MachineComputesElements(asDouble, stack + [code], es[1..]);
      assert stack + [code] + CodesOf(asDouble, es[1..]) == stack + CodesOf(asDouble, es);
    }
  }

  lemma {:induction false} MachineComputesMembers(asDouble: int -> Text, stack: seq<Code>, ms: seq<Member>)
    requires IntegralMembers(ms)
    ensures HashAll(asDouble, stack, AcceptMembers(ms)) == Some(stack + PairsOf(asDouble, ms))
    decreases ms, 0
  {
    hide HashAll, HashStep, Buffer, Accept, CodeOf, Integral;
    if ms == [] {
      assert stack + [] == stack;
      NothingHashed(asDouble, stack);
    } else {
      var m, rest := ms[0], ms[1..];
      var name, code := Buffer(STRING_TYPE, m.name), CodeOf(asDouble, m.value);
      assert AcceptMembers(ms) == [Key(m.name)] + (Accept(m.value) + AcceptMembers(rest));
      HashAllOne(asDouble, stack, Key(m.name));
      NameStep(asDouble, stack, m.name);
      HashAllConcat(asDouble, stack, [Key(m.name)], Accept(m.value) + AcceptMembers(rest));
      MachineComputesCode(asDouble, stack + [name], m.value);
      HashAllConcat(asDouble, stack + [name], Accept(m.value), AcceptMembers(rest));
      MachineComputesMembers(asDouble, stack + [name] + [code], rest);
      assert stack + [name] + [code] + PairsOf(asDouble, rest) == stack + PairsOf(asDouble, ms);
    }
  }

  lemma NameStep(asDouble: int -> Text, stack: seq<Code>, name: Text)
    ensures HashStep(asDouble, stack, Key(name)) == Some(stack + [Buffer(STRING_TYPE, name)])
  {
    hide Buffer;
  }

  lemma NothingHashed(asDouble: int -> Text, stack: seq<Code>)
    ensures HashAll(asDouble, stack, []) == Some(stack)
  {
  }

  // ---- the code does not depend on the order of members ----

  /** The fold of an object does not depend on where a member stands. */
  lemma {:induction false} MixedTake(asDouble: int -> Text, ms: seq<Member>, i: nat)
    requires i < |ms| && IntegralMembers(ms)
    ensures IntegralMembers(Without(ms, i)) && Integral(ms[i].value)
    ensures MixOf(asDouble, ms) == Mix(Item(asDouble, ms[i]), MixOf(asDouble, Without(ms, i)))
  {
    hide Integral, Item, MixOf, Mix, Without;
    WithoutKeeps(ms, i);
    MixedFirst(asDouble, ms);
    if i == 0 {
      WithoutFirst(ms);
    } else {
      WithoutLater(ms, i);
      MixedTake(asDouble, ms[1..], i - 1);
      MixedFirst(asDouble, Without(ms, i));
      XorShift(Item(asDouble, ms[0]), Item(asDouble, ms[i]), MixOf(asDouble, Without(ms[1..], i - 1)));
    }
  }

  lemma MixedFirst(asDouble: int -> Text, ms: seq<Member>)
    requires ms != [] && IntegralMembers(ms)
    ensures MixOf(asDouble, ms) == Mix(Item(asDouble, ms[0]), MixOf(asDouble, ms[1..]))
  {
    hide Integral, Hash, CodeOf, Buffer, Mix;
    var kv := PairsOf(asDouble, ms);
    assert kv[2..] == PairsOf(asDouble, ms[1..]);
  }

  /** However members are permuted, at any depth, and whatever the values, the code is the same. */
  lemma {:induction false} PermutedCode(asDouble: int -> Text, a: Value, b: Value)
    requires Integral(a) && Integral(b) && Permuted(a, b)
    ensures CodeOf(asDouble, a) == CodeOf(asDouble, b)
    decreases a, 1
  {
    hide IntegralElements, IntegralMembers, PermutedElements, PermutedMembers;
    hide Hash, Seed, Buffer, Folded, Mixed, CodesOf, PairsOf, NumberBytes;
    match a
    case ArrayValue(es) => PermutedCodes(asDouble, es, b.elements);
    case ObjectValue(ms) =>
      PermutedMix(asDouble, ms, b.members);
      assert MixOf(asDouble, ms) == Mixed(PairsOf(asDouble, ms));
      assert MixOf(asDouble, b.members) == Mixed(PairsOf(asDouble, b.members));
    case _ =>
  }

  lemma {:induction false} PermutedCodes(asDouble: int -> Text, xs: seq<Value>, ys: seq<Value>)
    requires IntegralElements(xs) && IntegralElements(ys) && PermutedElements(xs, ys)
    ensures CodesOf(asDouble, xs) == CodesOf(asDouble, ys)
    decreases xs, 0
  {
    hide Permuted, Integral, CodeOf;
    if xs != [] {
      PermutedCode(asDouble, xs[0], ys[0]);
      PermutedCodes(asDouble, xs[1..], ys[1..]);
    }
  }

  lemma {:induction false} PermutedMix(asDouble: int -> Text, ms: seq<Member>, others: seq<Member>)
    requires IntegralMembers(ms) && IntegralMembers(others) && PermutedMembers(ms, others)
    ensures MixOf(asDouble, ms) == MixOf(asDouble, others)
    decreases ms, 0
  {
    hide Permuted, Integral, CodeOf, MixOf, Mix, Without, Hash, Buffer;
    if ms == [] {
      assert others == [];
    } else {
      var i :| 0 <= i < |others| && others[i].name == ms[0].name && Permuted(ms[0].value, others[i].value)
        && PermutedMembers(ms[1..], Without(others, i));
      MixedTake(asDouble, others, i);
      PermutedCode(asDouble, ms[0].value, others[i].value);
      assert Item(asDouble, ms[0]) == Item(asDouble, others[i]);
      PermutedMix(asDouble, ms[1..], Without(others, i));
      MixedFirst(asDouble, ms);
    }
  }

  /** The hasher, run over either of two permuted values, ends with the same code. */
  lemma PermutedHasEqualCode(asDouble: int -> Text, a: Value, b: Value)
    requires Integral(a) && Integral(b) && Permuted(a, b)
    ensures HashAll(asDouble, [], Accept(a)) == HashAll(asDouble, [], Accept(b)) == Some([CodeOf(asDouble, a)])
  {
    hide *;
    PermutedCode(asDouble, a, b);
    MachineComputesCode(asDouble, [], a);
    MachineComputesCode(asDouble, [], b);
    assert [] + [CodeOf(asDouble, a)] == [CodeOf(asDouble, a)];
  }

  // ---- equal values have equal codes ----

  /** Values that mean the same have the same code. */
  lemma MeaningDecidesCode(asDouble: int -> Text, lo: int, a: Value, b: Value)
    requires Integral(a) && Integral(b) && Distinct(a) && Distinct(b) && Within(lo, a) && Within(lo, b)
    requires Denote(a) == Denote(b)
    ensures CodeOf(asDouble, a) == CodeOf(asDouble, b)
  {
    hide *;
    MeaningPermutes(lo, a, b);
    PermutedCode(asDouble, a, b);
  }

  /**
   Equal values get equal codes, so comparing codes never misses an equal value, whatever the member
   order at any depth: for a left operand without duplicate names, and numbers from one range of 2^64
   integers on both sides.
   */
  lemma EqualHasEqualCode(asDouble: int -> Text, lo: int, a: Value, b: Value)
    requires Integral(a) && Integral(b) && Distinct(a) && Within(lo, a) && Within(lo, b) && Equal(a, b)
    ensures HashAll(asDouble, [], Accept(a)) == HashAll(asDouble, [], Accept(b)) == Some([CodeOf(asDouble, a)])
  {
    hide *;
    EqualIffPermuted(lo, a, b);
    PermutedHasEqualCode(asDouble, a, b);
  }

  // ---- where equal values have different codes ----

  const MODULUS := 0x1_0000_0000_0000_0000

  /** The inverse of the prime in 64-bit arithmetic. */
  const INVERSE := 0xce965057aff6957b

  lemma Pow2Of64()
    ensures Pow2(|CrcSpec.Zeros(64)|) == MODULUS
  {
    hide Pow2;
    var n := |CrcSpec.Zeros(8)|;
    Pow2Of8();
    Pow2Add(n, n);
    Pow2Add(2 * n, 2 * n);
    Pow2Add(4 * n, 4 * n);
  }

  lemma Pow2Of8()
    ensures Pow2(|CrcSpec.Zeros(8)|) == 256
  {
    assert Pow2(8) == 256;
  }

  lemma MultipleVanishes(x: nat, m: int)
    requires x < MODULUS
    ensures (x + MODULUS * m) % MODULUS == x
  {
  }

  /** The product with the prime can be undone. */
  lemma Unmultiply(x: nat)
    requires x < MODULUS
    ensures x * PRIME % MODULUS * INVERSE % MODULUS == x
  {
    var q, k := x * PRIME / MODULUS, 0xce9650590f;
    assert PRIME * INVERSE == 1 + MODULUS * k;
    assert x * PRIME % MODULUS == x * PRIME - MODULUS * q;
    assert (x * PRIME - MODULUS * q) * INVERSE == x + MODULUS * (x * k - q * INVERSE);
    MultipleVanishes(x, x * k - q * INVERSE);
  }

  /** One step never merges two inputs. */
  lemma HashInjective(h: Code, x: Code, y: Code)
    requires Hash(h, x) == Hash(h, y)
    ensures x == y
  {
    hide FromNat, ToNat, Pow2;
    var a, b := Mix(h, x), Mix(h, y);
    Pow2Of64();
    NatOfWord(a);
    NatOfWord(b);
    WordOfNat(ToNat(a) * PRIME % MODULUS, |a|);
    WordOfNat(ToNat(b) * PRIME % MODULUS, |b|);
    Unmultiply(ToNat(a));
    Unmultiply(ToNat(b));
    MixInjective(h, x, y);
  }

  lemma Word64Injective(m: nat, n: nat)
    requires m < MODULUS && n < MODULUS && Word64(m) == Word64(n)
    ensures m == n
  {
    hide FromNat, ToNat, Pow2;
    Pow2Of64();
    WordOfNat(m, |CrcSpec.Zeros(64)|);
    WordOfNat(n, |CrcSpec.Zeros(64)|);
  }

  lemma {:induction false} LastByte(h: Code, p: Text, c: byte)
    ensures HashBytes(h, p + [c]) == Hash(HashBytes(h, p), Word64(c))
    decreases |p|
  {
    hide Hash, Word64;
    if p == [] {
      assert p + [c] == [c] && [c][1..] == [];
    } else {
      assert (p + [c])[0] == p[0] && (p + [c])[1..] == p[1..] + [c];
      LastByte(Hash(h, Word64(p[0])), p[1..], c);
    }
  }

  const X: Text := [0x78]
  const Y: Text := [0x79]

  /** An object with a repeated name, and one the operator finds equal to it. */
  const TWICE := ObjectValue([Member(X, NullValue), Member(X, NullValue)])

  function Once(b: bool): Value {
    ObjectValue([Member(X, NullValue), Member(Y, BoolValue(b))])
  }

  /**
   With a repeated name on the left the codes of equal values can differ: the two equal members cancel
   in the fold of the one, and the members of the other do not.
   */
  lemma DuplicatesMissed(asDouble: int -> Text)
    ensures exists b ::
      && Integral(TWICE) && !Distinct(TWICE) && Integral(b) && Distinct(b) && Equal(TWICE, b)
      && CodeOf(asDouble, TWICE) != CodeOf(asDouble, b)
  {
    OnceEqual(true);
    OnceEqual(false);
    OnceCodes(asDouble);
  }

  /** Outside one range of 2^64 integers it misses too: -1 and 2^64 - 1 are equal, but not as doubles. */
  lemma HugeMissed(asDouble: int -> Text)
    requires asDouble(-1) == [0, 0, 0, 0, 0, 0, 0xF0, 0xBF]
    requires asDouble(0xFFFF_FFFF_FFFF_FFFF) == [0, 0, 0, 0, 0, 0, 0xF0, 0x43]
    ensures var a, b := NumberValue(-1), NumberValue(0xFFFF_FFFF_FFFF_FFFF);
      Equal(a, b) && CodeOf(asDouble, a) != CodeOf(asDouble, b)
  {
    hide Hash, Word64, HashBytes, Octets;
    var m, n := -1, 0xFFFF_FFFF_FFFF_FFFF;
    var p := Octets(Raw(m), |CrcSpec.Zeros(8)|) + [0, 0, 0, 0, 0, 0, 0xF0];
    assert NumberBytes(asDouble, m) == p + [0xBF] && NumberBytes(asDouble, n) == p + [0x43];
    var h := Hash(Word64(OFFSET), Word64(NUMBER_TYPE));
    LastByte(h, p, 0xBF);
    LastByte(h, p, 0x43);
    if CodeOf(asDouble, NumberValue(m)) == CodeOf(asDouble, NumberValue(n)) {
      HashInjective(HashBytes(h, p), Word64(0xBF), Word64(0x43));
      Word64Injective(0xBF, 0x43);
    }
  }

  lemma OnceEqual(b: bool)
    ensures Integral(TWICE) && !Distinct(TWICE) && Integral(Once(b)) && Distinct(Once(b)) && Equal(TWICE, Once(b))
  {
    var ms, os := TWICE.members, Once(b).members;
    Pair(ms[0], ms[1]);
    Pair(os[0], os[1]);
    assert ms == [ms[0], ms[1]] && os == [os[0], os[1]];
    assert ms[1..] == [ms[1]] && ms[1..][1..] == [] && os[1..] == [os[1]] && os[1..][1..] == [];
    FirstOfName(ms[1..], X, 0);
    FirstOfName(os[1..], X, 1);
    FirstOfName(os, X, 0);
    assert AllFound(ms[1..][1..], os);
    assert AllFound(ms[1..], os);
    assert AllFound(ms, os);
    assert !DistinctMembers(ms);
    assert DistinctMembers(os[1..][1..]) && FindMember(os[1..][1..], Y) == 0;
    assert DistinctMembers(os[1..]);
    assert DistinctMembers(os);
  }

  lemma OnceCode(asDouble: int -> Text, b: bool) returns (x: Code)
    requires Integral(Once(b))
    ensures x == Mix(Seed(OBJECT_TYPE), Hash(Buffer(STRING_TYPE, X), Buffer(NULL_TYPE, [])))
    ensures CodeOf(asDouble, Once(b))
         == Mix(x, Hash(Buffer(STRING_TYPE, Y), Buffer(if b then TRUE_TYPE else FALSE_TYPE, [])))
  {
    hide Hash, Seed, Buffer, Mix;
    var ms := Once(b).members;
    x := Mix(Seed(OBJECT_TYPE), Hash(Buffer(STRING_TYPE, X), Buffer(NULL_TYPE, [])));
    assert ms[1..] == [ms[1]] && ms[1..][1..] == [];
    MixedFirst(asDouble, ms);
    MixedFirst(asDouble, ms[1..]);
    var second := Item(asDouble, ms[1]);
    XorZero(second);
    XorShift(Seed(OBJECT_TYPE), Item(asDouble, ms[0]), second);
  }

  /** The two right operands have different codes, so one of them has not the code of the left one. */
  lemma OnceCodes(asDouble: int -> Text)
    requires Integral(Once(true)) && Integral(Once(false))
    ensures CodeOf(asDouble, Once(true)) != CodeOf(asDouble, Once(false))
  {
    hide Hash, Seed, Mix, Word64, CodeOf;
    var x := OnceCode(asDouble, true);
    var _ := OnceCode(asDouble, false);
    if CodeOf(asDouble, Once(true)) == CodeOf(asDouble, Once(false)) {
      var name, h := Buffer(STRING_TYPE, Y), Word64(OFFSET);
      MixInjective(x, Hash(name, Buffer(TRUE_TYPE, [])), Hash(name, Buffer(FALSE_TYPE, [])));
      HashInjective(name, Buffer(TRUE_TYPE, []), Buffer(FALSE_TYPE, []));
      HashInjective(h, Word64(TRUE_TYPE), Word64(FALSE_TYPE));
      Word64Injective(TRUE_TYPE, FALSE_TYPE);
    }
  }

  lemma MixInjective(h: Code, x: Code, y: Code)
    requires Mix(h, x) == Mix(h, y)
    ensures x == y
  {
    assert forall i :: 0 <= i < 64 ==> x[i] == (h[i] != Mix(h, x)[i]) && y[i] == (h[i] != Mix(h, y)[i]);
  }
}
