/** What the hasher does not forget: whatever changes one code in a value changes the code of the whole. */
module HasherSensitivity {
  import opened Binary
  import opened Bytes
  import opened Json
  import opened Document
  import opened Hasher
  import opened PointerResolve
  import Equality
  import Permutation
  import CrcSpec

  // ---- one step ----

  lemma HashCommutes(x: Code, y: Code)
    ensures Hash(x, y) == Hash(y, x)
  {
    var a, b := Mix(x, y), Mix(y, x);
    assert forall i :: 0 <= i < 64 ==> a[i] == b[i];
    assert a == b;
  }

  /** One step never merges two states either. */
  lemma StateInjective(g: Code, h: Code, x: Code)
    requires Hash(g, x) == Hash(h, x)
    ensures g == h
  {
    hide Hash;
    HashCommutes(g, x);
    HashCommutes(h, x);
    HashInjective(x, g, h);
  }

  // ---- bytes ----

  lemma {:induction false} BytesInjective(g: Code, h: Code, data: Text)
    requires HashBytes(g, data) == HashBytes(h, data)
    ensures g == h
    decreases |data|
  {
    hide Hash, Word64;
    if data != [] {
      BytesInjective(Hash(g, Word64(data[0])), Hash(h, Word64(data[0])), data[1..]);
      StateInjective(g, h, Word64(data[0]));
    }
  }

  /** Data that differ in one byte have different hashes. */
  lemma {:induction false} ByteTells(h: Code, data: Text, i: nat, c: byte)
    requires i < |data| && HashBytes(h, data) == HashBytes(h, data[i := c])
    ensures data[i] == c
    decreases |data|
  {
    hide Hash, Word64;
    var other := data[i := c];
    if i == 0 {
      assert other[1..] == data[1..];
      BytesInjective(Hash(h, Word64(data[0])), Hash(h, Word64(c)), data[1..]);
      HashInjective(h, Word64(data[0]), Word64(c));
      Word64Injective(data[0], c);
    } else {
      assert other[1..] == data[1..][i - 1 := c] && other[0] == data[0];
      ByteTells(Hash(h, Word64(data[0])), data[1..], i - 1, c);
    }
  }

  /** Strings that differ in one byte have different codes. */
  lemma StringTells(asDouble: int -> Text, str: Text, i: nat, c: byte)
    requires i < |str| && str[i] != c
    ensures CodeOf(asDouble, StringValue(str)) != CodeOf(asDouble, StringValue(str[i := c]))
  {
    hide Hash, Word64, HashBytes;
    if CodeOf(asDouble, StringValue(str)) == CodeOf(asDouble, StringValue(str[i := c])) {
      ByteTells(Hash(Word64(OFFSET), Word64(STRING_TYPE)), str, i, c);
    }
  }

  /** Integers that share their double, as neighbours beyond 2^53 may, are told apart by the payload. */
  lemma NeighboursTell(asDouble: int -> Text, m: int, n: int)
    requires FitsMachine(m) && FitsMachine(n) && asDouble(m) == asDouble(n)
    requires Equality.Raw(m) != Equality.Raw(n) && Equality.Raw(m) / 256 == Equality.Raw(n) / 256
    ensures CodeOf(asDouble, NumberValue(m)) != CodeOf(asDouble, NumberValue(n))
  {
    hide Hash, Word64, HashBytes;
    var p, q := NumberBytes(asDouble, m), NumberBytes(asDouble, n);
    FirstOctet(Equality.Raw(m), |CrcSpec.Zeros(8)|);
    FirstOctet(Equality.Raw(n), |CrcSpec.Zeros(8)|);
    assert q == p[0 := Equality.Raw(n) % 256];
    if CodeOf(asDouble, NumberValue(m)) == CodeOf(asDouble, NumberValue(n)) {
      ByteTells(Hash(Word64(OFFSET), Word64(NUMBER_TYPE)), p, 0, Equality.Raw(n) % 256);
    }
  }

  lemma FirstOctet(w: nat, n: nat)
    requires n > 0
    ensures Octets(w, n) == [w % 256] + Octets(w / 256, n - 1)
  {
  }

  // ---- elements ----

  lemma {:induction false} FoldedInjective(g: Code, h: Code, es: seq<Code>)
    requires Folded(g, es) == Folded(h, es)
    ensures g == h
    decreases |es|
  {
    hide Hash;
    if es != [] {
      FoldedInjective(Hash(g, es[0]), Hash(h, es[0]), es[1..]);
      StateInjective(g, h, es[0]);
    }
  }

  lemma {:induction false} ElementTells(h: Code, es: seq<Code>, i: nat, c: Code)
    requires i < |es| && Folded(h, es) == Folded(h, es[i := c])
    ensures es[i] == c
    decreases |es|
  {
    hide Hash;
    var other := es[i := c];
    if i == 0 {
      assert other[1..] == es[1..];
      FoldedInjective(Hash(h, es[0]), Hash(h, c), es[1..]);
      HashInjective(h, es[0], c);
    } else {
      assert other[1..] == es[1..][i - 1 := c] && other[0] == es[0];
      ElementTells(Hash(h, es[0]), es[1..], i - 1, c);
    }
  }

  lemma {:induction false} CodesUpdated(asDouble: int -> Text, es: seq<Value>, i: nat, x: Value)
    requires i < |es| && IntegralElements(es) && Integral(x)
    ensures Integral(es[i]) && IntegralElements(es[i := x])
    ensures CodesOf(asDouble, es)[i] == CodeOf(asDouble, es[i])
    ensures CodesOf(asDouble, es[i := x]) == CodesOf(asDouble, es)[i := CodeOf(asDouble, x)]
    decreases |es|
  {
    hide CodeOf, Integral;
    var other := es[i := x];
    if i == 0 {
      assert other[1..] == es[1..];
    } else {
      assert other[1..] == es[1..][i - 1 := x] && other[0] == es[0];
      CodesUpdated(asDouble, es[1..], i - 1, x);
    }
  }

  lemma CodeOfArray(asDouble: int -> Text, es: seq<Value>)
    requires IntegralElements(es)
    ensures CodeOf(asDouble, ArrayValue(es)) == Folded(Seed(ARRAY_TYPE), CodesOf(asDouble, es))
  {
    hide Folded, CodesOf, Seed;
  }

  /** Arrays that differ in one element have the same code exactly when the two elements have. */
  lemma ElementCounts(asDouble: int -> Text, es: seq<Value>, i: nat, x: Value)
    requires i < |es| && IntegralElements(es) && Integral(x)
    ensures Integral(es[i]) && IntegralElements(es[i := x])
    ensures CodeOf(asDouble, ArrayValue(es[i := x])) == CodeOf(asDouble, ArrayValue(es))
       <==> CodeOf(asDouble, x) == CodeOf(asDouble, es[i])
  {
    hide Folded, CodesOf, CodeOf, Seed, IntegralElements;
    CodesUpdated(asDouble, es, i, x);
    CodeOfArray(asDouble, es);
    CodeOfArray(asDouble, es[i := x]);
    var codes, c := CodesOf(asDouble, es), CodeOf(asDouble, x);
    if Folded(Seed(ARRAY_TYPE), codes) == Folded(Seed(ARRAY_TYPE), codes[i := c]) {
      ElementTells(Seed(ARRAY_TYPE), codes, i, c);
    }
    if c == codes[i] {
      assert codes[i := c] == codes;
    }
  }

  // ---- members ----

  lemma {:induction false} MembersUpdated(ms: seq<Member>, i: nat, m: Member)
    requires i < |ms| && IntegralMembers(ms) && Integral(m.value)
    ensures IntegralMembers(ms[i := m]) && Permutation.Without(ms[i := m], i) == Permutation.Without(ms, i)
    decreases |ms|
  {
    hide Integral;
    var other := ms[i := m];
    if i == 0 {
      assert other[1..] == ms[1..];
    } else {
      assert other[1..] == ms[1..][i - 1 := m] && other[0] == ms[0];
      MembersUpdated(ms[1..], i - 1, m);
    }
  }

  /** Objects that differ in one member have the same code exactly when name and value hash alike. */
  lemma MemberCounts(asDouble: int -> Text, ms: seq<Member>, i: nat, m: Member)
    requires i < |ms| && IntegralMembers(ms) && Integral(m.value)
    ensures Integral(ms[i].value) && IntegralMembers(ms[i := m])
    ensures CodeOf(asDouble, ObjectValue(ms[i := m])) == CodeOf(asDouble, ObjectValue(ms))
       <==> Item(asDouble, m) == Item(asDouble, ms[i])
  {
    hide IntegralMembers, Item, Mixed, Mix, PairsOf, Seed, Permutation.Without;
    var other := ms[i := m];
    MembersUpdated(ms, i, m);
    MixedTake(asDouble, ms, i);
    MixedTake(asDouble, other, i);
    var rest := MixOf(asDouble, Permutation.Without(ms, i));
    if CodeOf(asDouble, ObjectValue(other)) == CodeOf(asDouble, ObjectValue(ms)) {
      MixInjective(Seed(OBJECT_TYPE), MixOf(asDouble, ms), MixOf(asDouble, other));
      MixCommutes(Item(asDouble, m), rest);
      MixCommutes(Item(asDouble, ms[i]), rest);
      MixInjective(rest, Item(asDouble, m), Item(asDouble, ms[i]));
    }
  }

  lemma MixCommutes(x: Code, y: Code)
    ensures Mix(x, y) == Mix(y, x)
  {
    var a, b := Mix(x, y), Mix(y, x);
    assert forall i :: 0 <= i < 64 ==> a[i] == b[i];
  }

  /** A member's value counts, and so does its name. */
  lemma ItemTells(asDouble: int -> Text, m: Member, n: Member)
    requires Integral(m.value) && Integral(n.value)
    ensures m.name == n.name ==>
      (Item(asDouble, m) == Item(asDouble, n) <==> CodeOf(asDouble, m.value) == CodeOf(asDouble, n.value))
    ensures m.value == n.value ==>
      (Item(asDouble, m) == Item(asDouble, n) <==> Buffer(STRING_TYPE, m.name) == Buffer(STRING_TYPE, n.name))
  {
    hide Hash, Buffer, CodeOf, Integral;
    var a, b := Buffer(STRING_TYPE, m.name), Buffer(STRING_TYPE, n.name);
    var x, y := CodeOf(asDouble, m.value), CodeOf(asDouble, n.value);
    if Item(asDouble, m) == Item(asDouble, n) && m.name == n.name {
      HashInjective(a, x, y);
    }
    if Item(asDouble, m) == Item(asDouble, n) && m.value == n.value {
      StateInjective(a, b, x);
    }
  }

  // ---- any location ----

  lemma ChildIntegral(v: Value, i: nat)
    requires Integral(v) && i < Size(v)
    ensures Integral(Child(v, i))
  {
    if v.ArrayValue? {
      ElementIntegral(v.elements, i);
    } else {
      Equality.IntegralAt(v.members, i);
    }
  }

  lemma {:induction false} ElementIntegral(es: seq<Value>, i: nat)
    requires IntegralElements(es) && i < |es|
    ensures Integral(es[i])
    decreases |es|
  {
    hide Integral;
    if i > 0 {
      ElementIntegral(es[1..], i - 1);
    }
  }

  lemma ChildCounts(asDouble: int -> Text, v: Value, i: nat, x: Value)
    requires Integral(v) && Integral(x) && i < Size(v)
    ensures Integral(Child(v, i)) && Integral(WithChild(v, i, x))
    ensures CodeOf(asDouble, WithChild(v, i, x)) == CodeOf(asDouble, v)
       <==> CodeOf(asDouble, x) == CodeOf(asDouble, Child(v, i))
  {
    hide IntegralElements, IntegralMembers, CodeOf, Item;
    if v.ArrayValue? {
      ElementCounts(asDouble, v.elements, i, x);
    } else {
      var m := v.members[i].(value := x);
      MemberCounts(asDouble, v.members, i, m);
      ItemTells(asDouble, m, v.members[i]);
    }
  }

  /** A change at any one location of a document changes its code exactly when it changes the code there. */
  lemma {:induction false} LocationCounts(asDouble: int -> Text, v: Value, path: seq<nat>, x: Value)
    requires Integral(v) && Integral(x) && ValueAt(v, path).Some?
    ensures Integral(ValueAt(v, path).value) && Integral(Replace(v, path, x))
    ensures CodeOf(asDouble, Replace(v, path, x)) == CodeOf(asDouble, v)
       <==> CodeOf(asDouble, x) == CodeOf(asDouble, ValueAt(v, path).value)
    decreases |path|
  {
    hide CodeOf, Integral, WithChild;
    if path != [] {
      var inner := Child(v, path[0]);
      ChildIntegral(v, path[0]);
      LocationCounts(asDouble, inner, path[1..], x);
      ChildCounts(asDouble, v, path[0], Replace(inner, path[1..], x));
    }
  }

  /** The hasher, run over the document before and after the change, ends with the same code exactly then. */
  lemma ChangeShows(asDouble: int -> Text, v: Value, path: seq<nat>, x: Value)
    requires Integral(v) && Integral(x) && ValueAt(v, path).Some?
    ensures HashAll(asDouble, [], Accept(Replace(v, path, x))) == HashAll(asDouble, [], Accept(v))
       <==> HashAll(asDouble, [], Accept(x)) == HashAll(asDouble, [], Accept(ValueAt(v, path).value))
  {
    hide *;
    LocationCounts(asDouble, v, path, x);
    var y, w := ValueAt(v, path).value, Replace(v, path, x);
    MachineComputesCode(asDouble, [], v);
    MachineComputesCode(asDouble, [], w);
    MachineComputesCode(asDouble, [], x);
    MachineComputesCode(asDouble, [], y);
    SingleCode(CodeOf(asDouble, v), CodeOf(asDouble, w));
    SingleCode(CodeOf(asDouble, x), CodeOf(asDouble, y));
  }

  lemma SingleCode(x: Code, y: Code)
    ensures [] + [x] == [] + [y] <==> x == y
  {
    assert ([] + [x])[0] == x && ([] + [y])[0] == y;
  }

  // ---- the order of elements ----

  /** The two lowest bits after a step: the prime is 3 modulo 4. */
  lemma LowBits(h: Code, d: Code)
    ensures var (x, r) := (Mix(h, d), Hash(h, d));
      r[0] == x[0] && r[1] == (x[1] != x[0])
  {
    hide Mix, ToNat, FromNat;
    ProductBits(Mix(h, d));
  }

  lemma ProductBits(x: Code)
    ensures var r := Word64(ToNat(x) * PRIME % MODULUS);
      r[0] == x[0] && r[1] == (x[1] != x[0])
  {
    hide ToNat, FromNat;
    var n := ToNat(x);
    TwoBitsOfNat(x);
    TimesPrime(n);
    ThreeTimes(n, x[0], x[1]);
    TwoBitsOfWord(n * PRIME % MODULUS, |CrcSpec.Zeros(64)|);
  }

  lemma ThreeTimes(n: nat, low: bool, high: bool)
    requires n % 4 == (if low then 1 else 0) + (if high then 2 else 0)
    ensures n * 3 % 4 == (if low then 1 else 0) + (if high != low then 2 else 0)
  {
  }

  lemma NatOfFirst(w: seq<bool>)
    requires w != []
    ensures ToNat(w) == (if w[0] then 1 else 0) + 2 * ToNat(w[1..])
  {
  }

  lemma TwoBitsOfNat(w: seq<bool>)
    requires |w| >= 2
    ensures ToNat(w) % 4 == (if w[0] then 1 else 0) + (if w[1] then 2 else 0)
  {
    hide ToNat;
    NatOfFirst(w);
    NatOfFirst(w[1..]);
  }

  lemma TwoBitsOfWord(m: nat, width: nat)
    requires width >= 2
    ensures var w := FromNat(m, width);
      m % 4 == (if w[0] then 1 else 0) + (if w[1] then 2 else 0)
  {
    assert FromNat(m, width)[1] == FromNat(m / 2, width - 1)[0];
  }

  lemma TimesPrime(n: nat)
    ensures n * PRIME % MODULUS % 4 == n * 3 % 4
  {
    var q, k, j := n * PRIME / MODULUS, (PRIME - 3) / 4, MODULUS / 4;
    assert n * PRIME % MODULUS == n * PRIME - MODULUS * q;
    assert n * PRIME == n * 3 + 4 * (n * k);
    FoursVanish(n * 3, n * k - j * q);
  }

  lemma FoursVanish(x: nat, m: int)
    ensures (x + 4 * m) % 4 == x % 4
  {
  }

  /** Two steps in turn: exchanged, they end in different states when the lowest bits of the two differ. */
  lemma StepsExchanged(h: Code, x: Code, y: Code)
    requires x[0] != y[0]
    ensures Hash(Hash(h, x), y) != Hash(Hash(h, y), x)
  {
    hide Hash;
    LowBits(h, x);
    LowBits(h, y);
    LowBits(Hash(h, x), y);
    LowBits(Hash(h, y), x);
  }

  lemma FoldedTwo(h: Code, es: seq<Code>)
    requires |es| >= 2
    ensures Folded(h, es) == Folded(Hash(Hash(h, es[0]), es[1]), es[2..])
  {
    hide Hash;
    assert es[1..][1..] == es[2..] && es[1..][0] == es[1];
  }

  lemma {:induction false} NeighboursExchanged(h: Code, es: seq<Code>, i: nat)
    requires i + 1 < |es| && es[i][0] != es[i + 1][0]
    ensures Folded(h, es) != Folded(h, Exchanged(es, i))
    decreases |es|
  {
    hide Hash;
    var other := Exchanged(es, i);
    if i == 0 {
      FoldedTwo(h, es);
      FoldedTwo(h, other);
      assert other[2..] == es[2..];
      StepsExchanged(h, es[0], es[1]);
      if Folded(h, es) == Folded(h, other) {
        FoldedInjective(Hash(Hash(h, es[0]), es[1]), Hash(Hash(h, es[1]), es[0]), es[2..]);
      }
    } else {
      assert other[1..] == Exchanged(es[1..], i - 1) && other[0] == es[0];
      NeighboursExchanged(Hash(h, es[0]), es[1..], i - 1);
    }
  }

  function Exchanged<T>(s: seq<T>, i: nat): seq<T>
    requires i + 1 < |s|
  {
    s[i := s[i + 1]][i + 1 := s[i]]
  }

  lemma {:induction false} CodesExchanged(asDouble: int -> Text, es: seq<Value>, i: nat)
    requires i + 1 < |es| && IntegralElements(es)
    ensures Integral(es[i]) && Integral(es[i + 1]) && IntegralElements(Exchanged(es, i))
    ensures var codes := CodesOf(asDouble, es);
      && codes[i] == CodeOf(asDouble, es[i]) && codes[i + 1] == CodeOf(asDouble, es[i + 1])
      && CodesOf(asDouble, Exchanged(es, i)) == Exchanged(codes, i)
  {
    hide CodesOf, CodeOf, IntegralElements;
    CodesUpdated(asDouble, es, i, NullValue);
    CodesUpdated(asDouble, es, i + 1, NullValue);
    CodesUpdated(asDouble, es, i, es[i + 1]);
    CodesUpdated(asDouble, es[i := es[i + 1]], i + 1, es[i]);
  }

  /** Exchanging two neighbours in an array changes its code when their codes differ in the lowest bit. */
  lemma OrderTells(asDouble: int -> Text, es: seq<Value>, i: nat)
    requires i + 1 < |es| && IntegralElements(es)
    ensures Integral(es[i]) && Integral(es[i + 1]) && IntegralElements(Exchanged(es, i))
    ensures CodeOf(asDouble, es[i])[0] != CodeOf(asDouble, es[i + 1])[0] ==>
      CodeOf(asDouble, ArrayValue(es)) != CodeOf(asDouble, ArrayValue(Exchanged(es, i)))
  {
    hide CodesOf, CodeOf, Folded, Seed, Exchanged, IntegralElements;
    CodesExchanged(asDouble, es, i);
    CodeOfArray(asDouble, es);
    CodeOfArray(asDouble, Exchanged(es, i));
    var codes := CodesOf(asDouble, es);
    if codes[i][0] != codes[i + 1][0] {
      NeighboursExchanged(Seed(ARRAY_TYPE), codes, i);
    }
  }

  /** `false` and `null` are such a pair, in whatever array they stand side by side. */
  lemma FalseAndNull(asDouble: int -> Text, es: seq<Value>, i: nat)
    requires i + 1 < |es| && IntegralElements(es) && es[i] == BoolValue(false) && es[i + 1] == NullValue
    ensures IntegralElements(Exchanged(es, i))
    ensures CodeOf(asDouble, ArrayValue(es)) != CodeOf(asDouble, ArrayValue(Exchanged(es, i)))
  {
    hide IntegralElements, Hash, Word64, Exchanged;
    OrderTells(asDouble, es, i);
    LowBits(Word64(OFFSET), Word64(FALSE_TYPE));
    LowBits(Word64(OFFSET), Word64(NULL_TYPE));
    LowestBit(FALSE_TYPE);
    LowestBit(NULL_TYPE);
  }

  lemma LowestBit(n: nat)
    ensures Word64(n)[0] == (n % 2 == 1)
  {
  }

  /** The offset basis of FNV-1a is 0xCBF29CE484222325; here its halves are exchanged. */
  lemma OffsetHalves()
    ensures OFFSET / 0x1_0000_0000 == 0xCBF2_9CE4_8422_2325 % 0x1_0000_0000
    ensures OFFSET % 0x1_0000_0000 == 0xCBF2_9CE4_8422_2325 / 0x1_0000_0000
  {
  }

  // ---- values without content ----

  /** The code of `false`, `null`, `true`, the empty string, the empty object and the empty array. */
  function Bare(kind: nat): Value
    requires kind < 6
  {
    if kind == NULL_TYPE then NullValue
    else if kind == FALSE_TYPE then BoolValue(false)
    else if kind == TRUE_TYPE then BoolValue(true)
    else if kind == OBJECT_TYPE then ObjectValue([])
    else if kind == ARRAY_TYPE then ArrayValue([])
    else StringValue([])
  }

  function Start(kind: nat): Code {
    if kind == OBJECT_TYPE || kind == ARRAY_TYPE then Word64(0) else Word64(OFFSET)
  }

  lemma BareCode(asDouble: int -> Text, kind: nat)
    requires kind < 6
    ensures Integral(Bare(kind)) && CodeOf(asDouble, Bare(kind)) == Hash(Start(kind), Word64(kind))
  {
    hide Hash, Word64;
    if kind == OBJECT_TYPE {
      assert Mixed([]) == CrcSpec.Zeros(64);
      XorZero(Seed(kind));
    }
  }

  /** No two of the six kinds share the code of their empty value. */
  lemma KindsTell(asDouble: int -> Text, j: nat, k: nat)
    requires j < k < 6
    ensures Integral(Bare(j)) && Integral(Bare(k))
    ensures CodeOf(asDouble, Bare(j)) != CodeOf(asDouble, Bare(k))
  {
    hide Hash, Word64, CodeOf, Bare, Integral;
    BareCode(asDouble, j);
    BareCode(asDouble, k);
    if CodeOf(asDouble, Bare(j)) == CodeOf(asDouble, Bare(k)) {
      if Start(j) == Start(k) {
        HashInjective(Start(j), Word64(j), Word64(k));
        Word64Injective(j, k);
      } else {
        MixedApart(j, k);
        MixedApart(k, j);
        HashMixes(Start(j), Word64(j), Start(k), Word64(k));
      }
    }
  }

  /** Equal results come from equal mixtures. */
  lemma HashMixes(g: Code, x: Code, h: Code, y: Code)
    requires Hash(g, x) == Hash(h, y)
    ensures Mix(g, x) == Mix(h, y)
  {
    hide Mix, Word64;
    var z: Code := CrcSpec.Zeros(64);
    XorZero(Mix(g, x));
    XorZero(Mix(h, y));
    StateInjective(Mix(g, x), Mix(h, y), z);
  }

  /** The offset has a bit above those of the kinds. */
  lemma MixedApart(j: nat, k: nat)
    requires j < 8 && k < 8
    ensures Mix(Word64(0), Word64(j)) != Mix(Word64(OFFSET), Word64(k))
  {
    hide FromNat;
    var w := |CrcSpec.Zeros(64)|;
    BitAt(0, w, 5);
    BitAt(j, w, 5);
    BitAt(k, w, 5);
    BitAt(OFFSET, w, 5);
    assert !Mix(Word64(0), Word64(j))[5];
    assert Mix(Word64(OFFSET), Word64(k))[5];
  }

  function Halved(n: nat, i: nat): nat
    decreases i
  {
    if i == 0 then n else Halved(n / 2, i - 1)
  }

  lemma {:induction false} BitAt(n: nat, width: nat, i: nat)
    requires i < width
    ensures FromNat(n, width)[i] == (Halved(n, i) % 2 == 1)
    decreases i
  {
    if i > 0 {
      BitAt(n / 2, width - 1, i - 1);
    }
  }
}
