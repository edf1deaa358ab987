/** The checks in the arithmetic of 32-bit machine words, as section 8 of RFC 1952 writes CRC-32. */
module CrcNumbers {
  import opened CrcSpec
  import opened CrcTheory
  import opened FastCrc
  import opened CrcConsequences

  // ---- machine words ----

  function Twice(mask: bv32): bv32 {
    mask + mask
  }

  function Half(r: bv32): bv32 {
    r >> 1
  }

  function Plus(a: bv32, b: bv32): bv32 {
    a ^ b
  }

  predicate Meets(r: bv32, mask: bv32) {
    r & mask != 0
  }

  /** The word that has bit `i` alone. */
  function Mask(i: nat): bv32 {
    if i == 0 then 1 else Twice(Mask(i - 1))
  }

  predicate Bit(r: bv32, i: nat) {
    Meets(r, Mask(i))
  }

  function WordOf(r: bv32): (w: Word)
    ensures |w| == 32
  {
    seq(32, i requires 0 <= i < 32 => Bit(r, i))
  }

  function OctetOf(b: bv32): Octet {
    WordOf(b)[..8]
  }

  function OctetsOf(bytes: seq<bv32>): (r: seq<Octet>)
    ensures |r| == |bytes|
  {
    seq(|bytes|, i requires 0 <= i < |bytes| => OctetOf(bytes[i]))
  }

  /** One bit: to the right, and the polynomial when a one falls out. */
  function Right(p: bv32, r: bv32): bv32 {
    if Meets(r, 1) then Plus(Half(r), p) else Half(r)
  }

  function RightByte(p: bv32, r: bv32, b: bv32): bv32 {
    Right(p, Right(p, Right(p, Right(p, Right(p, Right(p, Right(p, Right(p, Plus(r, b)))))))))
  }

  function RightAll(p: bv32, r: bv32, bytes: seq<bv32>): bv32 {
    if bytes == [] then r else RightByte(p, RightAll(p, r, bytes[..|bytes| - 1]), bytes[|bytes| - 1])
  }

  predicate Single(mask: bv32) {
    mask & (mask - 1) == 0
  }

  lemma SingleBit(a: bv32, b: bv32, mask: bv32)
    requires Single(mask)
    ensures Meets(Plus(a, b), mask) == (Meets(a, mask) != Meets(b, mask))
  {
    assert (a ^ b) & mask == (a & mask) ^ (b & mask);
    BitOrNone(a, mask);
    BitOrNone(b, mask);
  }

  lemma BitOrNone(a: bv32, mask: bv32)
    requires Single(mask)
    ensures a & mask == 0 || a & mask == mask
  {
  }

  lemma SingleTwice(mask: bv32)
    ensures Single(1) && (Single(mask) ==> Single(Twice(mask)))
  {
  }

  lemma {:induction false} MaskIsSingle(i: nat)
    ensures Single(Mask(i))
  {
    hide Single, Twice;
    SingleTwice(Mask(if i == 0 then 0 else i - 1));
    if i != 0 {
      MaskIsSingle(i - 1);
    }
  }

  lemma BitXor(a: bv32, b: bv32, i: nat)
    ensures Bit(Plus(a, b), i) == (Bit(a, i) != Bit(b, i))
  {
    hide Single, Meets, Plus, Mask;
    MaskIsSingle(i);
    SingleBit(a, b, Mask(i));
  }

  lemma WordXor(a: bv32, b: bv32)
    ensures WordOf(Plus(a, b)) == Xor(WordOf(a), WordOf(b))
  {
    hide Bit, Plus;
    forall i | 0 <= i < 32
      ensures WordOf(Plus(a, b))[i] == (WordOf(a)[i] != WordOf(b)[i])
    {
      BitXor(a, b, i);
    }
  }

  lemma MeetsHalf(r: bv32, mask: bv32)
    ensures Meets(Half(r), mask) == Meets(r, Twice(mask))
  {
  }

  lemma BitHalf(r: bv32, i: nat)
    ensures Bit(Half(r), i) == Bit(r, i + 1)
  {
    hide Meets, Half, Twice;
    MeetsHalf(r, Mask(i));
  }

  lemma NoMask()
    ensures Mask(32) == 0
  {
    assert Mask(8) == 0x100;
    assert Mask(16) == 0x1_0000;
    assert Mask(24) == 0x100_0000;
  }

  lemma NoBit(r: bv32)
    ensures !Bit(r, 32)
  {
    NoMask();
  }

  lemma WordHalf(r: bv32)
    ensures WordOf(Half(r)) == WordOf(r)[1..] + [false]
  {
    hide Bit, Half;
    var x, y := WordOf(Half(r)), WordOf(r)[1..] + [false];
    NoBit(r);
    forall i | 0 <= i < 32
      ensures x[i] == y[i]
    {
      BitHalf(r, i);
    }
  }

  lemma LowestBit(r: bv32)
    ensures WordOf(r)[0] == Meets(r, 1)
  {
    hide Meets;
    assert Mask(0) == 1;
  }

  // ---- division ----

  lemma RightIsStep(p: bv32, r: bv32)
    ensures WordOf(Right(p, r)) == StepLsb(WordOf(p), WordOf(r))
  {
    hide WordOf, Half, Plus, Meets;
    LowestBit(r);
    WordHalf(r);
    WordXor(Half(r), p);
  }

  lemma RightIsSteps(p: bv32, r: bv32, b: bv32)
    ensures WordOf(RightByte(p, r, b)) == StepsLsb(WordOf(p), Xor(WordOf(r), WordOf(b)), |Zeros(8)|)
  {
    hide WordOf, Right, StepLsb, Plus;
    WordXor(r, b);
    var r1 := Right(p, Plus(r, b));
    var r2 := Right(p, r1);
    var r3 := Right(p, r2);
    var r4 := Right(p, r3);
    var r5 := Right(p, r4);
    var r6 := Right(p, r5);
    var r7 := Right(p, r6);
    RightIsStep(p, Plus(r, b));
    RightIsStep(p, r1);
    RightIsStep(p, r2);
    RightIsStep(p, r3);
    RightIsStep(p, r4);
    RightIsStep(p, r5);
    RightIsStep(p, r6);
    RightIsStep(p, r7);
    EightSteps(WordOf(p), WordOf(Plus(r, b)));
  }

  lemma EightSteps(q: Word, x: Word)
    requires |q| == |x| > 0
    ensures StepsLsb(q, x, |Zeros(8)|) == StepLsb(q, StepLsb(q, StepLsb(q, StepLsb(q,
      StepLsb(q, StepLsb(q, StepLsb(q, StepLsb(q, x))))))))
  {
    hide StepLsb;
    assert StepsLsb(q, x, 8) == StepsLsb(q, StepLsb(q, StepLsb(q, StepLsb(q, StepLsb(q, x)))), 4);
  }

  predicate AllBytes(bytes: seq<bv32>) {
    forall i :: 0 <= i < |bytes| ==> IsByte(bytes[i])
  }

  predicate High(mask: bv32) {
    mask & 0xFF == 0
  }

  lemma HighTwice(mask: bv32)
    ensures High(0x100) && (High(mask) ==> High(Twice(mask)))
  {
  }

  lemma {:induction false} MaskIsHigh(i: nat)
    requires 8 <= i
    ensures High(Mask(i))
  {
    hide High;
    HighTwice(Mask(i - 1));
    if i == 8 {
      assert Mask(8) == 0x100;
    } else {
      MaskIsHigh(i - 1);
    }
  }

  predicate IsByte(b: bv32) {
    b <= 0xFF
  }

  lemma ByteMeetsNone(b: bv32, mask: bv32)
    requires IsByte(b) && High(mask)
    ensures !Meets(b, mask)
  {
  }

  /** A word that is zero beyond its first octet. */
  lemma OctetPadded(b: bv32)
    requires IsByte(b)
    ensures WordOf(b) == OctetOf(b) + Zeros(24)
  {
    hide IsByte, Meets, Mask, High;
    forall i | 8 <= i < 32
      ensures !Bit(b, i)
    {
      MaskIsHigh(i);
      ByteMeetsNone(b, Mask(i));
    }
  }

  /** The loop over machine words leaves the register of the right-shifting division. */
  lemma {:induction false} WordsDivide(p: bv32, r: bv32, bytes: seq<bv32>)
    requires AllBytes(bytes)
    ensures WordOf(RightAll(p, r, bytes)) == DivideLsb(WordOf(p), WordOf(r), OctetsOf(bytes))
  {
    hide WordOf, OctetOf, RightByte, StepsLsb, IsByte;
    if bytes != [] {
      var front, b := bytes[..|bytes| - 1], bytes[|bytes| - 1];
      WordsDivide(p, r, front);
      assert OctetsOf(bytes)[..|bytes| - 1] == OctetsOf(front);
      RightIsSteps(p, RightAll(p, r, front), b);
      OctetPadded(b);
    }
  }

  // ---- a check in machine words ----

  /** A register of at most 32 bits in the low end of a machine word. */
  function Padded(w: Word): (r: Word)
    requires |w| <= 32
    ensures |r| == 32
  {
    w + Zeros(32 - |w|)
  }

  lemma StepPadded(q: Word, reg: Word)
    requires 0 < |q| == |reg| <= 32
    ensures StepLsb(Padded(q), Padded(reg)) == Padded(StepLsb(q, reg))
  {
    var up, down := Padded(reg)[1..] + [false], reg[1..] + [false];
    assert up == Padded(down);
    assert Xor(up, Padded(q)) == Padded(Xor(down, q));
  }

  lemma {:induction false} StepsPadded(q: Word, reg: Word, n: nat)
    requires 0 < |q| == |reg| <= 32
    ensures StepsLsb(Padded(q), Padded(reg), n) == Padded(StepsLsb(q, reg, n))
    decreases n
  {
    hide StepLsb, Padded;
    if n != 0 {
      StepPadded(q, reg);
      StepsPadded(q, StepLsb(q, reg), n - 1);
    }
  }

  lemma {:induction false} DividePadded(q: Word, reg: Word, data: seq<Octet>)
    requires 8 <= |q| == |reg| <= 32
    ensures DivideLsb(Padded(q), Padded(reg), data) == Padded(DivideLsb(q, reg, data))
  {
    hide StepsLsb;
    if data != [] {
      var front, b := data[..|data| - 1], data[|data| - 1];
      DividePadded(q, reg, front);
      var r := DivideLsb(q, reg, front);
      assert Xor(Padded(r), b + Zeros(24)) == Padded(Xor(r, b + Zeros(|reg| - 8)));
      StepsPadded(q, Xor(r, b + Zeros(|reg| - 8)), |b|);
    }
  }

  function Mirrored(data: seq<Octet>): (r: seq<Octet>)
    ensures |r| == |data|
  {
    seq(|data|, i requires 0 <= i < |data| => Reverse(data[i]))
  }

  /** A reflected check is the loop over machine words, from the reversed polynomial and register. */
  lemma ReflectedInWords(c: Check, p: bv32, r: bv32, x: bv32, init: Word, xorout: Word, bytes: seq<bv32>)
    requires ValidCheck(c) && c.reflected && |init| == |xorout| == |c.poly| && AllBytes(bytes)
    requires WordOf(p) == Padded(Reverse(c.poly)) && WordOf(r) == Padded(Reverse(init)) && WordOf(x) == Padded(xorout)
    ensures Padded(Catalogue(c, init, xorout, OctetsOf(bytes))) == WordOf(Plus(RightAll(p, r, bytes), x))
  {
    hide WordOf, RightAll, Plus, Divide, DivideLsb, Reverse;
    var data := OctetsOf(bytes);
    WordsDivide(p, r, bytes);
    DividePadded(Reverse(c.poly), Reverse(init), data);
    ReflectedIsLsbFirst(c, init, data);
    WordXor(RightAll(p, r, bytes), x);
    XorPadded(Reverse(Divide(c.poly, init, EnterAll(c, data))), xorout);
  }

  lemma XorPadded(a: Word, b: Word)
    requires |a| == |b| <= 32
    ensures Xor(Padded(a), Padded(b)) == Padded(Xor(a, b))
  {
  }

  /** An unreflected check is the mirror image of such a loop, fed with every octet mirrored. */
  lemma UnreflectedInWords(c: Check, p: bv32, r: bv32, x: bv32, init: Word, xorout: Word, bytes: seq<bv32>)
    requires ValidCheck(c) && !c.reflected && |init| == |xorout| == |c.poly| && AllBytes(bytes)
    requires WordOf(p) == Padded(Reverse(c.poly)) && WordOf(r) == Padded(Reverse(init))
    requires WordOf(x) == Padded(Reverse(xorout))
    ensures Padded(Reverse(Catalogue(c, init, xorout, Mirrored(OctetsOf(bytes)))))
         == WordOf(Plus(RightAll(p, r, bytes), x))
  {
    hide WordOf, RightAll, Plus, Divide, DivideLsb, Reverse;
    var m := Check(c.poly, true);
    var data := OctetsOf(bytes);
    WordsDivide(p, r, bytes);
    DividePadded(Reverse(c.poly), Reverse(init), data);
    ReflectedIsLsbFirst(m, init, data);
    assert EnterAll(m, data) == Mirrored(data);
    assert EnterAll(c, Mirrored(data)) == Mirrored(data);
    WordXor(RightAll(p, r, bytes), x);
    var d := Divide(c.poly, init, Mirrored(data));
    XorPadded(Reverse(d), Reverse(xorout));
    ReverseXor(d, xorout);
  }

  lemma ReverseXor(a: Word, b: Word)
    requires |a| == |b|
    ensures Reverse(Xor(a, b)) == Xor(Reverse(a), Reverse(b))
  {
  }

  // ---- a table in machine words ----

  lemma FromNothing(b: bv32)
    ensures Plus(0, b) == b
  {
  }

  /** The first block of a reflected table is made as RFC 1952 makes its own: eight bits of each index. */
  lemma TableInWords(c: Check, p: bv32, i: bv32)
    requires ValidCheck(c) && c.reflected && IsByte(i) && WordOf(p) == Padded(Reverse(c.poly))
    ensures Padded(Table0(c, OctetOf(i))) == WordOf(RightByte(p, 0, i))
  {
    hide WordOf, RightByte, Steps, StepsLsb, Plus, IsByte;
    var n, b := |c.poly|, OctetOf(i);
    var x := Zeros(n - 8) + Reverse(b);
    RightIsSteps(p, 0, i);
    WordXor(0, i);
    FromNothing(i);
    OctetPadded(i);
    assert Reverse(x) == b + Zeros(n - 8);
    assert WordOf(i) == Padded(Reverse(x));
    StepsMirrored(c.poly, x, |b|);
    StepsPadded(Reverse(c.poly), Reverse(x), |b|);
  }

  /** The first block of an unreflected table is its mirror image, with swapped octets. */
  lemma SwappedTableInWords(c: Check, p: bv32, i: bv32)
    requires ValidCheck(c) && !c.reflected && IsByte(i) && WordOf(p) == Padded(Reverse(c.poly))
    ensures Padded(Reverse(SwapBytes(Table0(c, Reverse(OctetOf(i)))))) == WordOf(RightByte(p, 0, i))
  {
    hide WordOf, RightByte, Steps, Reverse, Padded, SwapBytes;
    var m, b := Check(c.poly, true), OctetOf(i);
    TableInWords(m, p, i);
    var reg := Steps(c.poly, Zeros(|c.poly| - 8) + Reverse(b), |b|);
    HeldTwice(c, reg);
  }
}
