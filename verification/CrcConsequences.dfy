/** What the definition of the checks implies: splitting, the least-significant-bit-first form,
    detection of short bursts, and the constant residue. */
module CrcConsequences {
  import opened CrcSpec
  import opened CrcTheory
  import opened CrcWords
  import opened FastCrc

  // ---- splitting a message over calls ----

  lemma {:induction false} DivideSplit(p: Word, reg: Word, a: seq<Octet>, b: seq<Octet>)
    requires |p| == |reg| >= 8
    ensures Divide(p, reg, a + b) == Divide(p, Divide(p, reg, a), b)
  {
    if b == [] {
      assert a + b == a;
    } else {
      assert (a + b)[..|a + b| - 1] == a + b[..|b| - 1];
      DivideSplit(p, reg, a, b[..|b| - 1]);
    }
  }

  function Flatten(chunks: seq<seq<Octet>>): seq<Octet> {
    if chunks == [] then [] else chunks[0] + Flatten(chunks[1..])
  }

  /** Some sequence of registers that successive updates leave, one update per chunk. */
  ghost predicate Chain(c: Check, seeds: seq<Word>, chunks: seq<seq<Octet>>)
    requires ValidCheck(c)
  {
    && |seeds| == |chunks| + 1
    && (forall i | 0 <= i < |seeds| :: |seeds[i]| == |c.poly|)
    && forall i | 0 <= i < |chunks| ::
         Held(c, seeds[i + 1]) == Divide(c.poly, Held(c, seeds[i]), EnterAll(c, chunks[i]))
  }

  /** However a message is cut into updates, the register ends as one call would leave it. */
  lemma {:induction false} SplittingIsInvisible(c: Check, seeds: seq<Word>, chunks: seq<seq<Octet>>)
    requires ValidCheck(c) && Chain(c, seeds, chunks)
    ensures Held(c, seeds[|chunks|]) == Divide(c.poly, Held(c, seeds[0]), EnterAll(c, Flatten(chunks)))
  {
    hide Held, Divide;
    if chunks == [] {
      assert Divide(c.poly, Held(c, seeds[0]), []) == Held(c, seeds[0]) by { DivideNothing(c.poly, Held(c, seeds[0])); }
      assert EnterAll(c, []) == [];
    } else {
      SplittingIsInvisible(c, seeds[1..], chunks[1..]);
      var a, b := EnterAll(c, chunks[0]), EnterAll(c, Flatten(chunks[1..]));
      assert EnterAll(c, Flatten(chunks)) == a + b;
      DivideSplit(c.poly, Held(c, seeds[0]), a, b);
    }
  }

  /** What the last call of such a chain returns is the check of the whole message. */
  lemma ChainYieldsCatalogue(c: Check, seeds: seq<Word>, chunks: seq<seq<Octet>>, xorout: Word)
    requires ValidCheck(c) && Chain(c, seeds, chunks) && |xorout| == |c.poly|
    requires Held(c, seeds[0]) == seeds[0]
    ensures Xor(if c.reflected then seeds[|chunks|] else SwapBytes(seeds[|chunks|]), xorout)
         == Catalogue(c, seeds[0], xorout, Flatten(chunks))
  {
    hide Divide;
    SplittingIsInvisible(c, seeds, chunks);
    HeldTwice(c, seeds[|chunks|]);
  }

  lemma DivideNothing(p: Word, reg: Word)
    requires |p| == |reg| >= 8
    ensures Divide(p, reg, []) == reg
  {
  }

  // ---- the least-significant-bit-first form ----

  function DivideLsb(q: Word, reg: Word, data: seq<Octet>): (r: Word)
    requires |q| == |reg| >= 8
    ensures |r| == |reg|
  {
    if data == [] then reg
    else
      var b := data[|data| - 1];
      StepsLsb(q, Xor(DivideLsb(q, reg, data[..|data| - 1]), b + Zeros(|reg| - 8)), |b|)
  }

  lemma StepMirrored(p: Word, x: Word)
    requires |p| == |x| > 0
    ensures StepLsb(Reverse(p), Reverse(x)) == Reverse(Step(p, x))
  {
    var n := |x| - 1;
    var up, down := [false] + x[..n], Reverse(x)[1..] + [false];
    assert down == Reverse(up);
    assert Xor(down, Reverse(p)) == Reverse(Xor(up, p));
  }

  lemma {:induction false} StepsMirrored(p: Word, x: Word, n: nat)
    requires |p| == |x| > 0
    ensures StepsLsb(Reverse(p), Reverse(x), n) == Reverse(Steps(p, x, n))
    decreases n
  {
    hide Step, StepLsb, Reverse;
    if n != 0 {
      StepMirrored(p, x);
      StepsMirrored(p, Step(p, x), n - 1);
    }
  }

  /** The register of a reflected check is the one right-shifting division leaves. */
  lemma {:induction false} ReflectedIsLsbFirst(c: Check, reg: Word, data: seq<Octet>)
    requires ValidCheck(c) && c.reflected && |reg| == |c.poly|
    ensures DivideLsb(Reverse(c.poly), Reverse(reg), data) == Reverse(Divide(c.poly, reg, EnterAll(c, data)))
  {
    hide Steps, StepsLsb;
    if data != [] {
      var front, b := data[..|data| - 1], data[|data| - 1];
      ReflectedIsLsbFirst(c, reg, front);
      assert EnterAll(c, data)[..|data| - 1] == EnterAll(c, front);
      var r := Divide(c.poly, reg, EnterAll(c, front));
      var x := Xor(r, Zeros(|reg| - 8) + Enter(c, b));
      assert Reverse(x) == Xor(Reverse(r), b + Zeros(|reg| - 8));
      StepsMirrored(c.poly, x, |b|);
    }
  }

  // ---- injectivity ----

  /** A polynomial with a constant term shows in the low bit whether it was added. */
  lemma StepInjective(p: Word, x: Word, y: Word)
    requires |p| == |x| == |y| > 0 && p[0]
    requires Step(p, x) == Step(p, y)
    ensures x == y
  {
    var n := |x| - 1;
    assert Step(p, x)[0] == x[n] && Step(p, y)[0] == y[n];
    forall i | 0 <= i < n
      ensures x[i] == y[i]
    {
      assert Step(p, x)[i + 1] == Step(p, y)[i + 1];
    }
  }

  lemma {:induction false} StepsInjective(p: Word, x: Word, y: Word, n: nat)
    requires |p| == |x| == |y| > 0 && p[0]
    requires Steps(p, x, n) == Steps(p, y, n)
    ensures x == y
    decreases n
  {
    hide Step;
    if n != 0 {
      StepsInjective(p, Step(p, x), Step(p, y), n - 1);
      StepInjective(p, x, y);
    }
  }

  lemma XorCancels(x: Word, y: Word, z: Word)
    requires |x| == |y| == |z| && Xor(x, z) == Xor(y, z)
    ensures x == y
  {
    forall i | 0 <= i < |x|
      ensures x[i] == y[i]
    {
      assert Xor(x, z)[i] == Xor(y, z)[i];
    }
  }

  lemma {:induction false} DivideInjective(p: Word, x: Word, y: Word, data: seq<Octet>)
    requires |p| == |x| == |y| >= 8 && p[0]
    requires Divide(p, x, data) == Divide(p, y, data)
    ensures x == y
  {
    hide Steps;
    if data != [] {
      var front, b := data[..|data| - 1], data[|data| - 1];
      var e := Zeros(|p| - 8) + b;
      StepsInjective(p, Xor(Divide(p, x, front), e), Xor(Divide(p, y, front), e), |b|);
      XorCancels(Divide(p, x, front), Divide(p, y, front), e);
      DivideInjective(p, x, y, front);
    }
  }

  lemma HeldInjective(c: Check, x: Word, y: Word)
    requires |x| == |y| && |x| % 8 == 0 && Held(c, x) == Held(c, y)
    ensures x == y
  {
    HeldTwice(c, x);
    HeldTwice(c, y);
  }

  lemma ByteLoopInjective(c: Check, x: Word, y: Word, data: seq<Octet>)
    requires ValidCheck(c) && |x| == |y| == |c.poly| && c.poly[0]
    requires ByteLoop(c, x, data) == ByteLoop(c, y, data)
    ensures x == y
  {
    hide ByteLoop, Divide, Held;
    HeldTwice(c, x);
    HeldTwice(c, y);
    ByteLoopDivides(c, Held(c, x), data);
    ByteLoopDivides(c, Held(c, y), data);
    var d := EnterAll(c, data);
    HeldInjective(c, Divide(c.poly, Held(c, x), d), Divide(c.poly, Held(c, y), d));
    DivideInjective(c.poly, Held(c, x), Held(c, y), d);
    HeldInjective(c, x, y);
  }

  // ---- short bursts ----

  lemma LoopOfFour(c: Check, x: Word, w: seq<Octet>)
    requires ValidCheck(c) && |x| == |c.poly| == 32 && |w| == 4
    ensures ByteLoop(c, x, w) == SmallWordStep(c, x, Load(w, 0))
  {
    hide ByteLoop, FourBytes, SmallWordStep;
    ByteLoopOfNothing(c, x);
    assert w[..0] == [] && w[..4] == w;
    LoopTakesFour(c, x, w, 0);
    SmallWordStepIsFourBytes(c, x, Load(w, 0));
  }

  lemma ShiftInjective(c: Check, x: Word, y: Word)
    requires ValidCheck(c) && |x| == |y| == |c.poly| && c.poly[0]
    requires Shift(c, x) == Shift(c, y)
    ensures x == y
  {
    hide Shift, ByteStep, ByteLoop;
    var z := Zeros(8);
    assert z + Zeros(|x| - 8) == Zeros(|x|);
    XorZeros(x);
    XorZeros(y);
    ByteStepIsShift(c, x, z);
    ByteStepIsShift(c, y, z);
    LoopOfOne(c, x, z);
    LoopOfOne(c, y, z);
    ByteLoopInjective(c, x, y, [z]);
  }

  lemma LoopOfOne(c: Check, x: Word, b: Octet)
    requires ValidCheck(c) && |x| == |c.poly|
    ensures ByteLoop(c, x, [b]) == ByteStep(c, x, b)
  {
    hide ByteStep;
    assert [b][..0] == [];
    assert ByteLoop(c, x, []) == x;
  }

  lemma LoadInjective(w1: seq<Octet>, w2: seq<Octet>)
    requires |w1| == |w2| == 4 && Load(w1, 0) == Load(w2, 0)
    ensures w1 == w2
  {
    hide Load;
  }

  lemma FourOctetsDistinguished(c: Check, x: Word, w1: seq<Octet>, w2: seq<Octet>)
    requires ValidCheck(c) && |x| == |c.poly| == 32 && c.poly[0] && |w1| == |w2| == 4
    requires ByteLoop(c, x, w1) == ByteLoop(c, x, w2)
    ensures w1 == w2
  {
    hide ByteLoop, Shift, Load;
    LoopOfFour(c, x, w1);
    LoopOfFour(c, x, w2);
    var a, b := Load(w1, 0), Load(w2, 0);
    ShiftInjective(c, Shift(c, Shift(c, Shift(c, Xor(x, a)))), Shift(c, Shift(c, Shift(c, Xor(x, b)))));
    ShiftInjective(c, Shift(c, Shift(c, Xor(x, a))), Shift(c, Shift(c, Xor(x, b))));
    ShiftInjective(c, Shift(c, Xor(x, a)), Shift(c, Xor(x, b)));
    ShiftInjective(c, Xor(x, a), Xor(x, b));
    XorCommutes(x, a);
    XorCommutes(x, b);
    XorCancels(a, b, x);
    LoadInjective(w1, w2);
  }

  lemma XorCommutes(x: Word, y: Word)
    requires |x| == |y|
    ensures Xor(x, y) == Xor(y, x)
  {
  }

  lemma {:induction false} LoopSplit(c: Check, x: Word, a: seq<Octet>, b: seq<Octet>)
    requires ValidCheck(c) && |x| == |c.poly|
    ensures ByteLoop(c, x, a + b) == ByteLoop(c, ByteLoop(c, x, a), b)
  {
    hide ByteStep;
    if b == [] {
      assert a + b == a;
    } else {
      assert (a + b)[..|a + b| - 1] == a + b[..|b| - 1];
      LoopSplit(c, x, a, b[..|b| - 1]);
    }
  }

  lemma ShortWordsDistinguished(c: Check, x: Word, w1: seq<Octet>, w2: seq<Octet>)
    requires ValidCheck(c) && |x| == |c.poly| == 32 && c.poly[0] && |w1| == |w2| <= 4
    requires ByteLoop(c, x, w1) == ByteLoop(c, x, w2)
    ensures w1 == w2
  {
    hide ByteLoop;
    var pad: seq<Octet> := seq(4 - |w1|, _ => Zeros(8));
    LoopSplit(c, x, w1, pad);
    LoopSplit(c, x, w2, pad);
    FourOctetsDistinguished(c, x, w1 + pad, w2 + pad);
    assert w1 == (w1 + pad)[..|w1|] && w2 == (w2 + pad)[..|w2|];
  }

  /** The check of a message, by the register the loops hold. */
  lemma CatalogueByLoop(c: Check, init: Word, xorout: Word, data: seq<Octet>)
    requires ValidCheck(c) && |init| == |xorout| == |c.poly| && Held(c, init) == init
    ensures var s := ByteLoop(c, init, data);
      Catalogue(c, init, xorout, data) == Xor(if c.reflected then s else SwapBytes(s), xorout)
  {
    hide ByteLoop, Divide;
    ByteLoopDivides(c, init, data);
    HeldTwice(c, Divide(c.poly, init, EnterAll(c, data)));
  }

  /** Two messages of one length that differ only within four consecutive octets have different 32-bit checks. */
  lemma BurstDetected(c: Check, init: Word, xorout: Word, pre: seq<Octet>, w1: seq<Octet>, w2: seq<Octet>,
      post: seq<Octet>)
    requires ValidCheck(c) && |init| == |xorout| == |c.poly| == 32 && c.poly[0] && Held(c, init) == init
    requires |w1| == |w2| <= 4 && w1 != w2
    ensures Catalogue(c, init, xorout, pre + w1 + post) != Catalogue(c, init, xorout, pre + w2 + post)
  {
    hide ByteLoop, Catalogue, Held;
    if Catalogue(c, init, xorout, pre + w1 + post) == Catalogue(c, init, xorout, pre + w2 + post) {
      CatalogueByLoop(c, init, xorout, pre + w1 + post);
      CatalogueByLoop(c, init, xorout, pre + w2 + post);
      var s1, s2 := ByteLoop(c, init, pre + w1 + post), ByteLoop(c, init, pre + w2 + post);
      OutputInjective(c, s1, s2, xorout);
      LoopSplit(c, init, pre + w1, post);
      LoopSplit(c, init, pre + w2, post);
      ByteLoopInjective(c, ByteLoop(c, init, pre + w1), ByteLoop(c, init, pre + w2), post);
      LoopSplit(c, init, pre, w1);
      LoopSplit(c, init, pre, w2);
      ShortWordsDistinguished(c, ByteLoop(c, init, pre), w1, w2);
    }
  }

  lemma OutputInjective(c: Check, s1: Word, s2: Word, xorout: Word)
    requires |s1| == |s2| == |xorout| && |s1| % 8 == 0
    requires Xor(if c.reflected then s1 else SwapBytes(s1), xorout)
        == Xor(if c.reflected then s2 else SwapBytes(s2), xorout)
    ensures s1 == s2
  {
    XorCancels(if c.reflected then s1 else SwapBytes(s1), if c.reflected then s2 else SwapBytes(s2), xorout);
    if !c.reflected {
      HeldInjective(c, s1, s2);
    }
  }

  // ---- the residue ----

  /** The octets of a 32-bit word in memory order. */
  function Octets(w: Word): (r: seq<Octet>)
    requires |w| == 32
    ensures |r| == 4
  {
    [ByteOf(w, 0), ByteOf(w, 1), ByteOf(w, 2), ByteOf(w, 3)]
  }

  lemma LoadOctets(w: Word)
    requires |w| == 32
    ensures Load(Octets(w), 0) == w
  {
    assert w == w[0..8] + w[8..16] + w[16..24] + w[24..32];
  }

  /** Appending the CRC-32 of any message to it, low octet first, gives one constant: the CRC-32 of
      four zero octets. */
  lemma ConstantResidue(data: seq<Octet>)
    ensures var c := Crc32Check();
      Catalogue(c, Ones(32), Ones(32), data + Octets(Catalogue(c, Ones(32), Ones(32), data)))
      == Catalogue(c, Ones(32), Ones(32), Octets(Zeros(32)))
  {
    hide ByteLoop, Catalogue, Held, SmallWordStep, Hex16, Octets, Load;
    var c, ones := Crc32Check(), Ones(32);
    HeldUniform(c, 32);
    var s, crc := ByteLoop(c, ones, data), Catalogue(c, ones, ones, data);
    CatalogueByLoop(c, ones, ones, data);
    CatalogueByLoop(c, ones, ones, data + Octets(crc));
    CatalogueByLoop(c, ones, ones, Octets(Zeros(32)));
    LoopSplit(c, ones, data, Octets(crc));
    LoopOfFour(c, s, Octets(crc));
    LoopOfFour(c, ones, Octets(Zeros(32)));
    LoadOctets(crc);
    LoadOctets(Zeros(32));
    EntersOnes(c, s, crc);
  }

  /** A word and its complement enter the register as all ones. */
  lemma EntersOnes(c: Check, s: Word, crc: Word)
    requires ValidCheck(c) && |s| == |crc| == |c.poly| == 32 && crc == Xor(s, Ones(32))
    ensures SmallWordStep(c, s, crc) == SmallWordStep(c, Ones(32), Zeros(32))
  {
    hide Shift;
    assert Xor(s, crc) == Ones(32) == Xor(Ones(32), Zeros(32));
  }

  /** The CRC-32 of a message. */
  function Crc32Of(data: seq<Octet>): Word {
    Catalogue(Crc32Check(), Ones(32), Ones(32), data)
  }

  /** Messages of equal length that differ, but only within four consecutive octets, have different
      CRC-32. */
  lemma Crc32Distinguishes(a: seq<Octet>, b: seq<Octet>, k: nat)
    requires |a| == |b| && a != b
    requires forall i :: 0 <= i < |a| && !(k <= i < k + 4) ==> a[i] == b[i]
    ensures Crc32Of(a) != Crc32Of(b)
  {
    hide Catalogue;
    var start := if k <= |a| then k else |a|;
    var end := if k + 4 <= |a| then k + 4 else |a|;
    var w1, w2 := a[start..end], b[start..end];
    assert a[..start] == b[..start] && a[end..] == b[end..];
    assert a == a[..start] + w1 + a[end..] && b == b[..start] + w2 + b[end..];
    BurstDetected(Crc32Check(), Ones(32), Ones(32), a[..start], w1, w2, a[end..]);
  }
}
