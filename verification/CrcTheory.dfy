/** Linearity over GF(2), the table identities, and the simulation of division by table steps. */
module CrcTheory {
  import opened CrcSpec

  // ---- linearity ----

  lemma StepLinear(p: Word, x: Word, y: Word)
    requires |p| == |x| == |y| > 0
    ensures Step(p, Xor(x, y)) == Xor(Step(p, x), Step(p, y))
  {
    hide Step;
    var a, b := Step(p, Xor(x, y)), Xor(Step(p, x), Step(p, y));
    forall i | 0 <= i < |p|
      ensures a[i] == b[i]
    {
      StepAt(p, x, i);
      StepAt(p, y, i);
      StepAt(p, Xor(x, y), i);
    }
  }

  lemma StepAt(p: Word, reg: Word, i: nat)
    requires |p| == |reg| > i
    ensures Step(p, reg)[i] == ((i > 0 && reg[i - 1]) != (reg[|reg| - 1] && p[i]))
  {
  }

  lemma {:induction false} StepsLinear(p: Word, x: Word, y: Word, n: nat)
    requires |p| == |x| == |y| > 0
    ensures Steps(p, Xor(x, y), n) == Xor(Steps(p, x, n), Steps(p, y, n))
    decreases n
  {
    if n != 0 {
      StepLinear(p, x, y);
      StepsLinear(p, Step(p, x), Step(p, y), n - 1);
    }
  }

  lemma {:induction false} SwapLinear(x: Word, y: Word)
    requires |x| == |y| && |x| % 8 == 0
    ensures SwapBytes(Xor(x, y)) == Xor(SwapBytes(x), SwapBytes(y))
  {
    if x != [] {
      assert Xor(x, y)[8..] == Xor(x[8..], y[8..]);
      SwapLinear(x[8..], y[8..]);
    }
  }

  lemma HeldLinear(c: Check, x: Word, y: Word)
    requires |x| == |y| && |x| % 8 == 0
    ensures Held(c, Xor(x, y)) == Xor(Held(c, x), Held(c, y))
  {
    if c.reflected {
      assert Reverse(Xor(x, y)) == Xor(Reverse(x), Reverse(y));
    } else {
      SwapLinear(x, y);
    }
  }

  lemma EnterLinear(c: Check, i: Octet, j: Octet)
    ensures Enter(c, Xor(i, j)) == Xor(Enter(c, i), Enter(c, j))
  {
  }

  lemma PadLinear(n: nat, x: Word, y: Word)
    requires |x| == |y|
    ensures Zeros(n) + Xor(x, y) == Xor(Zeros(n) + x, Zeros(n) + y)
    ensures Xor(x, y) + Zeros(n) == Xor(x + Zeros(n), y + Zeros(n))
  {
  }

  lemma LoadedLinear(c: Check, x: Word, y: Word, n: nat)
    requires ValidCheck(c) && |x| == |y| == |c.poly|
    ensures Held(c, Steps(c.poly, Xor(x, y), n)) == Xor(Held(c, Steps(c.poly, x, n)), Held(c, Steps(c.poly, y, n)))
  {
    StepsLinear(c.poly, x, y, n);
    HeldLinear(c, Steps(c.poly, x, n), Steps(c.poly, y, n));
  }

  lemma Table0Linear(c: Check, i: Octet, j: Octet)
    requires ValidCheck(c)
    ensures Table0(c, Xor(i, j)) == Xor(Table0(c, i), Table0(c, j))
  {
    hide Steps, Held;
    var n := |c.poly| - 8;
    assert Zeros(n) + Enter(c, Xor(i, j)) == Xor(Zeros(n) + Enter(c, i), Zeros(n) + Enter(c, j)) by {
      EnterLinear(c, i, j);
      PadLinear(n, Enter(c, i), Enter(c, j));
    }
    LoadedLinear(c, Zeros(n) + Enter(c, i), Zeros(n) + Enter(c, j), |i|);
  }

  lemma XorSwap(a: Word, b: Word, c: Word, d: Word)
    requires |a| == |b| == |c| == |d|
    ensures Xor(Xor(a, b), Xor(c, d)) == Xor(Xor(a, c), Xor(b, d))
  {
  }

  lemma PartsLinear(x: Word, y: Word)
    requires |x| == |y| >= 8
    ensures DropByte(Xor(x, y)) == Xor(DropByte(x), DropByte(y))
    ensures ByteOf(Xor(x, y), 0) == Xor(ByteOf(x, 0), ByteOf(y, 0))
  {
  }

  lemma ShiftLinear(c: Check, x: Word, y: Word)
    requires ValidCheck(c) && |x| == |y| == |c.poly|
    ensures Shift(c, Xor(x, y)) == Xor(Shift(c, x), Shift(c, y))
  {
    PartsLinear(x, y);
    Table0Linear(c, ByteOf(x, 0), ByteOf(y, 0));
    XorSwap(DropByte(x), DropByte(y), Table0(c, ByteOf(x, 0)), Table0(c, ByteOf(y, 0)));
  }

  // ---- one table step divides by one octet ----

  lemma {:induction false} NoCarry(p: Word, m: nat, low: Word, n: nat)
    requires |p| == m + |low| + n > 0
    ensures Steps(p, Zeros(m) + low + Zeros(n), n) == Zeros(m + n) + low
    decreases n
  {
    hide Step;
    if n == 0 {
      assert Zeros(m) + low + Zeros(0) == Zeros(m) + low;
    } else {
      NoCarryStep(p, m, low, n);
      NoCarry(p, m + 1, low, n - 1);
    }
  }

  lemma NoCarryStep(p: Word, m: nat, low: Word, n: nat)
    requires |p| == m + |low| + n && n > 0
    ensures Step(p, Zeros(m) + low + Zeros(n)) == Zeros(m + 1) + low + Zeros(n - 1)
  {
    hide Step;
    var x, y := Zeros(m) + low + Zeros(n), Zeros(m + 1) + low + Zeros(n - 1);
    forall i | 0 <= i < |p|
      ensures Step(p, x)[i] == y[i]
    {
      StepAt(p, x, i);
    }
  }

  lemma {:induction false} SwapConcat(x: Word, y: Word)
    requires |x| % 8 == 0 && |y| % 8 == 0
    ensures SwapBytes(x + y) == SwapBytes(y) + SwapBytes(x)
  {
    if x == [] {
      assert x + y == y;
    } else {
      assert (x + y)[8..] == x[8..] + y;
      assert (x + y)[..8] == x[..8];
      SwapConcat(x[8..], y);
    }
  }

  lemma HeldParts(c: Check, low: Word, top: Octet)
    requires |low| % 8 == 0
    ensures Held(c, low + top) == Enter(c, top) + Held(c, low)
  {
    if c.reflected {
      assert Reverse(low + top) == Reverse(top) + Reverse(low);
    } else {
      SwapConcat(low, top);
      assert SwapBytes(top) == SwapBytes(top[8..]) + top[..8] == top;
    }
  }

  lemma HeldZeros(c: Check, low: Word)
    requires |low| % 8 == 0
    ensures Held(c, Zeros(8) + low) == Held(c, low) + Zeros(8)
  {
    if c.reflected {
      assert Reverse(Zeros(8) + low) == Reverse(low) + Zeros(8);
    } else {
      var x := Zeros(8) + low;
      assert x[8..] == low && x[..8] == Zeros(8);
    }
  }

  lemma EnterTwice(c: Check, b: Octet)
    ensures Enter(c, Enter(c, b)) == b
  {
  }

  lemma SplitLoaded(reg: Word, b: Octet)
    requires |reg| >= 8
    ensures var n := |reg| - 8;
      Xor(reg, Zeros(n) + b) == Xor(reg[..n] + Zeros(8), Zeros(n) + Xor(reg[n..], b))
  {
  }

  /** The coupling: a byte step on the held register is eight bits of division. */
  lemma ByteStepDivides(c: Check, reg: Word, b: Octet)
    requires ValidCheck(c) && |reg| == |c.poly|
    ensures ByteStep(c, Held(c, reg), b) == Held(c, DivideByte(c.poly, reg, Enter(c, b)))
  {
    hide Steps, Held;
    var n := |reg| - 8;
    var low, top := reg[..n], reg[n..];
    var i := Xor(Enter(c, top), b);
    assert Held(c, reg) == Enter(c, top) + Held(c, low) by {
      assert reg == low + top;
      HeldParts(c, low, top);
    }
    assert ByteOf(Held(c, reg), 0) == Enter(c, top) && Held(c, reg)[8..] == Held(c, low);
    assert Enter(c, i) == Xor(top, Enter(c, b)) by {
      EnterLinear(c, Enter(c, top), b);
      EnterTwice(c, top);
    }
    var x, y := low + Zeros(8), Zeros(n) + Enter(c, i);
    assert Xor(reg, Zeros(n) + Enter(c, b)) == Xor(x, y) by {
      SplitLoaded(reg, Enter(c, b));
    }
    assert Held(c, Steps(c.poly, x, |b|)) == DropByte(Held(c, reg)) by {
      assert x == Zeros(0) + low + Zeros(8);
      NoCarry(c.poly, 0, low, 8);
      HeldZeros(c, low);
    }
    LoadedLinear(c, x, y, |b|);
  }

  /** The whole byte loop divides by the whole message. */
  function ByteLoop(c: Check, crc: Word, data: seq<Octet>): (w: Word)
    requires ValidCheck(c) && |crc| == |c.poly|
    ensures |w| == |crc|
  {
    if data == [] then crc
    else ByteStep(c, ByteLoop(c, crc, data[..|data| - 1]), data[|data| - 1])
  }

  lemma {:induction false} ByteLoopDivides(c: Check, reg: Word, data: seq<Octet>)
    requires ValidCheck(c) && |reg| == |c.poly|
    ensures ByteLoop(c, Held(c, reg), data) == Held(c, Divide(c.poly, reg, EnterAll(c, data)))
  {
    hide Held, DivideByte, ByteStep;
    if data != [] {
      var front := data[..|data| - 1];
      assert EnterAll(c, data)[..|data| - 1] == EnterAll(c, front);
      ByteLoopDivides(c, reg, front);
      ByteStepDivides(c, Divide(c.poly, reg, EnterAll(c, front)), data[|data| - 1]);
    }
  }
}
