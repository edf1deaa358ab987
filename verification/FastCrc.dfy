/**
 The software checks of FastCRC: one loop (aligning prologue, 16-octet body, tail) run with the
 tables of each check, and a register kept between calls.
 */
module FastCrc {
  import opened CrcSpec
  import opened CrcTheory
  import opened CrcWords

  /** The four bits of a hexadecimal digit. */
  function Nibble(d: nat): (w: Word)
    requires d < 16
    ensures |w| == 4
  {
    [d % 2 == 1, d / 2 % 2 == 1, d / 4 % 2 == 1, d / 8 == 1]
  }

  /** A constant by its hexadecimal digits, most significant first as it is written. */
  function Hex16(a: nat, b: nat, c: nat, d: nat): (w: Word)
    requires a < 16 && b < 16 && c < 16 && d < 16
    ensures |w| == 16
  {
    Nibble(d) + Nibble(c) + Nibble(b) + Nibble(a)
  }

  function Poly1021(): (w: Word) ensures |w| == 16 { Hex16(0x1, 0x0, 0x2, 0x1) }
  function Poly8005(): (w: Word) ensures |w| == 16 { Hex16(0x8, 0x0, 0x0, 0x5) }
  function Poly04c11db7(): (w: Word) ensures |w| == 32 {
    Hex16(0x1, 0xd, 0xb, 0x7) + Hex16(0x0, 0x4, 0xc, 0x1)
  }

  function CcittCheck(): Check { Check(Poly1021(), false) }
  function XmodemCheck(): Check { Check(Poly1021(), false) }
  function KermitCheck(): Check { Check(Poly1021(), true) }
  function Mcrf4xxCheck(): Check { Check(Poly1021(), true) }
  function X25Check(): Check { Check(Poly1021(), true) }
  function ModbusCheck(): Check { Check(Poly8005(), true) }
  function Crc32Check(): Check { Check(Poly04c11db7(), true) }
  function CksumCheck(): Check { Check(Poly04c11db7(), false) }

  /** The loop every `_upd` method of the library repeats with its own table. */
  method RunTable(c: Check, bigTables: bool, crc0: Word, data: seq<Octet>, address: nat) returns (crc: Word)
    requires ValidCheck(c) && |crc0| == |c.poly|
    requires !bigTables ==> |c.poly| == 32
    ensures |crc| == |crc0| && crc == ByteLoop(c, crc0, data)
  {
    hide ByteStep, ByteLoop, WordStep, SmallWordStep;
    crc := crc0;
    var i: nat, len: nat := 0, |data|;
    assert data[..0] == [];
    ByteLoopOfNothing(c, crc0);
    while (address + i) % 4 != 0 && len != 0
      invariant i + len == |data| && |crc| == |c.poly|
      invariant crc == ByteLoop(c, crc0, data[..i])
      decreases len
    {
      LoopTakesOne(c, crc0, data, i);
      crc := ByteStep(c, crc, data[i]);
      i, len := i + 1, len - 1;
    }
    while len >= 16
      invariant i + len == |data| && |crc| == |c.poly|
      invariant crc == ByteLoop(c, crc0, data[..i])
    {
      len := len - 16;
      crc := TakeWord(c, bigTables, crc0, crc, data, i);
      crc := TakeWord(c, bigTables, crc0, crc, data, i + 4);
      crc := TakeWord(c, bigTables, crc0, crc, data, i + 8);
      crc := TakeWord(c, bigTables, crc0, crc, data, i + 12);
      i := i + 16;
    }
    while len != 0
      invariant i + len == |data| && |crc| == |c.poly|
      invariant crc == ByteLoop(c, crc0, data[..i])
    {
      LoopTakesOne(c, crc0, data, i);
      crc := ByteStep(c, crc, data[i]);
      i, len := i + 1, len - 1;
    }
    assert data[..i] == data;
  }

  lemma ByteLoopOfNothing(c: Check, crc: Word)
    requires ValidCheck(c) && |crc| == |c.poly|
    ensures ByteLoop(c, crc, []) == crc
  {
  }

  /** One word of the body, by the chained tables or by the small one. */
  method TakeWord(c: Check, bigTables: bool, ghost crc0: Word, crc: Word, data: seq<Octet>, i: nat) returns (r: Word)
    requires ValidCheck(c) && |crc| == |crc0| == |c.poly| && i + 4 <= |data|
    requires !bigTables ==> |c.poly| == 32
    requires crc == ByteLoop(c, crc0, data[..i])
    ensures |r| == |c.poly| && r == ByteLoop(c, crc0, data[..i + 4])
  {
    hide ByteStep, ByteLoop, WordStep, SmallWordStep;
    var word := Load(data, i);
    LoopTakesFour(c, crc0, data, i);
    if bigTables {
      WordStepIsFourBytes(c, crc, word);
      r := WordStep(c, crc, word);
    } else {
      SmallWordStepIsFourBytes(c, crc, word);
      r := SmallWordStep(c, crc, word);
    }
  }

  /** What an update leaves in `seed` and what it returns, for a check with the given final XOR. */
  ghost predicate Updated(c: Check, before: Word, data: seq<Octet>, after: Word, xorout: Word, crc: Word)
    requires ValidCheck(c) && |before| == |after| == |xorout| == |c.poly|
  {
    && Held(c, after) == Divide(c.poly, Held(c, before), EnterAll(c, data))
    && crc == Xor(if c.reflected then after else SwapBytes(after), xorout)
  }

  lemma {:induction false} HeldTwice(c: Check, x: Word)
    requires |x| % 8 == 0
    ensures Held(c, Held(c, x)) == x
    decreases |x|
  {
    if c.reflected {
      assert Reverse(Reverse(x)) == x;
    } else if x != [] {
      HeldTwice(c, x[8..]);
      SwapConcat(SwapBytes(x[8..]), x[..8]);
      assert SwapBytes(x[..8]) == SwapBytes(x[..8][8..]) + x[..8][..8] == x[..8];
      assert x[..8] + x[8..] == x;
    }
  }

  /** All-zero and all-one seeds mean the same swapped or not. */
  lemma HeldUniform(c: Check, n: nat)
    requires n == 16 || n == 32
    ensures Held(c, Zeros(n)) == Zeros(n) && Held(c, Ones(n)) == Ones(n)
  {
    if !c.reflected {
      SwapUniform(n, false);
      SwapUniform(n, true);
    }
  }

  lemma {:induction false} SwapUniform(n: nat, b: bool)
    requires n % 8 == 0
    ensures SwapBytes(seq(n, _ => b)) == seq(n, _ => b)
  {
    if n != 0 {
      assert seq(n, _ => b)[8..] == seq(n - 8, _ => b);
      SwapUniform(n - 8, b);
    }
  }

  /** A first call, from the check's own initial register, yields the catalogued check. */
  lemma FirstCall(c: Check, init: Word, data: seq<Octet>, after: Word, xorout: Word, crc: Word)
    requires ValidCheck(c) && |init| == |after| == |xorout| == |c.poly|
    requires Updated(c, init, data, after, xorout, crc) && Held(c, init) == init
    ensures crc == Catalogue(c, init, xorout, data)
  {
    HeldTwice(c, after);
  }

  method RunFrom(c: Check, bigTables: bool, seed: Word, data: seq<Octet>, address: nat) returns (r: Word)
    requires ValidCheck(c) && |seed| == |c.poly|
    requires !bigTables ==> |c.poly| == 32
    ensures |r| == |seed|
    ensures Held(c, r) == Divide(c.poly, Held(c, seed), EnterAll(c, data))
  {
    hide ByteLoop, Held;
    HeldTwice(c, seed);
    ByteLoopDivides(c, Held(c, seed), data);
    HeldTwice(c, Divide(c.poly, Held(c, seed), EnterAll(c, data)));
    r := RunTable(c, bigTables, seed, data, address);
  }

  class FastCRC16 {
    var seed: Word

    ghost predicate Valid()
      reads this
    {
      |seed| == 16
    }

    constructor ()
      ensures Valid()
    {
      seed := Zeros(16);
    }

    method CcittUpd(data: seq<Octet>, address: nat) returns (crc: Word)
      requires Valid()
      modifies this
      ensures Valid() && |crc| == 16
      ensures Updated(CcittCheck(), old(seed), data, seed, Zeros(16), crc)
    {
      hide Held, Divide, Hex16;
      crc := RunFrom(CcittCheck(), true, seed, data, address);
      seed := crc;
      crc := SwapBytes(crc);
    }

    /** The unreflected check with 0x1021, from all ones, not inverted. */
    method Ccitt(data: seq<Octet>, address: nat) returns (crc: Word)
      modifies this
      ensures Valid() && |crc| == 16
      ensures crc == Catalogue(CcittCheck(), Ones(16), Zeros(16), data)
      ensures Updated(CcittCheck(), Ones(16), data, seed, Zeros(16), crc)
    {
      hide Held, Divide, Catalogue, Updated, Hex16, Zeros, Ones;
      seed := Ones(16);
      crc := CcittUpd(data, address);
      HeldUniform(CcittCheck(), 16);
      FirstCall(CcittCheck(), Ones(16), data, seed, Zeros(16), crc);
    }

    method Mcrf4xxUpd(data: seq<Octet>, address: nat) returns (crc: Word)
      requires Valid()
      modifies this
      ensures Valid() && |crc| == 16
      ensures Updated(Mcrf4xxCheck(), old(seed), data, seed, Zeros(16), crc)
    {
      hide Held, Divide, Hex16;
      crc := RunFrom(Mcrf4xxCheck(), true, seed, data, address);
      seed := crc;
    }

    /** The reflected check with 0x1021, from zero as the code has it, not inverted. */
    method Mcrf4xx(data: seq<Octet>, address: nat) returns (crc: Word)
      modifies this
      ensures Valid() && |crc| == 16
      ensures crc == Catalogue(Mcrf4xxCheck(), Zeros(16), Zeros(16), data)
      ensures Updated(Mcrf4xxCheck(), Zeros(16), data, seed, Zeros(16), crc)
    {
      hide Held, Divide, Catalogue, Updated, Hex16, Zeros, Ones;
      seed := Zeros(16);
      crc := Mcrf4xxUpd(data, address);
      HeldUniform(Mcrf4xxCheck(), 16);
      FirstCall(Mcrf4xxCheck(), Zeros(16), data, seed, Zeros(16), crc);
    }

    method ModbusUpd(data: seq<Octet>, address: nat) returns (crc: Word)
      requires Valid()
      modifies this
      ensures Valid() && |crc| == 16
      ensures Updated(ModbusCheck(), old(seed), data, seed, Zeros(16), crc)
    {
      hide Held, Divide, Hex16;
      crc := RunFrom(ModbusCheck(), true, seed, data, address);
      seed := crc;
    }

    /** The reflected check with 0x8005, from all ones, not inverted. */
    method Modbus(data: seq<Octet>, address: nat) returns (crc: Word)
      modifies this
      ensures Valid() && |crc| == 16
      ensures crc == Catalogue(ModbusCheck(), Ones(16), Zeros(16), data)
      ensures Updated(ModbusCheck(), Ones(16), data, seed, Zeros(16), crc)
    {
      hide Held, Divide, Catalogue, Updated, Hex16, Zeros, Ones;
      seed := Ones(16);
      crc := ModbusUpd(data, address);
      HeldUniform(ModbusCheck(), 16);
      FirstCall(ModbusCheck(), Ones(16), data, seed, Zeros(16), crc);
    }

    method KermitUpd(data: seq<Octet>, address: nat) returns (crc: Word)
      requires Valid()
      modifies this
      ensures Valid() && |crc| == 16
      ensures Updated(KermitCheck(), old(seed), data, seed, Zeros(16), crc)
    {
      hide Held, Divide, Hex16;
      crc := RunFrom(KermitCheck(), true, seed, data, address);
      seed := crc;
    }

    /** The reflected check with 0x1021, from zero, not inverted. */
    method Kermit(data: seq<Octet>, address: nat) returns (crc: Word)
      modifies this
      ensures Valid() && |crc| == 16
      ensures crc == Catalogue(KermitCheck(), Zeros(16), Zeros(16), data)
      ensures Updated(KermitCheck(), Zeros(16), data, seed, Zeros(16), crc)
    {
      hide Held, Divide, Catalogue, Updated, Hex16, Zeros, Ones;
      seed := Zeros(16);
      crc := KermitUpd(data, address);
      HeldUniform(KermitCheck(), 16);
      FirstCall(KermitCheck(), Zeros(16), data, seed, Zeros(16), crc);
    }

    method XmodemUpd(data: seq<Octet>, address: nat) returns (crc: Word)
      requires Valid()
      modifies this
      ensures Valid() && |crc| == 16
      ensures Updated(XmodemCheck(), old(seed), data, seed, Zeros(16), crc)
    {
      hide Held, Divide, Hex16;
      crc := RunFrom(XmodemCheck(), true, seed, data, address);
      seed := crc;
      crc := SwapBytes(crc);
    }

    /** The unreflected check with 0x1021, from zero, not inverted. */
    method Xmodem(data: seq<Octet>, address: nat) returns (crc: Word)
      modifies this
      ensures Valid() && |crc| == 16
      ensures crc == Catalogue(XmodemCheck(), Zeros(16), Zeros(16), data)
      ensures Updated(XmodemCheck(), Zeros(16), data, seed, Zeros(16), crc)
    {
      hide Held, Divide, Catalogue, Updated, Hex16, Zeros, Ones;
      seed := Zeros(16);
      crc := XmodemUpd(data, address);
      HeldUniform(XmodemCheck(), 16);
      FirstCall(XmodemCheck(), Zeros(16), data, seed, Zeros(16), crc);
    }

    method X25Upd(data: seq<Octet>, address: nat) returns (crc: Word)
      requires Valid()
      modifies this
      ensures Valid() && |crc| == 16
      ensures Updated(X25Check(), old(seed), data, seed, Ones(16), crc)
    {
      hide Held, Divide, Hex16;
      crc := RunFrom(X25Check(), true, seed, data, address);
      seed := crc;
      crc := Not(crc);
    }

    /** The reflected check with 0x1021, from all ones, inverted. */
    method X25(data: seq<Octet>, address: nat) returns (crc: Word)
      modifies this
      ensures Valid() && |crc| == 16
      ensures crc == Catalogue(X25Check(), Ones(16), Ones(16), data)
      ensures Updated(X25Check(), Ones(16), data, seed, Ones(16), crc)
    {
      hide Held, Divide, Catalogue, Updated, Hex16, Zeros, Ones;
      seed := Ones(16);
      crc := X25Upd(data, address);
      HeldUniform(X25Check(), 16);
      FirstCall(X25Check(), Ones(16), data, seed, Ones(16), crc);
    }
  }

  class FastCRC32 {
    var seed: Word

    ghost predicate Valid()
      reads this
    {
      |seed| == 32
    }

    constructor ()
      ensures Valid()
    {
      seed := Zeros(32);
    }

    method Crc32Upd(data: seq<Octet>, address: nat, bigTables: bool) returns (crc: Word)
      requires Valid()
      modifies this
      ensures Valid() && |crc| == 32
      ensures Updated(Crc32Check(), old(seed), data, seed, Ones(32), crc)
    {
      hide Held, Divide, Hex16;
      crc := RunFrom(Crc32Check(), bigTables, seed, data, address);
      seed := crc;
      crc := Not(crc);
    }

    /** The reflected check with 0x04C11DB7, from all ones, inverted. */
    method Crc32(data: seq<Octet>, address: nat, bigTables: bool) returns (crc: Word)
      modifies this
      ensures Valid() && |crc| == 32
      ensures crc == Catalogue(Crc32Check(), Ones(32), Ones(32), data)
      ensures Updated(Crc32Check(), Ones(32), data, seed, Ones(32), crc)
    {
      hide Held, Divide, Catalogue, Updated, Hex16, Zeros, Ones;
      seed := Ones(32);
      crc := Crc32Upd(data, address, bigTables);
      HeldUniform(Crc32Check(), 32);
      FirstCall(Crc32Check(), Ones(32), data, seed, Ones(32), crc);
    }

    method CksumUpd(data: seq<Octet>, address: nat, bigTables: bool) returns (crc: Word)
      requires Valid()
      modifies this
      ensures Valid() && |crc| == 32
      ensures Updated(CksumCheck(), old(seed), data, seed, Ones(32), crc)
    {
      hide Held, Divide, Hex16;
      crc := RunFrom(CksumCheck(), bigTables, seed, data, address);
      seed := crc;
      crc := Not(SwapBytes(crc));
    }

    /** The unreflected check with 0x04C11DB7, from zero, inverted. */
    method Cksum(data: seq<Octet>, address: nat, bigTables: bool) returns (crc: Word)
      modifies this
      ensures Valid() && |crc| == 32
      ensures crc == Catalogue(CksumCheck(), Zeros(32), Ones(32), data)
      ensures Updated(CksumCheck(), Zeros(32), data, seed, Ones(32), crc)
    {
      hide Held, Divide, Catalogue, Updated, Hex16, Zeros, Ones;
      seed := Zeros(32);
      crc := CksumUpd(data, address, bigTables);
      HeldUniform(CksumCheck(), 32);
      FirstCall(CksumCheck(), Zeros(32), data, seed, Ones(32), crc);
    }
  }
}
