/**
 Cyclic redundancy checks by bit-at-a-time polynomial division over GF(2), and the chained byte
 tables of the FastCRC library.

 A machine word is the sequence of its bits, least significant first: `x >> 8` drops the first
 eight bits and appends zeros, `x & 0xFF` takes the first eight, and the word a little-endian
 machine loads from memory is the concatenation of the octets it covers.
 */
module CrcSpec {

  type Word = seq<bool>
  type Octet = b: seq<bool> | |b| == 8 witness [false, false, false, false, false, false, false, false]

  function Zeros(n: nat): (w: Word)
    ensures |w| == n
  {
    seq(n, _ => false)
  }

  function Ones(n: nat): (w: Word)
    ensures |w| == n
  {
    seq(n, _ => true)
  }

  function Xor(a: Word, b: Word): (w: Word)
    requires |a| == |b|
    ensures |w| == |a|
  {
    seq(|a|, i requires 0 <= i < |a| => a[i] != b[i])
  }

  function Not(a: Word): (w: Word)
    ensures |w| == |a|
  {
    seq(|a|, i requires 0 <= i < |a| => !a[i])
  }

  function Reverse(a: Word): (w: Word)
    ensures |w| == |a|
  {
    seq(|a|, i requires 0 <= i < |a| => a[|a| - 1 - i])
  }

  /** `REV16` on two octets and `REV32` on four. */
  function SwapBytes(a: Word): (w: Word)
    requires |a| % 8 == 0
    ensures |w| == |a|
  {
    if a == [] then [] else SwapBytes(a[8..]) + a[..8]
  }

  // ---- the definition: polynomial division, most significant bit first ----

  /** Shifts the register up by one bit and reduces by the polynomial when a bit falls out. */
  function Step(poly: Word, reg: Word): (r: Word)
    requires |poly| == |reg| > 0
    ensures |r| == |reg|
  {
    var shifted := [false] + reg[..|reg| - 1];
    if reg[|reg| - 1] then Xor(shifted, poly) else shifted
  }

  function Steps(poly: Word, reg: Word, n: nat): (r: Word)
    requires |poly| == |reg| > 0
    ensures |r| == |reg|
    decreases n
  {
    if n == 0 then reg else Steps(poly, Step(poly, reg), n - 1)
  }

  function DivideByte(poly: Word, reg: Word, b: Octet): (r: Word)
    requires |poly| == |reg| >= 8
    ensures |r| == |reg|
  {
    Steps(poly, Xor(reg, Zeros(|reg| - 8) + b), |b|)
  }

  /** The register after a whole message. */
  function Divide(poly: Word, reg: Word, data: seq<Octet>): (r: Word)
    requires |poly| == |reg| >= 8
    ensures |r| == |reg|
  {
    if data == [] then reg
    else DivideByte(poly, Divide(poly, reg, data[..|data| - 1]), data[|data| - 1])
  }

  /** The parameters by which catalogues of CRC algorithms describe a check. */
  datatype Check = Check(poly: Word, reflected: bool)

  predicate ValidCheck(c: Check) {
    16 <= |c.poly| <= 32 && |c.poly| % 8 == 0
  }

  /** A reflected check feeds every octet bit-reversed. */
  function Enter(c: Check, b: Octet): Octet {
    if c.reflected then Reverse(b) else b
  }

  function EnterAll(c: Check, data: seq<Octet>): (r: seq<Octet>)
    ensures |r| == |data|
  {
    seq(|data|, i requires 0 <= i < |data| => Enter(c, data[i]))
  }

  /** refin, refout, init and xorout, as the comments beside each check of the library give them. */
  function Catalogue(c: Check, init: Word, xorout: Word, data: seq<Octet>): (w: Word)
    requires ValidCheck(c) && |c.poly| == |init| == |xorout|
    ensures |w| == |c.poly|
  {
    var reg := Divide(c.poly, init, EnterAll(c, data));
    Xor(if c.reflected then Reverse(reg) else reg, xorout)
  }

  // ---- the definition used by reflected implementations: least significant bit first ----

  function StepLsb(reflectedPoly: Word, reg: Word): (r: Word)
    requires |reflectedPoly| == |reg| > 0
    ensures |r| == |reg|
  {
    var shifted := reg[1..] + [false];
    if reg[0] then Xor(shifted, reflectedPoly) else shifted
  }

  function StepsLsb(reflectedPoly: Word, reg: Word, n: nat): (r: Word)
    requires |reflectedPoly| == |reg| > 0
    ensures |r| == |reg|
    decreases n
  {
    if n == 0 then reg else StepsLsb(reflectedPoly, StepLsb(reflectedPoly, reg), n - 1)
  }

  // ---- the fast form ----

  /** How the fast loops hold the register: bit-reversed, or byte-swapped. */
  function Held(c: Check, reg: Word): (w: Word)
    requires |reg| % 8 == 0
    ensures |w| == |reg|
  {
    if c.reflected then Reverse(reg) else SwapBytes(reg)
  }

  /** Entry `i` of the first 256 entries of a table. */
  function Table0(c: Check, i: Octet): (w: Word)
    requires ValidCheck(c)
    ensures |w| == |c.poly|
  {
    Held(c, Steps(c.poly, Zeros(|c.poly| - 8) + Enter(c, i), |i|))
  }

  /** `(x >> 8 * k) & 0xFF`. */
  function ByteOf(x: Word, k: nat): Octet
    requires 8 * k + 8 <= |x|
  {
    x[8 * k..8 * k + 8]
  }

  /** `x >> 8`. */
  function DropByte(x: Word): (w: Word)
    requires |x| >= 8
    ensures |w| == |x|
  {
    x[8..] + Zeros(8)
  }

  /** `(x >> 8) ^ table[x & 0xFF]`. */
  function Shift(c: Check, x: Word): (w: Word)
    requires ValidCheck(c) && |x| == |c.poly|
    ensures |w| == |x|
  {
    Xor(DropByte(x), Table0(c, ByteOf(x, 0)))
  }

  /** Entry `0x100 * k + i`: each further block of a table feeds the previous block through the first. */
  function Table(c: Check, k: nat, i: Octet): (w: Word)
    requires ValidCheck(c)
    ensures |w| == |c.poly|
    decreases k
  {
    if k == 0 then Table0(c, i) else Shift(c, Table(c, k - 1, i))
  }

  /** `crc = (crc >> 8) ^ table[(crc & 0xff) ^ b]`. */
  function ByteStep(c: Check, crc: Word, b: Octet): (w: Word)
    requires ValidCheck(c) && |crc| == |c.poly|
    ensures |w| == |crc|
  {
    Xor(DropByte(crc), Table0(c, Xor(ByteOf(crc, 0), b)))
  }

  /** The four octets that index the chained blocks: register and message, or message alone where
      the register has no more bits. */
  function Mix(crc: Word, word: Word): (x: Word)
    requires |crc| <= |word|
    ensures |x| == |word|
  {
    Xor(crc + Zeros(|word| - |crc|), word)
  }

  /** `crc_n4` and `crc_n4d`: four octets through the four chained blocks. */
  function WordStep(c: Check, crc: Word, word: Word): (w: Word)
    requires ValidCheck(c) && |crc| == |c.poly| && |word| == 32
    ensures |w| == |crc|
  {
    var x := Mix(crc, word);
    Xor(Xor(Xor(Table(c, 3, ByteOf(x, 0)), Table(c, 2, ByteOf(x, 1))), Table(c, 1, ByteOf(x, 2))),
        Table(c, 0, ByteOf(x, 3)))
  }

  /** `crcsm_n4d`: four octets of a 32-bit check through the first block only. */
  function SmallWordStep(c: Check, crc: Word, word: Word): (w: Word)
    requires ValidCheck(c) && |crc| == |c.poly| == |word| == 32
    ensures |w| == |crc|
  {
    Shift(c, Shift(c, Shift(c, Shift(c, Xor(crc, word)))))
  }
}
