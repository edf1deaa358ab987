/** Taking four octets at a time through the chained tables equals four byte steps. */
module CrcWords {
  import opened CrcSpec
  import opened CrcTheory

  lemma XorZeros(x: Word)
    ensures Xor(x, Zeros(|x|)) == x && Xor(Zeros(|x|), x) == x
  {
  }

  lemma XorSelf(x: Word)
    ensures Xor(x, x) == Zeros(|x|)
  {
  }

  lemma ShiftOfZeros(c: Check)
    requires ValidCheck(c)
    ensures Shift(c, Zeros(|c.poly|)) == Zeros(|c.poly|)
  {
    hide Shift;
    var z := Zeros(|c.poly|);
    XorSelf(z);
    ShiftLinear(c, z, z);
    XorSelf(Shift(c, z));
  }

  /** An octet in the low end leaves only its table entry. */
  lemma ShiftOfOctet(c: Check, i: Octet)
    requires ValidCheck(c)
    ensures Shift(c, i + Zeros(|c.poly| - 8)) == Table0(c, i)
  {
    hide Table0;
    var x := i + Zeros(|c.poly| - 8);
    assert ByteOf(x, 0) == i;
    assert DropByte(x) == Zeros(|c.poly|);
    XorZeros(Table0(c, i));
  }

  /** A register whose low octet is zero only moves down. */
  lemma ShiftOfTail(c: Check, tail: Word)
    requires ValidCheck(c) && |tail| + 8 == |c.poly|
    ensures Shift(c, Zeros(8) + tail) == tail + Zeros(8)
  {
    hide Table0;
    var x := Zeros(8) + tail;
    assert ByteOf(x, 0) == Zeros(8);
    assert DropByte(x) == tail + Zeros(8);
    assert Table0(c, Zeros(8)) == Zeros(|c.poly|) by {
      ShiftOfOctet(c, Zeros(8));
      assert Zeros(8) + Zeros(|c.poly| - 8) == Zeros(|c.poly|);
      ShiftOfZeros(c);
    }
    XorZeros(tail + Zeros(8));
  }

  /** A byte step enters the octet at the low end and shifts. */
  lemma ByteStepIsShift(c: Check, x: Word, b: Octet)
    requires ValidCheck(c) && |x| == |c.poly|
    ensures ByteStep(c, x, b) == Shift(c, Xor(x, b + Zeros(|x| - 8)))
  {
    hide Table0;
    var y := Xor(x, b + Zeros(|x| - 8));
    assert ByteOf(y, 0) == Xor(ByteOf(x, 0), b);
    assert DropByte(y) == DropByte(x);
  }

  /** The part of the register not yet met by the message after `k` octets. */
  function Rest(crc: Word, k: nat): (w: Word)
    ensures |w| == |crc|
  {
    if 8 * k <= |crc| then crc[8 * k..] + Zeros(8 * k) else Zeros(|crc|)
  }

  lemma RestSplits(crc: Word, k: nat, b: Octet)
    requires |crc| >= 8 && |crc| % 8 == 0
    ensures Xor(Rest(crc, k), b + Zeros(|crc| - 8))
         == Xor(Xor(ByteOf(Rest(crc, k), 0), b) + Zeros(|crc| - 8), Zeros(8) + Rest(crc, k)[8..])
    ensures Rest(crc, k)[8..] + Zeros(8) == Rest(crc, k + 1)
  {
  }

  /** One octet of a word, with the accumulated table entries kept apart from the untouched register. */
  lemma OctetOfWord(c: Check, acc: Word, crc: Word, k: nat, b: Octet, x: Octet)
    requires ValidCheck(c) && |acc| == |crc| == |c.poly|
    requires x == Xor(ByteOf(Rest(crc, k), 0), b)
    ensures ByteStep(c, Xor(acc, Rest(crc, k)), b)
         == Xor(Xor(Shift(c, acc), Table0(c, x)), Rest(crc, k + 1))
  {
    hide ByteStep, Shift, Table0, Rest;
    var r := Rest(crc, k);
    var e := b + Zeros(|crc| - 8);
    var lo, hi := x + Zeros(|crc| - 8), Zeros(8) + r[8..];
    ByteStepIsShift(c, Xor(acc, r), b);
    assert Xor(Xor(acc, r), e) == Xor(acc, Xor(r, e));
    RestSplits(crc, k, b);
    assert Xor(acc, Xor(lo, hi)) == Xor(Xor(acc, lo), hi);
    ShiftLinear(c, Xor(acc, lo), hi);
    ShiftLinear(c, acc, lo);
    ShiftOfOctet(c, x);
    ShiftOfTail(c, r[8..]);
  }

  /** The octets that index the tables are those of the mixed word. */
  lemma MixedOctet(crc: Word, word: Word, k: nat)
    requires 8 <= |crc| <= |word| == 32 && |crc| % 8 == 0 && k < 4
    ensures ByteOf(Mix(crc, word), k) == Xor(ByteOf(Rest(crc, k), 0), ByteOf(word, k))
  {
    var l, r := ByteOf(Mix(crc, word), k), Xor(ByteOf(Rest(crc, k), 0), ByteOf(word, k));
    forall i | 0 <= i < 8
      ensures l[i] == r[i]
    {
      assert l[i] == Mix(crc, word)[8 * k + i];
      assert ByteOf(word, k)[i] == word[8 * k + i];
    }
  }

  function FourBytes(c: Check, crc: Word, word: Word): (w: Word)
    requires ValidCheck(c) && |crc| == |c.poly| && |word| == 32
    ensures |w| == |crc|
  {
    ByteStep(
      c, ByteStep(c, ByteStep(c, ByteStep(c, crc, ByteOf(word, 0)), ByteOf(word, 1)), ByteOf(word, 2)), ByteOf(word, 3))
  }

  /** The core of slicing: the four-table lookup is four byte steps. */
  lemma WordStepIsFourBytes(c: Check, crc: Word, word: Word)
    requires ValidCheck(c) && |crc| == |c.poly| && |word| == 32
    ensures WordStep(c, crc, word) == FourBytes(c, crc, word)
  {
    hide ByteStep, Shift, Table0, Rest, Mix, Xor;
    var m := Mix(crc, word);
    var x0, x1, x2, x3 := ByteOf(m, 0), ByteOf(m, 1), ByteOf(m, 2), ByteOf(m, 3);
    MixedOctet(crc, word, 0);
    MixedOctet(crc, word, 1);
    MixedOctet(crc, word, 2);
    MixedOctet(crc, word, 3);
    var a0 := Zeros(|crc|);
    assert crc == Xor(a0, Rest(crc, 0)) by { RestAtEnds(crc); }
    OctetOfWord(c, a0, crc, 0, ByteOf(word, 0), x0);
    ShiftOfZeros(c);
    XorZeros(Table0(c, x0));
    var a1 := Table(c, 0, x0);
    OctetOfWord(c, a1, crc, 1, ByteOf(word, 1), x1);
    var a2 := Xor(Table(c, 1, x0), Table(c, 0, x1));
    OctetOfWord(c, a2, crc, 2, ByteOf(word, 2), x2);
    ShiftLinear(c, Table(c, 1, x0), Table(c, 0, x1));
    var a3 := Xor(Xor(Table(c, 2, x0), Table(c, 1, x1)), Table(c, 0, x2));
    OctetOfWord(c, a3, crc, 3, ByteOf(word, 3), x3);
    ShiftLinear(c, Xor(Table(c, 2, x0), Table(c, 1, x1)), Table(c, 0, x2));
    ShiftLinear(c, Table(c, 2, x0), Table(c, 1, x1));
    RestAtEnds(crc);
    XorZeros(WordStep(c, crc, word));
  }

  lemma RestAtEnds(crc: Word)
    requires |crc| <= 32
    ensures Xor(Zeros(|crc|), Rest(crc, 0)) == crc
    ensures Rest(crc, 4) == Zeros(|crc|)
  {
  }

  /** The part of a loaded word not yet entered, when the whole word was entered at once. */
  lemma SmallOctet(c: Check, r: Word, word: Word, k: nat)
    requires ValidCheck(c) && |r| == |word| == |c.poly| == 32 && k < 4
    ensures Shift(c, Xor(r, Rest(word, k))) == Xor(ByteStep(c, r, ByteOf(word, k)), Rest(word, k + 1))
  {
    hide ByteStep, Shift, Rest;
    var b := ByteOf(word, k);
    var m, lo := Rest(word, k), b + Zeros(24);
    assert m == Xor(lo, Zeros(8) + m[8..]) by { WordSplits(word, k); }
    assert Xor(r, Xor(lo, Zeros(8) + m[8..])) == Xor(Xor(r, lo), Zeros(8) + m[8..]);
    ShiftLinear(c, Xor(r, lo), Zeros(8) + m[8..]);
    ByteStepIsShift(c, r, b);
    ShiftOfTail(c, m[8..]);
    RestSplits(word, k, b);
  }

  lemma WordSplits(word: Word, k: nat)
    requires |word| == 32 && k < 4
    ensures Rest(word, k) == Xor(ByteOf(word, k) + Zeros(24), Zeros(8) + Rest(word, k)[8..])
  {
  }

  /** The small-table form is four byte steps too. */
  lemma SmallWordStepIsFourBytes(c: Check, crc: Word, word: Word)
    requires ValidCheck(c) && |crc| == |c.poly| == |word| == 32
    ensures SmallWordStep(c, crc, word) == FourBytes(c, crc, word)
  {
    hide ByteStep, Shift, Rest, Xor;
    RestAtEnds(word);
    XorZeros(Rest(word, 0));
    SmallOctet(c, crc, word, 0);
    SmallOctet(c, ByteStep(c, crc, ByteOf(word, 0)), word, 1);
    SmallOctet(c, ByteStep(c, ByteStep(c, crc, ByteOf(word, 0)), ByteOf(word, 1)), word, 2);
    SmallOctet(
      c, ByteStep(c, ByteStep(c, ByteStep(c, crc, ByteOf(word, 0)), ByteOf(word, 1)), ByteOf(word, 2)), word, 3);
    XorZeros(FourBytes(c, crc, word));
  }

  // ---- loading words from a message ----

  /** The little-endian word at octet `i` of a message. */
  function Load(data: seq<Octet>, i: nat): (w: Word)
    requires i + 4 <= |data|
    ensures |w| == 32
    ensures ByteOf(w, 0) == data[i] && ByteOf(w, 1) == data[i + 1]
    ensures ByteOf(w, 2) == data[i + 2] && ByteOf(w, 3) == data[i + 3]
  {
    var b0: Word, b1: Word, b2: Word, b3: Word := data[i], data[i + 1], data[i + 2], data[i + 3];
    var w := b0 + b1 + b2 + b3;
    assert w[0..8] == data[i] && w[8..16] == data[i + 1] && w[16..24] == data[i + 2] && w[24..32] == data[i + 3];
    w
  }

  lemma LoopTakesOne(c: Check, crc: Word, data: seq<Octet>, i: nat)
    requires ValidCheck(c) && |crc| == |c.poly| && i < |data|
    ensures ByteLoop(c, crc, data[..i + 1]) == ByteStep(c, ByteLoop(c, crc, data[..i]), data[i])
  {
    hide ByteStep;
    assert data[..i + 1][..i] == data[..i];
  }

  lemma LoopTakesFour(c: Check, crc: Word, data: seq<Octet>, i: nat)
    requires ValidCheck(c) && |crc| == |c.poly| && i + 4 <= |data|
    ensures ByteLoop(c, crc, data[..i + 4]) == FourBytes(c, ByteLoop(c, crc, data[..i]), Load(data, i))
  {
    hide ByteStep, ByteLoop;
    LoopTakesOne(c, crc, data, i);
    LoopTakesOne(c, crc, data, i + 1);
    LoopTakesOne(c, crc, data, i + 2);
    LoopTakesOne(c, crc, data, i + 3);
  }
}
