/** The value the library documents for each check on the nine ASCII digits, and entries of its tables. */
module CrcValues {
  import opened CrcSpec
  import opened FastCrc
  import opened CrcNumbers

  // ---- the documented values ----

  /** The ASCII digits from 1 to 9, and the same octets mirrored. */
  const DIGITS: seq<bv32> := [0x31, 0x32, 0x33, 0x34, 0x35, 0x36, 0x37, 0x38, 0x39]
  const MIRRORED_DIGITS: seq<bv32> := [0x8C, 0x4C, 0xCC, 0x2C, 0xAC, 0x6C, 0xEC, 0x1C, 0x9C]

  lemma Masks()
    ensures Mask(0) == 0x1 && Mask(1) == 0x2 && Mask(2) == 0x4 && Mask(3) == 0x8
    ensures Mask(4) == 0x10 && Mask(5) == 0x20 && Mask(6) == 0x40 && Mask(7) == 0x80
    ensures Mask(8) == 0x100 && Mask(9) == 0x200 && Mask(10) == 0x400 && Mask(11) == 0x800
    ensures Mask(12) == 0x1000 && Mask(13) == 0x2000 && Mask(14) == 0x4000 && Mask(15) == 0x8000
    ensures Mask(16) == 0x10000 && Mask(17) == 0x20000 && Mask(18) == 0x40000 && Mask(19) == 0x80000
    ensures Mask(20) == 0x100000 && Mask(21) == 0x200000 && Mask(22) == 0x400000 && Mask(23) == 0x800000
    ensures Mask(24) == 0x1000000 && Mask(25) == 0x2000000 && Mask(26) == 0x4000000 && Mask(27) == 0x8000000
    ensures Mask(28) == 0x10000000 && Mask(29) == 0x20000000 && Mask(30) == 0x40000000 && Mask(31) == 0x80000000
  {
  }

  predicate SameEight(x: Word, y: Word, k: nat)
    requires |x| == |y| >= k + 8
  {
    && x[k] == y[k] && x[k + 1] == y[k + 1] && x[k + 2] == y[k + 2] && x[k + 3] == y[k + 3]
    && x[k + 4] == y[k + 4] && x[k + 5] == y[k + 5] && x[k + 6] == y[k + 6] && x[k + 7] == y[k + 7]
  }

  lemma SameAt(x: Word, y: Word, k: nat, i: nat)
    requires |x| == |y| >= k + 8 && SameEight(x, y, k) && k <= i < k + 8
    ensures x[i] == y[i]
  {
  }

  lemma SameWords(x: Word, y: Word)
    requires |x| == |y| == 32
    requires SameEight(x, y, 0) && SameEight(x, y, 8) && SameEight(x, y, 16) && SameEight(x, y, 24)
    ensures x == y
  {
    hide SameEight;
    forall i | 0 <= i < 32
      ensures x[i] == y[i]
    {
      SameAt(x, y, if i < 8 then 0 else if i < 16 then 8 else if i < 24 then 16 else 24, i);
    }
  }

  lemma SameOctets(x: Octet, y: Octet)
    requires SameEight(x, y, 0)
    ensures x == y
  {
    hide SameEight;
    forall i | 0 <= i < 8
      ensures x[i] == y[i]
    {
      SameAt(x, y, 0, i);
    }
  }

  function Nine(p: bv32, r: bv32, bytes: seq<bv32>): bv32
    requires |bytes| == 9
  {
    var r3 := RightByte(p, RightByte(p, RightByte(p, r, bytes[0]), bytes[1]), bytes[2]);
    var r6 := RightByte(p, RightByte(p, RightByte(p, r3, bytes[3]), bytes[4]), bytes[5]);
    RightByte(p, RightByte(p, RightByte(p, r6, bytes[6]), bytes[7]), bytes[8])
  }

  lemma AllOfNine(p: bv32, r: bv32, bytes: seq<bv32>)
    requires |bytes| == 9
    ensures RightAll(p, r, bytes) == Nine(p, r, bytes)
  {
    hide RightByte, RightAll;
    OneMore(p, r, bytes, 1);
    OneMore(p, r, bytes, 2);
    OneMore(p, r, bytes, 3);
    OneMore(p, r, bytes, 4);
    OneMore(p, r, bytes, 5);
    OneMore(p, r, bytes, 6);
    OneMore(p, r, bytes, 7);
    OneMore(p, r, bytes, 8);
    OneMore(p, r, bytes, 9);
    NoneYet(p, r);
    assert bytes[..0] == [] && bytes[..9] == bytes;
  }

  lemma OneMore(p: bv32, r: bv32, bytes: seq<bv32>, n: nat)
    requires 0 < n <= |bytes|
    ensures RightAll(p, r, bytes[..n]) == RightByte(p, RightAll(p, r, bytes[..n - 1]), bytes[n - 1])
  {
    hide RightByte;
    assert bytes[..n][..n - 1] == bytes[..n - 1];
  }

  lemma NoneYet(p: bv32, r: bv32)
    ensures RightAll(p, r, []) == r
  {
  }

  lemma Polynomials()
    ensures WordOf(0xEDB8_8320) == Padded(Reverse(Poly04c11db7()))
    ensures WordOf(0x8408) == Padded(Reverse(Poly1021()))
    ensures WordOf(0xA001) == Padded(Reverse(Poly8005()))
  {
    Polynomial32();
    Polynomial1021();
    Polynomial8005();
  }

  lemma Polynomial32()
    ensures WordOf(0xEDB8_8320) == Padded(Reverse(Poly04c11db7()))
  {
    Masks();
    SameWords(WordOf(0xEDB8_8320), Padded(Reverse(Poly04c11db7())));
  }

  lemma Polynomial1021()
    ensures WordOf(0x8408) == Padded(Reverse(Poly1021()))
  {
    Masks();
    SameWords(WordOf(0x8408), Padded(Reverse(Poly1021())));
  }

  lemma Polynomial8005()
    ensures WordOf(0xA001) == Padded(Reverse(Poly8005()))
  {
    Masks();
    SameWords(WordOf(0xA001), Padded(Reverse(Poly8005())));
  }

  lemma UniformWords()
    ensures WordOf(0xFFFF_FFFF) == Ones(32) == Padded(Reverse(Ones(32))) == Padded(Ones(32))
    ensures WordOf(0xFFFF) == Padded(Ones(16)) == Padded(Reverse(Ones(16)))
    ensures WordOf(0) == Padded(Zeros(32)) == Padded(Reverse(Zeros(32)))
    ensures WordOf(0) == Padded(Zeros(16)) == Padded(Reverse(Zeros(16)))
  {
    AllOnes();
    SixteenOnes();
    NoOnes();
    assert Reverse(Ones(32)) == Ones(32) && Reverse(Ones(16)) == Ones(16);
    assert Reverse(Zeros(32)) == Zeros(32) && Reverse(Zeros(16)) == Zeros(16);
    assert Padded(Zeros(32)) == Zeros(32) && Padded(Zeros(16)) == Zeros(32) && Padded(Ones(32)) == Ones(32);
  }

  lemma AllOnes()
    ensures WordOf(0xFFFF_FFFF) == Ones(32)
  {
    Masks();
    SameWords(WordOf(0xFFFF_FFFF), Ones(32));
  }

  lemma SixteenOnes()
    ensures WordOf(0xFFFF) == Padded(Ones(16))
  {
    Masks();
    SameWords(WordOf(0xFFFF), Padded(Ones(16)));
  }

  lemma NoOnes()
    ensures WordOf(0) == Zeros(32)
  {
    Masks();
    SameWords(WordOf(0), Zeros(32));
  }

  lemma MirroredDigits()
    ensures Mirrored(OctetsOf(MIRRORED_DIGITS)) == OctetsOf(DIGITS)
  {
    hide OctetOf, Reverse;
    MirroredDigit1();
    MirroredDigit2();
    MirroredDigit3();
    MirroredDigit4();
    MirroredDigit5();
    MirroredDigit6();
    MirroredDigit7();
    MirroredDigit8();
    MirroredDigit9();
    var a, b := Mirrored(OctetsOf(MIRRORED_DIGITS)), OctetsOf(DIGITS);
    assert forall i :: 0 <= i < 9 ==> a[i] == b[i];
  }

  lemma MirroredDigit1()
    ensures Reverse(OctetOf(0x8C)) == OctetOf(0x31)
  {
    Masks();
    SameOctets(Reverse(OctetOf(0x8C)), OctetOf(0x31));
  }

  lemma MirroredDigit2()
    ensures Reverse(OctetOf(0x4C)) == OctetOf(0x32)
  {
    Masks();
    SameOctets(Reverse(OctetOf(0x4C)), OctetOf(0x32));
  }

  lemma MirroredDigit3()
    ensures Reverse(OctetOf(0xCC)) == OctetOf(0x33)
  {
    Masks();
    SameOctets(Reverse(OctetOf(0xCC)), OctetOf(0x33));
  }

  lemma MirroredDigit4()
    ensures Reverse(OctetOf(0x2C)) == OctetOf(0x34)
  {
    Masks();
    SameOctets(Reverse(OctetOf(0x2C)), OctetOf(0x34));
  }

  lemma MirroredDigit5()
    ensures Reverse(OctetOf(0xAC)) == OctetOf(0x35)
  {
    Masks();
    SameOctets(Reverse(OctetOf(0xAC)), OctetOf(0x35));
  }

  lemma MirroredDigit6()
    ensures Reverse(OctetOf(0x6C)) == OctetOf(0x36)
  {
    Masks();
    SameOctets(Reverse(OctetOf(0x6C)), OctetOf(0x36));
  }

  lemma MirroredDigit7()
    ensures Reverse(OctetOf(0xEC)) == OctetOf(0x37)
  {
    Masks();
    SameOctets(Reverse(OctetOf(0xEC)), OctetOf(0x37));
  }

  lemma MirroredDigit8()
    ensures Reverse(OctetOf(0x1C)) == OctetOf(0x38)
  {
    Masks();
    SameOctets(Reverse(OctetOf(0x1C)), OctetOf(0x38));
  }

  lemma MirroredDigit9()
    ensures Reverse(OctetOf(0x9C)) == OctetOf(0x39)
  {
    Masks();
    SameOctets(Reverse(OctetOf(0x9C)), OctetOf(0x39));
  }

  lemma DigitsAreBytes()
    ensures AllBytes(DIGITS) && AllBytes(MIRRORED_DIGITS)
  {
  }

  lemma LowEnd(a: Word, w: Word)
    requires |a| <= 32 && Padded(a) == w
    ensures a == w[..|a|]
  {
  }

  lemma MirrorInjective(a: Word, b: Word)
    requires |a| == |b| <= 32 && Padded(Reverse(a)) == Padded(Reverse(b))
    ensures a == b
  {
    LowEnd(Reverse(a), Padded(Reverse(a)));
    LowEnd(Reverse(b), Padded(Reverse(b)));
    assert Reverse(Reverse(a)) == a && Reverse(Reverse(b)) == b;
  }

  lemma Crc32Steps()
    ensures RightByte(0xEDB88320, 0xFFFFFFFF, 0x31) == 0x7C231048
    ensures RightByte(0xEDB88320, 0x7C231048, 0x32) == 0xB0ACBB32
    ensures RightByte(0xEDB88320, 0xB0ACBB32, 0x33) == 0x77B79C2D
    ensures RightByte(0xEDB88320, 0x77B79C2D, 0x34) == 0x641C1F5C
    ensures RightByte(0xEDB88320, 0x641C1F5C, 0x35) == 0x340AC5E3
    ensures RightByte(0xEDB88320, 0x340AC5E3, 0x36) == 0xF68D2C9E
    ensures RightByte(0xEDB88320, 0xF68D2C9E, 0x37) == 0xAFFC9660
    ensures RightByte(0xEDB88320, 0xAFFC9660, 0x38) == 0x651F2550
    ensures RightByte(0xEDB88320, 0x651F2550, 0x39) == 0x340BC6D9
  {
  }

  lemma Crc32Run()
    ensures RightAll(0xEDB88320, 0xFFFFFFFF, DIGITS) == 0x340BC6D9
  {
    hide RightByte;
    Crc32Steps();
    AllOfNine(0xEDB88320, 0xFFFFFFFF, DIGITS);
  }

  lemma Crc32Value()
    ensures Catalogue(Crc32Check(), Ones(32), Ones(32), OctetsOf(DIGITS)) == WordOf(0xCBF43926)
  {
    hide WordOf, RightAll, OctetsOf, Catalogue, Padded, Reverse, Ones, Zeros, AllBytes;
    hide Poly04c11db7, Poly1021, Poly8005;
    Polynomials();
    UniformWords();
    DigitsAreBytes();
    Crc32Run();
    ReflectedInWords(Crc32Check(), 0xEDB88320, 0xFFFFFFFF, 0xFFFFFFFF, Ones(32), Ones(32), DIGITS);
    assert Plus(0x340BC6D9, 0xFFFFFFFF) == 0xCBF43926;
    LowEnd(Catalogue(Crc32Check(), Ones(32), Ones(32), OctetsOf(DIGITS)), WordOf(0xCBF43926));
  }

  lemma ModbusSteps()
    ensures RightByte(0xA001, 0xFFFF, 0x31) == 0x947E
    ensures RightByte(0xA001, 0x947E, 0x32) == 0xF595
    ensures RightByte(0xA001, 0xF595, 0x33) == 0x7A75
    ensures RightByte(0xA001, 0x7A75, 0x34) == 0x30BA
    ensures RightByte(0xA001, 0x30BA, 0x35) == 0xA471
    ensures RightByte(0xA001, 0xA471, 0x36) == 0x32E4
    ensures RightByte(0xA001, 0x32E4, 0x37) == 0x9D73
    ensures RightByte(0xA001, 0x9D73, 0x38) == 0x37DD
    ensures RightByte(0xA001, 0x37DD, 0x39) == 0x4B37
  {
  }

  lemma ModbusRun()
    ensures RightAll(0xA001, 0xFFFF, DIGITS) == 0x4B37
  {
    hide RightByte;
    ModbusSteps();
    AllOfNine(0xA001, 0xFFFF, DIGITS);
  }

  lemma ModbusValue()
    ensures Catalogue(ModbusCheck(), Ones(16), Zeros(16), OctetsOf(DIGITS)) == WordOf(0x4B37)[..16]
  {
    hide WordOf, RightAll, OctetsOf, Catalogue, Padded, Reverse, Ones, Zeros, AllBytes;
    hide Poly04c11db7, Poly1021, Poly8005;
    Polynomials();
    UniformWords();
    DigitsAreBytes();
    ModbusRun();
    ReflectedInWords(ModbusCheck(), 0xA001, 0xFFFF, 0x0, Ones(16), Zeros(16), DIGITS);
    assert Plus(0x4B37, 0x0) == 0x4B37;
    LowEnd(Catalogue(ModbusCheck(), Ones(16), Zeros(16), OctetsOf(DIGITS)), WordOf(0x4B37));
  }

  lemma KermitSteps()
    ensures RightByte(0x8408, 0x0, 0x31) == 0x200A
    ensures RightByte(0x8408, 0x200A, 0x32) == 0xBDEB
    ensures RightByte(0x8408, 0xBDEB, 0x33) == 0x5A78
    ensures RightByte(0x8408, 0x5A78, 0x34) == 0x8832
    ensures RightByte(0x8408, 0x8832, 0x35) == 0x7437
    ensures RightByte(0x8408, 0x7437, 0x36) == 0x11FD
    ensures RightByte(0x8408, 0x11FD, 0x37) == 0x6947
    ensures RightByte(0x8408, 0x6947, 0x38) == 0x8B19
    ensures RightByte(0x8408, 0x8B19, 0x39) == 0x2189
  {
  }

  lemma KermitRun()
    ensures RightAll(0x8408, 0x0, DIGITS) == 0x2189
  {
    hide RightByte;
    KermitSteps();
    AllOfNine(0x8408, 0x0, DIGITS);
  }

  lemma KermitValue()
    ensures Catalogue(KermitCheck(), Zeros(16), Zeros(16), OctetsOf(DIGITS)) == WordOf(0x2189)[..16]
  {
    hide WordOf, RightAll, OctetsOf, Catalogue, Padded, Reverse, Ones, Zeros, AllBytes;
    hide Poly04c11db7, Poly1021, Poly8005;
    Polynomials();
    UniformWords();
    DigitsAreBytes();
    KermitRun();
    ReflectedInWords(KermitCheck(), 0x8408, 0x0, 0x0, Zeros(16), Zeros(16), DIGITS);
    assert Plus(0x2189, 0x0) == 0x2189;
    LowEnd(Catalogue(KermitCheck(), Zeros(16), Zeros(16), OctetsOf(DIGITS)), WordOf(0x2189));
  }

  lemma X25Steps()
    ensures RightByte(0x8408, 0xFFFF, 0x31) == 0x2F8D
    ensures RightByte(0x8408, 0x2F8D, 0x32) == 0x4D53
    ensures RightByte(0x8408, 0x4D53, 0x33) == 0x634B
    ensures RightByte(0x8408, 0x634B, 0x34) == 0x8B13
    ensures RightByte(0x8408, 0x8B13, 0x35) == 0x44BF
    ensures RightByte(0x8408, 0x44BF, 0x36) == 0x198D
    ensures RightByte(0x8408, 0x198D, 0x37) == 0x1AC8
    ensures RightByte(0x8408, 0x1AC8, 0x38) == 0xF795
    ensures RightByte(0x8408, 0xF795, 0x39) == 0x6F91
  {
  }

  lemma X25Run()
    ensures RightAll(0x8408, 0xFFFF, DIGITS) == 0x6F91
  {
    hide RightByte;
    X25Steps();
    AllOfNine(0x8408, 0xFFFF, DIGITS);
  }

  lemma X25Value()
    ensures Catalogue(X25Check(), Ones(16), Ones(16), OctetsOf(DIGITS)) == WordOf(0x906E)[..16]
  {
    hide WordOf, RightAll, OctetsOf, Catalogue, Padded, Reverse, Ones, Zeros, AllBytes;
    hide Poly04c11db7, Poly1021, Poly8005;
    Polynomials();
    UniformWords();
    DigitsAreBytes();
    X25Run();
    ReflectedInWords(X25Check(), 0x8408, 0xFFFF, 0xFFFF, Ones(16), Ones(16), DIGITS);
    assert Plus(0x6F91, 0xFFFF) == 0x906E;
    LowEnd(Catalogue(X25Check(), Ones(16), Ones(16), OctetsOf(DIGITS)), WordOf(0x906E));
  }

  lemma CcittSteps()
    ensures RightByte(0x8408, 0xFFFF, 0x8C) == 0x41E3
    ensures RightByte(0x8408, 0x41E3, 0x4C) == 0x5DBC
    ensures RightByte(0x8408, 0x5DBC, 0xCC) == 0x73DA
    ensures RightByte(0x8408, 0x73DA, 0x2C) == 0x92CA
    ensures RightByte(0x8408, 0x92CA, 0xAC) == 0x6A2
    ensures RightByte(0x8408, 0x6A2, 0x6C) == 0x2F74
    ensures RightByte(0x8408, 0x2F74, 0xEC) == 0x18EE
    ensures RightByte(0x8408, 0x18EE, 0x1C) == 0xD485
    ensures RightByte(0x8408, 0xD485, 0x9C) == 0x8D94
  {
  }

  lemma CcittRun()
    ensures RightAll(0x8408, 0xFFFF, MIRRORED_DIGITS) == 0x8D94
  {
    hide RightByte;
    CcittSteps();
    AllOfNine(0x8408, 0xFFFF, MIRRORED_DIGITS);
  }

  lemma CcittMirror()
    ensures Padded(Reverse(WordOf(0x29B1)[..16])) == WordOf(0x8D94)
  {
    Masks();
    SameWords(Padded(Reverse(WordOf(0x29B1)[..16])), WordOf(0x8D94));
  }

  lemma CcittValue()
    ensures Catalogue(CcittCheck(), Ones(16), Zeros(16), OctetsOf(DIGITS)) == WordOf(0x29B1)[..16]
  {
    hide WordOf, RightAll, OctetsOf, Mirrored, Catalogue, Padded, Reverse, Ones, Zeros, AllBytes;
    hide Poly04c11db7, Poly1021, Poly8005;
    Polynomials();
    UniformWords();
    DigitsAreBytes();
    MirroredDigits();
    CcittRun();
    CcittMirror();
    UnreflectedInWords(CcittCheck(), 0x8408, 0xFFFF, 0x0, Ones(16), Zeros(16), MIRRORED_DIGITS);
    assert Plus(0x8D94, 0x0) == 0x8D94;
    MirrorInjective(Catalogue(CcittCheck(), Ones(16), Zeros(16), OctetsOf(DIGITS)), WordOf(0x29B1)[..16]);
  }

  lemma XmodemSteps()
    ensures RightByte(0x8408, 0x0, 0x8C) == 0x4E64
    ensures RightByte(0x8408, 0x4E64, 0x4C) == 0xAD04
    ensures RightByte(0x8408, 0xAD04, 0xCC) == 0x4AE9
    ensures RightByte(0x8408, 0x4AE9, 0x2C) == 0x91EB
    ensures RightByte(0x8408, 0x91EB, 0xAC) == 0x362A
    ensures RightByte(0x8408, 0x362A, 0x6C) == 0x2704
    ensures RightByte(0x8408, 0x2704, 0xEC) == 0x6B61
    ensures RightByte(0x8408, 0x6B61, 0x1C) == 0xA809
    ensures RightByte(0x8408, 0xA809, 0x9C) == 0xC38C
  {
  }

  lemma XmodemRun()
    ensures RightAll(0x8408, 0x0, MIRRORED_DIGITS) == 0xC38C
  {
    hide RightByte;
    XmodemSteps();
    AllOfNine(0x8408, 0x0, MIRRORED_DIGITS);
  }

  lemma XmodemMirror()
    ensures Padded(Reverse(WordOf(0x31C3)[..16])) == WordOf(0xC38C)
  {
    Masks();
    SameWords(Padded(Reverse(WordOf(0x31C3)[..16])), WordOf(0xC38C));
  }

  lemma XmodemValue()
    ensures Catalogue(XmodemCheck(), Zeros(16), Zeros(16), OctetsOf(DIGITS)) == WordOf(0x31C3)[..16]
  {
    hide WordOf, RightAll, OctetsOf, Mirrored, Catalogue, Padded, Reverse, Ones, Zeros, AllBytes;
    hide Poly04c11db7, Poly1021, Poly8005;
    Polynomials();
    UniformWords();
    DigitsAreBytes();
    MirroredDigits();
    XmodemRun();
    XmodemMirror();
    UnreflectedInWords(XmodemCheck(), 0x8408, 0x0, 0x0, Zeros(16), Zeros(16), MIRRORED_DIGITS);
    assert Plus(0xC38C, 0x0) == 0xC38C;
    MirrorInjective(Catalogue(XmodemCheck(), Zeros(16), Zeros(16), OctetsOf(DIGITS)), WordOf(0x31C3)[..16]);
  }

  lemma CksumSteps()
    ensures RightByte(0xEDB88320, 0x0, 0x8C) == 0xE40ECF0B
    ensures RightByte(0xEDB88320, 0xE40ECF0B, 0x4C) == 0xE85CDAFC
    ensures RightByte(0xEDB88320, 0xE85CDAFC, 0xCC) == 0x26316C76
    ensures RightByte(0xEDB88320, 0x26316C76, 0x2C) == 0x8B988986
    ensures RightByte(0xEDB88320, 0x8B988986, 0xAC) == 0xDB30515F
    ensures RightByte(0xEDB88320, 0xDB30515F, 0x6C) == 0xBF0B5147
    ensures RightByte(0xEDB88320, 0xBF0B5147, 0xEC) == 0x41BB7131
    ensures RightByte(0xEDB88320, 0x41BB7131, 0x1C) == 0x459EE704
    ensures RightByte(0xEDB88320, 0x459EE704, 0x9C) == 0xFE918591
  {
  }

  lemma CksumRun()
    ensures RightAll(0xEDB88320, 0x0, MIRRORED_DIGITS) == 0xFE918591
  {
    hide RightByte;
    CksumSteps();
    AllOfNine(0xEDB88320, 0x0, MIRRORED_DIGITS);
  }

  lemma CksumMirror()
    ensures Padded(Reverse(WordOf(0x765E7680))) == WordOf(0x16E7A6E)
  {
    Masks();
    SameWords(Padded(Reverse(WordOf(0x765E7680))), WordOf(0x16E7A6E));
  }

  lemma CksumValue()
    ensures Catalogue(CksumCheck(), Zeros(32), Ones(32), OctetsOf(DIGITS)) == WordOf(0x765E7680)
  {
    hide WordOf, RightAll, OctetsOf, Mirrored, Catalogue, Padded, Reverse, Ones, Zeros, AllBytes;
    hide Poly04c11db7, Poly1021, Poly8005;
    Polynomials();
    UniformWords();
    DigitsAreBytes();
    MirroredDigits();
    CksumRun();
    CksumMirror();
    UnreflectedInWords(CksumCheck(), 0xEDB88320, 0x0, 0xFFFFFFFF, Zeros(32), Ones(32), MIRRORED_DIGITS);
    assert Plus(0xFE918591, 0xFFFFFFFF) == 0x16E7A6E;
    MirrorInjective(Catalogue(CksumCheck(), Zeros(32), Ones(32), OctetsOf(DIGITS)), WordOf(0x765E7680));
  }

  lemma Mcrf4xxFromOnesSteps()
    ensures RightByte(0x8408, 0xFFFF, 0x31) == 0x2F8D
    ensures RightByte(0x8408, 0x2F8D, 0x32) == 0x4D53
    ensures RightByte(0x8408, 0x4D53, 0x33) == 0x634B
    ensures RightByte(0x8408, 0x634B, 0x34) == 0x8B13
    ensures RightByte(0x8408, 0x8B13, 0x35) == 0x44BF
    ensures RightByte(0x8408, 0x44BF, 0x36) == 0x198D
    ensures RightByte(0x8408, 0x198D, 0x37) == 0x1AC8
    ensures RightByte(0x8408, 0x1AC8, 0x38) == 0xF795
    ensures RightByte(0x8408, 0xF795, 0x39) == 0x6F91
  {
  }

  lemma Mcrf4xxFromOnesRun()
    ensures RightAll(0x8408, 0xFFFF, DIGITS) == 0x6F91
  {
    hide RightByte;
    Mcrf4xxFromOnesSteps();
    AllOfNine(0x8408, 0xFFFF, DIGITS);
  }

  lemma Mcrf4xxFromOnesValue()
    ensures Catalogue(Mcrf4xxCheck(), Ones(16), Zeros(16), OctetsOf(DIGITS)) == WordOf(0x6F91)[..16]
  {
    hide WordOf, RightAll, OctetsOf, Catalogue, Padded, Reverse, Ones, Zeros, AllBytes;
    hide Poly04c11db7, Poly1021, Poly8005;
    Polynomials();
    UniformWords();
    DigitsAreBytes();
    Mcrf4xxFromOnesRun();
    ReflectedInWords(Mcrf4xxCheck(), 0x8408, 0xFFFF, 0x0, Ones(16), Zeros(16), DIGITS);
    assert Plus(0x6F91, 0x0) == 0x6F91;
    LowEnd(Catalogue(Mcrf4xxCheck(), Ones(16), Zeros(16), OctetsOf(DIGITS)), WordOf(0x6F91));
  }

  /** The code starts this check from 0: it returns what `kermit` does, not the value its comment gives. */
  lemma Mcrf4xxValue()
    ensures Catalogue(Mcrf4xxCheck(), Zeros(16), Zeros(16), OctetsOf(DIGITS)) == WordOf(0x2189)[..16]
    ensures WordOf(0x2189)[..16] != WordOf(0x6F91)[..16]
  {
    hide Catalogue, OctetsOf;
    KermitValue();
    assert WordOf(0x2189)[..16][4] == Meets(0x2189, Mask(4));
    assert WordOf(0x6F91)[..16][4] == Meets(0x6F91, Mask(4));
    assert Mask(4) == 0x10;
  }

  // ---- published table entries ----

  lemma MirroredOne()
    ensures Reverse(OctetOf(0x80)) == OctetOf(0x01)
  {
    Masks();
    SameOctets(Reverse(OctetOf(0x80)), OctetOf(0x01));
  }

  lemma SwapFirst(b: Octet, rest: Word)
    requires |rest| % 8 == 0
    ensures SwapBytes(b + rest) == SwapBytes(rest) + b
  {
    assert (b + rest)[8..] == rest && (b + rest)[..8] == b;
  }

  lemma SwapTwo(a: Octet, b: Octet)
    ensures SwapBytes(a + b) == b + a
  {
    hide SwapBytes;
    SwapFirst(a, b);
    SwapFirst(b, []);
    assert b + [] == b && SwapBytes([]) == [] && [] + b == b;
  }

  lemma SwapFour(a: Octet, b: Octet, c: Octet, d: Octet)
    ensures SwapBytes(a + (b + (c + d))) == d + (c + (b + a))
  {
    hide SwapBytes;
    SwapTwo(c, d);
    SwapFirst(b, c + d);
    SwapFirst(a, b + (c + d));
    assert d + c + b + a == d + (c + (b + a));
  }

  lemma Crc32Entry()
    ensures Table0(Crc32Check(), OctetOf(0x01)) == WordOf(0x77073096)
  {
    hide WordOf, Table0, Padded, Reverse;
    Polynomials();
    TableInWords(Crc32Check(), 0xEDB88320, 0x01);
    assert RightByte(0xEDB88320, 0, 0x01) == 0x77073096;
    LowEnd(Table0(Crc32Check(), OctetOf(0x01)), WordOf(0x77073096));
  }

  lemma ModbusEntry()
    ensures Table0(ModbusCheck(), OctetOf(0x01)) == WordOf(0xC0C1)[..16]
  {
    hide WordOf, Table0, Padded, Reverse;
    Polynomials();
    TableInWords(ModbusCheck(), 0xA001, 0x01);
    assert RightByte(0xA001, 0, 0x01) == 0xC0C1;
    LowEnd(Table0(ModbusCheck(), OctetOf(0x01)), WordOf(0xC0C1));
  }

  lemma KermitEntry()
    ensures Table0(KermitCheck(), OctetOf(0x01)) == WordOf(0x1189)[..16]
  {
    hide WordOf, Table0, Padded, Reverse;
    Polynomials();
    TableInWords(KermitCheck(), 0x8408, 0x01);
    assert RightByte(0x8408, 0, 0x01) == 0x1189;
    LowEnd(Table0(KermitCheck(), OctetOf(0x01)), WordOf(0x1189));
  }

  lemma CcittOctets()
    ensures WordOf(0x1021)[..16] == OctetOf(0x21) + OctetOf(0x10)
    ensures WordOf(0x2110)[..16] == OctetOf(0x10) + OctetOf(0x21)
  {
    Masks();
    SameWords(WordOf(0x1021), Padded(OctetOf(0x21) + OctetOf(0x10)));
    SameWords(WordOf(0x2110), Padded(OctetOf(0x10) + OctetOf(0x21)));
    LowEnd(OctetOf(0x21) + OctetOf(0x10), WordOf(0x1021));
    LowEnd(OctetOf(0x10) + OctetOf(0x21), WordOf(0x2110));
  }

  lemma CcittPolynomialMirror()
    ensures Padded(Reverse(WordOf(0x1021)[..16])) == WordOf(0x8408)
  {
    Masks();
    SameWords(Padded(Reverse(WordOf(0x1021)[..16])), WordOf(0x8408));
  }

  lemma CcittEntry()
    ensures Table0(CcittCheck(), OctetOf(0x01)) == WordOf(0x2110)[..16]
  {
    hide WordOf, OctetOf, Table0, Padded, Reverse, SwapBytes;
    Polynomials();
    MirroredOne();
    SwappedTableInWords(CcittCheck(), 0x8408, 0x80);
    assert RightByte(0x8408, 0, 0x80) == 0x8408;
    CcittPolynomialMirror();
    CcittOctets();
    SwapTwo(OctetOf(0x10), OctetOf(0x21));
    var a, b := Table0(CcittCheck(), OctetOf(0x01)), WordOf(0x2110)[..16];
    MirrorInjective(SwapBytes(a), SwapBytes(b));
    HeldTwice(CcittCheck(), a);
    HeldTwice(CcittCheck(), b);
  }

  lemma CksumOctets()
    ensures WordOf(0x4C11DB7) == OctetOf(0xB7) + (OctetOf(0x1D) + (OctetOf(0xC1) + OctetOf(0x04)))
    ensures WordOf(0xB71DC104) == OctetOf(0x04) + (OctetOf(0xC1) + (OctetOf(0x1D) + OctetOf(0xB7)))
  {
    Masks();
    SameWords(WordOf(0x4C11DB7), Padded(OctetOf(0xB7) + (OctetOf(0x1D) + (OctetOf(0xC1) + OctetOf(0x04)))));
    SameWords(WordOf(0xB71DC104), Padded(OctetOf(0x04) + (OctetOf(0xC1) + (OctetOf(0x1D) + OctetOf(0xB7)))));
    LowEnd(OctetOf(0xB7) + (OctetOf(0x1D) + (OctetOf(0xC1) + OctetOf(0x04))), WordOf(0x4C11DB7));
    LowEnd(OctetOf(0x04) + (OctetOf(0xC1) + (OctetOf(0x1D) + OctetOf(0xB7))), WordOf(0xB71DC104));
  }

  lemma CksumPolynomialMirror()
    ensures Padded(Reverse(WordOf(0x4C11DB7))) == WordOf(0xEDB88320)
  {
    Masks();
    SameWords(Padded(Reverse(WordOf(0x4C11DB7))), WordOf(0xEDB88320));
  }

  lemma CksumEntry()
    ensures Table0(CksumCheck(), OctetOf(0x01)) == WordOf(0xB71DC104)
  {
    hide WordOf, OctetOf, Table0, Padded, Reverse, SwapBytes;
    Polynomials();
    MirroredOne();
    SwappedTableInWords(CksumCheck(), 0xEDB88320, 0x80);
    assert RightByte(0xEDB88320, 0, 0x80) == 0xEDB88320;
    CksumPolynomialMirror();
    CksumOctets();
    SwapFour(OctetOf(0x04), OctetOf(0xC1), OctetOf(0x1D), OctetOf(0xB7));
    var a, b := Table0(CksumCheck(), OctetOf(0x01)), WordOf(0xB71DC104);
    MirrorInjective(SwapBytes(a), SwapBytes(b));
    HeldTwice(CksumCheck(), a);
    HeldTwice(CksumCheck(), b);
  }
}
