/** UTF-8 as the encoder, the decoder and the validator of the library compute it. */
module Utf8 {
  import opened Bytes

  /** `UTF8::Encode`, its shifts and masks written as quotients and remainders. */
  function Encode(cp: nat): (t: Text)
    requires cp <= 0x10FFFF
    ensures 1 <= |t| <= 4
  {
    if cp <= 0x7F then [cp]
    else if cp <= 0x7FF then [0xC0 + cp / 0x40, 0x80 + cp % 0x40]
    else if cp <= 0xFFFF then [0xE0 + cp / 0x1000, 0x80 + cp / 0x40 % 0x40, 0x80 + cp % 0x40]
    else [0xF0 + cp / 0x40000, 0x80 + cp / 0x1000 % 0x40, 0x80 + cp / 0x40 % 0x40, 0x80 + cp % 0x40]
  }

  /** `GetRange`: the class of a byte.  The three classes of continuation bytes are single bits. */
  function GetRange(c: byte): byte {
    if c < 0x80 then 0
    else if c < 0x90 then 0x10
    else if c < 0xA0 then 0x40
    else if c < 0xC0 then 0x20
    else if c < 0xC2 then 8
    else if c < 0xE0 then 2
    else if c == 0xE0 then 10
    else if c == 0xED then 4
    else if c < 0xF0 then 3
    else if c == 0xF0 then 11
    else if c < 0xF4 then 6
    else if c == 0xF4 then 5
    else 8
  }

  /** `GetRange(c) & mask` is not zero, for masks over the three continuation bits. */
  predicate InMask(c: byte, mask: byte) {
    var r := GetRange(c);
    || (r == 0x10 && mask / 0x10 % 2 == 1)
    || (r == 0x20 && mask / 0x20 % 2 == 1)
    || (r == 0x40 && mask / 0x40 % 2 == 1)
  }

  /** The number of bytes a multi-byte sequence with this lead takes, and the mask of its second byte. */
  datatype Shape = Shape(length: nat, mask: byte)

  function ShapeOf(lead: byte): Option<Shape> {
    match GetRange(lead)
    case 2 => Some(Shape(2, 0x70))
    case 3 => Some(Shape(3, 0x70))
    case 4 => Some(Shape(3, 0x50))
    case 5 => Some(Shape(4, 0x10))
    case 6 => Some(Shape(4, 0x70))
    case 10 => Some(Shape(3, 0x20))
    case 11 => Some(Shape(4, 0x60))
    case _ => None
  }

  lemma ShapeFacts(lead: byte)
    ensures ShapeOf(lead).Some? ==> 2 <= ShapeOf(lead).value.length <= 4
    ensures forall mask: byte :: !InMask(NUL, mask)
  {
  }

  /** What a stream operation on one sequence reports: its verdict and how many bytes it took. */
  datatype Taken = Taken(ok: bool, length: nat)

  /** `UTF8::Validate`: a bad sequence is still taken to the length its lead announces. */
  function Validate(s: Text, p: nat): (r: Taken)
    requires p < |s|
    ensures r.length >= 1
    ensures r.ok ==> p + r.length <= |s|
  {
    if s[p] < 0x80 then Taken(true, 1)
    else
      match ShapeOf(s[p])
      case None => Taken(false, 1)
      case Some(sh) =>
        Taken(
          && InMask(Peek(s, p + 1), sh.mask)
          && (sh.length >= 3 ==> InMask(Peek(s, p + 2), 0x70))
          && (sh.length >= 4 ==> InMask(Peek(s, p + 3), 0x70)),
          sh.length)
  }

  /** The bits of the lead byte: `(0xFF >> type) & c`. */
  function LeadBits(lead: byte): nat {
    match GetRange(lead)
    case 2 => lead % 0x40
    case 3 => lead % 0x20
    case 4 => lead % 0x10
    case 5 => lead % 8
    case 6 => lead % 4
    case _ => 0
  }

  /** The code point `UTF8::Decode` stores after `n` bytes from `p`. */
  function Accumulate(s: Text, p: nat, n: nat): nat
    requires p < |s|
  {
    if n <= 1 then LeadBits(s[p]) else Accumulate(s, p, n - 1) * 0x40 + Peek(s, p + n - 1) % 0x40
  }

  /** `UTF8::Decode`: the code point, when the sequence is valid. */
  function Decode(s: Text, p: nat): (r: Option<nat>)
    requires p < |s|
  {
    var t := Validate(s, p);
    if !t.ok then None
    else if s[p] < 0x80 then Some(s[p])
    else Some(Accumulate(s, p, t.length))
  }

  // ---- the grammar of section 4 of RFC 3629 ----

  predicate Tail(c: byte) {
    0x80 <= c <= 0xBF
  }

  predicate WellFormed(t: Text) {
    || (|t| == 1 && t[0] <= 0x7F)
    || (|t| == 2 && 0xC2 <= t[0] <= 0xDF && Tail(t[1]))
    || (|t| == 3 && t[0] == 0xE0 && 0xA0 <= t[1] <= 0xBF && Tail(t[2]))
    || (|t| == 3 && (0xE1 <= t[0] <= 0xEC || 0xEE <= t[0] <= 0xEF) && Tail(t[1]) && Tail(t[2]))
    || (|t| == 3 && t[0] == 0xED && 0x80 <= t[1] <= 0x9F && Tail(t[2]))
    || (|t| == 4 && t[0] == 0xF0 && 0x90 <= t[1] <= 0xBF && Tail(t[2]) && Tail(t[3]))
    || (|t| == 4 && 0xF1 <= t[0] <= 0xF3 && Tail(t[1]) && Tail(t[2]) && Tail(t[3]))
    || (|t| == 4 && t[0] == 0xF4 && 0x80 <= t[1] <= 0x8F && Tail(t[2]) && Tail(t[3]))
  }

  /** A Unicode scalar value: a code point that is not a surrogate. */
  predicate Scalar(cp: nat) {
    cp <= 0xD7FF || 0xE000 <= cp <= 0x10FFFF
  }

  /** A concatenation of well-formed sequences. */
  predicate ValidText(t: Text)
    decreases |t|
  {
    t == [] || exists n | 1 <= n <= 4 && n <= |t| :: WellFormed(t[..n]) && ValidText(t[n..])
  }

  // ---- the decoder against the grammar ----

  lemma MaskMeaning(c: byte)
    ensures InMask(c, 0x70) == Tail(c)
    ensures InMask(c, 0x50) == (0x80 <= c <= 0x9F)
    ensures InMask(c, 0x10) == (0x80 <= c <= 0x8F)
    ensures InMask(c, 0x20) == (0xA0 <= c <= 0xBF)
    ensures InMask(c, 0x60) == (0x90 <= c <= 0xBF)
  {
  }

  /** The validator accepts exactly the sequences of the grammar, at their own length. */
  lemma ValidateIsGrammar(s: Text, p: nat)
    requires p < |s|
    ensures var t := Validate(s, p); t.ok ==> WellFormed(s[p..p + t.length])
    ensures forall n :: 1 <= n && p + n <= |s| && WellFormed(s[p..p + n]) ==> Validate(s, p) == Taken(true, n)
  {
    MaskMeaning(Peek(s, p + 1));
    MaskMeaning(Peek(s, p + 2));
    MaskMeaning(Peek(s, p + 3));
    forall n | 1 <= n && p + n <= |s| && WellFormed(s[p..p + n])
      ensures Validate(s, p) == Taken(true, n)
    {
      var t := s[p..p + n];
      assert t[0] == s[p];
      assert n > 1 ==> t[1] == Peek(s, p + 1);
      assert n > 2 ==> t[2] == Peek(s, p + 2);
      assert n > 3 ==> t[3] == Peek(s, p + 3);
    }
  }

  // ---- encoding and decoding are inverse ----

  lemma Digits64(cp: nat)
    ensures cp / 0x1000 == cp / 0x40 / 0x40 && cp / 0x40000 == cp / 0x40 / 0x40 / 0x40
    ensures cp == cp / 0x40 * 0x40 + cp % 0x40
    ensures cp / 0x40 == cp / 0x1000 * 0x40 + cp / 0x40 % 0x40
    ensures cp / 0x1000 == cp / 0x40000 * 0x40 + cp / 0x1000 % 0x40
  {
  }

  lemma EncodeWellFormed(cp: nat)
    requires Scalar(cp)
    ensures WellFormed(Encode(cp))
  {
    Digits64(cp);
  }

  lemma LeadMeaning(c: byte)
    ensures 0xC2 <= c <= 0xDF ==> LeadBits(c) == c - 0xC0
    ensures 0xE0 <= c <= 0xEF ==> LeadBits(c) == c - 0xE0
    ensures 0xF0 <= c <= 0xF4 ==> LeadBits(c) == c - 0xF0
  {
  }

  lemma TailMeaning(c: byte)
    requires Tail(c)
    ensures c % 0x40 == c - 0x80
  {
  }

  /** The code point of a well-formed sequence, from its own bytes. */
  function Assembled(t: Text): (cp: int)
    requires WellFormed(t)
    ensures cp >= 0
  {
    var a: int := t[0];
    if |t| == 1 then a
    else
      var b := t[1] as int - 0x80;
      if |t| == 2 then (a - 0xC0) * 0x40 + b
      else
        var c := t[2] as int - 0x80;
        if |t| == 3 then ((a - 0xE0) * 0x40 + b) * 0x40 + c
        else (((a - 0xF0) * 0x40 + b) * 0x40 + c) * 0x40 + (t[3] as int - 0x80)
  }

  lemma AccumulateLong(s: Text, p: nat)
    requires p < |s|
    ensures Accumulate(s, p, 2) == LeadBits(s[p]) * 0x40 + Peek(s, p + 1) % 0x40
    ensures Accumulate(s, p, 3) == Accumulate(s, p, 2) * 0x40 + Peek(s, p + 2) % 0x40
    ensures Accumulate(s, p, 4) == Accumulate(s, p, 3) * 0x40 + Peek(s, p + 3) % 0x40
  {
  }

  /** The accumulating loop assembles the code point. */
  lemma AccumulateAssembles(s: Text, p: nat, n: nat)
    requires p < |s| && p + n <= |s| && n >= 2 && WellFormed(s[p..p + n])
    ensures Accumulate(s, p, n) == Assembled(s[p..p + n])
  {
    hide Accumulate, LeadBits;
    var t := s[p..p + n];
    AccumulateLong(s, p);
    LeadMeaning(t[0]);
    TailMeaning(t[1]);
    assert Peek(s, p + 1) == t[1];
    if n >= 3 {
      assert Peek(s, p + 2) == t[2];
      TailMeaning(t[2]);
    }
    if n >= 4 {
      assert Peek(s, p + 3) == t[3];
      TailMeaning(t[3]);
    }
  }

  lemma AssembledEncode(cp: nat)
    requires Scalar(cp)
    ensures WellFormed(Encode(cp)) && Assembled(Encode(cp)) == cp
  {
    EncodeWellFormed(cp);
    Digits64(cp);
  }

  lemma QuotientRemainder(q: nat, r: nat)
    requires r < 0x40
    ensures (q * 0x40 + r) / 0x40 == q && (q * 0x40 + r) % 0x40 == r
  {
  }

  lemma EncodeAssembled(t: Text)
    requires WellFormed(t)
    ensures Scalar(Assembled(t)) && Encode(Assembled(t)) == t
  {
    var cp := Assembled(t);
    if |t| == 2 {
      QuotientRemainder(t[0] - 0xC0, t[1] - 0x80);
    } else if |t| == 3 {
      EncodeAssembled3(t[0] - 0xE0, t[1] - 0x80, t[2] - 0x80, cp);
    } else if |t| == 4 {
      EncodeAssembled4(t[0] - 0xF0, t[1] - 0x80, t[2] - 0x80, t[3] - 0x80, cp);
    }
  }

  lemma EncodeAssembled3(a: nat, b: nat, c: nat, cp: nat)
    requires a < 0x10 && b < 0x40 && c < 0x40 && cp == (a * 0x40 + b) * 0x40 + c
    ensures cp / 0x1000 == a && cp / 0x40 % 0x40 == b && cp % 0x40 == c
  {
    QuotientRemainder(a * 0x40 + b, c);
    QuotientRemainder(a, b);
    Digits64(cp);
  }

  lemma EncodeAssembled4(a: nat, b: nat, c: nat, d: nat, cp: nat)
    requires a < 5 && b < 0x40 && c < 0x40 && d < 0x40 && cp == ((a * 0x40 + b) * 0x40 + c) * 0x40 + d
    ensures cp / 0x40000 == a && cp / 0x1000 % 0x40 == b && cp / 0x40 % 0x40 == c && cp % 0x40 == d
  {
    QuotientRemainder((a * 0x40 + b) * 0x40 + c, d);
    QuotientRemainder(a * 0x40 + b, c);
    QuotientRemainder(a, b);
    Digits64(cp);
  }

  /** The decoder reads back what the encoder wrote. */
  lemma DecodeEncode(s: Text, p: nat, cp: nat)
    requires Scalar(cp) && At(s, p, Encode(cp))
    ensures Decode(s, p) == Some(cp) && Validate(s, p) == Taken(true, |Encode(cp)|)
  {
    hide Encode, Assembled, Validate, Accumulate;
    var t := Encode(cp);
    AssembledEncode(cp);
    ValidateIsGrammar(s, p);
    assert t == s[p..p + |t|] && t[0] == s[p];
    SingleByte(cp);
    assert Validate(s, p) == Taken(true, |t|);
    if |t| >= 2 {
      AccumulateAssembles(s, p, |t|);
    }
  }

  lemma SingleByte(cp: nat)
    requires Scalar(cp)
    ensures |Encode(cp)| == 1 ==> Encode(cp)[0] == cp <= 0x7F
    ensures |Encode(cp)| > 1 ==> Encode(cp)[0] >= 0x80
  {
  }

  /** What the decoder accepts is the encoding of the scalar value it stores. */
  lemma EncodeDecode(s: Text, p: nat)
    requires p < |s| && Decode(s, p).Some?
    ensures var cp := Decode(s, p).value;
      Scalar(cp) && Encode(cp) == s[p..p + Validate(s, p).length]
  {
    hide Encode, Assembled, Validate, Accumulate;
    var n := Validate(s, p).length;
    ValidateIsGrammar(s, p);
    var t := s[p..p + n];
    assert t[0] == s[p];
    EncodeAssembled(t);
    if n >= 2 {
      AccumulateAssembles(s, p, n);
    } else {
      SingleAssembled(t);
    }
  }

  lemma SingleAssembled(t: Text)
    requires |t| == 1 && WellFormed(t)
    ensures t[0] < 0x80 && Assembled(t) == t[0]
  {
  }

  // ---- order ----

  /** Byte by byte, the first difference decides; a proper prefix comes first. */
  predicate Precedes(a: Text, b: Text) {
    b != [] && (a == [] || a[0] < b[0] || (a[0] == b[0] && Precedes(a[1..], b[1..])))
  }

  lemma {:induction false} FirstDifference(a: Text, b: Text, k: nat)
    requires k < |a| && k < |b| && a[k] < b[k] && forall i :: 0 <= i < k ==> a[i] == b[i]
    ensures Precedes(a, b)
    decreases k
  {
    if k > 0 {
      FirstDifference(a[1..], b[1..], k - 1);
    }
  }

  lemma HighOrLow(x: nat, y: nat)
    requires x < y
    ensures x / 0x40 < y / 0x40 || (x / 0x40 == y / 0x40 && x % 0x40 < y % 0x40)
  {
  }

  /** Section 1 of RFC 3629: encoded texts sort as their code points do. */
  lemma SortsAlike(x: nat, y: nat)
    requires x <= 0x10FFFF && y <= 0x10FFFF
    ensures Precedes(Encode(x), Encode(y)) <==> x < y
  {
    if x < y {
      SortsBefore(x, y);
    } else if y < x {
      SortsBefore(y, x);
      OneWay(Encode(y), Encode(x));
    } else {
      NotItself(Encode(x));
    }
  }

  lemma SortsBefore(x: nat, y: nat)
    requires x < y <= 0x10FFFF
    ensures Precedes(Encode(x), Encode(y))
  {
    hide Precedes;
    if x <= 0x7F || |Encode(x)| < |Encode(y)| {
      LeadsGrow(x, y);
      FirstDifference(Encode(x), Encode(y), 0);
    } else {
      SortsAtLength(x, y, x / 0x40, y / 0x40);
    }
  }

  lemma LeadsGrow(x: nat, y: nat)
    requires x < y <= 0x10FFFF && (x <= 0x7F || |Encode(x)| < |Encode(y)|)
    ensures Encode(x)[0] < Encode(y)[0]
  {
  }

  /** The bytes behind the lead hold six bits each. */
  lemma SixBits(x: nat, q: nat, u: nat)
    requires 0x80 <= x <= 0x10FFFF && q == x / 0x40 && u == q / 0x40
    ensures x <= 0x7FF ==> Encode(x) == [0xC0 + q, 0x80 + x % 0x40]
    ensures 0x7FF < x <= 0xFFFF ==> Encode(x) == [0xE0 + u, 0x80 + q % 0x40, 0x80 + x % 0x40]
    ensures 0xFFFF < x ==> Encode(x) == [0xF0 + u / 0x40, 0x80 + u % 0x40, 0x80 + q % 0x40, 0x80 + x % 0x40]
  {
    assert x / 0x1000 == u && x / 0x40000 == u / 0x40;
  }

  lemma SortsAtLength(x: nat, y: nat, q: nat, r: nat)
    requires 0x80 <= x < y <= 0x10FFFF && |Encode(x)| == |Encode(y)| && q == x / 0x40 && r == y / 0x40
    ensures Precedes(Encode(x), Encode(y))
  {
    hide Precedes, Encode;
    var a, b, u, v := Encode(x), Encode(y), q / 0x40, r / 0x40;
    SixBits(x, q, u);
    SixBits(y, r, v);
    HighOrLow(x, y);
    if q == r {
      FirstDifference(a, b, |a| - 1);
    } else {
      HighOrLow(q, r);
      if u == v {
        FirstDifference(a, b, |a| - 2);
      } else {
        HighOrLow(u, v);
        FirstDifference(a, b, if x <= 0xFFFF || u / 0x40 < v / 0x40 then 0 else 1);
      }
    }
  }

  lemma {:induction false} OneWay(a: Text, b: Text)
    requires Precedes(a, b)
    ensures !Precedes(b, a)
  {
    if a != [] && a[0] == b[0] {
      OneWay(a[1..], b[1..]);
    }
  }

  lemma {:induction false} NotItself(a: Text)
    ensures !Precedes(a, a)
  {
    if a != [] {
      NotItself(a[1..]);
    }
  }
}
