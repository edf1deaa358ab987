/** What the errors of strings, numbers and pointers report: where the first fault stands, and which it is. */
module TokenErrors {
  import opened Bytes
  import opened Json
  import opened JsonText
  import opened TokenGrammar
  import Numbers = NumberSyntax
  import Strings = StringSyntax
  import Utf8

  // ---- strings ----

  predicate HexStands(s: Text, i: nat) {
    i + 4 <= |s| && FourHex(s[i..i + 4])
  }

  predicate EscapeStands(s: Text, i: nat) {
    At(s, i, [0x5C, 0x75])
  }

  predicate HighStands(s: Text, i: nat) {
    HexStands(s, i) && 0xD800 <= HexNumber(s[i..i + 4]) <= 0xDBFF
  }

  predicate LowStands(s: Text, i: nat) {
    HexStands(s, i) && 0xDC00 <= HexNumber(s[i..i + 4]) <= 0xDFFF
  }

  /** A sequence of section 4 of RFC 3629. */
  predicate SequenceStands(s: Text, i: nat, n: nat) {
    i + n <= |s| && Utf8.WellFormed(s[i..i + n])
  }

  /** The fault at `o` that a code stands for, in the terms of section 7 of RFC 8259. */
  predicate StringFault(validate: bool, s: Text, o: nat, code: ErrorCode)
    requires o <= |s|
  {
    match code
    case StringMissQuotationMark => o == |s| || s[o] == 0
    case StringEscapeInvalid => o < |s| && s[o] == 0x5C && EscapedBy(Peek(s, o + 1)).None? && Peek(s, o + 1) != 0x75
    case StringUnicodeEscapeInvalidHex =>
      EscapeStands(s, o) && if HighStands(s, o + 2) then EscapeStands(s, o + 6) && !HexStands(s, o + 8)
      else !HexStands(s, o + 2)
    case StringUnicodeSurrogateInvalid =>
      EscapeStands(s, o) && HighStands(s, o + 2)
      && (!EscapeStands(s, o + 6) || (HexStands(s, o + 8) && !LowStands(s, o + 8)))
    case StringInvalidEncoding =>
      && o < |s| && s[o] != 0x5C && s[o] != 0x22 && s[o] != 0
      && (s[o] < 0x20 || (validate && forall n | 0 <= n <= |s| - o :: !SequenceStands(s, o, n)))
    case _ => false
  }

  lemma EscapeStandsIff(s: Text, i: nat)
    ensures EscapeStands(s, i) <==> Peek(s, i) == BACKSLASH && Peek(s, i + 1) == 0x75
  {
    if EscapeStands(s, i) {
      AtPeek(s, i, [0x5C, 0x75], 0);
      AtPeek(s, i, [0x5C, 0x75], 1);
    }
    if Peek(s, i) == BACKSLASH && Peek(s, i + 1) == 0x75 {
      assert s[i..i + 2] == [0x5C, 0x75];
    }
  }

  lemma TurnFault(validate: bool, s: Text, p: nat)
    requires p <= |s| && Strings.TurnAt(validate, s, p).Wrong?
    ensures StringFault(validate, s, p, Strings.TurnAt(validate, s, p).code)
  {
    hide Strings.UnicodeEscape, Utf8.Validate, Utf8.WellFormed, FourHex, HexNumber, EscapedBy, Strings.Unescape;
    var c, e := Peek(s, p), Peek(s, p + 1);
    EscapesAgree(e);
    EscapeStandsIff(s, p);
    if c == BACKSLASH && e == 0x75 {
      NotAnEscape(e);
      UnicodeFault(validate, s, p);
    } else if p < |s| && c != NUL && c >= 0x20 && c != BACKSLASH && c != QUOTE {
      Utf8.ValidateIsGrammar(s, p);
      forall n | 0 <= n <= |s| - p
        ensures !SequenceStands(s, p, n)
      {
        if SequenceStands(s, p, n) {
          SequenceTaken(s, p, n);
        }
      }
    }
  }

  lemma SequenceTaken(s: Text, p: nat, n: nat)
    requires p < |s| && SequenceStands(s, p, n)
    ensures Utf8.Validate(s, p).ok
  {
    hide Utf8.Validate, Utf8.WellFormed;
    WellFormedIsSomething(s[p..p + n]);
    Utf8.ValidateIsGrammar(s, p);
    assert n > 0 && Utf8.WellFormed(s[p..p + n]);
    assert Utf8.Validate(s, p) == Utf8.Taken(true, n);
  }

  lemma NotAnEscape(e: byte)
    requires e == 0x75
    ensures EscapedBy(e).None? && Strings.Unescape(e) == NUL
  {
  }

  lemma UnicodeFault(validate: bool, s: Text, p: nat)
    requires p <= |s| && EscapeStands(s, p) && Strings.UnicodeEscape(s, p).BadEscape?
    ensures StringFault(validate, s, p, Strings.UnicodeEscape(s, p).code)
  {
    hide Strings.Hex4, FourHex, HexNumber, EscapeStands;
    Hex4Iff(s, p + 2);
    Hex4Iff(s, p + 8);
    EscapeStandsIff(s, p + 6);
  }

  lemma {:induction false} DecodeFault(validate: bool, s: Text, p: nat, out: Text) returns (us: seq<Unit>)
    requires p <= |s| && Strings.Decode(validate, s, p, out).Bad?
    ensures var d := Strings.Decode(validate, s, p, out);
      && p <= d.offset <= |s| && UnitsOk(validate, us) && s[p..d.offset] == UnitsText(us)
      && StringFault(validate, s, d.offset, d.code)
    decreases |s| - p
  {
    hide UnitOk, UnitText, Strings.TurnAt, StringFault;
    var t := Strings.TurnAt(validate, s, p);
    if t.Wrong? {
      us := [];
      TurnFault(validate, s, p);
    } else {
      var u := UnitSound(validate, s, p);
      var rest := DecodeFault(validate, s, t.next, out + t.bytes);
      us := [u] + rest;
      assert us[1..] == rest;
      var o := Strings.Decode(validate, s, p, out).offset;
      assert s[p..o] == s[p..t.next] + s[t.next..o];
    }
  }

  /** A refused string is in order up to the offset reported, and has there the fault the code names. */
  lemma StringErrors(validate: bool, s: Text, p: nat) returns (us: seq<Unit>)
    requires p < |s| && s[p] == QUOTE && Strings.ParseString(validate, s, p).Bad?
    ensures var d := Strings.ParseString(validate, s, p);
      && p < d.offset <= |s| && UnitsOk(validate, us) && s[p..d.offset] == [QUOTE] + UnitsText(us)
      && StringFault(validate, s, d.offset, d.code)
  {
    hide UnitsText, UnitsOk, Strings.Decode, StringFault;
    us := DecodeFault(validate, s, p + 1, []);
    var o := Strings.ParseString(validate, s, p).offset;
    assert s[p..o] == [QUOTE] + s[p + 1..o];
  }

  /** No other code names a fault there, and neither a unit nor the closing mark stands there. */
  lemma FaultIsOne(validate: bool, s: Text, o: nat, code: ErrorCode, other: ErrorCode)
    requires o <= |s| && StringFault(validate, s, o, code) && StringFault(validate, s, o, other)
    ensures code == other && Peek(s, o) != QUOTE
  {
    hide Utf8.WellFormed, FourHex, HexNumber, EscapedBy;
    EscapeStandsIff(s, o);
    NotAnEscape(0x75);
  }

  // ---- numbers ----

  /** Digits of section 6 of RFC 8259 with nothing behind them. */
  predicate WholeStands(s: Text, p: nat, n: Numeral) {
    NumeralOk(n) && n.fraction.None? && n.exponent.None? && At(s, p, NumeralText(n))
  }

  /** The fault at `o`, in a number that starts at `p`, that a code stands for. */
  ghost predicate NumberFault(fl: Flags, s: Text, p: nat, o: nat, code: ErrorCode) {
    match code
    case ValueInvalid => o == (if Peek(s, p) == 0x2D then p + 1 else p) && !IsDigit(Peek(s, o))
    case NumberMissFraction =>
      !IsDigit(Peek(s, o)) && exists n: Numeral :: WholeStands(s, p, n) && PointStands(s, p, n, o)
    case NumberMissExponent =>
      !IsDigit(Peek(s, o)) && exists n: Numeral :: MarkStands(s, p, n, o)
    case NumberTooBig => o == p && exists n: Numeral :: TooBig(fl, s, p, n)
    case _ => false
  }

  /** Right behind the digits a point, and `o` behind that. */
  predicate PointStands(s: Text, p: nat, n: Numeral, o: nat) {
    o == p + |NumeralText(n)| + 1 && Peek(s, o - 1) == 0x2E
  }

  /** Behind a numeral without exponent the mark of one, and `o` behind its sign. */
  predicate MarkStands(s: Text, p: nat, n: Numeral, o: nat) {
    && NumeralOk(n) && n.exponent.None? && At(s, p, NumeralText(n))
    && var e := p + |NumeralText(n)|;
    && (Peek(s, e) == 0x65 || Peek(s, e) == 0x45)
    && o == (if Peek(s, e + 1) == 0x2B || Peek(s, e + 1) == 0x2D then e + 2 else e + 1)
  }

  predicate TooBig(fl: Flags, s: Text, p: nat, n: Numeral) {
    NumeralOk(n) && At(s, p, NumeralText(n)) && !InRange(fl, n)
  }

  /** What stands before the point or the exponent. */
  function Front(s: Text, p: nat, q: nat, e: nat, fraction: Option<Text>): Numeral
    requires q <= e <= |s|
  {
    Numeral(q != p, s[q..e], fraction, None)
  }

  lemma FrontText(s: Text, p: nat, q: nat, e: nat, f: nat, fraction: Option<Text>)
    requires p <= q < e <= f <= |s| && q == (if Peek(s, p) == MINUS then p + 1 else p)
    requires Numbers.AllDigits(s[q..e]) && (s[q] == ZERO ==> e == q + 1)
    requires if fraction.None? then f == e else s[e..f] == [DOT] + fraction.value
    requires fraction.Some? ==> fraction.value != [] && Numbers.AllDigits(fraction.value)
    ensures var n := Front(s, p, q, e, fraction);
      NumeralOk(n) && At(s, p, NumeralText(n)) && p + |NumeralText(n)| == f
  {
    var n := Front(s, p, q, e, fraction);
    PartsText(n, s, p, q, e, f, f);
    WholeOk(s, q, e);
  }

  lemma TailFault(fl: Flags, s: Text, p: nat, q: nat, e: nat)
    requires p <= q < e <= |s| && q == (if Peek(s, p) == MINUS then p + 1 else p)
    requires Numbers.AllDigits(s[q..e]) && (s[q] == ZERO ==> e == q + 1)
    requires Numbers.ParseTail(fl, s, p, q != p, Numbers.Decimal(s[q..e]), e - q - 1, e).NotNumber?
    ensures var r := Numbers.ParseTail(fl, s, p, q != p, Numbers.Decimal(s[q..e]), e - q - 1, e);
      NumberFault(fl, s, p, r.offset, r.code)
  {
    hide Numbers.Decimal, Numbers.FractionDigits, Numbers.IntegerEvent, WholeEvent, Numbers.ScanExponent;
    hide NumeralText, Numbers.AllDigits, Numbers.ParseTail, NumeralOk, InRange, At;
    var v := Numbers.Decimal(s[q..e]);
    if Peek(s, e) == DOT && !IsDigit(Peek(s, e + 1)) {
      Numbers.TailWithoutDigits(fl, s, p, q != p, v, e - q - 1, e);
      FrontText(s, p, q, e, e, None);
      assert WholeStands(s, p, Front(s, p, q, e, None)) && PointStands(s, p, Front(s, p, q, e, None), e + 1);
    } else {
      Numbers.TailShape(fl, s, p, q != p, v, e - q - 1, e);
      var fraction, f := FractionSound(s, e);
      var n := Front(s, p, q, e, fraction);
      FrontText(s, p, q, e, f, fraction);
      KindsAgree(n.minus, v);
      LoweredFront(s, p, q, e, fraction);
      if Numbers.IsExponentMark(Peek(s, f)) {
        ExponentFault(fl, s, p, f, n);
      } else {
        FrontFault(fl, s, p, f, n);
      }
    }
  }

  lemma LoweredFront(s: Text, p: nat, q: nat, e: nat, fraction: Option<Text>)
    requires q < e <= |s| && NumeralOk(Front(s, p, q, e, fraction))
    ensures Lowered(Front(s, p, q, e, fraction))
         == if fraction.None? || WholeEvent(q != p, Numbers.Decimal(s[q..e])).None? then 0
            else Numbers.FractionDigits(Numbers.Decimal(s[q..e]), e - q - 1, fraction.value)
  {
    hide Numbers.Decimal, Numbers.FractionDigits, WholeEvent, NumeralOk;
  }

  /** A numeral without exponent is refused only when its double overflows. */
  lemma FrontFault(fl: Flags, s: Text, p: nat, f: nat, n: Numeral)
    requires NumeralOk(n) && n.exponent.None? && At(s, p, NumeralText(n)) && p + |NumeralText(n)| == f
    ensures f <= |s| && p <= f
    ensures n.fraction.Some? || WholeEvent(n.minus, Numbers.Decimal(n.whole)).None? ==>
      var r := Numbers.FinishDouble(fl, p, Numbers.Number(Double(s[p..f]), f));
      r.NotNumber? ==> NumberFault(fl, s, p, r.offset, r.code)
  {
    hide Numbers.Decimal, WholeEvent, NumeralText, Numbers.FractionDigits;
    AtSlice(s, p, NumeralText(n));
    if (n.fraction.Some? || WholeEvent(n.minus, Numbers.Decimal(n.whole)).None?) && fl.overflows(s[p..f]) {
      assert NumeralEvent(n) == Double(NumeralText(n));
      assert TooBig(fl, s, p, n);
    }
  }

  lemma ExponentFault(fl: Flags, s: Text, p: nat, f: nat, n: Numeral)
    requires NumeralOk(n) && n.exponent.None? && At(s, p, NumeralText(n)) && p + |NumeralText(n)| == f
    requires Numbers.IsExponentMark(Peek(s, f))
    ensures p <= f < |s|
    ensures var r := Numbers.FinishDouble(fl, p, Numbers.ScanExponent(s, p, f, Lowered(n)));
      r.NotNumber? ==> NumberFault(fl, s, p, r.offset, r.code)
  {
    hide Numbers.Decimal, NumeralText, NumeralOk, At, Lowered;
    AtSlice(s, p, NumeralText(n));
    var k := if Peek(s, f + 1) == PLUS || Peek(s, f + 1) == MINUS then f + 2 else f + 1;
    if !IsDigit(Peek(s, k)) {
      assert MarkStands(s, p, n, k);
    } else {
      SignSlice(s, f, k);
      SomeDigits(s, k);
      var e := Numbers.DigitsEnd(s, k);
      var x := Exponent(s[f], s[f + 1..k], s[k..e]);
      var m := n.(exponent := Some(x));
      MarkSignDigits(s, f, k, e);
      WithExponent(fl, s, p, f, e, n, x);
    }
  }

  /** A numeral with the exponent that stands behind it, and when it is too big. */
  lemma WithExponent(fl: Flags, s: Text, p: nat, f: nat, e: nat, n: Numeral, x: Exponent)
    requires NumeralOk(n) && n.exponent.None? && At(s, p, NumeralText(n)) && p + |NumeralText(n)| == f < e <= |s|
    requires Numbers.IsExponentMark(x.mark) && (x.sign == [] || x.sign == [PLUS] || x.sign == [MINUS])
    requires x.digits != [] && Numbers.AllDigits(x.digits) && s[f..e] == [x.mark] + x.sign + x.digits
    ensures var m := n.(exponent := Some(x));
      && NumeralOk(m)
      && (x.sign != [MINUS] && |x.digits| > 1 && Numbers.Decimal(x.digits) > 308 + Lowered(n) ==> TooBig(fl, s, p, m))
      && (fl.overflows(s[p..e]) ==> TooBig(fl, s, p, m))
  {
    hide Numbers.Decimal, Lowered, NumeralText, At, InRange, NumeralEvent;
    var m := n.(exponent := Some(x));
    ExponentBehind(s, p, f, e, n, x);
    ExponentInRange(fl, n, x);
  }

  lemma ExponentBehind(s: Text, p: nat, f: nat, e: nat, n: Numeral, x: Exponent)
    requires n.exponent.None? && At(s, p, NumeralText(n)) && p + |NumeralText(n)| == f < e <= |s|
    requires s[f..e] == [x.mark] + x.sign + x.digits
    ensures var m := n.(exponent := Some(x));
      p <= e && s[p..e] == NumeralText(m) && At(s, p, NumeralText(m))
  {
    NothingBehind(n);
    assert s[p..f] == NumeralText(n);
    assert s[p..e] == s[p..f] + s[f..e];
  }

  lemma ExponentInRange(fl: Flags, n: Numeral, x: Exponent)
    requires NumeralOk(n) && n.exponent.None? && NumeralOk(n.(exponent := Some(x)))
    ensures var m := n.(exponent := Some(x));
      InRange(fl, m) ==>
        && (x.sign != [MINUS] && |x.digits| > 1 ==> Numbers.Decimal(x.digits) <= 308 + Lowered(n))
        && !fl.overflows(NumeralText(m))
  {
    hide Numbers.Decimal, Numbers.FractionDigits, WholeEvent, NumeralText;
  }

  lemma NothingBehind(n: Numeral)
    requires n.exponent.None?
    ensures NumeralText(n) == SignText(n) + n.whole + FractionText(n)
  {
  }

  /** A refused number has the fault the code names where the offset says. */
  lemma NumberErrors(fl: Flags, s: Text, p: nat)
    requires p <= |s| && Numbers.ParseNumber(fl, s, p).NotNumber?
    ensures var r := Numbers.ParseNumber(fl, s, p);
      NumberFault(fl, s, p, r.offset, r.code)
  {
    hide Numbers.Decimal, Numbers.ParseTail, InRange, NumeralText;
    var q := if Peek(s, p) == MINUS then p + 1 else p;
    if IsDigit(Peek(s, q)) {
      var e := if Peek(s, q) == ZERO then q + 1 else Numbers.DigitsEnd(s, q);
      TailFault(fl, s, p, q, e);
    }
  }
}
