/** The string and number readers accept exactly the strings and numbers of the grammar. */
module TokenGrammar {
  import opened Bytes
  import opened Json
  import opened JsonText
  import Numbers = NumberSyntax
  import Strings = StringSyntax
  import Utf8

  // ---- hexadecimal ----

  /** Four hexadecimal digits have a value, and nothing else has. */
  lemma Hex4Iff(s: Text, p: nat)
    ensures Strings.Hex4(s, p).Some? <==> p + 4 <= |s| && FourHex(s[p..p + 4])
    ensures p + 4 <= |s| && FourHex(s[p..p + 4]) ==> Strings.Hex4(s, p) == Some(HexNumber(s[p..p + 4]))
  {
    hide IsHex, HexValue, HexDigitValue;
    HexRunStep(s, p, 0);
    HexRunStep(s, p, 1);
    HexRunStep(s, p, 2);
    HexRunStep(s, p, 3);
    NulIsNotHex();
    assert Strings.HexRun(s, p, 0) == Some(0);
    if p + 4 <= |s| {
      var t := s[p..p + 4];
      assert t[0] == Peek(s, p) && t[1] == Peek(s, p + 1) && t[2] == Peek(s, p + 2) && t[3] == Peek(s, p + 3);
      HexAgrees(t[0]);
      HexAgrees(t[1]);
      HexAgrees(t[2]);
      HexAgrees(t[3]);
    } else {
      assert Peek(s, p + 3) == NUL;
    }
  }

  /** The reader and the grammar have the same hexadecimal digits. */
  lemma HexAgrees(c: byte)
    ensures IsHex(c) <==> HexDigitValue(c).Some?
    ensures IsHex(c) ==> HexDigitValue(c) == Some(HexValue(c))
  {
  }

  lemma HexRunStep(s: Text, p: nat, n: nat)
    ensures Strings.HexRun(s, p, n).None? ==> Strings.HexRun(s, p, n + 1).None?
    ensures Strings.HexRun(s, p, n).Some? ==>
      Strings.HexRun(s, p, n + 1)
      == if IsHex(Peek(s, p + n)) then Some(Strings.HexRun(s, p, n).value * 16 + HexValue(Peek(s, p + n))) else None
  {
    hide IsHex, HexValue;
  }

  lemma NulIsNotHex()
    ensures !IsHex(NUL)
  {
  }

  // ---- strings ----

  /** A unit that stands in the text is what the string loop finds there. */
  lemma UnitComplete(validate: bool, u: Unit, s: Text, p: nat)
    requires UnitOk(validate, u) && At(s, p, UnitText(u))
    ensures p <= |s| && Strings.TurnAt(validate, s, p) == Strings.Piece(UnitBytes(u), p + |UnitText(u)|)
  {
    hide Strings.TurnAt, HexNumber, FourHex, Utf8.Encode, Utf8.WellFormed;
    match u
    case Plain(b) => PlainComplete(validate, u, s, p);
    case Short(letter) => ShortComplete(validate, u, s, p);
    case Hex(d) =>
      HexComplete(u, s, p);
      EscapeTurn(validate, s, p);
    case Pair(h, l) =>
      PairComplete(u, s, p);
      EscapeTurn(validate, s, p);
  }

  lemma PlainComplete(validate: bool, u: Unit, s: Text, p: nat)
    requires u.Plain? && UnitOk(validate, u) && At(s, p, UnitText(u))
    ensures p <= |s| && Strings.TurnAt(validate, s, p) == Strings.Piece(u.bytes, p + |u.bytes|)
  {
    hide Utf8.Validate, Utf8.WellFormed;
    var b := u.bytes;
    AtPeek(s, p, b, 0);
    assert s[p..p + |b|] == b;
    if validate {
      assert |b| >= 1 && Utf8.WellFormed(s[p..p + |b|]);
      Utf8.ValidateIsGrammar(s, p);
      assert Utf8.Validate(s, p) == Utf8.Taken(true, |b|);
    } else {
      assert b == [s[p]];
    }
  }

  /** The reader's table of escapes is the one of the grammar; NUL marks what is not in it. */
  lemma EscapesAgree(letter: byte)
    ensures EscapedBy(letter).None? <==> Strings.Unescape(letter) == NUL
    ensures EscapedBy(letter).Some? ==> EscapedBy(letter).value == Strings.Unescape(letter)
  {
  }

  lemma ShortComplete(validate: bool, u: Unit, s: Text, p: nat)
    requires u.Short? && UnitOk(validate, u) && At(s, p, UnitText(u))
    ensures p <= |s| && Strings.TurnAt(validate, s, p) == Strings.Piece(UnitBytes(u), p + 2)
  {
    hide EscapedBy, Strings.Unescape;
    EscapesAgree(u.letter);
    AtPeek(s, p, UnitText(u), 0);
    AtPeek(s, p, UnitText(u), 1);
  }

  lemma EscapeTurn(validate: bool, s: Text, p: nat)
    requires Peek(s, p) == BACKSLASH && Peek(s, p + 1) == 0x75 && Strings.UnicodeEscape(s, p).Codepoint?
    ensures var e := Strings.UnicodeEscape(s, p);
      p <= |s| && Strings.TurnAt(validate, s, p) == Strings.Piece(Utf8.Encode(e.cp), e.next)
  {
    hide Strings.UnicodeEscape, Utf8.Encode;
  }

  lemma HexComplete(u: Unit, s: Text, p: nat)
    requires u.Hex? && UnitOk(false, u) && At(s, p, UnitText(u))
    ensures Peek(s, p) == BACKSLASH && Peek(s, p + 1) == 0x75
    ensures Strings.UnicodeEscape(s, p) == Strings.Codepoint(HexNumber(u.digits), p + |UnitText(u)|)
  {
    hide Strings.Hex4, HexNumber, FourHex;
    AtConcat(s, p, [BACKSLASH, 0x75], u.digits);
    EscapeMark(s, p);
    HexAt(s, p + 2, u.digits);
  }

  lemma PairComplete(u: Unit, s: Text, p: nat)
    requires u.Pair? && UnitOk(false, u) && At(s, p, UnitText(u))
    ensures Peek(s, p) == BACKSLASH && Peek(s, p + 1) == 0x75
    ensures Strings.UnicodeEscape(s, p) == Strings.Codepoint(
      (HexNumber(u.high) - 0xD800) * 0x400 + (HexNumber(u.low) - 0xDC00) + 0x10000, p + |UnitText(u)|)
  {
    hide Strings.Hex4, HexNumber, FourHex, At, Peek, UnitText;
    PairAt(u, s, p);
    EscapeMark(s, p);
    EscapeMark(s, p + 6);
    HexAt(s, p + 2, u.high);
    HexAt(s, p + 8, u.low);
  }

  /** Where the parts of a surrogate pair stand. */
  lemma PairAt(u: Unit, s: Text, p: nat)
    requires u.Pair? && FourHex(u.high) && FourHex(u.low) && At(s, p, UnitText(u))
    ensures At(s, p, [BACKSLASH, 0x75]) && At(s, p + 2, u.high)
    ensures At(s, p + 6, [BACKSLASH, 0x75]) && At(s, p + 8, u.low) && |UnitText(u)| == 12
  {
    hide FourHex, At;
    var mark: Text := [BACKSLASH, 0x75];
    FourLong(u.high);
    FourLong(u.low);
    AtConcat(s, p, mark + u.high, mark + u.low);
    AtConcat(s, p, mark, u.high);
    AtConcat(s, p + 6, mark, u.low);
  }

  lemma FourLong(t: Text)
    requires FourHex(t)
    ensures |t| == 4
  {
  }

  lemma EscapeMark(s: Text, p: nat)
    requires At(s, p, [BACKSLASH, 0x75])
    ensures Peek(s, p) == BACKSLASH && Peek(s, p + 1) == 0x75 && Strings.Unescape(0x75) == NUL
  {
    AtPeek(s, p, [BACKSLASH, 0x75], 0);
    AtPeek(s, p, [BACKSLASH, 0x75], 1);
  }

  lemma HexAt(s: Text, p: nat, d: Text)
    requires FourHex(d) && At(s, p, d)
    ensures |d| == 4 && Strings.Hex4(s, p) == Some(HexNumber(d))
  {
    assert s[p..p + 4] == d;
    Hex4Iff(s, p);
  }

  /** What the string loop finds is a unit that stands there. */
  lemma UnitSound(validate: bool, s: Text, p: nat) returns (u: Unit)
    requires p <= |s| && Strings.TurnAt(validate, s, p).Piece?
    ensures var t := Strings.TurnAt(validate, s, p);
      UnitOk(validate, u) && s[p..t.next] == UnitText(u) && t.bytes == UnitBytes(u)
  {
    hide Utf8.Validate, Utf8.WellFormed, Utf8.Encode, Strings.Hex4, HexNumber, FourHex;
    var t := Strings.TurnAt(validate, s, p);
    var e := Peek(s, p + 1);
    if Peek(s, p) != BACKSLASH {
      u := Plain(t.bytes);
      if validate {
        Utf8.ValidateIsGrammar(s, p);
        WellFormedIsSomething(t.bytes);
      }
      assert s[p..t.next] == t.bytes;
    } else if Strings.Unescape(e) != NUL {
      EscapesAgree(e);
      u := Short(e);
      assert s[p..p + 2] == [BACKSLASH, e];
    } else {
      u := EscapeSound(validate, s, p);
    }
  }

  lemma WellFormedIsSomething(t: Text)
    requires Utf8.WellFormed(t)
    ensures t != []
  {
  }

  lemma EscapeSound(validate: bool, s: Text, p: nat) returns (u: Unit)
    requires p < |s| && s[p] == BACKSLASH && Peek(s, p + 1) == 0x75 && Strings.UnicodeEscape(s, p).Codepoint?
    ensures var e := Strings.UnicodeEscape(s, p);
      UnitOk(validate, u) && s[p..e.next] == UnitText(u) && Utf8.Encode(e.cp) == UnitBytes(u)
  {
    hide Utf8.Encode, Strings.Hex4, HexNumber, FourHex;
    Hex4Iff(s, p + 2);
    var e := Strings.UnicodeEscape(s, p);
    var d := s[p + 2..p + 6];
    assert s[p..p + 6] == [BACKSLASH, 0x75] + d;
    if 0xD800 <= HexNumber(d) <= 0xDBFF {
      Hex4Iff(s, p + 8);
      var l := s[p + 8..p + 12];
      u := Pair(d, l);
      assert s[p + 6..p + 12] == [BACKSLASH, 0x75] + l;
      assert s[p..p + 12] == s[p..p + 6] + s[p + 6..p + 12];
    } else {
      u := Hex(d);
    }
  }

  lemma {:induction false} UnitsComplete(validate: bool, us: seq<Unit>, s: Text, p: nat, out: Text)
    requires UnitsOk(validate, us) && At(s, p, UnitsText(us) + [QUOTE])
    ensures p <= |s|
    ensures Strings.Decode(validate, s, p, out) == Strings.Done(out + UnitsBytes(us), p + |UnitsText(us)| + 1)
    decreases |us|
  {
    hide UnitOk, UnitText, UnitBytes, Strings.TurnAt;
    if us == [] {
      ClosingAt(validate, s, p);
      assert out + [] == out;
    } else {
      var u, rest := us[0], us[1..];
      assert UnitsText(us) + [QUOTE] == UnitText(u) + (UnitsText(rest) + [QUOTE]);
      AtConcat(s, p, UnitText(u), UnitsText(rest) + [QUOTE]);
      UnitComplete(validate, u, s, p);
      UnitsComplete(validate, rest, s, p + |UnitText(u)|, out + UnitBytes(u));
      assert out + UnitBytes(u) + UnitsBytes(rest) == out + UnitsBytes(us);
    }
  }

  lemma ClosingAt(validate: bool, s: Text, p: nat)
    requires At(s, p, [] + [QUOTE])
    ensures p < |s| && Strings.TurnAt(validate, s, p).Closing?
  {
    AtPeek(s, p, [] + [QUOTE], 0);
  }

  lemma {:induction false} UnitsSound(validate: bool, s: Text, p: nat, out: Text) returns (us: seq<Unit>)
    requires p <= |s| && Strings.Decode(validate, s, p, out).Done?
    ensures var d := Strings.Decode(validate, s, p, out);
      UnitsOk(validate, us) && s[p..d.pos] == UnitsText(us) + [QUOTE] && d.str == out + UnitsBytes(us)
    decreases |s| - p
  {
    hide UnitOk, UnitText, UnitBytes, Strings.TurnAt;
    var t := Strings.TurnAt(validate, s, p);
    if t.Closing? {
      us := [];
      ClosingIsQuote(validate, s, p);
      assert s[p..p + 1] == [QUOTE] && out + [] == out;
    } else {
      var u := UnitSound(validate, s, p);
      var rest := UnitsSound(validate, s, t.next, out + t.bytes);
      us := [u] + rest;
      assert us[1..] == rest;
      var q := Strings.Decode(validate, s, p, out).pos;
      assert s[p..q] == s[p..t.next] + s[t.next..q];
    }
  }

  lemma ClosingIsQuote(validate: bool, s: Text, p: nat)
    requires p <= |s| && Strings.TurnAt(validate, s, p).Closing?
    ensures p < |s| && s[p] == QUOTE
  {
  }

  lemma StringComplete(validate: bool, us: seq<Unit>, s: Text, p: nat)
    requires UnitsOk(validate, us) && At(s, p, StringText(us))
    ensures p < |s| && Peek(s, p) == QUOTE
    ensures Strings.ParseString(validate, s, p) == Strings.Done(UnitsBytes(us), p + |StringText(us)|)
  {
    hide UnitsText, UnitsBytes, UnitsOk, Strings.Decode;
    assert StringText(us) == [QUOTE] + (UnitsText(us) + [QUOTE]);
    AtConcat(s, p, [QUOTE], UnitsText(us) + [QUOTE]);
    AtPeek(s, p, [QUOTE], 0);
    UnitsComplete(validate, us, s, p + 1, []);
    assert [] + UnitsBytes(us) == UnitsBytes(us);
  }

  lemma StringSound(validate: bool, s: Text, p: nat) returns (us: seq<Unit>)
    requires p < |s| && s[p] == QUOTE && Strings.ParseString(validate, s, p).Done?
    ensures var d := Strings.ParseString(validate, s, p);
      UnitsOk(validate, us) && s[p..d.pos] == StringText(us) && d.str == UnitsBytes(us)
  {
    hide UnitsText, UnitsBytes, UnitsOk, Strings.Decode;
    us := UnitsSound(validate, s, p + 1, []);
    var q := Strings.ParseString(validate, s, p).pos;
    assert s[p..q] == [QUOTE] + s[p + 1..q];
    assert [] + UnitsBytes(us) == UnitsBytes(us);
  }

  // ---- numbers ----

  /** A character that would continue a number. */
  predicate GoesOn(c: byte) {
    IsDigit(c) || c == DOT || Numbers.IsExponentMark(c)
  }

  lemma {:induction false} DigitsEndAt(s: Text, q: nat, t: Text)
    requires At(s, q, t) && Numbers.AllDigits(t) && !IsDigit(Peek(s, q + |t|))
    ensures Numbers.DigitsEnd(s, q) == q + |t|
    decreases |t|
  {
    if t != [] {
      AtPeek(s, q, t, 0);
      assert t == [t[0]] + t[1..];
      AtConcat(s, q, [t[0]], t[1..]);
      DigitsEndAt(s, q + 1, t[1..]);
    }
  }

  /** A run of digits that stands in the text and is followed by no digit. */
  lemma DigitsAt(s: Text, q: nat, t: Text)
    requires t != [] && At(s, q, t) && Numbers.AllDigits(t) && !IsDigit(Peek(s, q + |t|))
    ensures IsDigit(Peek(s, q)) && Peek(s, q) == t[0] && Numbers.DigitsEnd(s, q) == q + |t| <= |s|
    ensures s[q..q + |t|] == t
  {
    AtPeek(s, q, t, 0);
    DigitsEndAt(s, q, t);
  }

  lemma ExponentStops(n: Numeral)
    requires NumeralOk(n)
    ensures ExponentText(n) == [] <==> n.exponent.None?
    ensures n.exponent.Some? ==>
        Numbers.IsExponentMark(ExponentText(n)[0]) && !IsDigit(ExponentText(n)[0]) && ExponentText(n)[0] != DOT
  {
  }

  /** The exponent of a numeral, scanned. */
  lemma ExponentComplete(n: Numeral, s: Text, start: nat, p: nat, lowered: nat)
    requires NumeralOk(n) && n.exponent.Some? && start <= p
    requires At(s, p, ExponentText(n)) && !GoesOn(Peek(s, p + |ExponentText(n)|))
    requires n.exponent.value.sign != [MINUS] && |n.exponent.value.digits| > 1 ==>
      Numbers.Decimal(n.exponent.value.digits) <= 308 + lowered
    ensures p < |s| && Numbers.IsExponentMark(Peek(s, p)) && Peek(s, p) != DOT && !IsDigit(Peek(s, p))
    ensures p + |ExponentText(n)| <= |s|
    ensures Numbers.ScanExponent(s, start, p, lowered)
         == Numbers.Number(Double(s[start..p + |ExponentText(n)|]), p + |ExponentText(n)|)
  {
    hide Numbers.Decimal, Numbers.DigitsEnd, Numbers.AllDigits, At, ExponentText, GoesOn, Peek;
    ExponentParts(n, s, p);
  }

  /** Where the parts of an exponent stand. */
  lemma ExponentParts(n: Numeral, s: Text, p: nat)
    requires NumeralOk(n) && n.exponent.Some?
    requires At(s, p, ExponentText(n)) && !GoesOn(Peek(s, p + |ExponentText(n)|))
    ensures var x := n.exponent.value;
      var q := p + 1 + |x.sign|;
      && q + |x.digits| == p + |ExponentText(n)| <= |s|
      && Peek(s, p) == x.mark && x.mark != DOT && !IsDigit(x.mark)
      && (x.sign != [] ==> x.sign == [Peek(s, p + 1)])
      && (x.sign == [] ==> Peek(s, p + 1) != PLUS && Peek(s, p + 1) != MINUS)
      && IsDigit(Peek(s, q)) && Numbers.DigitsEnd(s, q) == q + |x.digits| && s[q..q + |x.digits|] == x.digits
  {
    hide Numbers.DigitsEnd, Numbers.AllDigits, At, Peek, IsDigit, ExponentText, GoesOn, Numbers.IsExponentMark;
    var x := n.exponent.value;
    NotDigits(x.mark);
    StoppedBy(Peek(s, p + |ExponentText(n)|));
    ExponentAt(n, s, p);
    AtPeek(s, p, [x.mark], 0);
    DigitsAt(s, p + 1 + |x.sign|, x.digits);
    if x.sign != [] {
      AtPeek(s, p + 1, x.sign, 0);
    }
  }

  lemma ExponentAt(n: Numeral, s: Text, p: nat)
    requires n.exponent.Some? && At(s, p, ExponentText(n))
    ensures var x := n.exponent.value;
      && At(s, p, [x.mark]) && At(s, p + 1, x.sign) && At(s, p + 1 + |x.sign|, x.digits)
      && |ExponentText(n)| == 1 + |x.sign| + |x.digits|
  {
    hide At;
    var x := n.exponent.value;
    AtConcat(s, p, [x.mark] + x.sign, x.digits);
    AtConcat(s, p, [x.mark], x.sign);
  }

  lemma StoppedBy(c: byte)
    ensures !GoesOn(c) ==> !IsDigit(c)
  {
  }

  lemma NotDigits(mark: byte)
    ensures !IsDigit(PLUS) && !IsDigit(MINUS)
    ensures Numbers.IsExponentMark(mark) ==> !IsDigit(mark) && mark != DOT
  {
  }

  /** The fraction, read from its point. */
  lemma FractionAt(n: Numeral, s: Text, e: nat)
    requires NumeralOk(n) && At(s, e, FractionText(n)) && !IsDigit(Peek(s, e + |FractionText(n)|))
    requires Peek(s, e + |FractionText(n)|) != DOT
    ensures n.fraction.Some? <==> Peek(s, e) == DOT
    ensures !IsDigit(Peek(s, e))
    ensures n.fraction.Some? ==>
      && IsDigit(Peek(s, e + 1)) && Numbers.DigitsEnd(s, e + 1) == e + |FractionText(n)| <= |s|
      && s[e + 1..e + |FractionText(n)|] == n.fraction.value
  {
    hide Numbers.DigitsEnd, Numbers.AllDigits;
    if n.fraction.Some? {
      AtConcat(s, e, [DOT], n.fraction.value);
      AtPeek(s, e, [DOT], 0);
      DigitsAt(s, e + 1, n.fraction.value);
    }
  }

  lemma AtSlice(s: Text, p: nat, t: Text)
    requires At(s, p, t)
    ensures p + |t| <= |s| && s[p..p + |t|] == t
  {
  }

  /** Where the parts of a numeral stand. */
  lemma Layout(n: Numeral, s: Text, p: nat)
    requires NumeralOk(n) && At(s, p, NumeralText(n)) && !GoesOn(Peek(s, p + |NumeralText(n)|))
    ensures var q := p + |SignText(n)|;
      var e := q + |n.whole|;
      var f := e + |FractionText(n)|;
      && At(s, p, SignText(n)) && At(s, q, n.whole) && At(s, e, FractionText(n)) && At(s, f, ExponentText(n))
      && f + |ExponentText(n)| == p + |NumeralText(n)| <= |s|
      && !IsDigit(Peek(s, f)) && Peek(s, f) != DOT
      && (n.exponent.None? ==> !Numbers.IsExponentMark(Peek(s, f)))
      && s[p..p + |NumeralText(n)|] == NumeralText(n)
  {
    hide FractionText, ExponentText, Numbers.AllDigits, SignText, At, Peek;
    var f := p + |SignText(n)| + |n.whole| + |FractionText(n)|;
    AtSlice(s, p, NumeralText(n));
    AtConcat(s, p, SignText(n) + n.whole + FractionText(n), ExponentText(n));
    AtConcat(s, p, SignText(n) + n.whole, FractionText(n));
    AtConcat(s, p, SignText(n), n.whole);
    ExponentStops(n);
    if n.exponent.Some? {
      AtPeek(s, f, ExponentText(n), 0);
    }
  }

  /** A numeral that stands in the text, and is not continued, is scanned whole. */
  lemma NumeralComplete(fl: Flags, n: Numeral, s: Text, p: nat)
    requires NumeralOk(n) && InRange(fl, n) && At(s, p, NumeralText(n)) && !GoesOn(Peek(s, p + |NumeralText(n)|))
    ensures p < |s| && (Peek(s, p) == MINUS || IsDigit(Peek(s, p)))
    ensures Numbers.ParseNumber(fl, s, p) == Numbers.Number(NumeralEvent(n), p + |NumeralText(n)|)
  {
    hide Numbers.Decimal, Numbers.DigitsEnd, Numbers.AllDigits, Numbers.ParseTail, Numbers.IntegerEvent;
    hide FractionText, ExponentText, NumeralText, InRange, NumeralEvent;
    var q, e := p + |SignText(n)|, p + |SignText(n)| + |n.whole|;
    Layout(n, s, p);
    if n.minus {
      AtPeek(s, p, SignText(n), 0);
    }
    FractionAt(n, s, e);
    DigitsAt(s, q, n.whole);
    TailComplete(fl, n, s, p, e);
  }

  /** The reader and the grammar choose the same kind of integer. */
  lemma KindsAgree(minus: bool, v: nat)
    ensures WholeEvent(minus, v) == Numbers.IntegerEvent(minus, v)
  {
  }

  /** The fraction digits that count against the exponent. */
  function Lowered(n: Numeral): nat
    requires NumeralOk(n)
  {
    var whole := WholeEvent(n.minus, Numbers.Decimal(n.whole));
    if n.fraction.None? || whole.None? then 0
    else Numbers.FractionDigits(Numbers.Decimal(n.whole), |n.whole| - 1, n.fraction.value)
  }

  lemma TailComplete(fl: Flags, n: Numeral, s: Text, p: nat, e: nat)
    requires NumeralOk(n) && InRange(fl, n) && At(s, p, NumeralText(n)) && !GoesOn(Peek(s, p + |NumeralText(n)|))
    requires e == p + |SignText(n)| + |n.whole| && p < e <= |s|
    ensures Numbers.ParseTail(fl, s, p, n.minus, Numbers.Decimal(n.whole), |n.whole| - 1, e)
         == Numbers.Number(NumeralEvent(n), p + |NumeralText(n)|)
  {
    hide Numbers.Decimal, Numbers.DigitsEnd, Numbers.AllDigits, Numbers.FractionDigits, Numbers.ScanExponent;
    hide FractionText, ExponentText, NumeralText, SignText, Numbers.IntegerEvent, WholeEvent, IsDigit;
    hide Numbers.ParseTail;
    var f := e + |FractionText(n)|;
    Layout(n, s, p);
    FractionAt(n, s, e);
    NoParts(n);
    KindsAgree(n.minus, Numbers.Decimal(n.whole));
    Numbers.TailShape(fl, s, p, n.minus, Numbers.Decimal(n.whole), |n.whole| - 1, e);
    if n.exponent.Some? {
      ExponentComplete(n, s, p, f, Lowered(n));
    }
  }

  lemma NoParts(n: Numeral)
    ensures n.fraction.None? ==> FractionText(n) == []
    ensures n.exponent.None? ==> ExponentText(n) == []
  {
  }

  /** What the number reader accepts is a numeral, in range, that is not continued as a numeral. */
  lemma NumeralSound(fl: Flags, s: Text, p: nat) returns (n: Numeral)
    requires p <= |s| && Numbers.ParseNumber(fl, s, p).Number?
    ensures var r := Numbers.ParseNumber(fl, s, p);
      NumeralOk(n) && InRange(fl, n) && s[p..r.pos] == NumeralText(n) && r.event == NumeralEvent(n)
  {
    hide Numbers.Decimal, Numbers.FractionDigits, Numbers.IntegerEvent, Numbers.ParseTail;
    var minus := Peek(s, p) == MINUS;
    var q := if minus then p + 1 else p;
    var e := if Peek(s, q) == ZERO then q + 1 else Numbers.DigitsEnd(s, q);
    n := TailSound(fl, s, p, minus, q, e);
  }

  /** The ways an accepted numeral can end. */
  lemma TailCases(fl: Flags, s: Text, p: nat, minus: bool, v: nat, significant: nat, e: nat)
    requires p < e <= |s| && Numbers.ParseTail(fl, s, p, minus, v, significant, e).Number?
    ensures var r := Numbers.ParseTail(fl, s, p, minus, v, significant, e);
      var whole := Numbers.IntegerEvent(minus, v);
      var f := if Peek(s, e) == DOT then Numbers.DigitsEnd(s, e + 1) else e;
      var lowered :=
        if Peek(s, e) != DOT || whole.None? then 0 else Numbers.FractionDigits(v, significant, s[e + 1..f]);
      && e <= f <= |s| && (Peek(s, e) == DOT ==> IsDigit(Peek(s, e + 1)))
      && (r.event.Double? ==> !fl.overflows(r.event.numeral))
      && if Numbers.IsExponentMark(Peek(s, f)) then r == Numbers.ScanExponent(s, p, f, lowered)
         else if f == e && whole.Some? then r == Numbers.Number(whole.value, e)
         else r == Numbers.Number(Double(s[p..f]), f)
  {
    hide Numbers.FractionDigits, Numbers.IntegerEvent, Numbers.ScanExponent;
  }

  lemma TailSound(fl: Flags, s: Text, p: nat, minus: bool, q: nat, e: nat) returns (n: Numeral)
    requires p <= q < e <= |s| && q == (if minus then p + 1 else p) && (minus ==> Peek(s, p) == MINUS)
    requires Numbers.AllDigits(s[q..e]) && (s[q] == ZERO ==> e == q + 1)
    requires Numbers.ParseTail(fl, s, p, minus, Numbers.Decimal(s[q..e]), e - q - 1, e).Number?
    ensures var r := Numbers.ParseTail(fl, s, p, minus, Numbers.Decimal(s[q..e]), e - q - 1, e);
      NumeralOk(n) && InRange(fl, n) && s[p..r.pos] == NumeralText(n) && r.event == NumeralEvent(n)
  {
    hide Numbers.Decimal, Numbers.FractionDigits, Numbers.IntegerEvent, WholeEvent, Numbers.ScanExponent;
    hide Numbers.ParseTail;
    hide FractionText, ExponentText, SignText, NumeralText, Numbers.DigitsEnd, Numbers.AllDigits, InRange;
    TailCases(fl, s, p, minus, Numbers.Decimal(s[q..e]), e - q - 1, e);
    var r := Numbers.ParseTail(fl, s, p, minus, Numbers.Decimal(s[q..e]), e - q - 1, e);
    var fraction, f := FractionSound(s, e);
    n := Numeral(minus, s[q..e], fraction, None);
    WholeOk(s, q, e);
    KindsAgree(minus, Numbers.Decimal(n.whole));
    if Numbers.IsExponentMark(Peek(s, f)) {
      var x := ExponentSound(s, p, f, Lowered(n));
      n := n.(exponent := Some(x));
    }
    PartsText(n, s, p, q, e, f, r.pos);
    InRangeIs(fl, n);
  }

  lemma InRangeIs(fl: Flags, n: Numeral)
    requires NumeralOk(n) && (NumeralEvent(n).Double? ==> !fl.overflows(NumeralText(n)))
    requires n.exponent.Some? && n.exponent.value.sign != [MINUS] && |n.exponent.value.digits| > 1 ==>
      Numbers.Decimal(n.exponent.value.digits) <= 308 + Lowered(n)
    ensures InRange(fl, n)
  {
    hide NumeralText, NumeralEvent, Numbers.Decimal, Numbers.FractionDigits, WholeEvent;
  }

  lemma WholeOk(s: Text, q: nat, e: nat)
    requires q < e <= |s|
    ensures s[q..e] != [] && s[q..e][0] == s[q]
  {
  }

  /** The fraction behind the integer digits, if there is one, and where it ends. */
  lemma FractionSound(s: Text, e: nat) returns (fraction: Option<Text>, f: nat)
    requires e <= |s|
    ensures Peek(s, e) != DOT ==> fraction == None && f == e
    ensures Peek(s, e) == DOT && !IsDigit(Peek(s, e + 1)) ==> f == e
    ensures Peek(s, e) == DOT && IsDigit(Peek(s, e + 1)) ==>
      && f == Numbers.DigitsEnd(s, e + 1) && e + 1 < f <= |s|
      && fraction == Some(s[e + 1..f]) && Numbers.AllDigits(s[e + 1..f]) && s[e..f] == [DOT] + s[e + 1..f]
  {
    fraction, f := None, e;
    if Peek(s, e) == DOT && IsDigit(Peek(s, e + 1)) {
      f := Numbers.DigitsEnd(s, e + 1);
      fraction := Some(s[e + 1..f]);
    }
  }

  lemma PartsText(n: Numeral, s: Text, p: nat, q: nat, e: nat, f: nat, r: nat)
    requires p <= q <= e <= f <= r <= |s| && n.whole == s[q..e]
    requires q == (if n.minus then p + 1 else p) && (n.minus ==> Peek(s, p) == MINUS)
    requires if n.fraction.None? then f == e else s[e..f] == [DOT] + n.fraction.value
    requires if n.exponent.None? then r == f
      else s[f..r] == [n.exponent.value.mark] + n.exponent.value.sign + n.exponent.value.digits
    ensures s[p..r] == NumeralText(n)
  {
    Join(s, p, q, e, f, r);
    assert s[p..q] == SignText(n);
  }

  lemma Join(s: Text, p: nat, q: nat, e: nat, f: nat, r: nat)
    requires p <= q <= e <= f <= r <= |s|
    ensures s[p..r] == s[p..q] + s[q..e] + s[e..f] + s[f..r]
  {
    assert s[p..r] == s[p..f] + s[f..r];
    assert s[p..f] == s[p..e] + s[e..f];
    assert s[p..e] == s[p..q] + s[q..e];
  }

  lemma ExponentSound(s: Text, start: nat, p: nat, lowered: nat) returns (x: Exponent)
    requires start <= p < |s| && Numbers.IsExponentMark(s[p]) && Numbers.ScanExponent(s, start, p, lowered).Number?
    ensures var r := Numbers.ScanExponent(s, start, p, lowered);
      && Numbers.IsExponentMark(x.mark) && (x.sign == [] || x.sign == [PLUS] || x.sign == [MINUS])
      && x.digits != [] && Numbers.AllDigits(x.digits)
      && s[p..r.pos] == [x.mark] + x.sign + x.digits && r.event == Double(s[start..r.pos])
      && (x.sign != [MINUS] && |x.digits| > 1 ==> Numbers.Decimal(x.digits) <= 308 + lowered)
  {
    hide Numbers.Decimal, Numbers.AllDigits, Numbers.DigitsEnd;
    var q := if Peek(s, p + 1) == PLUS || Peek(s, p + 1) == MINUS then p + 2 else p + 1;
    var e := Numbers.DigitsEnd(s, q);
    x := Exponent(s[p], s[p + 1..q], s[q..e]);
    SignSlice(s, p, q);
    SomeDigits(s, q);
    MarkSignDigits(s, p, q, e);
  }

  lemma SignSlice(s: Text, p: nat, q: nat)
    requires p < |s| && q == (if Peek(s, p + 1) == PLUS || Peek(s, p + 1) == MINUS then p + 2 else p + 1)
    ensures q <= |s| && (s[p + 1..q] == [] || s[p + 1..q] == [PLUS] || s[p + 1..q] == [MINUS])
    ensures s[p + 1..q] == [MINUS] <==> Peek(s, p + 1) == MINUS
  {
  }

  lemma SomeDigits(s: Text, q: nat)
    requires q <= |s| && IsDigit(Peek(s, q))
    ensures q < Numbers.DigitsEnd(s, q) <= |s| && Numbers.AllDigits(s[q..Numbers.DigitsEnd(s, q)])
  {
  }

  lemma MarkSignDigits(s: Text, p: nat, q: nat, e: nat)
    requires p < q <= e <= |s|
    ensures s[p..e] == [s[p]] + s[p + 1..q] + s[q..e]
  {
  }
}
