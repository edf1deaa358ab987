/** What the reader refuses for its exponent: numbers beyond every double, and zero. */
module NumberRange {
  import opened Bytes
  import opened Json
  import opened JsonText
  import opened NumberSyntax
  import TokenGrammar

  // ---- values of digits ----

  lemma {:induction false} DecimalConcat(w: Text, t: Text)
    requires AllDigits(w + t)
    ensures AllDigits(w) && AllDigits(t)
    ensures Decimal(w + t) == Decimal(w) * Pow10(|t|) + Decimal(t)
    decreases |t|
  {
    hide Pow10;
    PartsAreDigits(w, t);
    if t == [] {
      NoPower();
      assert w + t == w;
    } else {
      var front := t[..|t| - 1];
      assert (w + t)[..|w + t| - 1] == w + front && (w + t)[|w + t| - 1] == t[|t| - 1];
      DecimalConcat(w, front);
      PowerStep(|front|);
      Appended(Decimal(w), Pow10(|front|), Decimal(front), t[|t| - 1] - ZERO);
    }
  }

  lemma PartsAreDigits(w: Text, t: Text)
    ensures AllDigits(w + t) <==> AllDigits(w) && AllDigits(t)
  {
    forall i | 0 <= i < |w|
      ensures (w + t)[i] == w[i]
    {
    }
    forall i | 0 <= i < |t|
      ensures (w + t)[|w| + i] == t[i]
    {
    }
  }

  lemma PowerStep(n: nat)
    ensures Pow10(n + 1) == 10 * Pow10(n)
  {
  }

  lemma Associated(a: nat, b: nat, c: nat)
    ensures a * (b * c) == a * b * c
    ensures a * (c * b) == a * b * c
  {
  }

  lemma Appended(a: nat, p: nat, b: nat, c: nat)
    ensures (a * p + b) * 10 + c == a * (10 * p) + (b * 10 + c)
  {
  }

  lemma Scaled(a: nat, b: nat, k: nat)
    requires a >= b
    ensures a * k >= b * k
  {
  }

  lemma TenTimes(v: nat, m: nat, k: nat)
    ensures v * Pow10(m) >= Pow10(k) ==> v * Pow10(m + 1) >= Pow10(k + 1)
  {
    hide Pow10;
    PowerStep(m);
    PowerStep(k);
    Associated(v, Pow10(m), 10);
  }

  // ---- the digits of a fraction that are counted ----

  /** The zeros in front of the first other digit are all counted, however many there are. */
  lemma {:induction false} ZerosCounted(w: Text, significant: nat, t: Text)
    requires AllDigits(w + t)
    ensures AllDigits(w) && AllDigits(t)
    ensures Decimal(w + t) > 0 ==>
      Decimal(w + t) * Pow10(FractionDigits(Decimal(w), significant, t)) >= Pow10(|t|)
    decreases |t|
  {
    hide Decimal, Pow10;
    PartsAreDigits(w, t);
    var v, n := Decimal(w + t), FractionDigits(Decimal(w), significant, t);
    if t == [] {
      NoPower();
      Scaled(v, if v > 0 then 1 else 0, Pow10(n));
    } else if Decimal(w) > 0x1F_FFFF_FFFF_FFFF {
      DecimalConcat(w, t);
      Scaled(Decimal(w), 1, Pow10(|t|));
      Scaled(Pow10(n), 1, v);
    } else {
      var next, counted := w + [t[0]], if Decimal(w + [t[0]]) != 0 then significant + 1 else significant;
      assert next + t[1..] == w + t;
      ZerosCounted(next, counted, t[1..]);
      NextDigit(w, t[0]);
      TenTimes(v, FractionDigits(Decimal(next), counted, t[1..]), |t| - 1);
    }
  }

  lemma NextDigit(w: Text, c: byte)
    requires AllDigits(w) && IsDigit(c)
    ensures AllDigits(w + [c]) && Decimal(w + [c]) == Decimal(w) * 10 + (c - ZERO)
  {
    assert (w + [c])[..|w|] == w && (w + [c])[|w|] == c;
  }

  /** How many prefixes of `t`, put behind `w`, are not zero: the fraction digits that are significant. */
  function Significant(w: Text, t: Text): nat
    requires AllDigits(w + t)
    decreases |t|
  {
    PartsAreDigits(w, t);
    if t == [] then 0
    else
      assert w + [t[0]] + t[1..] == w + t;
      PartsAreDigits(w + [t[0]], t[1..]);
      (if Decimal(w + [t[0]]) != 0 then 1 else 0) + Significant(w + [t[0]], t[1..])
  }

  /**
   Exactly the digits that are counted: all of them until the significand passes 2^53 - 1, and from there
   on as many as make seventeen significant ones.
   */
  lemma {:induction false} CountedExactly(w: Text, significant: nat, t: Text) returns (k: nat)
    requires AllDigits(w + t)
    ensures k <= |t| && AllDigits(w) && AllDigits(t) && AllDigits(w + t[..k])
    ensures forall j :: 0 <= j < k ==> AllDigits(w + t[..j]) && Decimal(w + t[..j]) <= 0x1F_FFFF_FFFF_FFFF
    ensures k < |t| ==> Decimal(w + t[..k]) > 0x1F_FFFF_FFFF_FFFF
    ensures var counted, more := FractionDigits(Decimal(w), significant, t), |t| - k;
      var room := 17 - (significant + Significant(w, t[..k]));
      counted == k + (if more == 0 || room <= 0 then 0 else if more <= room then more else room)
    decreases |t|
  {
    hide Decimal;
    PartsAreDigits(w, t);
    k := 0;
    assert w + t[..0] == w;
    if t != [] && Decimal(w) <= 0x1F_FFFF_FFFF_FFFF {
      var next := w + [t[0]];
      assert next + t[1..] == w + t;
      NextDigit(w, t[0]);
      k := CountedExactly(next, if Decimal(next) != 0 then significant + 1 else significant, t[1..]);
      k := k + 1;
      assert next + t[1..][..k - 1] == w + t[..k] && t[..k][0] == t[0] && t[..k][1..] == t[1..][..k - 1];
      forall j | 0 <= j < k
        ensures AllDigits(w + t[..j]) && Decimal(w + t[..j]) <= 0x1F_FFFF_FFFF_FFFF
      {
        if j > 0 {
          assert next + t[1..][..j - 1] == w + t[..j];
        }
      }
    }
  }

  // ---- the refusal ----

  /** All digits of a numeral before its exponent, which is ten to this power less than it says. */
  function Fraction(n: Numeral): Text {
    if n.fraction.Some? then n.fraction.value else []
  }

  lemma SignificantDigits(n: Numeral)
    requires NumeralOk(n)
    ensures AllDigits(n.whole + Fraction(n))
  {
    PartsAreDigits(n.whole, Fraction(n));
  }

  function Significand(n: Numeral): nat
    requires NumeralOk(n)
  {
    SignificantDigits(n);
    Decimal(n.whole + Fraction(n))
  }

  /** The reader refuses the numeral for its exponent alone. */
  predicate Refused(n: Numeral)
    requires NumeralOk(n)
  {
    && n.exponent.Some? && n.exponent.value.sign != [MINUS] && |n.exponent.value.digits| > 1
    && Decimal(n.exponent.value.digits) > 308 + TokenGrammar.Lowered(n)
  }

  /** A numeral refused for its exponent has at least the value 1e309, which no double reaches, exactly
      when it has a digit that is not zero. */
  lemma RefusedIsHuge(n: Numeral)
    requires NumeralOk(n) && Refused(n)
    ensures Significand(n) * Pow10(Decimal(n.exponent.value.digits)) >= Pow10(309 + |Fraction(n)|)
       <==> Significand(n) > 0
  {
    hide Decimal, FractionDigits, WholeEvent, Pow10;
    SignificantDigits(n);
    CountedEnough(n);
    Shifted(Significand(n), Decimal(n.exponent.value.digits), TokenGrammar.Lowered(n), |Fraction(n)|, 309);
  }

  lemma Shifted(v: nat, e: nat, lowered: nat, f: nat, k: nat)
    requires e >= k + lowered && (v > 0 ==> v * Pow10(lowered) >= Pow10(f))
    ensures v * Pow10(e) >= Pow10(k + f) <==> v > 0
  {
    hide Pow10;
    if v > 0 {
      Pow10Monotone(k + lowered, e);
      Pow10Add(k, lowered);
      Pow10Add(k, f);
      Scaled(Pow10(e), Pow10(k) * Pow10(lowered), v);
      Scaled(v * Pow10(lowered), Pow10(f), Pow10(k));
      Reordered(Pow10(k), Pow10(lowered), v);
    }
  }

  lemma Reordered(a: nat, b: nat, c: nat)
    ensures a * b * c == c * b * a
  {
  }

  lemma CountedEnough(n: Numeral)
    requires NumeralOk(n)
    ensures Significand(n) > 0 ==> Significand(n) * Pow10(TokenGrammar.Lowered(n)) >= Pow10(|Fraction(n)|)
  {
    hide Decimal, FractionDigits, Pow10;
    SignificantDigits(n);
    var w, t := n.whole, Fraction(n);
    ZerosCounted(w, |w| - 1, t);
    assert Pow10(0) == 1 by { NoPower(); }
    if WholeEvent(n.minus, Decimal(w)).None? {
      TooWide(n.minus, Decimal(w));
      DecimalConcat(w, t);
      Scaled(Decimal(w), 1, Pow10(|t|));
    }
  }

  lemma TooWide(minus: bool, v: nat)
    requires WholeEvent(minus, v).None?
    ensures v >= 1
  {
  }

  lemma NoPower()
    ensures Pow10(0) == 1
  {
  }

  lemma {:induction false} Pow10Add(m: nat, n: nat)
    ensures Pow10(m + n) == Pow10(m) * Pow10(n)
    decreases m
  {
    hide Pow10;
    if m == 0 {
      NoPower();
    } else {
      Pow10Add(m - 1, n);
      PowerStep(m - 1);
      PowerStep(m - 1 + n);
      Associated(10, Pow10(m - 1), Pow10(n));
    }
  }

  /** Zero is refused too: `0e309`. */
  lemma ZeroRefused()
    ensures exists n :: NumeralOk(n) && Refused(n) && Significand(n) == 0
  {
    var x := Exponent(0x65, [], [0x33, 0x30, 0x39]);
    var n := Numeral(false, [ZERO], None, Some(x));
    assert [ZERO][..0] == [] && [ZERO] + [] == [ZERO];
    assert x.digits[..2] == [0x33, 0x30] && x.digits[..2][..1] == [0x33] && x.digits[..2][..1][..0] == [];
    assert Decimal([]) == 0;
    assert Decimal([0x33]) == 3;
    assert Decimal(x.digits[..2]) == 30;
    assert Decimal(x.digits) == 309;
    assert NumeralOk(n);
    assert TokenGrammar.Lowered(n) == 0;
    assert Refused(n);
    assert Significand(n) == 0;
  }
}
