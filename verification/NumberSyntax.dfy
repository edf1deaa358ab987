/** What `ParseNumber` accepts and which event it sends. */
module NumberSyntax {
  import opened Bytes
  import opened Json

  datatype Scanned =
    | Number(event: Event, pos: nat)
    | NotNumber(code: ErrorCode, offset: nat)

  predicate IsNumberEvent(ev: Event) {
    ev.Int? || ev.Uint? || ev.Int64? || ev.Uint64? || ev.Double?
  }

  /** The first position at or after `p` that holds no digit. */
  function DigitsEnd(s: Text, p: nat): (q: nat)
    ensures p <= q && !IsDigit(Peek(s, q))
    ensures forall i :: p <= i < q ==> i < |s| && IsDigit(s[i])
    ensures p <= |s| ==> q <= |s|
    decreases |s| - p
  {
    if IsDigit(Peek(s, p)) then DigitsEnd(s, p + 1) else p
  }

  predicate AllDigits(t: Text) {
    forall i :: 0 <= i < |t| ==> IsDigit(t[i])
  }

  /** The value of a run of digits. */
  function Decimal(t: Text): (v: nat)
    requires AllDigits(t)
  {
    if t == [] then 0 else Decimal(t[..|t| - 1]) * 10 + (t[|t| - 1] - ZERO)
  }

  /** The event of an integer numeral: the narrowest kind that holds the value, if one does. */
  function IntegerEvent(minus: bool, v: nat): (r: Option<Event>)
    ensures r.Some? ==> IsNumberEvent(r.value) && !r.value.Double?
  {
    if minus then
      if v <= 0x8000_0000 then Some(Int(-(v as int)))
      else if v <= 0x8000_0000_0000_0000 then Some(Int64(-(v as int)))
      else None
    else
      if v <= 0xFFFF_FFFF then Some(Uint(v))
      else if v <= 0xFFFF_FFFF_FFFF_FFFF then Some(Uint64(v))
      else None
  }

  // ---- the fraction and the exponent ----

  /** How far the digits of a fraction lower the decimal exponent: digits are counted while the
      64-bit significand has room, then up to 17 significant ones. */
  function FractionDigits(significand: nat, significant: nat, t: Text): (n: nat)
    requires AllDigits(t)
    ensures n <= |t|
    decreases |t|
  {
    if t == [] then 0
    else if significand > 0x1F_FFFF_FFFF_FFFF then
      if significant >= 17 then 0 else if |t| <= 17 - significant then |t| else 17 - significant
    else
      var next := significand * 10 + (t[0] - ZERO);
      1 + FractionDigits(next, if next != 0 then significant + 1 else significant, t[1..])
  }

  /** What one more digit of a fraction counts. */
  lemma FractionStep(significand: nat, significant: nat, s: Text, p: nat, f: nat)
    requires p < f <= |s| && AllDigits(s[p..f])
    ensures IsDigit(s[p]) && AllDigits(s[p + 1..f])
    ensures significand <= 0x1F_FFFF_FFFF_FFFF ==>
      var next := significand * 10 + (s[p] - ZERO);
      FractionDigits(significand, significant, s[p..f])
      == 1 + FractionDigits(next, if next != 0 then significant + 1 else significant, s[p + 1..f])
    ensures significand > 0x1F_FFFF_FFFF_FFFF ==>
      FractionDigits(significand, significant, s[p..f])
      == if significant >= 17 then FractionDigits(significand, significant, s[p + 1..f])
         else 1 + FractionDigits(significand, significant + 1, s[p + 1..f])
  {
    assert s[p..f][1..] == s[p + 1..f];
  }

  lemma FractionEnds(significand: nat, significant: nat)
    ensures AllDigits([]) && FractionDigits(significand, significant, []) == 0
  {
  }

  /** The exponent part, from its `e` at `p`, in a numeral that starts at `start`. */
  function ScanExponent(s: Text, start: nat, p: nat, fractionDigits: nat): (r: Scanned)
    requires start <= p < |s|
    ensures r.Number? ==> p < r.pos <= |s| && r.event.Double?
  {
    var q := if Peek(s, p + 1) == PLUS || Peek(s, p + 1) == MINUS then p + 2 else p + 1;
    if !IsDigit(Peek(s, q)) then NotNumber(NumberMissExponent, q)
    else
      var e := DigitsEnd(s, q);
      if Peek(s, p + 1) != MINUS && e > q + 1 && Decimal(s[q..e]) > 308 + fractionDigits then
        NotNumber(NumberTooBig, start)
      else
        Number(Double(s[start..e]), e)
  }

  /** A numeral that is a `double`, complete up to `p`. */
  function FinishDouble(fl: Flags, start: nat, r: Scanned): Scanned
  {
    if r.Number? && r.event.Double? && fl.overflows(r.event.numeral) then NotNumber(NumberTooBig, start) else r
  }

  predicate IsExponentMark(c: byte) {
    c == 0x65 || c == 0x45
  }

  /** The part of a numeral after its integer digits, which have the value `v` and end at `e`. */
  function ParseTail(fl: Flags, s: Text, start: nat, minus: bool, v: nat, significant: nat, e: nat): (r: Scanned)
    requires start < e <= |s|
    ensures r.Number? ==> start < r.pos <= |s| && IsNumberEvent(r.event)
  {
    var whole := IntegerEvent(minus, v);
    if Peek(s, e) == DOT then
      if !IsDigit(Peek(s, e + 1)) then NotNumber(NumberMissFraction, e + 1)
      else
        var f := DigitsEnd(s, e + 1);
        var n := if whole.None? then 0 else FractionDigits(v, significant, s[e + 1..f]);
        FinishDouble(fl, start,
          if IsExponentMark(Peek(s, f)) then ScanExponent(s, start, f, n) else Number(Double(s[start..f]), f))
    else if IsExponentMark(Peek(s, e)) then FinishDouble(fl, start, ScanExponent(s, start, e, 0))
    else if whole.None? then FinishDouble(fl, start, Number(Double(s[start..e]), e))
    else Number(whole.value, e)
  }

  /** The ways a numeral can end, once its point has digits behind it. */
  lemma TailShape(fl: Flags, s: Text, p: nat, minus: bool, v: nat, significant: nat, e: nat)
    requires p < e <= |s| && (Peek(s, e) == DOT ==> IsDigit(Peek(s, e + 1)))
    ensures var whole := IntegerEvent(minus, v);
      var f := if Peek(s, e) == DOT then DigitsEnd(s, e + 1) else e;
      var lowered := if Peek(s, e) != DOT || whole.None? then 0 else FractionDigits(v, significant, s[e + 1..f]);
      && e <= f <= |s|
      && ParseTail(fl, s, p, minus, v, significant, e)
         == if IsExponentMark(Peek(s, f)) then FinishDouble(fl, p, ScanExponent(s, p, f, lowered))
            else if f == e && whole.Some? then Number(whole.value, e)
            else FinishDouble(fl, p, Number(Double(s[p..f]), f))
  {
    hide FractionDigits, IntegerEvent, ScanExponent, FinishDouble;
  }

  lemma TailWithoutDigits(fl: Flags, s: Text, p: nat, minus: bool, v: nat, significant: nat, e: nat)
    requires p < e <= |s| && Peek(s, e) == DOT && !IsDigit(Peek(s, e + 1))
    ensures ParseTail(fl, s, p, minus, v, significant, e) == NotNumber(NumberMissFraction, e + 1)
  {
  }

  /** `ParseNumber`. */
  function ParseNumber(fl: Flags, s: Text, p: nat): (r: Scanned)
    requires p <= |s|
    ensures r.Number? ==> p < r.pos <= |s| && IsNumberEvent(r.event)
  {
    var minus := Peek(s, p) == MINUS;
    var q := if minus then p + 1 else p;
    if !IsDigit(Peek(s, q)) then NotNumber(ValueInvalid, q)
    else
      var e := if Peek(s, q) == ZERO then q + 1 else DigitsEnd(s, q);
      ParseTail(fl, s, p, minus, Decimal(s[q..e]), e - q - 1, e)
  }

  // ---- facts the accumulating loops use ----

  lemma DecimalStep(s: Text, q: nat, k: nat)
    requires q <= k < |s| && AllDigits(s[q..k + 1])
    ensures AllDigits(s[q..k]) && IsDigit(s[k])
    ensures Decimal(s[q..k + 1]) == Decimal(s[q..k]) * 10 + (s[k] - ZERO)
  {
    var t := s[q..k + 1];
    assert t[..k - q] == s[q..k];
    assert t[k - q] == s[k];
    assert |t| - 1 == k - q;
  }

  lemma {:induction false} DecimalMonotone(s: Text, q: nat, k: nat, e: nat)
    requires q <= k <= e <= |s| && AllDigits(s[q..e])
    ensures AllDigits(s[q..k]) && Decimal(s[q..k]) <= Decimal(s[q..e])
    decreases e - k
  {
    if k < e {
      DecimalMonotone(s, q, k + 1, e);
      DecimalStep(s, q, k);
    } else {
      assert s[q..k] == s[q..e];
    }
  }

  /** Inside a run of digits the rest of the run ends at the same place. */
  lemma {:induction false} DigitsEndInside(s: Text, p: nat, k: nat)
    requires p <= k <= DigitsEnd(s, p)
    ensures DigitsEnd(s, k) == DigitsEnd(s, p)
    decreases k - p
  {
    if p < k {
      DigitsEndInside(s, p + 1, k);
    }
  }

  function Pow10(n: nat): (v: nat)
    ensures v >= 1
  {
    if n == 0 then 1 else 10 * Pow10(n - 1)
  }

  lemma {:induction false} Pow10Monotone(m: nat, n: nat)
    requires m <= n
    ensures Pow10(m) <= Pow10(n)
    decreases n - m
  {
    if m < n {
      Pow10Monotone(m, n - 1);
    }
  }

  lemma {:induction false} DecimalBound(t: Text)
    requires AllDigits(t)
    ensures Decimal(t) < Pow10(|t|)
  {
    if t != [] {
      DecimalBound(t[..|t| - 1]);
    }
  }

  /** A value that no 17 digits can write has at least 18. */
  lemma ManyDigits(t: Text)
    requires AllDigits(t) && Decimal(t) >= 100_000_000_000_000_000
    ensures |t| >= 18
  {
    DecimalBound(t);
    assert Pow10(4) == 10_000;
    assert Pow10(8) == 100_000_000;
    assert Pow10(12) == 1_000_000_000_000;
    assert Pow10(16) == 10_000_000_000_000_000;
    assert Pow10(17) == 100_000_000_000_000_000;
    if |t| <= 17 {
      Pow10Monotone(|t|, 17);
    }
  }
}
