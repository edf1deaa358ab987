/** What `WriteString` writes, the reader's string loop reads back, for both target encodings. */
module StringRoundTrip {
  import opened Bytes
  import opened WriterText
  import Strings = StringSyntax
  import Utf8

  // ---- escapes ----

  lemma HexDigitRead(d: nat)
    requires d < 16
    ensures IsHex(HexDigit(d)) && HexValue(HexDigit(d)) == d
  {
  }

  lemma HexRead(s: Text, p: nat, n: nat)
    requires n < 0x10000 && At(s, p, Hex4Text(n))
    ensures Strings.Hex4(s, p) == Some(n)
  {
    hide HexDigit, IsHex, HexValue;
    var t := Hex4Text(n);
    AtPeek(s, p, t, 0);
    AtPeek(s, p, t, 1);
    AtPeek(s, p, t, 2);
    AtPeek(s, p, t, 3);
    HexDigitRead(n / 0x1000);
    HexDigitRead(n / 0x100 % 16);
    HexDigitRead(n / 16 % 16);
    HexDigitRead(n % 16);
    assert Strings.HexRun(s, p, 1) == Some(n / 0x1000) by { assert Strings.HexRun(s, p, 0) == Some(0); }
    assert Strings.HexRun(s, p, 2) == Some(n / 0x100);
    assert Strings.HexRun(s, p, 3) == Some(n / 16);
  }

  /** A numeric escape with its backslash, outside the surrogates. */
  lemma BasicRead(s: Text, p: nat, cp: nat)
    requires cp <= 0xFFFF && Utf8.Scalar(cp) && At(s, p, [BACKSLASH, 0x75] + Hex4Text(cp))
    ensures Strings.UnicodeEscape(s, p) == Strings.Codepoint(cp, p + 6)
  {
    hide Strings.Hex4, Hex4Text;
    AtConcat(s, p, [BACKSLASH, 0x75], Hex4Text(cp));
    HexRead(s, p + 2, cp);
  }

  lemma PairRead(s: Text, p: nat, cp: nat)
    requires 0x10000 <= cp <= 0x10FFFF && At(s, p, UnicodeText(cp))
    ensures Strings.UnicodeEscape(s, p) == Strings.Codepoint(cp, p + 12)
  {
    hide Strings.Hex4, Hex4Text;
    var v := cp - 0x10000;
    var lead, trail := v / 0x400 + 0xD800, v % 0x400 + 0xDC00;
    var e: Text := [BACKSLASH, 0x75];
    AtConcat(s, p, e + Hex4Text(lead) + e, Hex4Text(trail));
    AtConcat(s, p, e + Hex4Text(lead), e);
    AtConcat(s, p, e, Hex4Text(lead));
    HexRead(s, p + 2, lead);
    AtPeek(s, p + 6, e, 0);
    AtPeek(s, p + 6, e, 1);
    HexRead(s, p + 8, trail);
  }

  /** A code point written in escapes is read back as its encoding. */
  lemma UnicodeRead(validate: bool, s: Text, p: nat, cp: nat)
    requires Utf8.Scalar(cp) && At(s, p, UnicodeText(cp))
    ensures Strings.TurnAt(validate, s, p) == Strings.Piece(Utf8.Encode(cp), p + |UnicodeText(cp)|)
  {
    hide Strings.UnicodeEscape, Hex4Text, Utf8.Encode;
    AtPeek(s, p, UnicodeText(cp), 0);
    AtPeek(s, p, UnicodeText(cp), 1);
    if cp <= 0xFFFF {
      BasicRead(s, p, cp);
    } else {
      PairRead(s, p, cp);
    }
  }

  lemma EscapeRead(validate: bool, s: Text, p: nat, c: byte)
    requires EscapeLetter(c) != NUL && At(s, p, EscapeText(c))
    ensures Strings.TurnAt(validate, s, p) == Strings.Piece([c], p + |EscapeText(c)|)
  {
    hide Strings.UnicodeEscape, HexDigit;
    AtPeek(s, p, EscapeText(c), 0);
    AtPeek(s, p, EscapeText(c), 1);
    if EscapeLetter(c) == 0x75 {
      assert c / 0x1000 == 0 && c / 0x100 % 16 == 0 && c / 16 % 16 == c / 16;
      assert HexDigit(0) == ZERO by { ZeroDigit(); }
      assert EscapeText(c) == [BACKSLASH, 0x75] + Hex4Text(c);
      BasicRead(s, p, c);
      assert Utf8.Encode(c) == [c];
    }
  }

  lemma ZeroDigit()
    ensures HexDigit(0) == ZERO
  {
  }

  // ---- one turn of either loop ----

  /** A sequence that is copied is accepted where it is copied to. */
  lemma CopyRead(validate: bool, str: Text, p: nat, n: nat, s: Text, q: nat)
    requires p + n <= |str| && Utf8.WellFormed(str[p..p + n]) && At(s, q, str[p..p + n])
    requires str[p] >= 0x20 && str[p] != QUOTE && str[p] != BACKSLASH
    requires validate || n == 1
    ensures Strings.TurnAt(validate, s, q) == Strings.Piece(str[p..p + n], q + n)
  {
    hide Utf8.Validate;
    assert n >= 1 && s[q..q + n] == str[p..p + n];
    AtPeek(s, q, str[p..p + n], 0);
    if validate {
      Utf8.ValidateIsGrammar(s, q);
      assert Utf8.Validate(s, q) == Utf8.Taken(true, n);
    } else {
      assert str[p..p + n] == [str[p]];
    }
  }

  /** The two loops agree on what they check. */
  predicate Compatible(tg: Target, validate: bool) {
    tg.ascii || tg.validate == validate
  }

  /** What one turn of the writer puts, one turn of the reader takes. */
  lemma TurnRead(tg: Target, validate: bool, str: Text, p: nat, s: Text, q: nat)
    requires p < |str| && PrintedAt(tg, str, p).Some? && At(s, q, PrintedAt(tg, str, p).value.bytes)
    requires Compatible(tg, validate)
    ensures var r := PrintedAt(tg, str, p).value;
      Strings.TurnAt(validate, s, q) == Strings.Piece(str[p..r.next], q + |r.bytes|)
  {
    hide Utf8.Validate, Utf8.Decode, UnicodeText, EscapeText, Strings.TurnAt;
    var c := str[p];
    if tg.ascii && c >= 0x80 {
      var cp := Utf8.Decode(str, p).value;
      Utf8.EncodeDecode(str, p);
      UnicodeRead(validate, s, q, cp);
    } else if EscapeLetter(c) != NUL {
      EscapeRead(validate, s, q, c);
      assert str[p..p + 1] == [c];
    } else if tg.validate {
      Utf8.ValidateIsGrammar(str, p);
      CopyRead(validate || tg.validate, str, p, Utf8.Validate(str, p).length, s, q);
      if !validate {
        SingleIsGrammar(str, p);
        CopyRead(validate, str, p, 1, s, q);
      }
    } else if validate {
      SingleIsGrammar(str, p);
      CopyRead(validate, str, p, 1, s, q);
    } else {
      PlainRead(str, p, s, q);
    }
  }

  lemma SingleIsGrammar(str: Text, p: nat)
    requires p < |str| && str[p] < 0x80
    ensures Utf8.WellFormed(str[p..p + 1]) && str[p..p + 1] == [str[p]] && Utf8.Validate(str, p) == Utf8.Taken(true, 1)
  {
  }

  lemma PlainRead(str: Text, p: nat, s: Text, q: nat)
    requires p < |str| && At(s, q, [str[p]])
    requires str[p] >= 0x20 && str[p] != QUOTE && str[p] != BACKSLASH
    ensures Strings.TurnAt(false, s, q) == Strings.Piece(str[p..p + 1], q + 1)
  {
    AtPeek(s, q, [str[p]], 0);
    assert str[p..p + 1] == [str[p]];
  }

  // ---- whole strings ----

  /** The reader decodes what a compatible writer escaped. */
  lemma {:induction false} DecodeEscaped(tg: Target, validate: bool, str: Text, p: nat, s: Text, q: nat, out: Text)
    requires p <= |str| && Escaped(tg, str, p).Some? && At(s, q, Escaped(tg, str, p).value + [QUOTE])
    requires Compatible(tg, validate)
    ensures Strings.Decode(validate, s, q, out)
         == Strings.Done(out + str[p..], q + |Escaped(tg, str, p).value| + 1)
    decreases |str| - p
  {
    hide PrintedAt, Strings.TurnAt;
    var t := Escaped(tg, str, p).value;
    if p == |str| {
      ClosingRead(validate, s, q, t);
      assert out + str[p..] == out;
    } else {
      var r := PrintedAt(tg, str, p).value;
      var rest := Escaped(tg, str, r.next).value;
      assert t + [QUOTE] == r.bytes + (rest + [QUOTE]);
      AtConcat(s, q, r.bytes, rest + [QUOTE]);
      TurnRead(tg, validate, str, p, s, q);
      DecodeEscaped(tg, validate, str, r.next, s, q + |r.bytes|, out + str[p..r.next]);
      assert out + str[p..r.next] + str[r.next..] == out + str[p..];
    }
  }

  lemma ClosingRead(validate: bool, s: Text, q: nat, t: Text)
    requires t == [] && At(s, q, t + [QUOTE])
    ensures q < |s| && Strings.TurnAt(validate, s, q).Closing?
  {
    AtPeek(s, q, t + [QUOTE], 0);
  }

  // ---- checking on the way out ----

  /** Greedy splitting decides validity: the first sequence is the one the validator takes. */
  lemma ValidGreedy(s: Text, p: nat)
    requires p < |s|
    ensures Utf8.ValidText(s[p..]) <==>
      Utf8.Validate(s, p).ok && Utf8.ValidText(s[p + Utf8.Validate(s, p).length..])
  {
    hide Utf8.Validate, Utf8.WellFormed;
    Utf8.ValidateIsGrammar(s, p);
    var t := s[p..];
    if Utf8.ValidText(t) {
      var n :| 1 <= n <= 4 && n <= |t| && Utf8.WellFormed(t[..n]) && Utf8.ValidText(t[n..]);
      assert t[..n] == s[p..p + n] && t[n..] == s[p + n..];
      assert Utf8.Validate(s, p) == Utf8.Taken(true, n) by { assert Utf8.WellFormed(s[p..p + n]); }
    }
    var v := Utf8.Validate(s, p);
    if v.ok && Utf8.ValidText(s[p + v.length..]) {
      assert t[..v.length] == s[p..p + v.length] && t[v.length..] == s[p + v.length..];
      WellFormedLength(s[p..p + v.length]);
      ValidStep(t, v.length);
    }
  }

  lemma ValidStep(t: Text, n: nat)
    requires n <= |t| && Utf8.WellFormed(t[..n]) && Utf8.ValidText(t[n..])
    ensures Utf8.ValidText(t)
  {
    WellFormedLength(t[..n]);
  }

  lemma WellFormedLength(t: Text)
    requires Utf8.WellFormed(t)
    ensures 1 <= |t| <= 4
    ensures t[0] < 0x80 ==> |t| == 1
    ensures |t| > 1 ==> forall i :: 0 <= i < |t| ==> t[i] >= 0x80
  {
  }

  /** A writer that checks, or that needs code points, succeeds exactly on valid UTF-8. */
  lemma {:induction false} EscapedIff(tg: Target, s: Text, p: nat)
    requires p <= |s|
    ensures Escaped(tg, s, p).Some? <==> ((tg.ascii || tg.validate) ==> Utf8.ValidText(s[p..]))
    decreases |s| - p
  {
    hide Utf8.Validate, Utf8.ValidText;
    if p == |s| {
      assert s[p..] == [];
      assert Utf8.ValidText([]) by { EmptyValid(); }
    } else {
      ValidGreedy(s, p);
      if s[p] < 0x80 {
        SingleIsGrammar(s, p);
      }
      match PrintedAt(tg, s, p)
      case None =>
      case Some(r) => EscapedIff(tg, s, r.next);
    }
  }

  lemma EmptyValid()
    ensures Utf8.ValidText([])
  {
  }

  /** Bytes beyond ASCII pass unchecked one by one. */
  lemma {:induction false} PassThrough(s: Text, p: nat, q: nat)
    requires p <= q <= |s| && forall i :: p <= i < q ==> s[i] >= 0x80
    requires Escaped(Target(false, false), s, q).Some?
    ensures Escaped(Target(false, false), s, p) == Some(s[p..q] + Escaped(Target(false, false), s, q).value)
    decreases q - p
  {
    hide Utf8.Validate, Utf8.Decode, UnicodeText, EscapeText;
    if p < q {
      PassThrough(s, p + 1, q);
      assert s[p..q] == [s[p]] + s[p + 1..q];
      var rest := Escaped(Target(false, false), s, q).value;
      assert [s[p]] + (s[p + 1..q] + rest) == s[p..q] + rest;
      assert PrintedAt(Target(false, false), s, p) == Some(Printed([s[p]], p + 1));
    } else {
      assert s[p..q] + Escaped(Target(false, false), s, q).value == Escaped(Target(false, false), s, q).value;
    }
  }

  /** Checking does not change what is written. */
  lemma {:induction false} CheckedSame(s: Text, p: nat)
    requires p <= |s| && Escaped(Target(false, true), s, p).Some?
    ensures Escaped(Target(false, false), s, p) == Escaped(Target(false, true), s, p)
    decreases |s| - p
  {
    hide Utf8.Validate, EscapeText;
    if p < |s| {
      var r := PrintedAt(Target(false, true), s, p).value;
      CheckedSame(s, r.next);
      if EscapeLetter(s[p]) == NUL {
        Utf8.ValidateIsGrammar(s, p);
        var t := s[p..r.next];
        WellFormedLength(t);
        if |t| == 1 {
          assert t == [s[p]];
        } else {
          forall i | p <= i < r.next ensures s[i] >= 0x80 { assert s[i] == t[i - p]; }
          PassThrough(s, p, r.next);
        }
      }
    }
  }

  /** A written string is read back byte for byte.  A reader that checks needs a valid string. */
  lemma QuotedRead(tg: Target, validate: bool, str: Text, s: Text, p: nat)
    requires Quoted(tg, str).Some? && At(s, p, Quoted(tg, str).value)
    requires validate ==> Utf8.ValidText(str)
    ensures p < |s| && Peek(s, p) == QUOTE
    ensures Strings.ParseString(validate, s, p) == Strings.Done(str, p + |Quoted(tg, str).value|)
  {
    hide Utf8.ValidText, Strings.Decode, Escaped;
    var t := Escaped(tg, str, 0).value;
    assert [QUOTE] + t + [QUOTE] == [QUOTE] + (t + [QUOTE]);
    AtConcat(s, p, [QUOTE], t + [QUOTE]);
    AtPeek(s, p, [QUOTE], 0);
    assert str[0..] == str && [] + str == str;
    if tg.ascii {
      DecodeEscaped(tg, validate, str, 0, s, p + 1, []);
    } else {
      if validate || tg.validate {
        EscapedIff(Target(false, true), str, 0);
        EscapedIff(tg, str, 0);
        CheckedSame(str, 0);
      }
      DecodeEscaped(Target(false, validate), validate, str, 0, s, p + 1, []);
    }
  }

  /** ASCII-target writing succeeds exactly on valid UTF-8, its text is ASCII, and reading restores the bytes. */
  lemma AsciiRoundTrip(validateOut: bool, validateIn: bool, str: Text)
    ensures Quoted(Target(true, validateOut), str).Some? <==> Utf8.ValidText(str)
    ensures Utf8.ValidText(str) ==>
      var t := Quoted(Target(true, validateOut), str).value;
      && (forall i :: 0 <= i < |t| ==> t[i] < 0x80)
      && Strings.ParseString(validateIn, t, 0) == Strings.Done(str, |t|)
  {
    hide Utf8.ValidText, Strings.ParseString, Escaped;
    var tg := Target(true, validateOut);
    assert str[0..] == str;
    EscapedIff(tg, str, 0);
    if Utf8.ValidText(str) {
      var t := Quoted(tg, str).value;
      assert At(t, 0, t);
      QuotedRead(tg, validateIn, str, t, 0);
      EscapedAscii(tg, str, 0);
    }
  }

  lemma {:induction false} EscapedAscii(tg: Target, s: Text, p: nat)
    requires tg.ascii && p <= |s| && Escaped(tg, s, p).Some?
    ensures forall i :: 0 <= i < |Escaped(tg, s, p).value| ==> Escaped(tg, s, p).value[i] < 0x80
    decreases |s| - p
  {
    hide PrintedAt;
    if p < |s| {
      var r := PrintedAt(tg, s, p).value;
      PrintedAscii(tg, s, p);
      EscapedAscii(tg, s, r.next);
    }
  }

  lemma PrintedAscii(tg: Target, s: Text, p: nat)
    requires tg.ascii && p < |s| && PrintedAt(tg, s, p).Some?
    ensures forall i :: 0 <= i < |PrintedAt(tg, s, p).value.bytes| ==> PrintedAt(tg, s, p).value.bytes[i] < 0x80
  {
    hide Utf8.Validate, Utf8.Decode, UnicodeText;
    if s[p] < 0x80 {
      SingleIsGrammar(s, p);
    } else {
      Utf8.EncodeDecode(s, p);
      UnicodeAscii(Utf8.Decode(s, p).value);
    }
  }

  lemma UnicodeAscii(cp: nat)
    requires Utf8.Scalar(cp)
    ensures forall i :: 0 <= i < |UnicodeText(cp)| ==> UnicodeText(cp)[i] < 0x80
  {
    hide HexDigit, Hex4Text;
    if cp <= 0xFFFF {
      Hex4Ascii(cp);
    } else {
      Hex4Ascii((cp - 0x10000) / 0x400 + 0xD800);
      Hex4Ascii((cp - 0x10000) % 0x400 + 0xDC00);
    }
  }

  lemma Hex4Ascii(n: nat)
    requires n < 0x10000
    ensures forall i :: 0 <= i < 4 ==> Hex4Text(n)[i] < 0x80
  {
  }
}
