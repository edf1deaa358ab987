/** The fragment form against section 6 of RFC 6901: percent-decode first, then read the string form. */
module PointerFragment {
  import opened Bytes
  import opened PointerText
  import opened PointerGrammar
  import Utf8

  /** Section 2.1 of RFC 3986, over a whole text. */
  function PercentDecode(t: Text): Option<Text> {
    if t == [] then Some([])
    else if t[0] != 0x25 then
      match PercentDecode(t[1..])
      case None => None
      case Some(d) => Some([t[0]] + d)
    else if |t| >= 3 && Octet(t[1], t[2]).Ok() then
      match PercentDecode(t[3..])
      case None => None
      case Some(d) => Some([Octet(t[1], t[2]).Value()] + d)
    else None
  }

  /** A slash written as an octet. */
  predicate SlashAt(t: Text, i: nat) {
    i + 3 <= |t| && t[i] == 0x25 && t[i + 1] == 0x32 && (t[i + 2] == 0x46 || t[i + 2] == 0x66)
  }

  predicate EncodesSlash(t: Text) {
    exists i :: 0 <= i < |t| && SlashAt(t, i)
  }

  // ---- decoding adds exactly the encoded slashes ----

  lemma SlashesFirst(c: byte, t: Text)
    ensures Slashes([c] + t) == (if c == SLASH then 1 else 0) + Slashes(t)
  {
    SlashesConcat([c], t);
    assert [c][..0] == [];
    assert Slashes([]) == 0;
  }

  lemma OctetNoSlash(o: Octet)
    requires o.Ok()
    ensures o.high != SLASH && o.low != SLASH && o.high != 0x25 && o.low != 0x25
    ensures o.Value() == SLASH <==> o.high == 0x32 && (o.low == 0x46 || o.low == 0x66)
  {
  }

  lemma {:induction false} DecodingAdds(t: Text)
    requires PercentDecode(t).Some?
    ensures Slashes(PercentDecode(t).value) >= Slashes(t)
    ensures Slashes(PercentDecode(t).value) > Slashes(t) <==> EncodesSlash(t)
  {
    hide Slashes;
    if t == [] {
    } else if t[0] != 0x25 {
      DecodingAdds(t[1..]);
      assert t == [t[0]] + t[1..];
      SlashesFirst(t[0], t[1..]);
      SlashesFirst(t[0], PercentDecode(t[1..]).value);
      SlashLater(t, 1);
    } else {
      var o, rest := Octet(t[1], t[2]), t[3..];
      DecodingAdds(rest);
      OctetNoSlash(o);
      assert t == [t[0]] + ([t[1]] + ([t[2]] + rest));
      SlashesFirst(t[0], [t[1]] + ([t[2]] + rest));
      SlashesFirst(t[1], [t[2]] + rest);
      SlashesFirst(t[2], rest);
      SlashesFirst(o.Value(), PercentDecode(rest).value);
      SlashLater(t, 3);
    }
  }

  /** Behind a character, or an octet, the encoded slashes are those of the rest. */
  lemma SlashLater(t: Text, n: nat)
    requires 0 < n <= |t| && forall i :: 0 < i < n ==> t[i] != 0x25
    ensures EncodesSlash(t) <==> SlashAt(t, 0) || EncodesSlash(t[n..])
  {
    if EncodesSlash(t) && !SlashAt(t, 0) {
      var i :| 0 <= i < |t| && SlashAt(t, i);
      assert i >= n && SlashAt(t[n..], i - n);
    }
    if EncodesSlash(t[n..]) {
      var i :| 0 <= i < |t[n..]| && SlashAt(t[n..], i);
      assert SlashAt(t, n + i);
    }
  }

  // ---- the decoded characters ----

  function Plains(b: Text): (cs: seq<Char>)
    ensures |cs| == |b|
  {
    seq(|b|, i requires 0 <= i < |b| => Plain(b[i]))
  }

  function DecodedChar(ch: Char): seq<Char> {
    match ch
    case Plain(_) => [ch]
    case Tilde(_) => [Tilde(None)]
    case Solidus(_) => [Solidus(None)]
    case Encoded(os) => if OctetsOk(os) then Plains(Values(os)) else []
  }

  function DecodedChars(cs: seq<Char>): seq<Char> {
    if cs == [] then [] else DecodedChar(cs[0]) + DecodedChars(cs[1..])
  }

  function DecodedTokens(ts: seq<seq<Char>>): (r: seq<seq<Char>>)
    ensures |r| == |ts|
  {
    seq(|ts|, i requires 0 <= i < |ts| => DecodedChars(ts[i]))
  }

  lemma {:induction false} CharsConcat(a: seq<Char>, b: seq<Char>)
    ensures CharsText(a + b) == CharsText(a) + CharsText(b)
    ensures CharsBytes(a + b) == CharsBytes(a) + CharsBytes(b)
    ensures CharsOk(false, a + b) <==> CharsOk(false, a) && CharsOk(false, b)
  {
    hide CharText, CharBytes, CharOk;
    if a == [] {
      assert a + b == b;
    } else {
      assert (a + b)[0] == a[0] && (a + b)[1..] == a[1..] + b;
      CharsConcat(a[1..], b);
      Regrouped(CharText(a[0]), CharsText(a[1..]), CharsText(b));
      Regrouped(CharBytes(a[0]), CharsBytes(a[1..]), CharsBytes(b));
    }
  }

  lemma Regrouped(a: Text, b: Text, c: Text)
    ensures a + (b + c) == a + b + c
  {
  }

  predicate NoSlash(t: Text) {
    forall k :: 0 <= k < |t| ==> t[k] != SLASH
  }

  lemma NoSlashConcat(a: Text, b: Text)
    ensures NoSlash(a + b) <==> NoSlash(a) && NoSlash(b)
  {
    forall k | 0 <= k < |a|
      ensures (a + b)[k] == a[k]
    {
    }
    forall k | 0 <= k < |b|
      ensures (a + b)[|a| + k] == b[k]
    {
    }
  }

  lemma {:induction false} PlainsRead(b: Text)
    ensures CharsText(Plains(b)) == b && CharsBytes(Plains(b)) == b
    ensures CharsOk(false, Plains(b)) <==> NoSlash(b) && TILDE !in b
  {
    if b != [] {
      assert Plains(b)[1..] == Plains(b[1..]);
      PlainsRead(b[1..]);
      assert b == [b[0]] + b[1..];
      NoSlashConcat([b[0]], b[1..]);
    }
  }

  lemma {:induction false} DecodeOctets(os: seq<Octet>, rest: Text)
    requires OctetsOk(os) && PercentDecode(rest).Some?
    ensures PercentDecode(SpelledAll(os) + rest) == Some(Values(os) + PercentDecode(rest).value)
  {
    hide PercentDecode;
    if os == [] {
      assert [] + rest == rest;
      assert Values(os) + PercentDecode(rest).value == PercentDecode(rest).value;
    } else {
      var o, more := os[0], os[1..];
      DecodeOctets(more, rest);
      DecodeOctet(o, SpelledAll(more) + rest);
      assert SpelledAll(os) + rest == o.Spelled() + (SpelledAll(more) + rest);
      ValuesFirst(os);
      assert [o.Value()] + Values(more) + PercentDecode(rest).value
          == [o.Value()] + (Values(more) + PercentDecode(rest).value);
    }
  }

  lemma ValuesFirst(os: seq<Octet>)
    requires os != [] && OctetsOk(os)
    ensures Values(os) == [os[0].Value()] + Values(os[1..])
  {
  }

  lemma DecodeOctet(o: Octet, rest: Text)
    requires o.Ok() && PercentDecode(rest).Some?
    ensures PercentDecode(o.Spelled() + rest) == Some([o.Value()] + PercentDecode(rest).value)
  {
    var t := o.Spelled() + rest;
    assert t[0] == 0x25 && t[1] == o.high && t[2] == o.low && t[3..] == rest;
  }

  lemma DecodePlain(c: byte, rest: Text)
    requires c != 0x25 && PercentDecode(rest).Some?
    ensures PercentDecode([c] + rest) == Some([c] + PercentDecode(rest).value)
  {
    assert ([c] + rest)[1..] == rest;
  }

  lemma DecodeMark(mark: Option<Octet>, digit: byte, rest: Text)
    requires MarkOk(true, mark) && digit != 0x25 && PercentDecode(rest).Some?
    ensures PercentDecode(MarkText(mark) + [digit] + rest) == Some([0x7E, digit] + PercentDecode(rest).value)
  {
    hide PercentDecode;
    DecodePlain(digit, rest);
    assert MarkText(mark) + [digit] + rest == MarkText(mark) + ([digit] + rest);
    if mark.Some? {
      DecodeOctet(mark.value, [digit] + rest);
    } else {
      DecodePlain(0x7E, [digit] + rest);
    }
    assert [0x7E] + ([digit] + PercentDecode(rest).value) == [0x7E, digit] + PercentDecode(rest).value;
  }

  /** One character, decoded: its text, its bytes, and when it is one of the string form. */
  lemma DecodeChar(ch: Char, rest: Text)
    requires CharOk(true, ch) && PercentDecode(rest).Some?
    ensures var d := DecodedChar(ch);
      && PercentDecode(CharText(ch) + rest) == Some(CharsText(d) + PercentDecode(rest).value)
      && CharsBytes(d) == CharBytes(ch)
      && (CharsOk(false, d) <==> NoSlash(CharsText(d)))
  {
    hide PercentDecode, Utf8.WellFormed;
    match ch
    case Plain(c) =>
      UnreservedIff(c);
      DecodePlain(c, rest);
      OneChar(ch);
    case Tilde(m) =>
      DecodeMark(m, 0x30, rest);
      OneChar(Tilde(None));
      assert MarkText(None) + [0x30] == [0x7E, 0x30];
    case Solidus(m) =>
      DecodeMark(m, 0x31, rest);
      OneChar(Solidus(None));
      assert MarkText(None) + [0x31] == [0x7E, 0x31];
    case Encoded(os) =>
      DecodeOctets(os, rest);
      PlainsRead(Values(os));
      NoTilde(Values(os));
  }

  lemma OneChar(ch: Char)
    ensures CharsText([ch]) == CharText(ch) && CharsBytes([ch]) == CharBytes(ch)
    ensures CharsOk(false, [ch]) <==> CharOk(false, ch)
  {
    assert [ch][1..] == [];
  }

  lemma NoTilde(t: Text)
    requires Utf8.WellFormed(t) && t != [0x7E]
    ensures TILDE !in t
  {
  }

  lemma {:induction false} DecodeChars(cs: seq<Char>, rest: Text)
    requires CharsOk(true, cs) && PercentDecode(rest).Some?
    ensures var d := DecodedChars(cs);
      && PercentDecode(CharsText(cs) + rest) == Some(CharsText(d) + PercentDecode(rest).value)
      && CharsBytes(d) == CharsBytes(cs)
      && (CharsOk(false, d) <==> NoSlash(CharsText(d)))
  {
    hide PercentDecode, CharText, CharBytes, CharOk, DecodedChar, NoSlash;
    if cs == [] {
      assert [] + rest == rest && [] + PercentDecode(rest).value == PercentDecode(rest).value;
      assert NoSlash([]) by { NothingSlashed(); }
    } else {
      var ch, more := cs[0], cs[1..];
      DecodeChars(more, rest);
      DecodeChar(ch, CharsText(more) + rest);
      assert CharsText(cs) + rest == CharText(ch) + (CharsText(more) + rest);
      CharsConcat(DecodedChar(ch), DecodedChars(more));
      NoSlashConcat(CharsText(DecodedChar(ch)), CharsText(DecodedChars(more)));
      assert CharsText(DecodedChar(ch)) + CharsText(DecodedChars(more)) + PercentDecode(rest).value
          == CharsText(DecodedChar(ch)) + (CharsText(DecodedChars(more)) + PercentDecode(rest).value);
    }
  }

  lemma NothingSlashed()
    ensures NoSlash([])
  {
  }

  // ---- the decoded tokens ----

  lemma {:induction false} SlashesNone(t: Text)
    ensures Slashes(t) == 0 <==> NoSlash(t)
  {
    if t != [] {
      SlashesNone(t[..|t| - 1]);
      assert t == t[..|t| - 1] + [t[|t| - 1]];
    }
  }

  /** Decoded as a whole, the tokens are the decoded tokens; they are tokens of the string form exactly
      when decoding made no slash. */
  lemma {:induction false} DecodeTokens(ts: seq<seq<Char>>)
    requires TokensOk(true, ts)
    ensures PercentDecode(TokensText(ts)) == Some(TokensText(DecodedTokens(ts)))
    ensures Names(DecodedTokens(ts)) == Names(ts)
    ensures Slashes(TokensText(DecodedTokens(ts))) >= |ts|
    ensures Slashes(TokensText(DecodedTokens(ts))) == |ts| ==> TokensOk(false, DecodedTokens(ts))
  {
    hide PercentDecode, CharsOk, CharsText, CharsBytes, DecodedChars, Slashes;
    if ts == [] {
      NothingDecoded();
    } else {
      var d, more := DecodedTokens(ts), ts[1..];
      assert d[0] == DecodedChars(ts[0]) && d[1..] == DecodedTokens(more);
      DecodeTokens(more);
      DecodeChars(ts[0], TokensText(more));
      DecodePlain(0x2F, CharsText(ts[0]) + TokensText(more));
      assert TokensText(ts) == [0x2F] + (CharsText(ts[0]) + TokensText(more));
      assert TokensText(d) == [0x2F] + (CharsText(d[0]) + TokensText(d[1..]));
      SlashesFirst(0x2F, CharsText(d[0]) + TokensText(d[1..]));
      SlashesConcat(CharsText(d[0]), TokensText(d[1..]));
      SlashesNone(CharsText(d[0]));
    }
  }

  lemma NothingDecoded()
    ensures PercentDecode([]) == Some([]) && Slashes([]) == 0
  {
  }

  /**
   An accepted fragment means what its decoded text means as a string, exactly when no slash in it is
   encoded: the standard takes such a slash for a separator, the parser for a character of the name.
   */
  lemma FragmentMeansDecoded(s: Text)
    requires IsFragment(s) && ParsePointer(s).Tokens?
    ensures PercentDecode(s[1..]).Some?
    ensures ParsePointer(PercentDecode(s[1..]).value) == ParsePointer(s) <==> !EncodesSlash(s[1..])
  {
    hide TokensOk, TokensText, Named, Names, ReadTokens, EncodesSlash, PercentDecode, Slashes, DecodedTokens;
    var ts := PointerSound(s);
    var t, d := s[1..], TokensText(DecodedTokens(ts));
    assert t == TokensText(ts);
    DecodeTokens(ts);
    DecodingAdds(t);
    assert s[0..] == s && d[0..] == d && d[..] == d;
    NoHash(DecodedTokens(ts));
    TokenPerSlash(true, s, 1, []);
    TokenPerSlash(false, d, 0, []);
    if !EncodesSlash(t) {
      PointerComplete(d, DecodedTokens(ts));
    }
  }

  lemma NoHash(ts: seq<seq<Char>>)
    ensures !IsFragment(TokensText(ts))
    ensures TokensText(ts) != [] ==> TokensText(ts)[0] == SLASH
  {
    hide CharsText;
  }
}
