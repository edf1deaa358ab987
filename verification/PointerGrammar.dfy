/** Pointer texts by the grammar of RFC 6901, in string form and as a URI fragment, and what they name. */
module PointerGrammar {
  import opened Bytes
  import opened PointerText
  import JsonText
  import Utf8

  // ---- characters ----

  /** Section 2.3 of RFC 3986. */
  predicate Unreserved(c: byte) {
    || 0x41 <= c <= 0x5A || 0x61 <= c <= 0x7A || 0x30 <= c <= 0x39
    || c == 0x2D || c == 0x2E || c == 0x5F || c == 0x7E
  }

  /** Section 2.1 of RFC 3986: a percent sign and two hexadecimal digits. */
  datatype Octet = Octet(high: byte, low: byte) {
    predicate Ok() {
      JsonText.HexDigitValue(high).Some? && JsonText.HexDigitValue(low).Some?
    }

    function Value(): (c: byte)
      requires Ok()
    {
      JsonText.HexDigitValue(high).value * 16 + JsonText.HexDigitValue(low).value
    }

    function Spelled(): Text {
      [0x25, high, low]
    }
  }

  predicate OctetsOk(os: seq<Octet>) {
    forall i :: 0 <= i < |os| ==> os[i].Ok()
  }

  function Values(os: seq<Octet>): (r: Text)
    requires OctetsOk(os)
    ensures |r| == |os|
  {
    seq(|os|, i requires 0 <= i < |os| => os[i].Value())
  }

  function SpelledAll(os: seq<Octet>): (t: Text)
    ensures |t| == 3 * |os|
  {
    if os == [] then [] else os[0].Spelled() + SpelledAll(os[1..])
  }

  /** A character of a reference token: as it stands, `~0`, `~1`, or encoded.  In a fragment the tilde
      of an escape may be encoded itself. */
  datatype Char =
    | Plain(c: byte)
    | Tilde(mark: Option<Octet>)
    | Solidus(mark: Option<Octet>)
    | Encoded(octets: seq<Octet>)

  predicate MarkOk(fragment: bool, mark: Option<Octet>) {
    mark.Some? ==> fragment && mark.value.Ok() && mark.value.Value() == 0x7E
  }

  predicate CharOk(fragment: bool, ch: Char) {
    match ch
    case Plain(c) => c != 0x7E && c != 0x2F && (fragment ==> Unreserved(c))
    case Tilde(m) => MarkOk(fragment, m)
    case Solidus(m) => MarkOk(fragment, m)
    case Encoded(os) => fragment && OctetsOk(os) && Utf8.WellFormed(Values(os)) && Values(os) != [0x7E]
  }

  function MarkText(mark: Option<Octet>): Text {
    if mark.Some? then mark.value.Spelled() else [0x7E]
  }

  function CharText(ch: Char): Text {
    match ch
    case Plain(c) => [c]
    case Tilde(m) => MarkText(m) + [0x30]
    case Solidus(m) => MarkText(m) + [0x31]
    case Encoded(os) => SpelledAll(os)
  }

  function CharBytes(ch: Char): Text {
    match ch
    case Plain(c) => [c]
    case Tilde(_) => [0x7E]
    case Solidus(_) => [0x2F]
    case Encoded(os) => if OctetsOk(os) then Values(os) else []
  }

  // ---- tokens ----

  predicate CharsOk(fragment: bool, cs: seq<Char>) {
    cs != [] ==> CharOk(fragment, cs[0]) && CharsOk(fragment, cs[1..])
  }

  function CharsText(cs: seq<Char>): Text {
    if cs == [] then [] else CharText(cs[0]) + CharsText(cs[1..])
  }

  function CharsBytes(cs: seq<Char>): Text {
    if cs == [] then [] else CharBytes(cs[0]) + CharsBytes(cs[1..])
  }

  predicate TokensOk(fragment: bool, ts: seq<seq<Char>>) {
    ts != [] ==> CharsOk(fragment, ts[0]) && TokensOk(fragment, ts[1..])
  }

  /** Each token behind a slash. */
  function TokensText(ts: seq<seq<Char>>): Text {
    if ts == [] then [] else [0x2F] + CharsText(ts[0]) + TokensText(ts[1..])
  }

  function Names(ts: seq<seq<Char>>): (r: seq<Text>)
    ensures |r| == |ts|
  {
    if ts == [] then [] else [CharsBytes(ts[0])] + Names(ts[1..])
  }

  function Spelling(fragment: bool, ts: seq<seq<Char>>): Text {
    if fragment then [0x23] + TokensText(ts) else TokensText(ts)
  }

  // ---- the parser's characters ----

  lemma UnreservedIff(c: byte)
    ensures Unreserved(c) <==> !NeedPercentEncode(c)
    ensures Unreserved(c) ==> c != 0x25
  {
  }

  lemma OctetIsTriplet(o: Octet, s: Text, i: nat)
    requires At(s, i, o.Spelled())
    ensures o.Ok() ==> TripletAt(s, i) == Some(o.Value())
  {
    AtPeek(s, i, o.Spelled(), 0);
    AtPeek(s, i, o.Spelled(), 1);
    AtPeek(s, i, o.Spelled(), 2);
  }

  lemma TripletIsOctet(s: Text, i: nat) returns (o: Octet)
    requires TripletAt(s, i).Some?
    ensures i + 3 <= |s| && o.Ok() && o.Value() == TripletAt(s, i).value && s[i..i + 3] == o.Spelled()
  {
    o := Octet(s[i + 1], s[i + 2]);
  }

  /** Encoded octets that stand in the text begin the run that is read there. */
  lemma {:induction false} OctetsRead(os: seq<Octet>, s: Text, i: nat)
    requires OctetsOk(os) && At(s, i, SpelledAll(os))
    ensures |os| <= |Triplets(s, i)| && Triplets(s, i)[..|os|] == Values(os)
    decreases |os|
  {
    hide TripletAt;
    if os != [] {
      AtConcat(s, i, os[0].Spelled(), SpelledAll(os[1..]));
      OctetIsTriplet(os[0], s, i);
      OctetsRead(os[1..], s, i + 3);
      assert Values(os) == [os[0].Value()] + Values(os[1..]);
    }
  }

  /** Any part of that run is spelled by octets. */
  lemma {:induction false} OctetsFound(s: Text, i: nat, n: nat) returns (os: seq<Octet>)
    requires n <= |Triplets(s, i)| && i <= |s|
    ensures |os| == n && OctetsOk(os) && Values(os) == Triplets(s, i)[..n]
    ensures i + 3 * n <= |s| && s[i..i + 3 * n] == SpelledAll(os)
    decreases n
  {
    hide TripletAt;
    if n == 0 {
      os := [];
    } else {
      var o := TripletIsOctet(s, i);
      var rest := OctetsFound(s, i + 3, n - 1);
      os := [o] + rest;
      assert os[1..] == rest;
      assert Values(os) == [o.Value()] + Values(rest);
      assert s[i..i + 3 * n] == s[i..i + 3] + s[i + 3..i + 3 * n];
    }
  }

  /** A character that stands in the text is what the parser finds there. */
  lemma CharComplete(fragment: bool, ch: Char, s: Text, q: nat)
    requires CharOk(fragment, ch) && At(s, q, CharText(ch))
    ensures q < |s| && s[q] != SLASH
    ensures PieceAt(fragment, s, q) == Piece(CharBytes(ch), q + |CharText(ch)|)
  {
    hide Utf8.Validate, Utf8.WellFormed, Triplets, TripletAt;
    match ch
    case Plain(c) =>
      UnreservedIff(c);
      AtPeek(s, q, [c], 0);
    case Tilde(m) => EscapeComplete(fragment, m, 0x30, s, q);
    case Solidus(m) => EscapeComplete(fragment, m, 0x31, s, q);
    case Encoded(os) => EncodedComplete(os, s, q);
  }

  lemma EscapeComplete(fragment: bool, mark: Option<Octet>, digit: byte, s: Text, q: nat)
    requires MarkOk(fragment, mark) && (digit == 0x30 || digit == 0x31) && At(s, q, MarkText(mark) + [digit])
    ensures q < |s| && s[q] != SLASH
    ensures PieceAt(fragment, s, q)
         == Piece([if digit == 0x30 then 0x7E else 0x2F], q + |MarkText(mark)| + 1)
  {
    hide Utf8.Validate, Utf8.WellFormed, Triplets, TripletAt;
    AtConcat(s, q, MarkText(mark), [digit]);
    AtPeek(s, q, MarkText(mark), 0);
    AtPeek(s, q + |MarkText(mark)|, [digit], 0);
    UnreservedIff(0x7E);
    if mark.Some? {
      var os := [mark.value];
      assert os[1..] == [] && SpelledAll(os) == mark.value.Spelled();
      OctetsRead(os, s, q);
      assert Values(os)[0] == 0x7E;
      AsciiTaken(Triplets(s, q));
    }
  }

  lemma AsciiTaken(t: Text)
    requires t != [] && t[0] < 0x80
    ensures Utf8.Validate(t, 0) == Utf8.Taken(true, 1)
  {
  }

  lemma EncodedComplete(os: seq<Octet>, s: Text, q: nat)
    requires CharOk(true, Encoded(os)) && At(s, q, SpelledAll(os))
    ensures q < |s| && s[q] != SLASH
    ensures PieceAt(true, s, q) == Piece(Values(os), q + 3 * |os|)
  {
    hide Utf8.Validate, Utf8.WellFormed, Triplets, TripletAt;
    OctetsRead(os, s, q);
    SomeOctet(os);
    AtPeek(s, q, SpelledAll(os), 0);
    var run := Triplets(s, q);
    assert run[0..0 + |os|] == Values(os);
    Utf8.ValidateIsGrammar(run, 0);
    assert Utf8.Validate(run, 0) == Utf8.Taken(true, |os|);
    assert run[0] == Values(os)[0];
    if |os| == 1 {
      assert Values(os) == [run[0]];
    }
  }

  lemma SomeOctet(os: seq<Octet>)
    requires OctetsOk(os) && Utf8.WellFormed(Values(os))
    ensures os != [] && SpelledAll(os)[0] == 0x25
  {
  }

  /** What the parser finds is a character of the grammar. */
  lemma CharSound(fragment: bool, s: Text, i: nat) returns (ch: Char)
    requires i < |s| && s[i] != SLASH && PieceAt(fragment, s, i).Piece?
    ensures var p := PieceAt(fragment, s, i);
      CharOk(fragment, ch) && s[i..p.next] == CharText(ch) && p.bytes == CharBytes(ch)
  {
    hide Utf8.Validate, Utf8.WellFormed, Triplets, TripletAt;
    if fragment && s[i] == PERCENT {
      ch := EncodedSound(s, i);
    } else {
      UnreservedIff(s[i]);
      ch := UnescapedSound(s, s[i], i, i + 1, None);
    }
  }

  lemma UnescapedSound(s: Text, c: byte, i: nat, next: nat, mark: Option<Octet>) returns (ch: Char)
    requires i <= next <= |s| && Unescaped(s, c, next).Piece? && c != SLASH
    requires c == TILDE ==> s[i..next] == MarkText(mark)
    requires c != TILDE ==> s[i..next] == [c]
    ensures ch == (if c != TILDE then Plain(c) else if Peek(s, next) == 0x30 then Tilde(mark) else Solidus(mark))
    ensures var p := Unescaped(s, c, next);
      s[i..p.next] == CharText(ch) && p.bytes == CharBytes(ch)
  {
    if c != TILDE {
      ch := Plain(c);
    } else {
      ch := if Peek(s, next) == 0x30 then Tilde(mark) else Solidus(mark);
      assert s[i..next + 1] == s[i..next] + [s[next]];
    }
  }

  lemma EncodedSound(s: Text, i: nat) returns (ch: Char)
    requires i < |s| && s[i] == PERCENT && PieceAt(true, s, i).Piece?
    ensures var p := PieceAt(true, s, i);
      CharOk(true, ch) && s[i..p.next] == CharText(ch) && p.bytes == CharBytes(ch)
  {
    hide Utf8.Validate, Utf8.WellFormed, Triplets, TripletAt;
    var run := Triplets(s, i);
    Utf8.ValidateIsGrammar(run, 0);
    var n := Utf8.Validate(run, 0).length;
    var os := OctetsFound(s, i, n);
    assert run[0..0 + n] == run[..n] == Values(os);
    if n == 1 && run[0] == TILDE {
      var mark := os[0];
      assert mark.Value() == Values(os)[0];
      assert os == [mark] && [mark][1..] == [] && SpelledAll(os) == mark.Spelled();
      ch := UnescapedSound(s, TILDE, i, i + 3, Some(mark));
    } else {
      ch := Encoded(os);
      assert Values(os)[0] == run[0];
      if n == 1 {
        assert Values(os) == [run[0]];
      }
    }
  }

  // ---- names ----

  /** Characters that stand in the text, up to a slash or the end, are read as one name. */
  lemma {:induction false} CharsComplete(fragment: bool, cs: seq<Char>, s: Text, q: nat, done: Text)
    requires CharsOk(fragment, cs) && At(s, q, CharsText(cs))
    requires q + |CharsText(cs)| == |s| || Peek(s, q + |CharsText(cs)|) == SLASH
    ensures q <= |s| && ReadName(fragment, s, q, done) == Name(done + CharsBytes(cs), q + |CharsText(cs)|)
    decreases |cs|
  {
    hide PieceAt, CharOk, CharText, CharBytes, At, Peek, ReadName;
    if cs == [] {
      NameEnds(fragment, s, q, done);
    } else {
      var ch, rest := cs[0], cs[1..];
      AtConcat(s, q, CharText(ch), CharsText(rest));
      CharComplete(fragment, ch, s, q);
      NameGoesOn(fragment, s, q, done);
      CharsComplete(fragment, rest, s, q + |CharText(ch)|, done + CharBytes(ch));
      assert done + CharBytes(ch) + CharsBytes(rest) == done + CharsBytes(cs);
    }
  }

  lemma NameEnds(fragment: bool, s: Text, q: nat, done: Text)
    requires At(s, q, []) && (q == |s| || Peek(s, q) == SLASH)
    ensures q <= |s| && ReadName(fragment, s, q, done) == Name(done + [], q)
  {
    assert done + [] == done;
  }

  lemma NameGoesOn(fragment: bool, s: Text, q: nat, done: Text)
    requires q < |s| && s[q] != SLASH && PieceAt(fragment, s, q).Piece?
    ensures var p := PieceAt(fragment, s, q);
      ReadName(fragment, s, q, done) == ReadName(fragment, s, p.next, done + p.bytes)
  {
    hide PieceAt;
  }

  lemma {:induction false} CharsSound(fragment: bool, s: Text, i: nat, done: Text) returns (cs: seq<Char>)
    requires i <= |s| && ReadName(fragment, s, i, done).Name?
    ensures var n := ReadName(fragment, s, i, done);
      CharsOk(fragment, cs) && s[i..n.next] == CharsText(cs) && n.name == done + CharsBytes(cs)
    decreases |s| - i
  {
    hide PieceAt, CharOk, CharText, CharBytes;
    if i == |s| || s[i] == SLASH {
      cs := [];
      assert done + [] == done;
    } else {
      var p := PieceAt(fragment, s, i);
      var ch := CharSound(fragment, s, i);
      var rest := CharsSound(fragment, s, p.next, done + p.bytes);
      cs := [ch] + rest;
      assert cs[1..] == rest;
      var q := ReadName(fragment, s, i, done).next;
      assert s[i..q] == s[i..p.next] + s[p.next..q];
    }
  }

  // ---- pointers ----

  lemma {:induction false} TokensComplete(fragment: bool, ts: seq<seq<Char>>, s: Text, q: nat, done: seq<Token>)
    requires TokensOk(fragment, ts) && At(s, q, TokensText(ts)) && q + |TokensText(ts)| == |s|
    ensures q < |s| ==> s[q] == SLASH
    ensures ReadTokens(fragment, s, q, done) == Tokens(done + Named(Names(ts)))
    decreases |ts|
  {
    hide ReadName, CharsOk, CharsText, CharsBytes, IndexOf, At, Named;
    NamedFirst(Names(ts));
    if ts == [] {
      assert done + [] == done;
    } else {
      var t, rest := CharsText(ts[0]), ts[1..];
      AtConcat(s, q, [0x2F] + t, TokensText(rest));
      AtConcat(s, q, [0x2F], t);
      AtPeek(s, q, [0x2F], 0);
      NextSlash(rest, s, q + 1 + |t|);
      CharsComplete(fragment, ts[0], s, q + 1, []);
      assert [] + CharsBytes(ts[0]) == CharsBytes(ts[0]);
      var token := Token(CharsBytes(ts[0]), IndexOf(CharsBytes(ts[0])));
      TokensComplete(fragment, rest, s, q + 1 + |t|, done + [token]);
      assert Names(ts)[1..] == Names(rest);
      assert done + [token] + Named(Names(rest)) == done + ([token] + Named(Names(rest)));
    }
  }

  lemma NextSlash(ts: seq<seq<Char>>, s: Text, q: nat)
    requires At(s, q, TokensText(ts)) && q + |TokensText(ts)| == |s|
    ensures q == |s| || Peek(s, q) == SLASH
  {
    if ts != [] {
      AtPeek(s, q, TokensText(ts), 0);
    }
  }

  lemma {:induction false} TokensSound(fragment: bool, s: Text, i: nat, done: seq<Token>) returns (ts: seq<seq<Char>>)
    requires i <= |s| && (i < |s| ==> s[i] == SLASH) && ReadTokens(fragment, s, i, done).Tokens?
    ensures TokensOk(fragment, ts) && s[i..] == TokensText(ts)
    ensures ReadTokens(fragment, s, i, done) == Tokens(done + Named(Names(ts)))
    decreases |s| - i
  {
    hide ReadName, CharsOk, CharsText, CharsBytes, IndexOf, Named;
    if i == |s| {
      ts := [];
      NamedFirst(Names(ts));
      assert done + [] == done;
    } else {
      var n := ReadName(fragment, s, i + 1, []);
      var cs := CharsSound(fragment, s, i + 1, []);
      assert [] + CharsBytes(cs) == CharsBytes(cs);
      var token := Token(n.name, IndexOf(n.name));
      var rest := TokensSound(fragment, s, n.next, done + [token]);
      ts := [cs] + rest;
      assert ts[1..] == rest && Names(ts)[1..] == Names(rest);
      NamedFirst(Names(ts));
      assert s[i..] == [s[i]] + s[i + 1..n.next] + s[n.next..];
      assert done + [token] + Named(Names(rest)) == done + ([token] + Named(Names(rest)));
    }
  }

  /** Section 4 of RFC 6901: an index is `0`, or digits that do not start with a zero; nothing else is one. */
  lemma IndexGrammar(name: Text)
    ensures IsNumeral(name) <==>
      || name == [0x30]
      || (name != [] && 0x31 <= name[0] <= 0x39 && forall i :: 0 < i < |name| ==> 0x30 <= name[i] <= 0x39)
    ensures !IsNumeral(name) ==> IndexOf(name) == INVALID_INDEX
  {
  }

  /**
   The parser accepts a text exactly when the grammar spells it, as a string or as a fragment, and the
   tokens have the names it spells, each with the index of its name.
   */
  lemma AcceptsTheGrammar(s: Text)
    ensures ParsePointer(s).Tokens? <==>
      exists ts :: TokensOk(IsFragment(s), ts) && s == Spelling(IsFragment(s), ts)
    ensures forall ts :: TokensOk(IsFragment(s), ts) && s == Spelling(IsFragment(s), ts) ==>
      ParsePointer(s) == Tokens(Named(Names(ts)))
  {
    hide TokensOk, TokensText, Named, Names, ReadTokens;
    if ParsePointer(s).Tokens? {
      var _ := PointerSound(s);
    }
    forall ts | TokensOk(IsFragment(s), ts) && s == Spelling(IsFragment(s), ts)
      ensures ParsePointer(s) == Tokens(Named(Names(ts)))
    {
      PointerComplete(s, ts);
    }
  }

  lemma PointerComplete(s: Text, ts: seq<seq<Char>>)
    requires TokensOk(IsFragment(s), ts) && s == Spelling(IsFragment(s), ts)
    ensures ParsePointer(s) == Tokens(Named(Names(ts)))
  {
    hide TokensOk, TokensText, Named, Names, ReadTokens;
    var i := if IsFragment(s) then 1 else 0;
    assert s[i..] == TokensText(ts);
    TokensComplete(IsFragment(s), ts, s, i, []);
    assert [] + Named(Names(ts)) == Named(Names(ts));
  }

  lemma PointerSound(s: Text) returns (ts: seq<seq<Char>>)
    requires ParsePointer(s).Tokens?
    ensures TokensOk(IsFragment(s), ts) && s == Spelling(IsFragment(s), ts)
    ensures ParsePointer(s) == Tokens(Named(Names(ts)))
  {
    hide TokensOk, TokensText, Named, Names, ReadTokens;
    var i := if IsFragment(s) then 1 else 0;
    ts := TokensSound(IsFragment(s), s, i, []);
    assert s[0..] == s && (i == 1 ==> s == [s[0]] + s[1..]);
    assert [] + Named(Names(ts)) == Named(Names(ts));
  }
}
