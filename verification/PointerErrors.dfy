/** What the errors of the pointer parser report: where the first fault stands, and which it is. */
module PointerErrors {
  import opened Bytes
  import opened PointerText
  import opened PointerGrammar
  import Utf8

  // ---- faults ----

  /** A tilde, as it stands or encoded, that ends at `o`. */
  predicate MarkEnds(fragment: bool, s: Text, k: nat, o: nat) {
    || (o == k + 1 && o <= |s| && s[k] == 0x7E)
    || (fragment && o == k + 3 && o <= |s| && s[k] == 0x25 && Octet(s[k + 1], s[k + 2]).Ok()
        && Octet(s[k + 1], s[k + 2]).Value() == 0x7E)
  }

  /** Encoded octets at `k` that are a sequence of section 4 of RFC 3629. */
  ghost predicate EncodedStands(s: Text, k: nat) {
    exists os :: OctetsOk(os) && Utf8.WellFormed(Values(os)) && At(s, k, SpelledAll(os))
  }

  /** The fault of the character at `k`, reported at `o`, that a code stands for. */
  ghost predicate CharFault(fragment: bool, s: Text, k: nat, o: nat, code: PointerErrorCode) {
    match code
    case InvalidEscape => MarkEnds(fragment, s, k, o) && Peek(s, o) != 0x30 && Peek(s, o) != 0x31
    case InvalidPercentEncoding => fragment && o == k && Peek(s, k) == 0x25 && !EncodedStands(s, k)
    case CharacterMustPercentEncode => fragment && o == k < |s| && s[k] != 0x25 && !Unreserved(s[k])
    case _ => false
  }

  lemma PieceFault(fragment: bool, s: Text, k: nat)
    requires k < |s| && s[k] != SLASH && PieceAt(fragment, s, k).Wrong?
    ensures var w := PieceAt(fragment, s, k);
      CharFault(fragment, s, k, w.offset, w.code)
  {
    hide Utf8.Validate, Utf8.WellFormed, Triplets, EncodedStands;
    if !fragment {
    } else if s[k] != PERCENT {
      UnreservedIff(s[k]);
    } else {
      var run := Triplets(s, k);
      if run == [] || !Utf8.Validate(run, 0).ok {
        NoSequence(s, k);
      } else {
        FirstOctet(s, k);
      }
    }
  }

  lemma FirstOctet(s: Text, k: nat)
    requires Triplets(s, k) != []
    ensures k + 3 <= |s| && s[k] == 0x25 && Octet(s[k + 1], s[k + 2]).Ok()
    ensures Octet(s[k + 1], s[k + 2]).Value() == Triplets(s, k)[0]
  {
  }

  lemma NoSequence(s: Text, k: nat)
    requires var run := Triplets(s, k); run == [] || !Utf8.Validate(run, 0).ok
    ensures !EncodedStands(s, k)
  {
    hide Utf8.Validate, Utf8.WellFormed, Triplets;
    if EncodedStands(s, k) {
      var os :| OctetsOk(os) && Utf8.WellFormed(Values(os)) && At(s, k, SpelledAll(os));
      OctetsTaken(os, s, k);
    }
  }

  lemma OctetsTaken(os: seq<Octet>, s: Text, k: nat)
    requires OctetsOk(os) && Utf8.WellFormed(Values(os)) && At(s, k, SpelledAll(os))
    ensures Triplets(s, k) != [] && Utf8.Validate(Triplets(s, k), 0).ok
  {
    hide Utf8.Validate, Utf8.WellFormed, Triplets;
    OctetsRead(os, s, k);
    SomeOctet(os);
    var run := Triplets(s, k);
    Utf8.ValidateIsGrammar(run, 0);
    assert run[0..0 + |os|] == Values(os);
    assert Utf8.Validate(run, 0) == Utf8.Taken(true, |os|);
  }

  /** A refused name is in order up to a character, which has the fault the code names. */
  lemma {:induction false} NameFault(fragment: bool, s: Text, i: nat, done: Text) returns (cs: seq<Char>, k: nat)
    requires i <= |s| && ReadName(fragment, s, i, done).BadName?
    ensures var n := ReadName(fragment, s, i, done);
      && i <= k <= |s| && CharsOk(fragment, cs) && s[i..k] == CharsText(cs)
      && CharFault(fragment, s, k, n.offset, n.code)
    decreases |s| - i
  {
    hide PieceAt, CharOk, CharText, CharFault;
    var p := PieceAt(fragment, s, i);
    if p.Wrong? {
      cs, k := [], i;
      PieceFault(fragment, s, i);
    } else {
      var ch := CharSound(fragment, s, i);
      var rest;
      rest, k := NameFault(fragment, s, p.next, done + p.bytes);
      cs := [ch] + rest;
      assert cs[1..] == rest;
      assert s[i..k] == s[i..p.next] + s[p.next..k];
    }
  }

  lemma {:induction false} TokensFault(fragment: bool, s: Text, i: nat, done: seq<Token>)
    returns (ts: seq<seq<Char>>, cs: seq<Char>, k: nat)
    requires i <= |s| && (i < |s| ==> s[i] == SLASH) && ReadTokens(fragment, s, i, done).PointerError?
    ensures var r := ReadTokens(fragment, s, i, done);
      && i < k <= |s| && TokensOk(fragment, ts) && CharsOk(fragment, cs)
      && s[i..k] == TokensText(ts) + ([0x2F] + CharsText(cs))
      && CharFault(fragment, s, k, r.offset, r.code)
    decreases |s| - i
  {
    hide *;
    NoTokens(fragment);
    TokensStep(fragment, s, i, done);
    var n := ReadName(fragment, s, i + 1, []);
    if n.BadName? {
      ts := [];
      cs, k := NameFault(fragment, s, i + 1, []);
      assert s[i..k] == [s[i]] + s[i + 1..k];
      assert [] + ([0x2F] + CharsText(cs)) == [0x2F] + CharsText(cs);
    } else {
      var first := CharsSound(fragment, s, i + 1, []);
      var rest;
      rest, cs, k := TokensFault(fragment, s, n.next, done + [Token(n.name, IndexOf(n.name))]);
      ts := [first] + rest;
      assert s[i..k] == [s[i]] + s[i + 1..n.next] + s[n.next..k];
      TokenBefore(fragment, first, rest, [0x2F] + CharsText(cs));
    }
  }

  /** How a refused pointer goes on. */
  lemma TokensStep(fragment: bool, s: Text, i: nat, done: seq<Token>)
    requires i <= |s| && (i < |s| ==> s[i] == SLASH) && ReadTokens(fragment, s, i, done).PointerError?
    ensures i < |s| && s[i] == 0x2F
    ensures var r, n := ReadTokens(fragment, s, i, done), ReadName(fragment, s, i + 1, []);
      if n.BadName? then r == PointerError(n.code, n.offset)
      else
        && i < n.next <= |s| && (n.next < |s| ==> s[n.next] == SLASH)
        && r == ReadTokens(fragment, s, n.next, done + [Token(n.name, IndexOf(n.name))])
  {
    hide ReadName, IndexOf;
  }

  lemma NoTokens(fragment: bool)
    ensures TokensOk(fragment, []) && TokensText([]) == []
  {
  }

  lemma TokenBefore(fragment: bool, first: seq<Char>, rest: seq<seq<Char>>, tail: Text)
    requires CharsOk(fragment, first) && TokensOk(fragment, rest)
    ensures TokensOk(fragment, [first] + rest)
    ensures [0x2F] + CharsText(first) + (TokensText(rest) + tail) == TokensText([first] + rest) + tail
  {
    hide CharsOk, CharsText;
    assert ([first] + rest)[1..] == rest;
  }

  /**
   A refused text begins with no slash where it should, or is a legal pointer up to a character that has
   the fault the code names.
   */
  lemma PointerFaults(s: Text) returns (ts: seq<seq<Char>>, cs: seq<Char>, k: nat)
    requires ParsePointer(s).PointerError?
    ensures var r, i := ParsePointer(s), if IsFragment(s) then 1 else 0;
      if r.code == TokenMustBeginWithSolidus then r.offset == i < |s| && s[i] != 0x2F
      else
        && i < k <= |s| && TokensOk(IsFragment(s), ts) && CharsOk(IsFragment(s), cs)
        && s[i..k] == TokensText(ts) + ([0x2F] + CharsText(cs))
        && CharFault(IsFragment(s), s, k, r.offset, r.code)
  {
    hide ReadTokens, CharFault, TokensOk, CharsOk;
    var i := if IsFragment(s) then 1 else 0;
    if i != |s| && s[i] != SLASH {
      ts, cs, k := [], [], 0;
    } else {
      ts, cs, k := TokensFault(IsFragment(s), s, i, []);
      NoSolidusFault(IsFragment(s), s, k, ParsePointer(s).offset);
    }
  }

  lemma NoSolidusFault(fragment: bool, s: Text, k: nat, o: nat)
    ensures !CharFault(fragment, s, k, o, TokenMustBeginWithSolidus)
  {
  }
}
