/** JSON Pointer text: what the parser makes of a string or URI fragment, and what the stringifiers print. */
module PointerText {
  import opened Bytes
  import Numbers = NumberSyntax
  import StringRoundTrip
  import Utf8

  datatype PointerErrorCode =
    | TokenMustBeginWithSolidus
    | InvalidEscape
    | InvalidPercentEncoding
    | CharacterMustPercentEncode

  datatype Token = Token(name: Text, index: nat)

  /** `kPointerInvalidIndex`: all ones in a 32-bit `SizeType`. */
  const INVALID_INDEX: nat := 0xFFFF_FFFF

  /** The characters RFC 3986 leaves unreserved need no encoding. */
  predicate NeedPercentEncode(c: byte) {
    !(IsDigit(c) || 0x41 <= c <= 0x5A || 0x61 <= c <= 0x7A || c == MINUS || c == DOT || c == 0x5F || c == TILDE)
  }

  // ---- indices ----

  predicate IsNumeral(name: Text) {
    name != [] && Numbers.AllDigits(name) && (|name| > 1 ==> name[0] != ZERO)
  }

  /** The conversion loop from digit `j` on, in 32-bit arithmetic, with its overflow test. */
  function IndexFrom(name: Text, j: nat, n: nat): nat
    requires j <= |name| && Numbers.AllDigits(name)
    decreases |name| - j
  {
    if j == |name| then n
    else
      var m := (n * 10 + (name[j] - ZERO)) % 0x1_0000_0000;
      if m < n then INVALID_INDEX else IndexFrom(name, j + 1, m)
  }

  function IndexOf(name: Text): nat {
    if IsNumeral(name) then IndexFrom(name, 0, 0) else INVALID_INDEX
  }

  lemma {:induction false} IndexFromDecimal(name: Text, j: nat)
    requires j <= |name| && Numbers.AllDigits(name) && Numbers.Decimal(name) < 0x1_0000_0000
    ensures IndexFrom(name, j, Numbers.Decimal(name[..j])) == Numbers.Decimal(name)
    decreases |name| - j
  {
    hide Numbers.Decimal;
    if j == |name| {
      assert name[..j] == name;
    } else {
      assert name[0..] == name && name[0..j] == name[..j] && name[0..j + 1] == name[..j + 1] && name[0..|name|] == name;
      Numbers.DecimalMonotone(name, 0, j + 1, |name|);
      Numbers.DecimalStep(name, 0, j);
      IndexFromDecimal(name, j + 1);
    }
  }

  lemma {:induction false} IndexBound(name: Text, j: nat, n: nat)
    requires j <= |name| && Numbers.AllDigits(name) && n < 0x1_0000_0000
    ensures IndexFrom(name, j, n) < 0x1_0000_0000
    decreases |name| - j
  {
    if j < |name| {
      IndexBound(name, j + 1, (n * 10 + (name[j] - ZERO)) % 0x1_0000_0000);
    }
  }

  /** The index of a canonical numeral is its value exactly when the value fits 32 bits. */
  lemma IndexIff(name: Text)
    requires IsNumeral(name)
    ensures IndexOf(name) == Numbers.Decimal(name) <==> Numbers.Decimal(name) < 0x1_0000_0000
  {
    hide Numbers.Decimal, IndexFrom;
    IndexBound(name, 0, 0);
    if Numbers.Decimal(name) < 0x1_0000_0000 {
      IndexFromDecimal(name, 0);
      assert name[..0] == [] && Numbers.Decimal([]) == 0 by { NoDigits(); }
    }
  }

  lemma NoDigits()
    ensures Numbers.Decimal([]) == 0
  {
  }

  /** The overflow test is not complete: 10000000000 passes as 1410065408. */
  lemma OverflowMissed()
    ensures exists name: Text ::
      IsNumeral(name) && Numbers.Decimal(name) == 10_000_000_000 && IndexOf(name) == 1_410_065_408
  {
    var name: Text := [0x31, ZERO, ZERO, ZERO, ZERO, ZERO, ZERO, ZERO, ZERO, ZERO, ZERO];
    assert forall i | 0 <= i <= 10 :: |name[..i]| == i;
    PowerOfTen(name, 10);
    IndexWraps(name);
  }

  function Zeros(k: nat): Text {
    [0x31] + seq(k, _ => ZERO)
  }

  lemma {:induction false} PowerOfTen(name: Text, k: nat)
    requires name == Zeros(k)
    ensures Numbers.AllDigits(name) && Numbers.Decimal(name) == Numbers.Pow10(k)
  {
    if k == 0 {
      assert name[..0] == [] && Numbers.Decimal(name) == 0 * 10 + 1;
    } else {
      assert name[..k] == Zeros(k - 1) && name[k] == ZERO;
      PowerOfTen(name[..k], k - 1);
    }
  }

  lemma {:induction false} IndexRuns(name: Text, j: nat)
    requires name == Zeros(10) && 1 <= j <= 10
    ensures Numbers.AllDigits(name) && |name| == 11
    ensures IndexFrom(name, j, Numbers.Pow10(j - 1)) == 1_410_065_408
    decreases 10 - j
  {
    hide Numbers.Pow10, IndexFrom;
    BillionIsPower();
    Numbers.Pow10Monotone(j - 1, 9);
    PowStep(j);
    if j < 10 {
      Numbers.Pow10Monotone(j, 9);
      IndexStep(name, j, Numbers.Pow10(j - 1));
      IndexRuns(name, j + 1);
    } else {
      LastStep(name);
    }
  }

  /** A zero digit multiplies by ten, while the product fits. */
  lemma IndexStep(name: Text, j: nat, n: nat)
    requires j < |name| && Numbers.AllDigits(name) && name[j] == ZERO && n * 10 < 0x1_0000_0000
    ensures IndexFrom(name, j, n) == IndexFrom(name, j + 1, n * 10)
  {
  }

  /** The product that does not fit is still the larger one after it has wrapped. */
  lemma LastStep(name: Text)
    requires |name| == 11 && Numbers.AllDigits(name) && name[10] == ZERO
    ensures IndexFrom(name, 10, 1_000_000_000) == 1_410_065_408
  {
  }

  lemma BillionIsPower()
    ensures Numbers.Pow10(9) == 1_000_000_000
  {
    assert Numbers.Pow10(4) == 10_000;
    assert Numbers.Pow10(8) == 100_000_000;
  }

  lemma PowStep(j: nat)
    requires j > 0
    ensures Numbers.Pow10(j) == 10 * Numbers.Pow10(j - 1)
  {
  }

  lemma IndexWraps(name: Text)
    requires name == Zeros(10)
    ensures IsNumeral(name) && IndexOf(name) == 1_410_065_408
  {
    hide Numbers.Pow10;
    assert Numbers.Pow10(0) == 1 by { PowZero(); }
    IndexRuns(name, 1);
    assert IndexFrom(name, 0, 0) == IndexFrom(name, 1, 1);
  }

  lemma PowZero()
    ensures Numbers.Pow10(0) == 1
  {
  }

  // ---- parsing ----

  /** One triplet of the percent-decoding stream. */
  function TripletAt(s: Text, i: nat): (r: Option<byte>) {
    if i + 3 <= |s| && s[i] == PERCENT && IsHex(s[i + 1]) && IsHex(s[i + 2]) then
      Some(HexValue(s[i + 1]) * 16 + HexValue(s[i + 2]))
    else None
  }

  /** The bytes of the run of triplets at `i`. */
  function Triplets(s: Text, i: nat): (r: Text)
    ensures i + 3 * |r| <= |s| || r == []
    decreases |s| - i
  {
    if TripletAt(s, i).None? then [] else [TripletAt(s, i).value] + Triplets(s, i + 3)
  }

  /** What one turn of the name loop adds. */
  datatype Piece =
    | Piece(bytes: Text, next: nat)
    | Wrong(code: PointerErrorCode, offset: nat)

  /** A character at `i`, taken up to `next`, with the escapes of RFC 6901. */
  function Unescaped(s: Text, c: byte, next: nat): (r: Piece)
    requires next <= |s|
    ensures r.Piece? ==> next <= r.next <= |s| && |r.bytes| == 1
  {
    if c != TILDE then Piece([c], next)
    else if Peek(s, next) == ZERO then Piece([TILDE], next + 1)
    else if Peek(s, next) == 0x31 then Piece([SLASH], next + 1)
    else Wrong(InvalidEscape, next)
  }

  function PieceAt(fragment: bool, s: Text, i: nat): (r: Piece)
    requires i < |s|
    ensures r.Piece? ==> i < r.next <= |s| && i + |r.bytes| <= r.next
  {
    if !fragment then Unescaped(s, s[i], i + 1)
    else if s[i] == PERCENT then
      var bytes := Triplets(s, i);
      if bytes == [] || !Utf8.Validate(bytes, 0).ok then Wrong(InvalidPercentEncoding, i)
      else
        var n := Utf8.Validate(bytes, 0).length;
        if n == 1 then Unescaped(s, bytes[0], i + 3) else Piece(bytes[..n], i + 3 * n)
    else if NeedPercentEncode(s[i]) then Wrong(CharacterMustPercentEncode, i)
    else Unescaped(s, s[i], i + 1)
  }

  datatype Name =
    | Name(name: Text, next: nat)
    | BadName(code: PointerErrorCode, offset: nat)

  /** The name loop, after `name`. */
  function ReadName(fragment: bool, s: Text, i: nat, name: Text): (r: Name)
    requires i <= |s|
    ensures r.Name? ==> i <= r.next <= |s| && (r.next < |s| ==> s[r.next] == SLASH)
    ensures r.Name? ==> |r.name| - |name| <= r.next - i
    decreases |s| - i
  {
    if i == |s| || s[i] == SLASH then Name(name, i)
    else
      match PieceAt(fragment, s, i)
      case Wrong(code, offset) => BadName(code, offset)
      case Piece(bytes, next) => ReadName(fragment, s, next, name + bytes)
  }

  datatype Pointer =
    | Tokens(tokens: seq<Token>)
    | PointerError(code: PointerErrorCode, offset: nat)

  function ReadTokens(fragment: bool, s: Text, i: nat, tokens: seq<Token>): Pointer
    requires i <= |s| && (i < |s| ==> s[i] == SLASH)
    decreases |s| - i
  {
    if i == |s| then Tokens(tokens)
    else
      match ReadName(fragment, s, i + 1, [])
      case BadName(code, offset) => PointerError(code, offset)
      case Name(name, next) => ReadTokens(fragment, s, next, tokens + [Token(name, IndexOf(name))])
  }

  predicate IsFragment(s: Text) {
    Peek(s, 0) == HASH
  }

  /** `GenericPointer::Parse`. */
  function ParsePointer(s: Text): Pointer {
    var i := if IsFragment(s) then 1 else 0;
    if i != |s| && s[i] != SLASH then PointerError(TokenMustBeginWithSolidus, i)
    else ReadTokens(IsFragment(s), s, i, [])
  }

  function Slashes(s: Text): nat {
    if s == [] then 0 else (if s[|s| - 1] == SLASH then 1 else 0) + Slashes(s[..|s| - 1])
  }

  // ---- stringifying ----

  function Triplet(c: byte): Text {
    [PERCENT, HexDigit(c / 16), HexDigit(c % 16)]
  }

  /** `PercentEncodeStream`. */
  function PercentAll(bytes: Text): (t: Text)
    ensures |t| == 3 * |bytes|
  {
    if bytes == [] then [] else Triplet(bytes[0]) + PercentAll(bytes[1..])
  }

  datatype Printed = Printed(text: Text, next: nat)

  function PrintedAt(fragment: bool, name: Text, j: nat): (r: Option<Printed>)
    requires j < |name|
    ensures r.Some? ==> j < r.value.next <= |name|
  {
    var c := name[j];
    if c == TILDE then Some(Printed([TILDE, ZERO], j + 1))
    else if c == SLASH then Some(Printed([TILDE, 0x31], j + 1))
    else if fragment && NeedPercentEncode(c) then
      var t := Utf8.Validate(name, j);
      if t.ok then Some(Printed(PercentAll(name[j..j + t.length]), j + t.length)) else None
    else Some(Printed([c], j + 1))
  }

  function PrintName(fragment: bool, name: Text, j: nat): Option<Text>
    requires j <= |name|
    decreases |name| - j
  {
    if j == |name| then Some([])
    else
      match PrintedAt(fragment, name, j)
      case None => None
      case Some(p) =>
        match PrintName(fragment, name, p.next)
        case None => None
        case Some(rest) => Some(p.text + rest)
  }

  function PrintTokens(fragment: bool, names: seq<Text>): Option<Text> {
    if names == [] then Some([])
    else
      match PrintName(fragment, names[0], 0)
      case None => None
      case Some(t) =>
        match PrintTokens(fragment, names[1..])
        case None => None
        case Some(rest) => Some([SLASH] + t + rest)
  }

  /** `Stringify`. */
  function Stringify(fragment: bool, names: seq<Text>): Option<Text> {
    match PrintTokens(fragment, names)
    case None => None
    case Some(t) => Some(if fragment then [HASH] + t else t)
  }

  // ---- one token per slash ----

  lemma {:induction false} SlashesConcat(a: Text, b: Text)
    ensures Slashes(a + b) == Slashes(a) + Slashes(b)
    decreases |b|
  {
    if b == [] {
      assert a + b == a;
    } else {
      assert (a + b)[..|a + b| - 1] == a + b[..|b| - 1];
      SlashesConcat(a, b[..|b| - 1]);
    }
  }

  lemma {:induction false} NoSlashes(s: Text)
    requires forall k :: 0 <= k < |s| ==> s[k] != SLASH
    ensures Slashes(s) == 0
  {
    if s != [] {
      NoSlashes(s[..|s| - 1]);
    }
  }

  /** No piece of a name takes a slash. */
  lemma PieceKeepsSlashes(fragment: bool, s: Text, i: nat)
    requires i < |s| && s[i] != SLASH && PieceAt(fragment, s, i).Piece?
    ensures forall k :: i <= k < PieceAt(fragment, s, i).next ==> s[k] != SLASH
  {
    hide Utf8.Validate;
    if fragment && s[i] == PERCENT {
      TripletsHaveNoSlash(s, i);
    }
  }

  lemma {:induction false} TripletsHaveNoSlash(s: Text, i: nat)
    ensures forall k :: i <= k < i + 3 * |Triplets(s, i)| ==> k < |s| && s[k] != SLASH
    decreases |s| - i
  {
    if TripletAt(s, i).None? {
      assert Triplets(s, i) == [];
    } else {
      TripletHasNoSlash(s, i);
      TripletsHaveNoSlash(s, i + 3);
      assert Triplets(s, i) == [TripletAt(s, i).value] + Triplets(s, i + 3);
      forall k | i <= k < i + 3 * |Triplets(s, i)|
        ensures k < |s| && s[k] != SLASH
      {
        assert k == i || k == i + 1 || k == i + 2 || i + 3 <= k;
      }
    }
  }

  lemma TripletHasNoSlash(s: Text, i: nat)
    requires TripletAt(s, i).Some?
    ensures i + 3 <= |s| && s[i] != SLASH && s[i + 1] != SLASH && s[i + 2] != SLASH
  {
  }

  lemma {:induction false} NameHasNoSlash(fragment: bool, s: Text, i: nat, name: Text)
    requires i <= |s| && ReadName(fragment, s, i, name).Name?
    ensures forall k :: i <= k < ReadName(fragment, s, i, name).next ==> s[k] != SLASH
    decreases |s| - i
  {
    hide PieceAt;
    if i < |s| && s[i] != SLASH {
      PieceKeepsSlashes(fragment, s, i);
      var p := PieceAt(fragment, s, i);
      NameHasNoSlash(fragment, s, p.next, name + p.bytes);
    }
  }

  /** The parser fills one token for every slash. */
  lemma {:induction false} TokenPerSlash(fragment: bool, s: Text, i: nat, tokens: seq<Token>)
    requires i <= |s| && (i < |s| ==> s[i] == SLASH)
    ensures var r := ReadTokens(fragment, s, i, tokens);
      r.Tokens? ==> |r.tokens| == |tokens| + Slashes(s[i..])
    decreases |s| - i
  {
    hide ReadName;
    if i == |s| {
      assert s[i..] == [];
    } else {
      var r := ReadName(fragment, s, i + 1, []);
      if r.Name? {
        NameHasNoSlash(fragment, s, i + 1, []);
        SlashesOfToken(s, i, r.next);
        TokenPerSlash(fragment, s, r.next, tokens + [Token(r.name, IndexOf(r.name))]);
      }
    }
  }

  lemma SlashesOfToken(s: Text, i: nat, next: nat)
    requires i < next <= |s| && s[i] == SLASH && forall k :: i < k < next ==> s[k] != SLASH
    ensures Slashes(s[i..]) == 1 + Slashes(s[next..])
  {
    hide Slashes;
    assert s[i..] == [s[i]] + (s[i + 1..next] + s[next..]);
    SlashesConcat([s[i]], s[i + 1..next] + s[next..]);
    SlashesConcat(s[i + 1..next], s[next..]);
    NoSlashes(s[i + 1..next]);
    OneSlash();
  }

  lemma OneSlash()
    ensures Slashes([SLASH]) == 1
  {
    assert [SLASH][..0] == [];
  }

  // ---- round trip ----

  lemma TripletRead(s: Text, i: nat, c: byte)
    requires At(s, i, Triplet(c))
    ensures TripletAt(s, i) == Some(c)
  {
    hide HexDigit, HexValue, IsHex;
    AtPeek(s, i, Triplet(c), 0);
    AtPeek(s, i, Triplet(c), 1);
    AtPeek(s, i, Triplet(c), 2);
    StringRoundTrip.HexDigitRead(c / 16);
    StringRoundTrip.HexDigitRead(c % 16);
  }

  lemma {:induction false} PercentRead(s: Text, i: nat, bytes: Text)
    requires At(s, i, PercentAll(bytes))
    ensures |bytes| <= |Triplets(s, i)| && Triplets(s, i)[..|bytes|] == bytes
    decreases |bytes|
  {
    hide Triplet, TripletAt;
    if bytes != [] {
      AtConcat(s, i, Triplet(bytes[0]), PercentAll(bytes[1..]));
      TripletRead(s, i, bytes[0]);
      TripletLength(bytes[0]);
      PercentRead(s, i + 3, bytes[1..]);
    }
  }

  lemma TripletLength(c: byte)
    ensures |Triplet(c)| == 3 && Triplet(c)[0] == PERCENT
  {
  }

  /** What one turn of the stringifier prints, one turn of the parser takes. */
  lemma PieceRead(fragment: bool, name: Text, j: nat, s: Text, q: nat)
    requires j < |name| && PrintedAt(fragment, name, j).Some? && At(s, q, PrintedAt(fragment, name, j).value.text)
    ensures var p := PrintedAt(fragment, name, j).value;
      && q < |s| && s[q] != SLASH
      && PieceAt(fragment, s, q) == Piece(name[j..p.next], q + |p.text|)
  {
    hide Utf8.Validate, TripletAt, Triplets, PercentAll;
    var c := name[j];
    var p := PrintedAt(fragment, name, j).value;
    assert name[j..j + 1] == [c];
    if c == TILDE || c == SLASH {
      AtPeek(s, q, p.text, 0);
      AtPeek(s, q, p.text, 1);
    } else if fragment && NeedPercentEncode(c) {
      PercentPieceRead(name, j, s, q);
    } else {
      AtPeek(s, q, p.text, 0);
    }
  }

  lemma PercentPieceRead(name: Text, j: nat, s: Text, q: nat)
    requires j < |name| && Utf8.Validate(name, j).ok && name[j] != TILDE
    requires At(s, q, PercentAll(name[j..j + Utf8.Validate(name, j).length]))
    ensures var n := Utf8.Validate(name, j).length;
      && q < |s| && s[q] == PERCENT
      && PieceAt(true, s, q) == Piece(name[j..j + n], q + 3 * n)
  {
    hide Utf8.Validate, TripletAt, Utf8.WellFormed, Triplets;
    var n := Utf8.Validate(name, j).length;
    var bytes := name[j..j + n];
    PercentRead(s, q, bytes);
    TripletLength(bytes[0]);
    AtPeek(s, q, PercentAll(bytes), 0);
    var run := Triplets(s, q);
    Utf8.ValidateIsGrammar(name, j);
    Utf8.ValidateIsGrammar(run, 0);
    assert run[0..0 + n] == bytes;
    assert Utf8.Validate(run, 0) == Utf8.Taken(true, n) by { assert Utf8.WellFormed(run[0..0 + n]); }
    assert run[0] == bytes[0] == name[j];
  }

  /** A printed name is read back, up to a slash or the end. */
  lemma {:induction false} NameRead(fragment: bool, name: Text, j: nat, s: Text, q: nat, done: Text)
    requires j <= |name| && PrintName(fragment, name, j).Some? && At(s, q, PrintName(fragment, name, j).value)
    requires var e := q + |PrintName(fragment, name, j).value|; e == |s| || Peek(s, e) == SLASH
    ensures q <= |s|
    ensures ReadName(fragment, s, q, done) == Name(done + name[j..], q + |PrintName(fragment, name, j).value|)
    decreases |name| - j
  {
    hide PieceAt, PrintedAt;
    if j == |name| {
      assert done + name[j..] == done;
    } else {
      var p := PrintedAt(fragment, name, j).value;
      AtConcat(s, q, p.text, PrintName(fragment, name, p.next).value);
      PieceRead(fragment, name, j, s, q);
      PieceKeepsSlashes(fragment, s, q);
      NameRead(fragment, name, p.next, s, q + |p.text|, done + name[j..p.next]);
      assert done + name[j..p.next] + name[p.next..] == done + name[j..];
    }
  }

  function Named(names: seq<Text>): (r: seq<Token>)
    ensures |r| == |names|
  {
    seq(|names|, i requires 0 <= i < |names| => Token(names[i], IndexOf(names[i])))
  }

  lemma {:induction false} TokensRead(fragment: bool, names: seq<Text>, s: Text, q: nat, done: seq<Token>)
    requires PrintTokens(fragment, names).Some? && At(s, q, PrintTokens(fragment, names).value)
    requires q + |PrintTokens(fragment, names).value| == |s|
    ensures q < |s| ==> s[q] == SLASH
    ensures ReadTokens(fragment, s, q, done) == Tokens(done + Named(names))
    decreases |names|
  {
    hide ReadName, PrintName, IndexOf, At, Named;
    if names == [] {
      NamedFirst(names);
      assert done + [] == done;
    } else {
      var t, rest := PrintName(fragment, names[0], 0).value, PrintTokens(fragment, names[1..]).value;
      AtConcat(s, q, [SLASH] + t, rest);
      AtConcat(s, q, [SLASH], t);
      AtPeek(s, q, [SLASH], 0);
      var e := q + 1 + |t|;
      if names[1..] != [] {
        StartsWithSlash(fragment, names[1..]);
        AtPeek(s, e, rest, 0);
      } else {
        assert rest == [];
      }
      NameRead(fragment, names[0], 0, s, q + 1, []);
      assert [] + names[0][0..] == names[0];
      var token := Token(names[0], IndexOf(names[0]));
      TokensRead(fragment, names[1..], s, e, done + [token]);
      NamedFirst(names);
      assert done + [token] + Named(names[1..]) == done + ([token] + Named(names[1..]));
    }
  }

  lemma NamedFirst(names: seq<Text>)
    ensures names == [] ==> Named(names) == []
    ensures names != [] ==> Named(names) == [Token(names[0], IndexOf(names[0]))] + Named(names[1..])
  {
    hide IndexOf;
  }

  lemma StartsWithSlash(fragment: bool, names: seq<Text>)
    requires names != [] && PrintTokens(fragment, names).Some?
    ensures PrintTokens(fragment, names).value != [] && PrintTokens(fragment, names).value[0] == SLASH
  {
  }

  lemma {:induction false} PlainPrints(name: Text, j: nat)
    requires j <= |name|
    ensures PrintName(false, name, j).Some?
    decreases |name| - j
  {
    if j < |name| {
      PlainPrints(name, PrintedAt(false, name, j).value.next);
    }
  }

  lemma {:induction false} PlainTokensPrint(names: seq<Text>)
    ensures PrintTokens(false, names).Some?
  {
    hide PrintName;
    if names != [] {
      PlainPrints(names[0], 0);
      PlainTokensPrint(names[1..]);
    }
  }

  /** A name has a fragment form exactly when it is valid UTF-8. */
  lemma {:induction false} FragmentPrintsIff(name: Text, j: nat)
    requires j <= |name|
    ensures PrintName(true, name, j).Some? <==> Utf8.ValidText(name[j..])
    decreases |name| - j
  {
    hide Utf8.Validate, Utf8.ValidText, PercentAll;
    if j == |name| {
      assert name[j..] == [];
      StringRoundTrip.EmptyValid();
    } else {
      StringRoundTrip.ValidGreedy(name, j);
      if !NeedPercentEncode(name[j]) || name[j] == SLASH {
        StringRoundTrip.SingleIsGrammar(name, j);
      }
      var p := PrintedAt(true, name, j);
      if p.Some? {
        FragmentPrintsIff(name, p.value.next);
      }
    }
  }

  predicate AllValid(names: seq<Text>) {
    names != [] ==> Utf8.ValidText(names[0]) && AllValid(names[1..])
  }

  lemma {:induction false} FragmentTokensIff(names: seq<Text>)
    ensures PrintTokens(true, names).Some? <==> AllValid(names)
  {
    hide PrintName, Utf8.ValidText;
    if names != [] {
      FragmentPrintsIff(names[0], 0);
      assert names[0][0..] == names[0];
      FragmentTokensIff(names[1..]);
    }
  }

  /**
   Section 3 and section 6 of RFC 6901: for every list of names the string form parses back to those
   names; the fragment form exists exactly when they are valid UTF-8, and then parses back to them.
   */
  lemma PointerRoundTrip(names: seq<Text>)
    ensures Stringify(false, names).Some? && ParsePointer(Stringify(false, names).value) == Tokens(Named(names))
    ensures Stringify(true, names).Some? <==> AllValid(names)
    ensures AllValid(names) ==> ParsePointer(Stringify(true, names).value) == Tokens(Named(names))
  {
    hide PrintTokens, ReadTokens, IndexOf, Utf8.ValidText, AllValid, Named;
    PlainTokensPrint(names);
    FragmentTokensIff(names);
    var s := PrintTokens(false, names).value;
    assert At(s, 0, s);
    TokensRead(false, names, s, 0, []);
    assert [] + Named(names) == Named(names);
    if AllValid(names) {
      var t := PrintTokens(true, names).value;
      var f := [HASH] + t;
      assert f[1..] == t && At(f, 1, t);
      TokensRead(true, names, f, 1, []);
    }
  }
}
