/** `GenericPointer::Parse`: names decoded into one buffer, one slot per token, both sized before parsing. */
module PointerParser {
  import opened Bytes
  import opened PointerText
  import Numbers = NumberSyntax
  import Utf8

  /** `PercentDecodeStream`. */
  class PercentDecodeStream {
    const source: Text
    var src: nat
    var valid: bool

    constructor (source: Text, src: nat)
      ensures this.source == source && this.src == src && valid
    {
      this.source := source;
      this.src := src;
      valid := true;
    }

    method Take() returns (c: byte)
      modifies this
      ensures TripletAt(source, old(src)).Some? ==>
        valid == old(valid) && c == TripletAt(source, old(src)).value && src == old(src) + 3
      ensures TripletAt(source, old(src)).None? ==> !valid && c == 0
    {
      if src + 3 > |source| || source[src] != PERCENT {
        valid := false;
        return 0;
      }
      ghost var start := src;
      src := src + 1;
      var code: nat := 0;
      for j := 0 to 2
        invariant src == start + 1 + j && valid == old(valid)
        invariant j == 0 ==> code == 0
        invariant j >= 1 ==> IsHex(source[start + 1])
        invariant j == 1 ==> code == HexValue(source[start + 1])
        invariant j == 2 ==> IsHex(source[start + 2])
        invariant j == 2 ==> code == HexValue(source[start + 1]) * 16 + HexValue(source[start + 2])
      {
        var h := source[src];
        if !IsHex(h) {
          valid := false;
          return 0;
        }
        code := code * 16 + HexValue(h);
        src := src + 1;
      }
      c := code;
    }
  }

  lemma {:induction false} TripletsIndex(s: Text, i: nat, k: nat)
    requires k <= |Triplets(s, i)|
    ensures k < |Triplets(s, i)| <==> TripletAt(s, i + 3 * k).Some?
    ensures k < |Triplets(s, i)| ==> Triplets(s, i)[k] == TripletAt(s, i + 3 * k).value
    decreases k
  {
    hide TripletAt;
    if k > 0 {
      TripletsIndex(s, i + 3, k - 1);
    }
  }

  /** A token: where its name starts in the buffer, its length, and its index. */
  datatype Slot = Slot(name: nat, length: nat, index: nat)

  /** The slots and the buffer spell out these tokens, each name followed by NUL. */
  ghost predicate Spells(ts: seq<Token>, slots: seq<Slot>, buffer: Text, used: nat) {
    && |ts| <= |slots| && used <= |buffer|
    && forall k :: 0 <= k < |ts| ==> SpellsOne(ts[k], slots[k], buffer, used)
  }

  ghost predicate SpellsOne(t: Token, slot: Slot, buffer: Text, used: nat) {
    && slot.name + slot.length < used <= |buffer| && slot.length == |t.name|
    && buffer[slot.name..slot.name + slot.length] == t.name
    && buffer[slot.name + slot.length] == NUL && slot.index == t.index
  }

  /** Names already spelled are out of reach of what is written behind them. */
  lemma SpellsMore(ts: seq<Token>, t: Token, slots: seq<Slot>, buffer: Text, used: nat, slots': seq<Slot>,
      buffer': Text,
                   more: nat)
    requires Spells(ts, slots, buffer, used) && used <= more <= |buffer'| == |buffer|
    requires buffer'[..used] == buffer[..used] && |ts| < |slots| == |slots'|
    requires forall k :: 0 <= k < |ts| ==> slots'[k] == slots[k]
    requires SpellsOne(t, slots'[|ts|], buffer', more)
    ensures Spells(ts + [t], slots', buffer', more)
  {
    forall k | 0 <= k < |ts|
      ensures SpellsOne(ts[k], slots'[k], buffer', more)
    {
      var slot := slots[k];
      assert SpellsOne(ts[k], slot, buffer, used);
      var e := slot.name + slot.length;
      assert buffer'[slot.name..e] == buffer'[..used][slot.name..e] == buffer[slot.name..e];
      assert buffer'[..used][e] == buffer[..used][e];
    }
  }

  lemma SpellsWider(ts: seq<Token>, slots: seq<Slot>, buffer: Text, used: nat, more: nat)
    requires Spells(ts, slots, buffer, used) && used <= more <= |buffer|
    ensures Spells(ts, slots, buffer, more)
  {
    forall k | 0 <= k < |ts|
      ensures SpellsOne(ts[k], slots[k], buffer, more)
    {
      assert SpellsOne(ts[k], slots[k], buffer, used);
    }
  }

  class GenericPointer {
    var nameBuffer: array?<byte>
    var tokens: array?<Slot>
    var tokenCount: nat
    var parseErrorCode: Option<PointerErrorCode>
    var parseErrorOffset: nat

    constructor ()
      ensures nameBuffer == null && tokens == null && tokenCount == 0 && parseErrorCode == None
    {
      nameBuffer, tokens, tokenCount := null, null, 0;
      parseErrorCode, parseErrorOffset := None, 0;
    }

    predicate IsValid()
      reads this
    {
      parseErrorCode == None
    }

    /** `Transcoder::Validate` from the percent-decoding stream onto the name buffer: the sequence at
        `i` is decoded to `n` bytes at `name`.  Four bytes may be written even when it fails. */
    static method DecodeSequence(s: Text, i: nat, buffer: array<byte>, name: nat) returns (ok: bool, n: nat)
      requires i < |s| && s[i] == PERCENT && name + 2 <= i && |s| <= buffer.Length
      modifies buffer
      ensures var run := Triplets(s, i);
        && ok == (run != [] && Utf8.Validate(run, 0).ok)
        && (ok ==> n == Utf8.Validate(run, 0).length <= |run| && i + 3 * n <= |s| && buffer[name..name + n] == run[..n])
      ensures forall k :: 0 <= k < buffer.Length && !(name <= k < name + 4) ==> buffer[k] == old(buffer[k])
    {
      hide Triplets, TripletAt, Utf8.ShapeOf, Utf8.InMask;
      ghost var run := Triplets(s, i);
      var stream := new PercentDecodeStream(s, i);
      TripletsIndex(s, i, 0);
      var c := stream.Take();
      buffer[name] := c;
      n := 1;
      if c < 0x80 {
        ok := stream.valid;
        assert ok ==> buffer[name..name + 1] == run[..1];
        return;
      }
      Utf8.ShapeFacts(c);
      assert run != [] && i + 3 * |run| <= |s|;
      match Utf8.ShapeOf(c)
      case None =>
        ok := false;
      case Some(shape) =>
        ok, n := DecodeTail(stream, shape, i, buffer, name);
    }

    /** The bytes after the lead. */
    static method DecodeTail(stream: PercentDecodeStream, shape: Utf8.Shape, ghost i: nat, buffer: array<byte>,
        name: nat)
      returns (ok: bool, n: nat)
      requires 2 <= shape.length <= 4 && stream.valid && stream.src == i + 3 && name + 4 <= buffer.Length
      requires var run := Triplets(stream.source, i); run != [] && buffer[name] == run[0]
      modifies stream, buffer
      ensures var run := Triplets(stream.source, i);
        && n == shape.length
        && ok == (&& Utf8.InMask(Peek(run, 1), shape.mask)
                  && (shape.length >= 3 ==> Utf8.InMask(Peek(run, 2), 0x70))
                  && (shape.length >= 4 ==> Utf8.InMask(Peek(run, 3), 0x70)))
        && (ok ==> n <= |run| && buffer[name..name + n] == run[..n])
      ensures forall k :: 0 <= k < buffer.Length && !(name <= k < name + 4) ==> buffer[k] == old(buffer[k])
    {
      hide Triplets, TripletAt, Utf8.InMask;
      ghost var run := Triplets(stream.source, i);
      Utf8.ShapeFacts(0);
      ok := true;
      for j := 1 to shape.length
        invariant ok == (&& (1 < j ==> Utf8.InMask(Peek(run, 1), shape.mask))
                         && (2 < j ==> Utf8.InMask(Peek(run, 2), 0x70))
                         && (3 < j ==> Utf8.InMask(Peek(run, 3), 0x70)))
        invariant ok ==> stream.valid && stream.src == i + 3 * j && j <= |run|
        invariant ok ==> forall k :: 0 <= k < j ==> buffer[name + k] == run[k]
        invariant forall k :: 0 <= k < buffer.Length && !(name <= k < name + 4) ==> buffer[k] == old(buffer[k])
      {
        if ok {
          TripletsIndex(stream.source, i, j);
        }
        var c := stream.Take();
        assert ok ==> c == Peek(run, j);
        buffer[name + j] := c;
        ok := ok && Utf8.InMask(c, if j == 1 then shape.mask else 0x70);
      }
      n := shape.length;
    }

    /** What the name loop reports: the position it stopped at, and an error or the name's length. */
    ghost static predicate NameIs(r: Name, error: Option<PointerErrorCode>, next: nat, length: nat,
        buffer: array<byte>, name: nat)
      reads buffer
    {
      match r
      case BadName(code, offset) => error == Some(code) && next == offset
      case Name(t, n) =>
        && error == None && next == n && length == |t|
        && name + length < buffer.Length && buffer[..][name..name + length] == t
    }

    /** The inner loop of `Parse`: one name, from `i0` on, into the buffer at `start`.  What is
        written stays behind what is read. */
    static method ParseName(fragment: bool, s: Text, i0: nat, buffer: array<byte>, start: nat)
      returns (error: Option<PointerErrorCode>, next: nat, length: nat, isNumber: bool)
      requires i0 <= |s| && |s| <= buffer.Length && start + 1 <= i0 && (fragment ==> start + 2 <= i0)
      modifies buffer
      ensures NameIs(ReadName(fragment, s, i0, []), error, next, length, buffer, start)
      ensures error == None ==> i0 <= next <= |s| && start + length < next && (fragment ==> start + length + 1 < next)
      ensures error == None ==> isNumber == Numbers.AllDigits(ReadName(fragment, s, i0, []).name)
      ensures buffer[..][..start] == old(buffer[..])[..start]
    {
      hide PieceAt, ReadName, Numbers.AllDigits;
      NothingIsDigits();
      var i, name := i0, start;
      isNumber := true;
      ghost var done: Text := [];
      ghost var base := buffer[..][..start];
      while i < |s| && s[i] != SLASH
        invariant i0 <= i <= |s| && name == start + |done| && name + 1 <= i && (fragment ==> name + 2 <= i)
        invariant buffer[..][..name] == base + done && isNumber == Numbers.AllDigits(done)
        invariant ReadName(fragment, s, i, done) == ReadName(fragment, s, i0, [])
        decreases |s| - i
      {
        ghost var p := PieceAt(fragment, s, i);
        NameTurn(fragment, s, i, done);
        var n, digits;
        error, i, n, digits := ParsePiece(fragment, s, i, buffer, name);
        if error.Some? {
          return error, i, 0, false;
        }
        Grown(buffer[..], name, n, base, done, p.bytes);
        DigitsConcat(done, p.bytes);
        done := done + p.bytes;
        name := name + n;
        isNumber := isNumber && digits;
      }
      NameEnds(fragment, s, i, done);
      error, next, length := None, i, name - start;
      Ended(buffer[..], start, name, base, done);
    }

    /** One turn of the inner loop: a character, an escape or a percent-encoded sequence. */
    static method ParsePiece(fragment: bool, s: Text, i0: nat, buffer: array<byte>, name: nat)
      returns (error: Option<PointerErrorCode>, i: nat, n: nat, digits: bool)
      requires i0 < |s| && s[i0] != SLASH && |s| <= buffer.Length && name + 1 <= i0 && (fragment ==> name + 2 <= i0)
      modifies buffer
      ensures match PieceAt(fragment, s, i0)
        case Wrong(code, offset) => error == Some(code) && i == offset
        case Piece(bytes, next) =>
          && error == None && i == next && n == |bytes| && name + n <= buffer.Length
          && buffer[..][name..name + n] == bytes && digits == Numbers.AllDigits(bytes)
      ensures buffer[..][..name] == old(buffer[..])[..name]
    {
      hide Triplets, TripletAt, Utf8.Validate;
      i, n, digits := i0, 1, true;
      var c := s[i];
      if fragment {
        if c == PERCENT {
          var ok, length := DecodeSequence(s, i, buffer, name);
          if !ok {
            return Some(InvalidPercentEncoding), i, 0, false;
          }
          if length == 1 {
            i := i + 2;
            c := buffer[name];
            assert c == buffer[name..name + 1][0];
          } else {
            MultiByte(Triplets(s, i)[..length], Triplets(s, i), length);
            return None, i + 3 * length, length, false;
          }
        } else if NeedPercentEncode(c) {
          return Some(CharacterMustPercentEncode), i, 0, false;
        }
      }
      i := i + 1;
      if c == TILDE {
        if i < |s| && s[i] == ZERO {
          c := TILDE;
        } else if i < |s| && s[i] == 0x31 {
          c := SLASH;
        } else {
          return Some(InvalidEscape), i, 0, false;
        }
        i := i + 1;
      }
      if c < ZERO || c > NINE {
        digits := false;
      }
      buffer[name] := c;
      assert buffer[name..name + 1] == [c];
      OneDigit(c);
      error := None;
    }

    /** The conversion loop. */
    static method ParseIndex(name: Text, isNumber0: bool) returns (index: nat)
      requires isNumber0 == Numbers.AllDigits(name)
      ensures index == IndexOf(name)
    {
      var isNumber := isNumber0 && |name| != 0;
      if isNumber && |name| > 1 && name[0] == ZERO {
        isNumber := false;
      }
      var n: nat := 0;
      if isNumber {
        for j := 0 to |name|
          invariant isNumber && IndexFrom(name, j, n) == IndexFrom(name, 0, 0)
        {
          var m := (n * 10 + (name[j] - ZERO)) % 0x1_0000_0000;
          if m < n {
            return INVALID_INDEX;
          }
          n := m;
        }
      }
      index := if isNumber then n else INVALID_INDEX;
    }

    method Parse(source: Text)
      requires nameBuffer == null && tokens == null
      modifies this
      ensures match ParsePointer(source)
        case PointerError(code, offset) =>
          parseErrorCode == Some(code) && parseErrorOffset == offset && nameBuffer == null && tokens == null &&
              tokenCount == 0
        case Tokens(ts) =>
          && parseErrorCode == None && nameBuffer != null && tokens != null
          && tokenCount == |ts| == tokens.Length && nameBuffer.Length == |source|
          && Spells(ts, tokens[..], nameBuffer[..], |source|)
    {
      hide IndexOf;
      tokenCount := CountSlashes(source);
      var slots := new Slot[tokenCount](_ => Slot(0, 0, 0));
      var buffer := new byte[|source|](_ => NUL);
      var i := 0;
      var uriFragment := false;
      if Peek(source, 0) == HASH {
        uriFragment := true;
        i := 1;
      }
      parseErrorCode := None;
      var error: Option<PointerErrorCode> := None;
      if i != |source| && source[i] != SLASH {
        error := Some(TokenMustBeginWithSolidus);
      } else {
        ghost var ts;
        SlashesAfterHash(source, i);
        error, i, ts := ParseTokens(uriFragment, source, i, slots, buffer);
      }
      if error.Some? {
        parseErrorCode, parseErrorOffset := error, i;
        nameBuffer, tokens, tokenCount := null, null, 0;
      } else {
        nameBuffer, tokens := buffer, slots;
      }
    }

    static method CountSlashes(source: Text) returns (n: nat)
      ensures n == Slashes(source)
    {
      n := 0;
      for k := 0 to |source|
        invariant n == Slashes(source[..k])
      {
        assert source[..k + 1][..k] == source[..k];
        if source[k] == SLASH {
          n := n + 1;
        }
      }
      assert source[..|source|] == source;
    }

    /** The outer loop of `Parse`: the slots suffice, because there is one for every slash, and the
        buffer suffices, because every name is no longer than what it was read from. */
    static method ParseTokens(fragment: bool, s: Text, i0: nat, slots: array<Slot>, buffer: array<byte>)
      returns (error: Option<PointerErrorCode>, i: nat, ghost ts: seq<Token>)
      requires i0 <= |s| && (i0 < |s| ==> s[i0] == SLASH) && i0 == (if fragment then 1 else 0)
      requires slots.Length == SlashesFrom(s, i0) && buffer.Length == |s|
      modifies slots, buffer
      ensures match ReadTokens(fragment, s, i0, [])
        case PointerError(code, offset) => error == Some(code) && i == offset
        case Tokens(r) => error == None && ts == r && |r| == slots.Length && Spells(r, slots[..], buffer[..], |s|)
    {
      hide IndexOf, ReadName, SlashesFrom, SpellsOne;
      i, ts, error := i0, [], None;
      var name: nat, token: nat := 0, 0;
      while i < |s|
        invariant i0 <= i <= |s| && (i < |s| ==> s[i] == SLASH)
        invariant error == None && token == |ts| && token + SlashesFrom(s, i) == slots.Length
        invariant name <= i && (fragment ==> name + 1 <= i) && Spells(ts, slots[..], buffer[..], name)
        invariant ReadTokens(fragment, s, i, ts) == ReadTokens(fragment, s, i0, [])
        decreases |s| - i
      {
        ghost var r := ReadName(fragment, s, i + 1, []);
        if r.Name? {
          OneSlashFewer(fragment, s, i);
        }
        error, i, name := ParseToken(fragment, s, i, slots, buffer, token, name, ts);
        if error.Some? {
          return;
        }
        ts := ts + [Token(r.name, IndexOf(r.name))];
        token := token + 1;
      }
      NoSlashesLeft(s, i);
      SpellsWider(ts, slots[..], buffer[..], name, |s|);
    }

    /** One turn of the outer loop: a slash, a name, its slot. */
    static method ParseToken(fragment: bool, s: Text, i0: nat, slots: array<Slot>, buffer: array<byte>, token: nat,
                             name: nat, ghost ts: seq<Token>)
      returns (error: Option<PointerErrorCode>, i: nat, used: nat)
      requires i0 < |s| == buffer.Length && s[i0] == SLASH && name <= i0 && (fragment ==> name + 1 <= i0)
      requires ReadName(fragment, s, i0 + 1, []).Name? ==> token < slots.Length
      requires token == |ts| && Spells(ts, slots[..], buffer[..], name)
      modifies slots, buffer
      ensures match ReadName(fragment, s, i0 + 1, [])
        case BadName(code, offset) => error == Some(code) && i == offset
        case Name(t, next) =>
          && error == None && i == next && name < used <= i && (fragment ==> used + 1 <= i)
          && Spells(ts + [Token(t, IndexOf(t))], slots[..], buffer[..], used)
    {
      hide IndexOf, ReadName, Numbers.AllDigits, Spells;
      i, used := i0 + 1, name;
      ghost var r := ReadName(fragment, s, i, []);
      var length, isNumber;
      error, i, length, isNumber := ParseName(fragment, s, i, buffer, name);
      if error.Some? {
        return;
      }
      var text := buffer[name..name + length];
      var index := ParseIndex(text, isNumber);
      buffer[name + length] := NUL;
      slots[token] := Slot(name, length, index);
      used := name + length + 1;
      assert buffer[name..name + length] == text;
      assert buffer[..name] == old(buffer[..name]);
      SpellsMore(ts, Token(r.name, index), old(slots[..]), old(buffer[..]), name, slots[..], buffer[..], used);
    }

    /** `Stringify`, from the slots and the buffer that spell out `ts`. */
    method Stringify(fragment: bool, ghost ts: seq<Token>) returns (ok: bool, os: Text)
      requires nameBuffer != null && tokens != null && tokenCount == |ts| == tokens.Length
      requires Spells(ts, tokens[..], nameBuffer[..], nameBuffer.Length)
      ensures ok == PointerText.Stringify(fragment, NamesOf(ts)).Some?
      ensures ok ==> os == PointerText.Stringify(fragment, NamesOf(ts)).value
    {
      hide PrintName, PrintTokens, Spells;
      ghost var names := NamesOf(ts);
      os := if fragment then [HASH] else [];
      ghost var head := os;
      ghost var done: Text := [];
      assert names[0..] == names;
      for t := 0 to tokenCount
        invariant os == head + done
        invariant PrintTokens(fragment, names[t..]).Some? == PrintTokens(fragment, names).Some?
        invariant PrintTokens(fragment, names[t..]).Some? ==>
          PrintTokens(fragment, names).value == done + PrintTokens(fragment, names[t..]).value
      {
        TokensStep(fragment, names, t, done);
        SpellsAt(ts, tokens[..], nameBuffer[..], nameBuffer.Length, t);
        var slot := tokens[t];
        var name := nameBuffer[slot.name..slot.name + slot.length];
        assert name == names[t];
        var text;
        ok, text := StringifyName(fragment, name);
        if !ok {
          return;
        }
        os := os + [SLASH] + text;
        assert head + done + [SLASH] + text == head + (done + [SLASH] + text);
        done := done + [SLASH] + text;
      }
      TokensEnd(fragment, names, done);
      ok := true;
    }

    /** The inner loop of `Stringify`. */
    static method StringifyName(fragment: bool, name: Text) returns (ok: bool, os: Text)
      ensures ok == PrintName(fragment, name, 0).Some?
      ensures ok ==> os == PrintName(fragment, name, 0).value
    {
      hide PrintedAt;
      os := [];
      var j := 0;
      while j < |name|
        invariant j <= |name| && PrintName(fragment, name, j).Some? == PrintName(fragment, name, 0).Some?
        invariant PrintName(fragment, name, j).Some? ==>
          PrintName(fragment, name, 0).value == os + PrintName(fragment, name, j).value
        decreases |name| - j
      {
        ghost var p := PrintedAt(fragment, name, j);
        var text;
        ok, text, j := PrintPiece(fragment, name, j);
        if !ok {
          return;
        }
        ghost var rest := PrintName(fragment, name, j);
        if rest.Some? {
          assert os + (text + rest.value) == (os + text) + rest.value;
        }
        os := os + text;
      }
      ok := true;
      assert os + [] == os;
    }

    /** One turn of the inner loop. */
    static method PrintPiece(fragment: bool, name: Text, j: nat) returns (ok: bool, text: Text, next: nat)
      requires j < |name|
      ensures ok == PrintedAt(fragment, name, j).Some?
      ensures ok ==> PrintedAt(fragment, name, j).value == PointerText.Printed(text, next)
      ensures !ok ==> next == j
    {
      hide Utf8.Validate, PercentAll, NeedPercentEncode;
      var c := name[j];
      ok, next := true, j + 1;
      if c == TILDE {
        text := [TILDE, ZERO];
      } else if c == SLASH {
        text := [TILDE, 0x31];
      } else if fragment && NeedPercentEncode(c) {
        var t := Utf8.Validate(name, j);
        if !t.ok {
          return false, [], j;
        }
        text := PercentAll(name[j..j + t.length]);
        next := j + t.length;
      } else {
        text := [c];
      }
    }
  }

  function NamesOf(ts: seq<Token>): (r: seq<Text>)
    ensures |r| == |ts|
  {
    seq(|ts|, i requires 0 <= i < |ts| => ts[i].name)
  }

  /** One more token in front. */
  lemma TokensStep(fragment: bool, names: seq<Text>, t: nat, done: Text)
    requires t < |names|
    ensures PrintName(fragment, names[t], 0).None? ==> PrintTokens(fragment, names[t..]).None?
    ensures PrintName(fragment, names[t], 0).Some? ==>
      PrintTokens(fragment, names[t..]).Some? == PrintTokens(fragment, names[t + 1..]).Some?
    ensures PrintTokens(fragment, names[t..]).Some? ==>
      done + PrintTokens(fragment, names[t..]).value
      == done + [SLASH] + PrintName(fragment, names[t], 0).value + PrintTokens(fragment, names[t + 1..]).value
  {
    hide PrintName;
    assert names[t..][1..] == names[t + 1..] && names[t..][0] == names[t];
  }

  lemma TokensEnd(fragment: bool, names: seq<Text>, done: Text)
    ensures PrintTokens(fragment, names[|names|..]) == Some([]) && done + [] == done
  {
    assert names[|names|..] == [];
  }

  lemma SpellsAt(ts: seq<Token>, slots: seq<Slot>, buffer: Text, used: nat, k: nat)
    requires Spells(ts, slots, buffer, used) && k < |ts|
    ensures SpellsOne(ts[k], slots[k], buffer, used)
  {
  }

  lemma MultiByte(bytes: Text, run: Text, n: nat)
    requires run != [] && n <= |run| && bytes == run[..n] && n > 1 && Utf8.Validate(run, 0) == Utf8.Taken(true, n)
    ensures !Numbers.AllDigits(bytes)
  {
    assert !IsDigit(bytes[0]);
  }

  lemma NameTurn(fragment: bool, s: Text, i: nat, done: Text)
    requires i < |s| && s[i] != SLASH
    ensures var p, r := PieceAt(fragment, s, i), ReadName(fragment, s, i, done);
      if p.Piece? then r == ReadName(fragment, s, p.next, done + p.bytes) else r == BadName(p.code, p.offset)
  {
    hide PieceAt;
  }

  lemma NameEnds(fragment: bool, s: Text, i: nat, done: Text)
    requires i <= |s| && (i < |s| ==> s[i] == SLASH)
    ensures ReadName(fragment, s, i, done) == Name(done, i)
  {
  }

  lemma Grown(b: Text, name: nat, n: nat, base: Text, done: Text, bytes: Text)
    requires name + n <= |b| && b[..name] == base + done && b[name..name + n] == bytes
    ensures b[..name + n] == base + (done + bytes)
  {
    assert b[..name + n] == b[..name] + b[name..name + n];
  }

  lemma Ended(b: Text, start: nat, name: nat, base: Text, done: Text)
    requires start <= name <= |b| && b[..name] == base + done && |base| == start
    ensures b[..start] == base && b[start..name] == done
  {
    assert b[..start] == b[..name][..start] && b[start..name] == b[..name][start..];
  }

  lemma DigitsConcat(a: Text, b: Text)
    ensures Numbers.AllDigits(a + b) <==> Numbers.AllDigits(a) && Numbers.AllDigits(b)
  {
    assert forall k :: 0 <= k < |a| ==> (a + b)[k] == a[k];
    assert forall k :: 0 <= k < |b| ==> (a + b)[|a| + k] == b[k];
  }

  lemma NothingIsDigits()
    ensures Numbers.AllDigits([])
  {
  }

  lemma OneDigit(c: byte)
    ensures Numbers.AllDigits([c]) <==> IsDigit(c)
  {
    assert [c][0] == c;
  }

  function SlashesFrom(s: Text, i: nat): nat
    requires i <= |s|
  {
    Slashes(s[i..])
  }

  lemma OneSlashFewer(fragment: bool, s: Text, i: nat)
    requires i < |s| && s[i] == SLASH && ReadName(fragment, s, i + 1, []).Name?
    ensures SlashesFrom(s, i) == 1 + SlashesFrom(s, ReadName(fragment, s, i + 1, []).next)
  {
    hide ReadName, Slashes;
    NameHasNoSlash(fragment, s, i + 1, []);
    SlashesOfToken(s, i, ReadName(fragment, s, i + 1, []).next);
  }

  lemma NoSlashesLeft(s: Text, i: nat)
    requires i == |s|
    ensures SlashesFrom(s, i) == 0
  {
    NoSlashes(s[i..]);
  }

  lemma SlashesAfterHash(s: Text, i: nat)
    requires i <= |s| && i <= 1 && (i == 1 ==> s[0] != SLASH)
    ensures SlashesFrom(s, i) == Slashes(s)
  {
    assert s == s[..i] + s[i..];
    SlashesConcat(s[..i], s[i..]);
    NoSlashes(s[..i]);
  }
}
