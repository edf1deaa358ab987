/**
 `GenericReader` over a string stream: the cursor, the byte stack and the parse result change in
 place, and every method is tied to the functions of the grammar and of the machine.
 */
module Reader {
  import opened Bytes
  import opened Json
  import opened Grammar
  import opened Machine
  import Utf8
  import Strings = StringSyntax
  import Numbers = NumberSyntax

  /** `GenericStringStream`: a NUL-terminated text and a read cursor. */
  class StringStream {
    const text: Text
    var src: nat

    constructor (text: Text)
      ensures this.text == text && src == 0
    {
      this.text := text;
      src := 0;
    }

    function Peek(): byte
      reads this
    {
      Bytes.Peek(text, src)
    }

    method Take() returns (c: byte)
      modifies this
      ensures c == old(Peek()) && src == old(src) + 1
    {
      c := Peek();
      src := src + 1;
    }

    method Consume(wanted: byte) returns (ok: bool)
      modifies this
      ensures ok == (old(Peek()) == wanted)
      ensures src == if ok then old(src) + 1 else old(src)
    {
      if Peek() == wanted {
        var _ := Take();
        return true;
      }
      return false;
    }
  }

  /** A handler that accepts every event and records it. */
  class Handler {
    var events: seq<Event>

    constructor ()
      ensures events == []
    {
      events := [];
    }

    method Send(ev: Event)
      modifies this
      ensures events == old(events) + [ev]
    {
      events := events + [ev];
    }
  }

  /** What the reader's one stack holds at various times. */
  datatype Item =
    | Level(state: State)
    | Count(count: nat)
    | Char(c: byte)

  function Chars(t: Text): (items: seq<Item>)
    ensures |items| == |t|
  {
    seq(|t|, i requires 0 <= i < |t| => Char(t[i]))
  }

  lemma CharsConcat(a: Text, b: Text)
    ensures Chars(a + b) == Chars(a) + Chars(b)
  {
  }

  function Unchars(items: seq<Item>): (t: Text)
    ensures |t| == |items|
  {
    seq(|items|, i requires 0 <= i < |items| => if items[i].Char? then items[i].c else NUL)
  }

  /** The frames of the machine as the two entries each pushes. */
  function Items(frames: seq<Frame>): (items: seq<Item>)
    ensures |items| == 2 * |frames|
  {
    if frames == [] then []
    else
      var f := frames[|frames| - 1];
      Items(frames[..|frames| - 1]) + [Level(f.restore), Count(f.count)]
  }

  lemma ItemsPush(frames: seq<Frame>, f: Frame)
    ensures Items(frames + [f]) == Items(frames) + [Level(f.restore), Count(f.count)]
  {
    assert (frames + [f])[..|frames|] == frames;
  }

  // `~x + 1` in 32 and 64 bits, and the conversions to the signed types.

  function Negated32(x: nat): nat
    requires x <= 0xFFFF_FFFF
  {
    (0x1_0000_0000 - x) % 0x1_0000_0000
  }

  function Negated64(x: nat): nat
    requires x <= 0xFFFF_FFFF_FFFF_FFFF
  {
    (0x1_0000_0000_0000_0000 - x) % 0x1_0000_0000_0000_0000
  }

  function AsInt32(x: nat): int {
    if x < 0x8000_0000 then x else x - 0x1_0000_0000
  }

  function AsInt64(x: nat): int {
    if x < 0x8000_0000_0000_0000 then x else x - 0x1_0000_0000_0000_0000
  }

  datatype ParseResult = Ok | Error(code: ErrorCode, offset: nat)

  class GenericReader {
    var stack: seq<Item>
    var parseResult: ParseResult
    var state: State

    constructor ()
      ensures stack == [] && parseResult.Ok? && state.Start?
    {
      stack := [];
      parseResult := Ok;
      state := Start;
    }

    method SetParseError(code: ErrorCode, offset: nat)
      requires parseResult.Ok?
      modifies this`parseResult
      ensures parseResult == Error(code, offset)
    {
      parseResult := Error(code, offset);
    }

    // ---- white space and comments ----

    method SkipWhitespace(s: StringStream)
      modifies s
      ensures s.src == SkipSpaces(s.text, old(s.src))
    {
      while s.Peek() == SPACE || s.Peek() == LF || s.Peek() == CR || s.Peek() == TAB
        invariant SkipSpaces(s.text, s.src) == SkipSpaces(s.text, old(s.src))
        decreases |s.text| - s.src
      {
        var _ := s.Take();
      }
    }

    ghost predicate Skipped(r: Grammar.Skipped, s: StringStream)
      reads this, s
    {
      match r
      case Unterminated(o) => parseResult == Error(UnspecificSyntaxError, o) && s.src == o
      case To(p) => parseResult.Ok? && s.src == p
    }

    /** The rest of a block comment. */
    method SkipBlockComment(s: StringStream)
      requires parseResult.Ok? && s.src <= |s.text|
      modifies this`parseResult, s
      ensures Skipped(SkipBlock(s.text, old(s.src)), s)
    {
      while true
        invariant s.src <= |s.text| && parseResult.Ok?
        invariant SkipBlock(s.text, s.src) == SkipBlock(s.text, old(s.src))
        decreases |s.text| - s.src
      {
        if s.Peek() == NUL {
          SetParseError(UnspecificSyntaxError, s.src);
          return;
        }
        var star := s.Consume(STAR);
        if star {
          var closing := s.Consume(SLASH);
          if closing {
            return;
          }
        } else {
          var _ := s.Take();
        }
      }
    }

    /** The rest of a line comment. */
    method SkipLineComment(s: StringStream)
      requires s.src <= |s.text|
      modifies s
      ensures s.src == SkipLine(s.text, old(s.src))
    {
      while s.Peek() != NUL
        invariant s.src <= |s.text|
        invariant SkipLine(s.text, s.src) == SkipLine(s.text, old(s.src))
        decreases |s.text| - s.src
      {
        var c := s.Take();
        if c == LF {
          return;
        }
      }
    }

    method SkipWhitespaceAndComments(fl: Flags, s: StringStream)
      requires parseResult.Ok? && s.src <= |s.text|
      modifies this`parseResult, s
      ensures Skipped(Skip(fl, s.text, old(s.src)), s)
    {
      hide SkipSpaces, SkipBlock, SkipLine;
      SkipWhitespace(s);
      if fl.comments {
        ghost var goal := SkipComments(s.text, s.src);
        while s.Peek() == SLASH
          invariant s.src <= |s.text| && parseResult.Ok?
          invariant SkipComments(s.text, s.src) == goal
          decreases |s.text| - s.src
        {
          var _ := s.Take();
          var block := s.Consume(STAR);
          if block {
            SkipBlockComment(s);
            if parseResult.Error? {
              return;
            }
          } else {
            var line := s.Consume(SLASH);
            if !line {
              SetParseError(UnspecificSyntaxError, s.src);
              return;
            }
            SkipLineComment(s);
          }
          SkipWhitespace(s);
        }
      }
    }

    // ---- strings ----

    /** `StackStream::Put`. */
    method Put(c: byte)
      modifies this`stack
      ensures stack == old(stack) + Chars([c])
    {
      stack := stack + [Char(c)];
    }

    method PutAll(t: Text)
      modifies this`stack
      ensures stack == old(stack) + Chars(t)
    {
      for i := 0 to |t|
        invariant stack == old(stack) + Chars(t[..i])
      {
        Put(t[i]);
        assert t[..i + 1] == t[..i] + [t[i]];
      }
      assert t[..|t|] == t;
    }

    /** `StackStream::Pop`: the last `length` characters. */
    method Pop(length: nat) returns (t: Text)
      requires length <= |stack|
      modifies this`stack
      ensures stack == old(stack)[..|old(stack)| - length]
      ensures t == Unchars(old(stack)[|old(stack)| - length..])
    {
      t := Unchars(stack[|stack| - length..]);
      stack := stack[..|stack| - length];
    }

    method ParseHex4(s: StringStream, escapeOffset: nat) returns (codepoint: nat)
      requires parseResult.Ok?
      modifies this`parseResult, s
      ensures match Strings.Hex4(s.text, old(s.src))
        case None => parseResult == Error(StringUnicodeEscapeInvalidHex, escapeOffset)
        case Some(v) => parseResult.Ok? && codepoint == v && s.src == old(s.src) + 4
    {
      codepoint := 0;
      for i := 0 to 4
        invariant s.src == old(s.src) + i && parseResult.Ok?
        invariant Strings.HexRun(s.text, old(s.src), i) == Some(codepoint)
      {
        var c := s.Peek();
        codepoint := codepoint * 16;
        if ZERO <= c <= NINE {
          codepoint := codepoint + c - 0x30;
        } else if 0x41 <= c <= 0x46 {
          codepoint := codepoint + c - (0x41 - 10);
        } else if 0x61 <= c <= 0x66 {
          codepoint := codepoint + c - (0x61 - 10);
        } else {
          HexRunStops(s.text, old(s.src), i);
          SetParseError(StringUnicodeEscapeInvalidHex, escapeOffset);
          return;
        }
        var _ := s.Take();
      }
    }

    /** `UTF8::Encode` onto the stack. */
    method Encode(codepoint: nat)
      requires codepoint <= 0x10FFFF
      modifies this`stack
      ensures stack == old(stack) + Chars(Utf8.Encode(codepoint))
    {
      PutAll(Utf8.Encode(codepoint));
    }

    /** `Transcoder<UTF8, UTF8>::Validate`: copies while it checks. */
    method Validate(s: StringStream) returns (ok: bool)
      requires s.src < |s.text|
      modifies this`stack, s
      ensures var t := Utf8.Validate(s.text, old(s.src));
        && ok == t.ok
        && (ok ==> s.src == old(s.src) + t.length && stack == old(stack) + Chars(s.text[old(s.src)..s.src]))
    {
      var c := s.Take();
      Put(c);
      ghost var p := old(s.src);
      assert s.text[p..p + 1] == [c];
      if c < 0x80 {
        return true;
      }
      hide Utf8.InMask;
      Utf8.ShapeFacts(NUL);
      match Utf8.ShapeOf(c)
      case None =>
        ok := false;
      case Some(shape) =>
        ok := true;
        for i := 1 to shape.length
          invariant s.src == p + i
          invariant 1 < i ==> (ok ==> Utf8.InMask(Bytes.Peek(s.text, p + 1), shape.mask))
          invariant ok == (&& (1 < i ==> Utf8.InMask(Bytes.Peek(s.text, p + 1), shape.mask))
                           && (2 < i ==> Utf8.InMask(Bytes.Peek(s.text, p + 2), 0x70))
                           && (3 < i ==> Utf8.InMask(Bytes.Peek(s.text, p + 3), 0x70)))
          invariant ok ==> p + i <= |s.text| && stack == old(stack) + Chars(s.text[p..p + i])
        {
          c := s.Take();
          Put(c);
          ok := ok && Utf8.InMask(c, if i == 1 then shape.mask else 0x70);
          if ok {
            OneMore(s.text, p, p + i, c);
            CharsConcat(s.text[p..p + i], [c]);
          }
        }
    }

    /** The outcome of reading a string: an error, or its bytes and terminator on the stack. */
    ghost predicate OnStack(r: Strings.Decoded, s: StringStream, base: seq<Item>, length: nat)
      reads this, s
    {
      match r
      case Bad(code, o) => parseResult == Error(code, o)
      case Done(str, q) =>
        parseResult.Ok? && s.src == q && length == |str| + 1 && stack == base + Chars(str + [NUL])
    }

    /** One escape sequence, its backslash not yet taken. */
    method ParseEscape(s: StringStream) returns (ghost put: Text)
      requires parseResult.Ok? && s.Peek() == BACKSLASH
      modifies this`stack, this`parseResult, s
      ensures match Strings.EscapeAt(s.text, old(s.src))
        case Wrong(code) => parseResult == Error(code, old(s.src))
        case Piece(bytes, next) => parseResult.Ok? && s.src == next && put == bytes
      ensures parseResult.Ok? ==> stack == old(stack) + Chars(put)
    {
      hide Strings.UnicodeEscape, Utf8.Encode;
      put := [];
      var escapeOffset := s.src;
      var _ := s.Take();
      var e := s.Peek();
      if Strings.Unescape(e) != NUL {
        var _ := s.Take();
        Put(Strings.Unescape(e));
        put := [Strings.Unescape(e)];
      } else if e == 0x75 {
        var _ := s.Take();
        var codepoint := ParseUnicodeEscape(s, escapeOffset);
        if parseResult.Error? {
          return;
        }
        Encode(codepoint);
        put := Utf8.Encode(codepoint);
      } else {
        SetParseError(StringEscapeInvalid, escapeOffset);
      }
    }

    /** The digits of a Unicode escape, and the whole second escape of a surrogate pair. */
    method ParseUnicodeEscape(s: StringStream, escapeOffset: nat) returns (codepoint: nat)
      requires parseResult.Ok? && s.src == escapeOffset + 2
      modifies this`parseResult, s
      ensures match Strings.UnicodeEscape(s.text, escapeOffset)
        case BadEscape(code) => parseResult == Error(code, escapeOffset)
        case Codepoint(cp, next) => parseResult.Ok? && s.src == next && codepoint == cp
    {
      hide Strings.HexRun, Strings.Hex4;
      codepoint := ParseHex4(s, escapeOffset);
      if parseResult.Error? {
        return;
      }
      if 0xD800 <= codepoint <= 0xDBFF {
        var paired := s.Consume(BACKSLASH);
        if paired {
          paired := s.Consume(0x75);
        }
        if !paired {
          SetParseError(StringUnicodeSurrogateInvalid, escapeOffset);
          return;
        }
        var codepoint2 := ParseHex4(s, escapeOffset);
        if parseResult.Error? {
          return;
        }
        if codepoint2 < 0xDC00 || codepoint2 > 0xDFFF {
          SetParseError(StringUnicodeSurrogateInvalid, escapeOffset);
          return;
        }
        codepoint := (codepoint - 0xD800) * 0x400 + (codepoint2 - 0xDC00) + 0x10000;
      }
    }

    /** `Validate` or `Transcode`, as the flags choose. */
    method Transcode(fl: Flags, s: StringStream) returns (ok: bool)
      requires s.src < |s.text| && parseResult.Ok?
      modifies this`stack, s
      ensures var p := old(s.src);
        && (fl.validateEncoding ==> ok == Utf8.Validate(s.text, p).ok)
        && (!fl.validateEncoding ==> ok)
        && (ok ==> s.src == (if fl.validateEncoding then p + Utf8.Validate(s.text, p).length else p + 1))
        && (ok ==> stack == old(stack) + Chars(s.text[p..s.src]))
    {
      if fl.validateEncoding {
        ok := Validate(s);
      } else {
        var c := s.Take();
        Put(c);
        assert s.text[old(s.src)..s.src] == [c];
        ok := true;
      }
    }

    method ParseStringToStream(fl: Flags, s: StringStream) returns (length: nat)
      requires parseResult.Ok? && s.src <= |s.text|
      modifies this`stack, this`parseResult, s
      ensures OnStack(Strings.Decode(fl.validateEncoding, s.text, old(s.src), []), s, old(stack), length)
    {
      hide Utf8.Validate, Strings.EscapeAt;
      length := 0;
      ghost var out: Text := [];
      while true
        invariant parseResult.Ok? && s.src <= |s.text|
        invariant length == |out| && stack == old(stack) + Chars(out)
        invariant Strings.Decode(fl.validateEncoding, s.text, s.src, out)
               == Strings.Decode(fl.validateEncoding, s.text, old(s.src), [])
        decreases |s.text| - s.src
      {
        ghost var p := s.src;
        var c := s.Peek();
        assert c != NUL ==> s.text[p..p + 1] == [c];
        if c == BACKSLASH {
          var before := |stack|;
          ghost var put := ParseEscape(s);
          if parseResult.Error? {
            return;
          }
          length := length + |stack| - before;
          CharsConcat(out, put);
          out := out + put;
        } else if c == QUOTE {
          var _ := s.Take();
          Put(NUL);
          length := length + 1;
          return;
        } else if c < 0x20 {
          if c == NUL {
            SetParseError(StringMissQuotationMark, s.src);
          } else {
            SetParseError(StringInvalidEncoding, s.src);
          }
          return;
        } else {
          var offset, before := s.src, |stack|;
          var ok := Transcode(fl, s);
          if !ok {
            SetParseError(StringInvalidEncoding, offset);
            return;
          }
          length := length + |stack| - before;
          CharsConcat(out, s.text[p..s.src]);
          out := out + s.text[p..s.src];
        }
      }
    }

    /** What every production leaves: its error, or its end, with the stack as it was. */
    ghost predicate Reflects(r: Parsed, s: StringStream, h: Handler, base: seq<Item>)
      reads this, s, h
    {
      && h.events == r.events
      && match r
         case Failed(code, o, _) => parseResult == Error(code, o)
         case Parsed(q, _) => parseResult.Ok? && s.src == q && stack == base
    }

    method ParseString(fl: Flags, s: StringStream, h: Handler, isKey: bool)
      requires parseResult.Ok? && s.Peek() == QUOTE
      modifies this`stack, this`parseResult, s, h
      ensures Reflects(Grammar.ParseString(fl, s.text, old(s.src), isKey, old(h.events)), s, h, old(stack))
    {
      hide Strings.Decode;
      var _ := s.Take();
      var length := ParseStringToStream(fl, s);
      if parseResult.Error? {
        return;
      }
      ghost var str := Strings.Decode(fl.validateEncoding, s.text, old(s.src) + 1, []).str;
      var chars := Pop(length);
      assert chars == str + [NUL];
      chars := chars[..length - 1];
      h.Send(if isKey then Key(chars) else String(chars));
    }

    // ---- numbers ----

    /** Accumulates digits until the next one would pass `limit * 10 + last`. */
    method Accumulate(s: StringStream, ghost q: nat, acc0: nat, limit: nat, last: byte)
      returns (acc: nat, stopped: bool)
      requires q < s.src <= Numbers.DigitsEnd(s.text, q) <= |s.text| && ZERO <= last <= NINE
      requires acc0 == Numbers.Decimal(s.text[q..s.src]) <= limit * 10 + (last - ZERO)
      modifies s
      ensures old(s.src) <= s.src <= Numbers.DigitsEnd(s.text, q)
      ensures acc == Numbers.Decimal(s.text[q..s.src]) <= limit * 10 + (last - ZERO)
      ensures stopped ==> s.src < Numbers.DigitsEnd(s.text, q)
      ensures stopped ==> acc * 10 + (s.Peek() - ZERO) > limit * 10 + (last - ZERO)
      ensures !stopped ==> s.src == Numbers.DigitsEnd(s.text, q)
    {
      acc := acc0;
      while IsDigit(s.Peek())
        invariant old(s.src) <= s.src <= Numbers.DigitsEnd(s.text, q)
        invariant acc == Numbers.Decimal(s.text[q..s.src]) <= limit * 10 + (last - ZERO)
        decreases |s.text| - s.src
      {
        if acc >= limit && (acc != limit || s.Peek() > last) {
          return acc, true;
        }
        Numbers.DecimalStep(s.text, q, s.src);
        var d := s.Take();
        acc := acc * 10 + (d - ZERO);
      }
      stopped := false;
    }

    /** The integer part: a 32-bit accumulator, then a 64-bit one, then digits that only a double can hold. */
    method ParseInteger(s: StringStream, minus: bool)
      returns (i: nat, i64: nat, use64bit: bool, useDouble: bool, significandDigit: nat)
      requires IsDigit(s.Peek()) && s.Peek() != ZERO
      modifies s
      ensures s.src == Numbers.DigitsEnd(s.text, old(s.src))
      ensures var v := Numbers.Decimal(s.text[old(s.src)..s.src]);
        && (use64bit <==> v > if minus then 0x8000_0000 else 0xFFFF_FFFF)
        && (useDouble <==> Numbers.IntegerEvent(minus, v).None?)
        && (!useDouble ==> v == if use64bit then i64 else i)
        && (if useDouble then significandDigit >= 17 else significandDigit == s.src - old(s.src) - 1)
      ensures i <= 0xFFFF_FFFF && i64 <= 0xFFFF_FFFF_FFFF_FFFF
    {
      hide Numbers.Decimal, Numbers.AllDigits, Numbers.DigitsEnd;
      ghost var t, q := s.text, s.src;
      ghost var e := Numbers.DigitsEnd(t, q);
      i64, useDouble := 0, false;
      var start := s.src;
      var d := s.Take();
      i := d - ZERO;
      FirstDigit(t, q);
      if minus {
        i, use64bit := Accumulate(s, q, i, 214748364, 0x38);
      } else {
        i, use64bit := Accumulate(s, q, i, 429496729, 0x35);
      }
      if use64bit {
        PrefixPasses(t, q, s.src, e);
        i64 := i;
        if minus {
          i64, useDouble := Accumulate(s, q, i64, 0x0CCC_CCCC_CCCC_CCCC, 0x38);
        } else {
          i64, useDouble := Accumulate(s, q, i64, 0x1999_9999_9999_9999, 0x35);
        }
      }
      significandDigit := s.src - start - 1;
      if useDouble {
        PrefixPasses(t, q, s.src, e);
        Numbers.ManyDigits(t[q..s.src]);
        SkipDigits(s, q);
      }
    }

    method SkipDigits(s: StringStream, ghost q: nat)
      requires q <= s.src <= Numbers.DigitsEnd(s.text, q)
      modifies s
      ensures s.src == Numbers.DigitsEnd(s.text, q)
    {
      while IsDigit(s.Peek())
        invariant q <= s.src <= Numbers.DigitsEnd(s.text, q)
        decreases Numbers.DigitsEnd(s.text, q) - s.src
      {
        var _ := s.Take();
      }
    }

    /** The digits after the decimal point, and how far they lower the exponent (`-expFrac`). */
    method ParseFraction(s: StringStream, i0: nat, useDouble: bool, significandDigit0: nat) returns (lowered: nat)
      requires IsDigit(s.Peek()) && (useDouble ==> significandDigit0 >= 17) && i0 <= 0xFFFF_FFFF_FFFF_FFFF
      modifies s
      ensures s.src == Numbers.DigitsEnd(s.text, old(s.src))
      ensures useDouble ==> lowered == 0
      ensures !useDouble ==>
        lowered == Numbers.FractionDigits(i0, significandDigit0, s.text[old(s.src)..s.src])
    {
      hide Numbers.FractionDigits, Numbers.AllDigits, Numbers.DigitsEnd;
      ghost var t, q := s.text, s.src;
      ghost var f := Numbers.DigitsEnd(t, q);
      DigitRun(t, q);
      var i64: nat, significandDigit: nat := i0, significandDigit0;
      lowered := 0;
      if !useDouble {
        while IsDigit(s.Peek()) && i64 <= 0x1F_FFFF_FFFF_FFFF
          invariant q <= s.src <= f && i64 <= 0xFFFF_FFFF_FFFF_FFFF && Numbers.AllDigits(t[s.src..f])
          invariant Numbers.FractionDigits(i0, significandDigit0, t[q..f])
                 == lowered + Numbers.FractionDigits(i64, significandDigit, t[s.src..f])
          decreases f - s.src
        {
          Numbers.FractionStep(i64, significandDigit, t, s.src, f);
          var d := s.Take();
          i64 := i64 * 10 + (d - ZERO);
          lowered := lowered + 1;
          if i64 != 0 {
            significandDigit := significandDigit + 1;
          }
        }
      }
      while IsDigit(s.Peek())
        invariant q <= s.src <= f && Numbers.AllDigits(t[s.src..f])
        invariant useDouble ==> significandDigit >= 17 && lowered == 0
        invariant !useDouble && s.src < f ==> i64 > 0x1F_FFFF_FFFF_FFFF
        invariant !useDouble ==>
          Numbers.FractionDigits(i0, significandDigit0, t[q..f])
          == lowered + Numbers.FractionDigits(i64, significandDigit, t[s.src..f])
        decreases f - s.src
      {
        Numbers.FractionStep(i64, significandDigit, t, s.src, f);
        var _ := s.Take();
        if significandDigit < 17 {
          lowered := lowered + 1;
          significandDigit := significandDigit + 1;
        }
      }
      assert t[f..f] == [];
      Numbers.FractionEnds(i64, significandDigit);
    }

    /** The digits of a negative exponent, the first taken: once a further digit could leave the 32-bit
        range the rest are only consumed. */
    method ParseNegativeExponent(s: StringStream, first: nat, lowered: nat) returns (exp: nat)
      requires first <= 9 && s.src <= |s.text|
      modifies s
      ensures s.src == Numbers.DigitsEnd(s.text, old(s.src))
      ensures lowered < 100_000_000 ==> exp + lowered <= 0x8000_0000 && exp <= 0x7FFF_FFFF
    {
      exp := first;
      var maxExp := (2147483639 - lowered) / 10;
      while IsDigit(s.Peek())
        invariant Numbers.DigitsEnd(s.text, s.src) == Numbers.DigitsEnd(s.text, old(s.src))
        invariant lowered < 100_000_000 ==> exp <= maxExp || (exp <= maxExp * 10 + 9 && !IsDigit(s.Peek()))
        decreases |s.text| - s.src
      {
        var d := s.Take();
        exp := exp * 10 + (d - ZERO);
        if exp > maxExp {
          while IsDigit(s.Peek())
            invariant Numbers.DigitsEnd(s.text, s.src) == Numbers.DigitsEnd(s.text, old(s.src))
            decreases |s.text| - s.src
          {
            var _ := s.Take();
          }
        }
      }
    }

    /** The digits of a positive exponent, the first taken. */
    method ParsePositiveExponent(s: StringStream, ghost q: nat, first: nat, lowered: nat)
      returns (exp: nat, tooBig: bool)
      requires q < s.src <= Numbers.DigitsEnd(s.text, q) <= |s.text|
      requires first == Numbers.Decimal(s.text[q..s.src]) <= 9
      modifies s
      ensures var e := Numbers.DigitsEnd(s.text, q);
        && (tooBig <==> old(s.src) < e && Numbers.Decimal(s.text[q..e]) > 308 + lowered)
        && (!tooBig ==> s.src == e && exp <= 308 + lowered)
      ensures exp <= (308 + lowered) * 10 + 9
    {
      exp := first;
      var maxExp := 308 + lowered;
      while IsDigit(s.Peek())
        invariant old(s.src) <= s.src <= Numbers.DigitsEnd(s.text, q)
        invariant exp == Numbers.Decimal(s.text[q..s.src]) <= maxExp
        decreases |s.text| - s.src
      {
        Numbers.DecimalStep(s.text, q, s.src);
        var d := s.Take();
        exp := exp * 10 + (d - ZERO);
        if exp > maxExp {
          Numbers.DecimalMonotone(s.text, q, s.src, Numbers.DigitsEnd(s.text, q));
          return exp, true;
        }
      }
      tooBig := false;
    }

    /** The exponent after its mark.  With fewer than 10^8 counted fraction digits the largest value the
        arithmetic reaches fits a 32-bit integer, also when it is the one that is refused. */
    method ParseExponent(s: StringStream, startOffset: nat, lowered: nat) returns (exp: int)
      requires parseResult.Ok? && startOffset < s.src <= |s.text|
      modifies this`parseResult, s
      ensures match Numbers.ScanExponent(s.text, startOffset, old(s.src) - 1, lowered)
        case NotNumber(code, o) => parseResult == Error(code, o)
        case Number(ev, q) => parseResult.Ok? && s.src == q && ev == Double(s.text[startOffset..q])
      ensures lowered < 100_000_000 ==>
        -0x8000_0000 <= exp <= 0x7FFF_FFFF && -0x8000_0000 <= exp - lowered <= 0x7FFF_FFFF
    {
      hide Numbers.Decimal, Numbers.AllDigits, Numbers.DigitsEnd;
      exp := 0;
      var expMinus := false;
      var plus := s.Consume(PLUS);
      if !plus {
        expMinus := s.Consume(MINUS);
      }
      if !IsDigit(s.Peek()) {
        SetParseError(NumberMissExponent, s.src);
        return;
      }
      ghost var q := s.src;
      var d := s.Take();
      FirstDigit(s.text, q);
      if expMinus {
        exp := ParseNegativeExponent(s, d - ZERO, lowered);
        exp := -exp;
      } else {
        var tooBig;
        exp, tooBig := ParsePositiveExponent(s, q, d - ZERO, lowered);
        if tooBig {
          SetParseError(NumberTooBig, startOffset);
        }
      }
    }

    /** `ParseNumber`: at most one event, an integer that fits or the numeral of a double. */
    method ParseNumber(fl: Flags, s: StringStream, h: Handler)
      requires parseResult.Ok? && s.src <= |s.text|
      modifies this`parseResult, s, h
      ensures Reflects(Grammar.ParseNumber(fl, s.text, old(s.src), old(h.events)), s, h, stack)
    {
      hide Numbers.Decimal, Numbers.ParseTail, Numbers.DigitsEnd;
      var startOffset := s.src;
      var minus := s.Consume(MINUS);
      ghost var q := s.src;
      var i, i64, use64bit, useDouble, significandDigit := 0, 0, false, false, 0;
      if s.Peek() == ZERO {
        var _ := s.Take();
        ZeroIsDecimal(s.text, q);
      } else if IsDigit(s.Peek()) {
        i, i64, use64bit, useDouble, significandDigit := ParseInteger(s, minus);
      } else {
        SetParseError(ValueInvalid, s.src);
        return;
      }
      ghost var v := Numbers.Decimal(s.text[q..s.src]);
      if useDouble {
        SignificantUnused(fl, s.text, startOffset, minus, v, significandDigit, s.src - q - 1, s.src);
      }
      FinishNumber(fl, s, h, startOffset, minus, i, i64, use64bit, useDouble, significandDigit, v);
    }

    /** Fraction, exponent and event of a numeral whose integer part has been accumulated. */
    method FinishNumber(fl: Flags, s: StringStream, h: Handler, startOffset: nat, minus: bool,
                        i: nat, i64: nat, use64bit: bool, useDouble: bool, significandDigit: nat, ghost v: nat)
      requires parseResult.Ok? && startOffset < s.src <= |s.text|
      requires use64bit <==> v > if minus then 0x8000_0000 else 0xFFFF_FFFF
      requires useDouble <==> Numbers.IntegerEvent(minus, v).None?
      requires !useDouble ==> v == if use64bit then i64 else i
      requires useDouble ==> significandDigit >= 17
      requires i <= 0xFFFF_FFFF && i64 <= 0xFFFF_FFFF_FFFF_FFFF
      modifies this`parseResult, s, h
      ensures var r := Numbers.ParseTail(fl, s.text, startOffset, minus, v, significandDigit, old(s.src));
        Reflects(Grammar.SendNumber(r, old(h.events)), s, h, stack)
    {
      hide Numbers.Decimal, Numbers.FractionDigits, Numbers.ScanExponent, Numbers.DigitsEnd, Numbers.ParseTail;
      hide Numbers.IntegerEvent;
      ghost var e := s.src;
      var significand := if use64bit then i64 else i;
      var lowered := 0;
      var isDouble := useDouble;
      var dot := s.Consume(DOT);
      if !dot || IsDigit(s.Peek()) {
        Numbers.TailShape(fl, s.text, startOffset, minus, v, significandDigit, e);
      }
      if dot {
        if !IsDigit(s.Peek()) {
          Numbers.TailWithoutDigits(fl, s.text, startOffset, minus, v, significandDigit, e);
          SetParseError(NumberMissFraction, s.src);
          return;
        }
        lowered := ParseFraction(s, significand, useDouble, significandDigit);
        isDouble := true;
      }
      if Numbers.IsExponentMark(s.Peek()) {
        var _ := s.Take();
        var _ := ParseExponent(s, startOffset, lowered);
        if parseResult.Error? {
          return;
        }
        isDouble := true;
      }
      SendNumber(fl, s, h, startOffset, minus, i, i64, use64bit, isDouble, v);
    }

    /** The event according to the type of the number. */
    method SendNumber(fl: Flags, s: StringStream, h: Handler, startOffset: nat, minus: bool, i: nat, i64: nat,
                      use64bit: bool, isDouble: bool, ghost v: nat)
      requires parseResult.Ok? && startOffset < s.src <= |s.text|
      requires use64bit <==> v > if minus then 0x8000_0000 else 0xFFFF_FFFF
      requires !isDouble ==> Numbers.IntegerEvent(minus, v).Some? && v == if use64bit then i64 else i
      requires i <= 0xFFFF_FFFF && i64 <= 0xFFFF_FFFF_FFFF_FFFF
      modifies this`parseResult, h
      ensures var r :=
          if isDouble then
            Numbers.FinishDouble(fl, startOffset, Numbers.Number(Double(s.text[startOffset..s.src]), s.src))
          else Numbers.Number(Numbers.IntegerEvent(minus, v).value, s.src);
        Reflects(Grammar.SendNumber(r, old(h.events)), s, h, stack)
    {
      if isDouble {
        var numeral := s.text[startOffset..s.src];
        if fl.overflows(numeral) {
          SetParseError(NumberTooBig, startOffset);
          return;
        }
        h.Send(Double(numeral));
      } else if use64bit {
        h.Send(if minus then Int64(AsInt64(Negated64(i64))) else Uint64(i64));
      } else {
        h.Send(if minus then Int(AsInt32(Negated32(i))) else Uint(i));
      }
    }

    // ---- literals ----

    method ParseLiteral(s: StringStream, h: Handler, literal: Text, ev: Event)
      requires parseResult.Ok? && s.src < |s.text| && literal != [] && s.Peek() == literal[0]
      requires forall i :: 0 <= i < |literal| ==> literal[i] != NUL
      modifies this`parseResult, s, h
      ensures Reflects(Grammar.ParseLiteral(s.text, old(s.src), literal, ev, old(h.events)), s, h, stack)
    {
      ghost var p := s.src;
      var _ := s.Take();
      var i := 1;
      while i < |literal|
        invariant 1 <= i <= |literal| && s.src == p + i && h.events == old(h.events)
        invariant parseResult.Ok?
        invariant forall j :: 0 <= j < i ==> Bytes.Peek(s.text, p + j) == literal[j]
      {
        var same := s.Consume(literal[i]);
        if !same {
          MatchedIs(s.text, p, literal, i);
          SetParseError(ValueInvalid, s.src);
          return;
        }
        i := i + 1;
      }
      MatchedIs(s.text, p, literal, i);
      h.Send(ev);
    }

    // ---- recursive descent ----

    method ParseObject(fl: Flags, s: StringStream, h: Handler)
      requires parseResult.Ok? && s.Peek() == LBRACE
      modifies this`stack, this`parseResult, s, h
      ensures Reflects(Grammar.ParseObject(fl, s.text, old(s.src), old(h.events)), s, h, old(stack))
      decreases |s.text| - s.src, 1
    {
      hide Skip, Grammar.ParseString, Grammar.ParseValue;
      var _ := s.Take();
      h.Send(StartObject);
      SkipWhitespaceAndComments(fl, s);
      if parseResult.Error? {
        return;
      }
      var empty := s.Consume(RBRACE);
      if empty {
        h.Send(EndObject(0));
        return;
      }
      ParseMembers(fl, s, h);
    }

    /** The member loop of `ParseObject`. */
    method ParseMembers(fl: Flags, s: StringStream, h: Handler)
      requires parseResult.Ok? && s.src <= |s.text|
      modifies this`stack, this`parseResult, s, h
      ensures Reflects(Grammar.ParseMembers(fl, s.text, old(s.src), 0, old(h.events)), s, h, old(stack))
      decreases |s.text| - s.src, 3
    {
      hide Skip, Grammar.ParseString, Grammar.ParseValue, Grammar.ParseName;
      var memberCount := 0;
      ghost var goal := Grammar.ParseMembers(fl, s.text, s.src, 0, h.events);
      while true
        invariant parseResult.Ok? && old(s.src) <= s.src <= |s.text| && stack == old(stack)
        invariant Grammar.ParseMembers(fl, s.text, s.src, memberCount, h.events) == goal
        decreases |s.text| - s.src
      {
        ParseName(fl, s, h);
        if parseResult.Error? {
          return;
        }
        ParseValue(fl, s, h);
        if parseResult.Error? {
          return;
        }
        SkipWhitespaceAndComments(fl, s);
        if parseResult.Error? {
          return;
        }
        memberCount := memberCount + 1;
        if s.Peek() == COMMA {
          var _ := s.Take();
          SkipWhitespaceAndComments(fl, s);
          if parseResult.Error? {
            return;
          }
        } else if s.Peek() == RBRACE {
          var _ := s.Take();
          h.Send(EndObject(memberCount));
          return;
        } else {
          SetParseError(ObjectMissCommaOrCurlyBracket, s.src);
          return;
        }
        if fl.trailingCommas && s.Peek() == RBRACE {
          h.Send(EndObject(memberCount));
          var _ := s.Take();
          return;
        }
      }
    }

    /** A member's name and the colon after it. */
    method ParseName(fl: Flags, s: StringStream, h: Handler)
      requires parseResult.Ok? && s.src <= |s.text|
      modifies this`stack, this`parseResult, s, h
      ensures Reflects(Grammar.ParseName(fl, s.text, old(s.src), old(h.events)), s, h, old(stack))
    {
      hide Skip, Grammar.ParseString;
      if s.Peek() != QUOTE {
        SetParseError(ObjectMissName, s.src);
        return;
      }
      ParseString(fl, s, h, true);
      if parseResult.Error? {
        return;
      }
      SkipWhitespaceAndComments(fl, s);
      if parseResult.Error? {
        return;
      }
      var colon := s.Consume(COLON);
      if !colon {
        SetParseError(ObjectMissColon, s.src);
        return;
      }
      SkipWhitespaceAndComments(fl, s);
    }

    method ParseArray(fl: Flags, s: StringStream, h: Handler)
      requires parseResult.Ok? && s.Peek() == LBRACKET
      modifies this`stack, this`parseResult, s, h
      ensures Reflects(Grammar.ParseArray(fl, s.text, old(s.src), old(h.events)), s, h, old(stack))
      decreases |s.text| - s.src, 1
    {
      hide Skip, Grammar.ParseValue;
      var _ := s.Take();
      h.Send(StartArray);
      SkipWhitespaceAndComments(fl, s);
      if parseResult.Error? {
        return;
      }
      var empty := s.Consume(RBRACKET);
      if empty {
        h.Send(EndArray(0));
        return;
      }
      ParseElements(fl, s, h);
    }

    /** The element loop of `ParseArray`. */
    method ParseElements(fl: Flags, s: StringStream, h: Handler)
      requires parseResult.Ok? && s.src <= |s.text|
      modifies this`stack, this`parseResult, s, h
      ensures Reflects(Grammar.ParseElements(fl, s.text, old(s.src), 0, old(h.events)), s, h, old(stack))
      decreases |s.text| - s.src, 3
    {
      hide Skip, Grammar.ParseValue;
      var elementCount := 0;
      ghost var goal := Grammar.ParseElements(fl, s.text, s.src, 0, h.events);
      while true
        invariant parseResult.Ok? && old(s.src) <= s.src <= |s.text| && stack == old(stack)
        invariant Grammar.ParseElements(fl, s.text, s.src, elementCount, h.events) == goal
        decreases |s.text| - s.src
      {
        ParseValue(fl, s, h);
        if parseResult.Error? {
          return;
        }
        elementCount := elementCount + 1;
        SkipWhitespaceAndComments(fl, s);
        if parseResult.Error? {
          return;
        }
        var comma := s.Consume(COMMA);
        if comma {
          SkipWhitespaceAndComments(fl, s);
          if parseResult.Error? {
            return;
          }
        } else {
          var closing := s.Consume(RBRACKET);
          if closing {
            h.Send(EndArray(elementCount));
          } else {
            SetParseError(ArrayMissCommaOrSquareBracket, s.src);
          }
          return;
        }
        if fl.trailingCommas && s.Peek() == RBRACKET {
          h.Send(EndArray(elementCount));
          var _ := s.Take();
          return;
        }
      }
    }

    method ParseValue(fl: Flags, s: StringStream, h: Handler)
      requires parseResult.Ok? && s.src <= |s.text|
      modifies this`stack, this`parseResult, s, h
      ensures Reflects(Grammar.ParseValue(fl, s.text, old(s.src), old(h.events)), s, h, old(stack))
      decreases |s.text| - s.src, 2
    {
      hide Grammar.ParseObject, Grammar.ParseArray, Grammar.ParseString, Grammar.ParseNumber, Grammar.ParseLiteral;
      var c := s.Peek();
      if c == 0x6E {
        ParseLiteral(s, h, NULL_TEXT, Null);
      } else if c == 0x74 {
        ParseLiteral(s, h, TRUE_TEXT, Bool(true));
      } else if c == 0x66 {
        ParseLiteral(s, h, FALSE_TEXT, Bool(false));
      } else if c == QUOTE {
        ParseString(fl, s, h, false);
      } else if c == LBRACE {
        ParseObject(fl, s, h);
      } else if c == LBRACKET {
        ParseArray(fl, s, h);
      } else {
        ParseNumber(fl, s, h);
      }
    }

    /** The result of a whole parse: the verdict, the events, and a cleared stack. */
    ghost predicate Finished(r: Parsed, s: StringStream, h: Handler)
      reads this, s, h
    {
      && h.events == r.events
      && stack == []
      && match r
         case Failed(code, o, _) => parseResult == Error(code, o)
         case Parsed(q, _) => parseResult.Ok? && s.src == q
    }

    method ClearStack()
      modifies this`stack
      ensures stack == []
    {
      stack := [];
    }

    /** `Parse`, by recursive descent. */
    method Parse(fl: Flags, s: StringStream, h: Handler)
      requires s.src == 0 && h.events == []
      modifies this`stack, this`parseResult, s, h
      ensures Finished(ParseDocument(fl, s.text), s, h)
    {
      hide Skip, Grammar.ParseValue;
      parseResult := Ok;
      SkipWhitespaceAndComments(fl, s);
      if parseResult.Ok? {
        if s.Peek() == NUL {
          SetParseError(DocumentEmpty, s.src);
        } else {
          ParseValue(fl, s, h);
          if parseResult.Ok? && !fl.stopWhenDone {
            SkipWhitespaceAndComments(fl, s);
            if parseResult.Ok? && s.Peek() != NUL {
              SetParseError(DocumentRootNotSingular, s.src);
            }
          }
        }
      }
      ClearStack();
    }

    // ---- the pushdown machine ----

    /** The reader is in a configuration of the machine. */
    ghost predicate InConfig(c: Config, state: State, s: StringStream, h: Handler)
      reads this, s, h
    {
      && state == c.state && stack == Items(c.stack)
      && s.src == c.pos && h.events == c.events
    }

    /** Where a transition leads: on, to an error it set, or to one that `HandleError` is still to set. */
    ghost predicate Moved(m: Machine.Moved, src: State, dst: State, d: State, s: StringStream, h: Handler)
      reads this, s, h
    {
      match m
      case Next(c) => parseResult.Ok? && InConfig(c, d, s, h) && !d.ErrorState?
      case Halt(code, o, evs) =>
        && d.ErrorState? && h.events == evs
        && if dst.ErrorState? then parseResult.Ok? && s.src == o && code == Machine.HandleError(src)
           else parseResult == Error(code, o)
    }

    method Transit(fl: Flags, src: State, dst: State, s: StringStream, h: Handler, ghost frames: seq<Frame>)
      returns (d: State)
      requires parseResult.Ok? || dst.ErrorState?
      requires s.src <= |s.text| && Sound(src, frames) && stack == Items(frames)
      requires dst == Predict(src, Tokenize(s.Peek()))
      modifies this`stack, this`parseResult, s, h
      ensures old(parseResult).Ok? ==>
        Moved(Machine.Transit(fl, s.text, Config(src, frames, old(s.src), old(h.events))), src, dst, d, s, h)
      ensures dst.ErrorState? ==>
        d == dst && parseResult == old(parseResult) && s.src == old(s.src) && h.events == old(h.events)
    {
      hide *;
      match dst
      case ErrorState => d := TransitError(fl, src, dst, s, h, frames);
      case ObjectInitial => d := TransitOpen(fl, src, dst, s, h, frames);
      case ArrayInitial => d := TransitOpen(fl, src, dst, s, h, frames);
      case MemberKey => d := TransitScan(fl, src, dst, s, h, frames);
      case KeyValueDelimiter => d := TransitDelimiter(fl, src, dst, s, h, frames);
      case MemberValue => d := TransitScan(fl, src, dst, s, h, frames);
      case Element => d := TransitScan(fl, src, dst, s, h, frames);
      case MemberDelimiter => d := TransitDelimiter(fl, src, dst, s, h, frames);
      case ElementDelimiter => d := TransitDelimiter(fl, src, dst, s, h, frames);
      case ObjectFinish => d := TransitClose(fl, src, dst, s, h, frames);
      case ArrayFinish => d := TransitClose(fl, src, dst, s, h, frames);
      case _ => d := TransitScan(fl, src, dst, s, h, frames);
    }

    method TransitError(fl: Flags, src: State, dst: State, s: StringStream, h: Handler, ghost frames: seq<Frame>)
      returns (d: State)
      requires s.src <= |s.text| && Sound(src, frames) && stack == Items(frames)
      requires dst == Predict(src, Tokenize(s.Peek()))
      requires dst.ErrorState?
      modifies this`stack, this`parseResult, s, h
      ensures old(parseResult).Ok? ==>
        Moved(Machine.Transit(fl, s.text, Config(src, frames, old(s.src), old(h.events))), src, dst, d, s, h)
      ensures d == dst && parseResult == old(parseResult) && s.src == old(s.src) && h.events == old(h.events)
    {
      hide Grammar.ParseValue, Grammar.ParseString, Items;
      d := dst;
    }

    method TransitOpen(fl: Flags, src: State, dst: State, s: StringStream, h: Handler, ghost frames: seq<Frame>)
      returns (d: State)
      requires parseResult.Ok? && s.src <= |s.text| && Sound(src, frames) && stack == Items(frames)
      requires dst == Predict(src, Tokenize(s.Peek()))
      requires dst.ObjectInitial? || dst.ArrayInitial?
      modifies this`stack, this`parseResult, s, h
      ensures Moved(Machine.Transit(fl, s.text, Config(src, frames, old(s.src), old(h.events))), src, dst, d, s, h)
    {
      hide Grammar.ParseValue, Grammar.ParseString, Items;
      PushLevel(src, frames);
      h.Send(if dst.ObjectInitial? then StartObject else StartArray);
      var _ := s.Take();
      d := dst;
    }

    /** A name or a scalar value. */
    method TransitScan(fl: Flags, src: State, dst: State, s: StringStream, h: Handler, ghost frames: seq<Frame>)
      returns (d: State)
      requires parseResult.Ok? && s.src <= |s.text| && Sound(src, frames) && stack == Items(frames)
      requires dst == Predict(src, Tokenize(s.Peek()))
      requires !dst.ErrorState? && !dst.ObjectInitial? && !dst.ArrayInitial? && !dst.KeyValueDelimiter?
      requires !dst.MemberDelimiter? && !dst.ElementDelimiter? && !dst.ObjectFinish? && !dst.ArrayFinish?
      modifies this`stack, this`parseResult, s, h
      ensures Moved(Machine.Transit(fl, s.text, Config(src, frames, old(s.src), old(h.events))), src, dst, d, s, h)
    {
      hide Grammar.ParseValue, Grammar.ParseString, Items;
      if dst.MemberKey? {
        ParseString(fl, s, h, true);
      } else {
        ParseValue(fl, s, h);
      }
      d := if parseResult.Error? then ErrorState else if dst.SingleValue? then Finish else dst;
    }

    /** A colon, or a comma that is counted. */
    method TransitDelimiter(fl: Flags, src: State, dst: State, s: StringStream, h: Handler, ghost frames: seq<Frame>)
      returns (d: State)
      requires parseResult.Ok? && s.src <= |s.text| && Sound(src, frames) && stack == Items(frames)
      requires dst == Predict(src, Tokenize(s.Peek()))
      requires dst.KeyValueDelimiter? || dst.MemberDelimiter? || dst.ElementDelimiter?
      modifies this`stack, this`parseResult, s, h
      ensures Moved(Machine.Transit(fl, s.text, Config(src, frames, old(s.src), old(h.events))), src, dst, d, s, h)
    {
      hide Grammar.ParseValue, Grammar.ParseString, Items, Counted;
      if dst.KeyValueDelimiter? {
        var _ := s.Take();
      } else {
        CountDelimiter(s, frames);
      }
      d := dst;
    }

    method TransitClose(fl: Flags, src: State, dst: State, s: StringStream, h: Handler, ghost frames: seq<Frame>)
      returns (d: State)
      requires parseResult.Ok? && s.src <= |s.text| && Sound(src, frames) && stack == Items(frames)
      requires dst == Predict(src, Tokenize(s.Peek()))
      requires dst.ObjectFinish? || dst.ArrayFinish?
      modifies this`stack, this`parseResult, s, h
      ensures Moved(Machine.Transit(fl, s.text, Config(src, frames, old(s.src), old(h.events))), src, dst, d, s, h)
    {
      hide Grammar.ParseValue, Grammar.ParseString, Items;
      if !fl.trailingCommas && (src.MemberDelimiter? || src.ElementDelimiter?) {
        SetParseError(if dst.ObjectFinish? then ObjectMissName else ValueInvalid, s.src);
        return ErrorState;
      }
      var c;
      c, d := PopLevel(frames);
      c := if src.MemberValue? || src.Element? then c + 1 else c;
      h.Send(if dst.ObjectFinish? then EndObject(c) else EndArray(c));
      var _ := s.Take();
    }

    /** The state to return to and a zero count. */
    method PushLevel(src: State, ghost frames: seq<Frame>)
      requires stack == Items(frames)
      modifies this`stack
      ensures stack == Items(frames + [Frame(Pushed(src), 0)])
    {
      var n := src;
      if src.ArrayInitial? || src.ElementDelimiter? {
        n := Element;
      } else if src.KeyValueDelimiter? {
        n := MemberValue;
      }
      stack := stack + [Level(n)];
      stack := stack + [Count(0)];
      ItemsPush(frames, Frame(Pushed(src), 0));
    }

    method PopLevel(ghost frames: seq<Frame>) returns (count: nat, n: State)
      requires frames != [] && stack == Items(frames)
      modifies this`stack
      ensures stack == Items(frames[..|frames| - 1])
      ensures count == frames[|frames| - 1].count && n == Restored(frames[|frames| - 1].restore)
    {
      count := stack[|stack| - 1].count;
      stack := stack[..|stack| - 1];
      n := stack[|stack| - 1].state;
      stack := stack[..|stack| - 1];
      if n.Start? {
        n := Finish;
      }
    }

    /** Takes a comma and counts it in the open level. */
    method CountDelimiter(s: StringStream, ghost frames: seq<Frame>)
      requires frames != [] && stack == Items(frames)
      modifies this`stack, s
      ensures stack == Items(Counted(frames)) && s.src == old(s.src) + 1
    {
      var _ := s.Take();
      var top := stack[|stack| - 1];
      stack := stack[|stack| - 1 := Count(top.count + 1)];
      assert Counted(frames)[..|frames| - 1] == frames[..|frames| - 1];
    }

    method HandleError(src: State, s: StringStream)
      modifies this`parseResult
      ensures parseResult
           == if old(parseResult).Error? then old(parseResult) else Error(Machine.HandleError(src), s.src)
    {
      if parseResult.Ok? {
        SetParseError(Machine.HandleError(src), s.src);
      }
    }

    /** `IterativeParse`. */
    method IterativeParse(fl: Flags, s: StringStream, h: Handler)
      requires s.src == 0 && h.events == [] && stack == []
      modifies this`stack, this`parseResult, s, h
      ensures Finished(IterativeDocument(fl, s.text), s, h)
    {
      hide Skip, Machine.Transit;
      parseResult := Ok;
      var state := Start;
      SkipWhitespaceAndComments(fl, s);
      if parseResult.Error? {
        return;
      }
      ghost var c := Config(Start, [], s.src, []);
      ghost var goal := Run(fl, s.text, c);
      while s.Peek() != NUL
        invariant parseResult.Ok? && s.src <= |s.text|
        invariant InConfig(c, state, s, h) && Sound(c.state, c.stack)
        invariant Run(fl, s.text, c) == goal
        decreases |s.text| - s.src
      {
        var t := Tokenize(s.Peek());
        var n := Predict(state, t);
        ghost var m := Machine.Transit(fl, s.text, c);
        var d := Transit(fl, state, n, s, h, c.stack);
        if d.ErrorState? {
          HandleError(state, s);
          ClearStack();
          return;
        }
        state := d;
        if fl.stopWhenDone && state.Finish? {
          ClearStack();
          return;
        }
        SkipWhitespaceAndComments(fl, s);
        if parseResult.Error? {
          ClearStack();
          return;
        }
        c := m.config.(pos := s.src);
      }
      if !state.Finish? {
        HandleError(state, s);
      }
      ClearStack();
    }

    // ---- token by token ----

    method IterativeParseInit()
      modifies this`parseResult, this`state
      ensures parseResult.Ok? && state.Start?
    {
      parseResult := Ok;
      state := Start;
    }

    /** The outcome of a call, and the configuration it leaves for the next. */
    ghost predicate Called(c: Call, ok: bool, s: StringStream, h: Handler)
      reads this, s, h
    {
      match c
      case More(n) => ok && parseResult.Ok? && InConfig(n, state, s, h) && !state.Finish?
      case Complete(n) => ok && parseResult.Ok? && InConfig(n, state, s, h) && state.Finish?
      case Refused(code, o, evs) => !ok && parseResult == Error(code, o) && h.events == evs
      case Tainted(o, n) =>
        ok && parseResult == Error(UnspecificSyntaxError, o) && h.events == n.events && state.Finish?
      case Overlooked(_, _) => true
    }

    /**
     `IterativeParseNext`: one token that reaches the handler, with the delimiters before it.  Nothing is
     claimed of a call that would make a transition with the error of a comment set.
     */
    method IterativeParseNext(fl: Flags, s: StringStream, h: Handler, ghost frames: seq<Frame>) returns (ok: bool)
      requires parseResult.Ok? && s.src <= |s.text| && Sound(state, frames) && stack == Items(frames)
      requires !NextCall(fl, s.text, Config(state, frames, s.src, h.events)).Overlooked?
      modifies this, s, h
      ensures Called(NextCall(fl, s.text, Config(old(state), frames, old(s.src), old(h.events))), ok, s, h)
    {
      hide Machine.Transit, Skip, Sound, AfterRoot;
      ghost var c := Config(state, frames, s.src, h.events);
      ghost var goal := NextCall(fl, s.text, c);
      while s.Peek() != NUL
        invariant parseResult.Ok? && s.src <= |s.text|
        invariant InConfig(c, state, s, h) && Sound(c.state, c.stack)
        invariant NextCall(fl, s.text, c) == goal
        decreases |s.text| - s.src
      {
        SkipWhitespaceAndComments(fl, s);
        ghost var c1 := c.(pos := s.src);
        var t := Tokenize(s.Peek());
        var n := Predict(state, t);
        ghost var m := if parseResult.Ok? then Machine.Transit(fl, s.text, c1) else Halt(UnspecificSyntaxError, 0, []);
        var d := Transit(fl, state, n, s, h, c.stack);
        if d.Finish? || d.ErrorState? {
          if d.ErrorState? {
            HandleError(state, s);
            return false;
          }
          state := d;
          ok := FinishRoot(fl, s, h, m.config);
          return;
        }
        state := d;
        c := m.config;
        if !IsDelimiter(n) {
          DelimiterKept(fl, s.text, c1);
          return true;
        }
        DelimiterKept(fl, s.text, c1);
      }
      if !state.Finish? {
        HandleError(state, s);
        return false;
      }
      FinishIsEmpty(state, c.stack);
      stack := [];
      ok := true;
    }

    /** What follows the completed root. */
    method FinishRoot(fl: Flags, s: StringStream, h: Handler, ghost n: Config) returns (ok: bool)
      requires parseResult.Ok? && InConfig(n, state, s, h) && state.Finish? && s.src <= |s.text|
      modifies this`parseResult, s
      ensures Called(AfterRoot(fl, s.text, n), ok, s, h)
    {
      hide Skip, Grammar.ParseValue;
      if !fl.stopWhenDone {
        SkipWhitespaceAndComments(fl, s);
        if s.Peek() != NUL {
          HandleError(state, s);
          return false;
        }
      }
      ok := true;
    }
  }

  /** A transition to a delimiter is one the table predicted. */
  lemma DelimiterKept(fl: Flags, s: Text, c: Config)
    requires c.pos <= |s| && Sound(c.state, c.stack)
    ensures var m, n := Machine.Transit(fl, s, c), Predict(c.state, Tokenize(Bytes.Peek(s, c.pos)));
      m.Next? ==> IsDelimiter(m.config.state) == IsDelimiter(n)
  {
    hide Grammar.ParseValue, Grammar.ParseString;
  }

  lemma FinishIsEmpty(state: State, frames: seq<Frame>)
    requires Sound(state, frames) && state.Finish?
    ensures frames == [] && Items(frames) == []
  {
  }

  lemma {:induction false} HexRunStops(s: Text, p: nat, i: nat)
    requires i < 4 && !IsHex(Bytes.Peek(s, p + i))
    ensures Strings.Hex4(s, p) == None
  {
    assert Strings.HexRun(s, p, i + 1) == None;
    var n := i + 1;
    while n < 4
      invariant n <= 4 && Strings.HexRun(s, p, n) == None
    {
      n := n + 1;
    }
  }

  /** One more digit already exceeds what the prefix exceeds. */
  lemma PrefixPasses(t: Text, q: nat, k: nat, e: nat)
    requires q <= k < e == Numbers.DigitsEnd(t, q) && e <= |t|
    ensures Numbers.AllDigits(t[q..k]) && Numbers.AllDigits(t[q..e])
    ensures Numbers.Decimal(t[q..k]) * 10 + (t[k] - ZERO) <= Numbers.Decimal(t[q..e])
  {
    Numbers.DecimalMonotone(t, q, k + 1, e);
    Numbers.DecimalStep(t, q, k);
  }

  lemma OneMore(t: Text, p: nat, q: nat, c: byte)
    requires p <= q && Bytes.Peek(t, q) == c != NUL
    ensures q < |t| && t[p..q + 1] == t[p..q] + [c]
  {
  }

  lemma DigitRun(t: Text, q: nat)
    requires q <= |t|
    ensures Numbers.AllDigits(t[q..Numbers.DigitsEnd(t, q)])
  {
  }

  lemma FirstDigit(t: Text, q: nat)
    requires IsDigit(Bytes.Peek(t, q))
    ensures q < Numbers.DigitsEnd(t, q) <= |t|
    ensures Numbers.Decimal(t[q..q + 1]) == t[q] - ZERO <= 9
  {
    Numbers.DecimalStep(t, q, q);
    Numbers.DigitsEndInside(t, q, q + 1);
  }

  /** The digit count matters only for integers that fit. */
  lemma SignificantUnused(fl: Flags, s: Text, start: nat, minus: bool, v: nat, m: nat, n: nat, e: nat)
    requires start < e <= |s| && Numbers.IntegerEvent(minus, v).None?
    ensures Numbers.ParseTail(fl, s, start, minus, v, m, e) == Numbers.ParseTail(fl, s, start, minus, v, n, e)
  {
  }

  lemma ZeroIsDecimal(t: Text, q: nat)
    requires Bytes.Peek(t, q) == ZERO
    ensures q < |t| && Numbers.AllDigits(t[q..q + 1]) && Numbers.Decimal(t[q..q + 1]) == 0
  {
    assert t[q..q + 1] == [ZERO];
    assert [ZERO][..0] == [];
    assert Numbers.Decimal([]) == 0;
  }

  lemma {:induction false} MatchedIs(s: Text, p: nat, literal: Text, n: nat)
    requires n <= |literal|
    requires forall j :: 0 <= j < n ==> Bytes.Peek(s, p + j) == literal[j]
    requires n < |literal| ==> Bytes.Peek(s, p + n) != literal[n]
    ensures Matched(s, p, literal) == n
    decreases n
  {
    if n > 0 {
      assert Bytes.Peek(s, p + 0) == literal[0];
      forall j | 0 <= j < n - 1
        ensures Bytes.Peek(s, p + 1 + j) == literal[1..][j]
      {
        assert Bytes.Peek(s, p + (j + 1)) == literal[j + 1];
      }
      MatchedIs(s, p + 1, literal[1..], n - 1);
    }
  }
}
