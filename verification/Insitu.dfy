/**
 In-situ decoding: the stream that is read and the stream that is written are one buffer, and the
 decoded string replaces its own source.
 */
module Insitu {
  import opened Bytes
  import opened Json
  import Reader
  import Strings = StringSyntax
  import Utf8

  /** `GenericInsituStringStream`: a read and a write position in one buffer. */
  class InsituStringStream {
    const buffer: array<byte>
    var src: nat
    var dst: nat

    constructor (buffer: array<byte>)
      ensures this.buffer == buffer && src == 0 && dst == 0
    {
      this.buffer := buffer;
      src, dst := 0, 0;
    }

    /** From the read position on the buffer still holds the text, and its terminating NUL. */
    ghost predicate Holds(text: Text)
      reads this, buffer
    {
      && dst <= src <= |text| < buffer.Length
      && buffer[|text|] == NUL
      && forall k :: src <= k < |text| ==> buffer[k] == text[k]
    }

    function Peek(): byte
      requires src < buffer.Length
      reads this, buffer
    {
      buffer[src]
    }

    method Take() returns (c: byte)
      requires src < buffer.Length
      modifies this`src
      ensures c == old(Peek()) && src == old(src) + 1
    {
      c := buffer[src];
      src := src + 1;
    }

    method Consume(wanted: byte) returns (ok: bool)
      requires src < buffer.Length
      modifies this`src
      ensures ok == (old(Peek()) == wanted)
      ensures src == if ok then old(src) + 1 else old(src)
    {
      if Peek() == wanted {
        var _ := Take();
        return true;
      }
      return false;
    }

    /** Writing stays behind reading: nothing from the read position on changes. */
    method Put(c: byte)
      requires dst < src && dst < buffer.Length
      modifies this`dst, buffer
      ensures dst == old(dst) + 1 && buffer[old(dst)] == c
      ensures forall k :: 0 <= k < buffer.Length && k != old(dst) ==> buffer[k] == old(buffer[k])
    {
      buffer[dst] := c;
      dst := dst + 1;
    }

    method PutBegin() returns (begin: nat)
      modifies this`dst
      ensures begin == dst == src
    {
      dst := src;
      begin := dst;
    }
  }

  // ---- no piece of a string grows ----

  lemma EncodeLength(cp: nat)
    requires cp <= 0x10FFFF
    ensures cp <= 0xFFFF ==> |Utf8.Encode(cp)| <= 3
  {
  }

  /** What a turn puts is never longer than what it takes. */
  lemma TurnShrinks(validate: bool, s: Text, p: nat)
    requires p <= |s|
    ensures var t := Strings.TurnAt(validate, s, p); t.Piece? ==> p + |t.bytes| <= t.next
  {
    hide Utf8.Encode, Utf8.Validate, Strings.HexRun;
    var e := Strings.UnicodeEscape(s, p);
    if e.Codepoint? {
      EncodeLength(e.cp);
    }
  }

  // ---- how far the validator reads ----

  /** How many bytes checking takes at a position: as many as the lead byte announces, valid or not. */
  function Announced(text: Text, p: nat): nat {
    if p < |text| then Utf8.Validate(text, p).length else 1
  }

  /**
   Decoding from `begin` stays in a buffer of `n` bytes.  It leaves the buffer only where the encoding is
   found invalid, and there the lead byte announces more bytes than the buffer has.
   */
  predicate Stays(validate: bool, text: Text, begin: nat, n: nat)
    requires begin <= |text|
  {
    var r := Strings.Decode(validate, text, begin, []);
    validate && r.Bad? && r.code == StringInvalidEncoding ==> r.offset + Announced(text, r.offset) <= n
  }

  /** No lead byte of the text announces more bytes than the buffer has. */
  predicate Room(text: Text, n: nat) {
    forall p :: 0 <= p < |text| ==> p + Utf8.Validate(text, p).length <= n
  }

  /** Where there is room, decoding stays in the buffer, wherever it begins. */
  lemma RoomStays(validate: bool, text: Text, begin: nat, n: nat)
    requires begin <= |text| < n && Room(text, n)
    ensures Stays(validate, text, begin, n)
  {
    hide Strings.Decode, Utf8.Validate;
    BadInside(validate, text, begin, []);
  }

  lemma {:induction false} BadInside(validate: bool, text: Text, p: nat, out: Text)
    requires p <= |text|
    ensures var r := Strings.Decode(validate, text, p, out); r.Bad? ==> r.offset <= |text|
    decreases |text| - p
  {
    hide Strings.TurnAt;
    var t := Strings.TurnAt(validate, text, p);
    if t.Piece? {
      BadInside(validate, text, t.next, out + t.bytes);
    }
  }

  /** Valid UTF-8 needs no room beyond the text. */
  lemma {:induction false} ValidRoom(text: Text, j: nat)
    requires j <= |text| && Utf8.ValidText(text[j..])
    ensures forall p :: j <= p < |text| ==> p + Utf8.Validate(text, p).length <= |text|
    decreases |text| - j
  {
    hide Utf8.WellFormed, Utf8.Validate;
    if j < |text| {
      var t := text[j..];
      var n :| 1 <= n <= 4 && n <= |t| && Utf8.WellFormed(t[..n]) && Utf8.ValidText(t[n..]);
      assert t[..n] == text[j..j + n] && t[n..] == text[j + n..];
      Utf8.ValidateIsGrammar(text, j);
      assert Utf8.WellFormed(text[j..j + n]) && Utf8.Validate(text, j) == Utf8.Taken(true, n);
      ValidRoom(text, j + n);
      forall p | j < p < j + n
        ensures p + Utf8.Validate(text, p).length <= |text|
      {
        TailTakesOne(text, j, n, p);
      }
    }
  }

  /** A continuation byte announces nothing. */
  lemma TailTakesOne(text: Text, j: nat, n: nat, p: nat)
    requires j < p < j + n <= |text| && Utf8.WellFormed(text[j..j + n])
    ensures Utf8.Validate(text, p).length == 1
  {
    assert text[p] == text[j..j + n][p - j];
  }

  lemma ValidTextHasRoom(text: Text)
    requires Utf8.ValidText(text)
    ensures Room(text, |text|)
  {
    hide Utf8.ValidText, Utf8.Validate;
    assert text[0..] == text;
    ValidRoom(text, 0);
  }

  /** A lead byte of four cut short by the end of the text. */
  const CUT: Text := [QUOTE, 0xF0]

  /** In a buffer that ends with the NUL such a string has the decoder leave it. */
  lemma CutSequenceLeaves()
    ensures Strings.ParseString(true, CUT, 0) == Strings.Bad(StringInvalidEncoding, 1)
    ensures !Stays(true, CUT, 1, |CUT| + 1) && !Room(CUT, |CUT| + 1)
  {
    assert Utf8.Validate(CUT, 1) == Utf8.Taken(false, 4);
  }

  lemma EscapeErrors(text: Text, p: nat)
    requires p < |text|
    ensures var t := Strings.EscapeAt(text, p); t.Wrong? ==> t.code != StringInvalidEncoding
  {
    hide Strings.Hex4, Utf8.Encode;
  }

  /** The turn at `p` checks the encoding. */
  predicate Checks(validate: bool, text: Text, p: nat) {
    validate && p < |text| && text[p] >= 0x20 && text[p] != QUOTE && text[p] != BACKSLASH
  }

  /** What the loop knows before a turn that stays. */
  lemma TurnStays(validate: bool, text: Text, p: nat, out: Text, begin: nat, n: nat)
    requires p <= |text| < n && begin <= |text| && Stays(validate, text, begin, n)
    requires Strings.Decode(validate, text, p, out) == Strings.Decode(validate, text, begin, [])
    ensures Checks(validate, text, p) ==> p + Utf8.Validate(text, p).length <= n
  {
    hide Utf8.ShapeOf, Utf8.InMask;
  }

  lemma CopiedSlice(buffer: Text, d: nat, text: Text, p: nat, n: nat)
    requires d + n <= |buffer| && p + n <= |text|
    requires forall k :: d <= k < d + n ==> buffer[k] == text[p + (k - d)]
    ensures buffer[d..d + n] == text[p..p + n]
  {
  }

  /** The reader's string loop, run on a stream that is its own output. */
  class InsituReader {
    var parseResult: Reader.ParseResult

    constructor ()
      ensures parseResult == Reader.Ok
    {
      parseResult := Reader.Ok;
    }

    method SetParseError(code: ErrorCode, offset: nat)
      requires parseResult.Ok?
      modifies this`parseResult
      ensures parseResult == Reader.Error(code, offset)
    {
      parseResult := Reader.Error(code, offset);
    }

    method ParseHex4(s: InsituStringStream, ghost text: Text, escapeOffset: nat) returns (codepoint: nat)
      requires parseResult.Ok? && s.Holds(text)
      modifies this`parseResult, s`src
      ensures match Strings.Hex4(text, old(s.src))
        case None => parseResult == Reader.Error(StringUnicodeEscapeInvalidHex, escapeOffset)
        case Some(v) => parseResult.Ok? && codepoint == v && s.src == old(s.src) + 4 && s.Holds(text)
      ensures old(s.src) <= s.src
    {
      codepoint := 0;
      for i := 0 to 4
        invariant s.src == old(s.src) + i && parseResult.Ok? && s.Holds(text)
        invariant Strings.HexRun(text, old(s.src), i) == Some(codepoint)
      {
        var c := s.Peek();
        codepoint := codepoint * 16;
        if ZERO <= c <= NINE {
          codepoint := codepoint + c - 0x30;
        } else if 0x41 <= c <= 0x46 {
          codepoint := codepoint + c - (0x41 - 10);
        } else if 0x61 <= c <= 0x66 {
          codepoint := codepoint + c - (0x61 - 10);
        } else {
          Reader.HexRunStops(text, old(s.src), i);
          SetParseError(StringUnicodeEscapeInvalidHex, escapeOffset);
          return;
        }
        var _ := s.Take();
      }
    }

    method ParseUnicodeEscape(s: InsituStringStream, ghost text: Text, escapeOffset: nat) returns (codepoint: nat)
      requires parseResult.Ok? && s.src == escapeOffset + 2 && s.Holds(text)
      modifies this`parseResult, s`src
      ensures match Strings.UnicodeEscape(text, escapeOffset)
        case BadEscape(code) => parseResult == Reader.Error(code, escapeOffset)
        case Codepoint(cp, next) => parseResult.Ok? && s.src == next && codepoint == cp && s.Holds(text)
      ensures old(s.src) <= s.src
    {
      hide Strings.HexRun, Strings.Hex4;
      codepoint := ParseHex4(s, text, escapeOffset);
      if parseResult.Error? {
        return;
      }
      if 0xD800 <= codepoint <= 0xDBFF {
        var paired := s.Consume(BACKSLASH);
        if paired {
          paired := s.Consume(0x75);
        }
        if !paired {
          SetParseError(StringUnicodeSurrogateInvalid, escapeOffset);
          return;
        }
        var codepoint2 := ParseHex4(s, text, escapeOffset);
        if parseResult.Error? {
          return;
        }
        if codepoint2 < 0xDC00 || codepoint2 > 0xDFFF {
          SetParseError(StringUnicodeSurrogateInvalid, escapeOffset);
          return;
        }
        codepoint := (codepoint - 0xD800) * 0x400 + (codepoint2 - 0xDC00) + 0x10000;
      }
    }

    /** What a call wrote: `bytes` where the write position was, and nothing else. */
    twostate predicate Wrote(s: InsituStringStream, bytes: Text)
      reads s, s.buffer
    {
      && s.dst == old(s.dst) + |bytes| <= s.buffer.Length
      && s.buffer[old(s.dst)..s.dst] == bytes
      && forall k :: 0 <= k < s.buffer.Length && !(old(s.dst) <= k < s.dst) ==> s.buffer[k] == old(s.buffer[k])
    }

    /** Nothing was written before the write position, and nothing from the read position on. */
    twostate predicate Kept(s: InsituStringStream)
      reads s, s.buffer
    {
      && old(s.src) <= s.src && old(s.dst) <= s.dst
      && forall k :: 0 <= k < s.buffer.Length && !(old(s.dst) <= k < s.src) ==> s.buffer[k] == old(s.buffer[k])
    }

    method PutAll(s: InsituStringStream, bytes: Text)
      requires s.dst + |bytes| <= s.src <= s.buffer.Length
      modifies s`dst, s.buffer
      ensures Wrote(s, bytes)
    {
      for i := 0 to |bytes|
        invariant s.dst == old(s.dst) + i
        invariant forall k :: 0 <= k < i ==> s.buffer[old(s.dst) + k] == bytes[k]
        invariant forall k :: 0 <= k < s.buffer.Length && !(old(s.dst) <= k < s.dst) ==> s.buffer[k] == old(s.buffer[k])
      {
        s.Put(bytes[i]);
      }
    }

    /** One escape sequence: taken whole before any of its bytes is put. */
    method ParseEscape(s: InsituStringStream, ghost text: Text)
      requires parseResult.Ok? && s.Holds(text) && s.Peek() == BACKSLASH
      modifies this, s, s.buffer
      ensures match Strings.EscapeAt(text, old(s.src))
        case Wrong(code) => parseResult == Reader.Error(code, old(s.src))
        case Piece(bytes, next) => parseResult.Ok? && s.src == next && Wrote(s, bytes) && s.Holds(text)
      ensures Kept(s)
    {
      hide Strings.UnicodeEscape, Utf8.Encode;
      ghost var p := s.src;
      assert p < |text| && text[p] == BACKSLASH;
      TurnShrinks(false, text, p);
      var escapeOffset := s.src;
      var _ := s.Take();
      var e := s.Peek();
      if Strings.Unescape(e) != NUL {
        var _ := s.Take();
        PutAll(s, [Strings.Unescape(e)]);
      } else if e == 0x75 {
        var _ := s.Take();
        var codepoint := ParseUnicodeEscape(s, text, escapeOffset);
        if parseResult.Error? {
          return;
        }
        PutAll(s, Utf8.Encode(codepoint));
      } else {
        SetParseError(StringEscapeInvalid, escapeOffset);
      }
    }

    /** `os.Put(is.Take())`. */
    method Copy(s: InsituStringStream) returns (c: byte)
      requires s.dst <= s.src < s.buffer.Length
      modifies s, s.buffer
      ensures s.src == old(s.src) + 1 && s.dst == old(s.dst) + 1
      ensures c == old(s.buffer[s.src]) && s.buffer[old(s.dst)] == c
      ensures forall k :: 0 <= k < s.buffer.Length && k != old(s.dst) ==> s.buffer[k] == old(s.buffer[k])
    {
      c := s.Take();
      s.Put(c);
    }

    /** `Validate`: takes and puts byte by byte to the length the lead announces. */
    method Validate(s: InsituStringStream, ghost text: Text) returns (ok: bool)
      requires s.Holds(text) && s.src < |text| && s.src + Utf8.Validate(text, s.src).length <= s.buffer.Length
      modifies s, s.buffer
      ensures var p, t := old(s.src), Utf8.Validate(text, old(s.src));
        ok == t.ok && s.src == p + t.length && (ok ==> Wrote(s, text[p..s.src]) && s.Holds(text))
      ensures Kept(s)
    {
      hide Utf8.ShapeOf, Utf8.InMask;
      ghost var p := s.src;
      var c := Copy(s);
      if c < 0x80 {
        return true;
      }
      Utf8.ShapeFacts(c);
      match Utf8.ShapeOf(c)
      case None =>
        ok := false;
      case Some(shape) =>
        ok := ValidateTail(s, text, p, shape);
    }

    /** The bytes after the lead. */
    method ValidateTail(s: InsituStringStream, ghost text: Text, ghost p: nat, shape: Utf8.Shape) returns (ok: bool)
      requires s.Holds(text) && s.src == p + 1 && p + shape.length <= s.buffer.Length && 2 <= shape.length <= 4
      requires 1 <= s.dst <= s.src && s.buffer[s.dst - 1] == text[p]
      modifies s, s.buffer
      ensures ok == (&& Utf8.InMask(Bytes.Peek(text, p + 1), shape.mask)
                     && (shape.length >= 3 ==> Utf8.InMask(Bytes.Peek(text, p + 2), 0x70))
                     && (shape.length >= 4 ==> Utf8.InMask(Bytes.Peek(text, p + 3), 0x70)))
      ensures s.src == p + shape.length && s.dst == old(s.dst) + shape.length - 1 && (ok ==> s.Holds(text))
      ensures ok ==> s.buffer[old(s.dst) - 1..s.dst] == text[p..s.src]
      ensures forall k :: 0 <= k < s.buffer.Length && !(old(s.dst) <= k < s.dst) ==> s.buffer[k] == old(s.buffer[k])
    {
      hide Utf8.InMask;
      Utf8.ShapeFacts(NUL);
      ghost var d := s.dst - 1;
      ok := true;
      for i := 1 to shape.length
        invariant s.src == p + i && s.dst == d + i && d <= p
        invariant ok == (&& (1 < i ==> Utf8.InMask(Bytes.Peek(text, p + 1), shape.mask))
                         && (2 < i ==> Utf8.InMask(Bytes.Peek(text, p + 2), 0x70))
                         && (3 < i ==> Utf8.InMask(Bytes.Peek(text, p + 3), 0x70)))
        invariant ok ==> s.Holds(text) && forall k :: d <= k < d + i ==> s.buffer[k] == text[p + (k - d)]
        invariant forall k :: 0 <= k < s.buffer.Length && !(d < k < d + i) ==> s.buffer[k] == old(s.buffer[k])
      {
        assert ok ==> s.buffer[s.src] == Bytes.Peek(text, p + i);
        var c := Copy(s);
        ok := ok && Utf8.InMask(c, if i == 1 then shape.mask else 0x70);
      }
      if ok {
        CopiedSlice(s.buffer[..], d, text, p, shape.length);
      }
    }

    /** The error is one the validator found, so it has taken all the bytes announced. */
    static predicate Reached(fl: Flags, text: Text, code: ErrorCode, o: nat) {
      fl.validateEncoding && code == StringInvalidEncoding && Bytes.Peek(text, o) >= 0x20
    }

    /** `ParseString`: the outcome of the buffered decoder, written over the string's own source. */
    method ParseString(fl: Flags, s: InsituStringStream, ghost text: Text) returns (begin: nat, length: nat)
      requires parseResult.Ok? && s.Holds(text) && s.Peek() == QUOTE
      requires Stays(fl.validateEncoding, text, s.src + 1, s.buffer.Length)
      modifies this, s, s.buffer
      ensures begin == old(s.src) + 1
      ensures forall k :: 0 <= k < s.buffer.Length && !(begin <= k < s.src) ==> s.buffer[k] == old(s.buffer[k])
      ensures match Strings.ParseString(fl.validateEncoding, text, old(s.src))
        case Bad(code, o) =>
          parseResult == Reader.Error(code, o) && (Reached(fl, text, code, o) ==> s.src == o + Announced(text, o))
        case Done(str, q) =>
          && parseResult.Ok? && s.src == q && length == |str|
          && s.dst == begin + length + 1 && s.Holds(text)
          && s.buffer[begin..begin + length] == str && s.buffer[begin + length] == NUL
    {
      hide Strings.Decode;
      var _ := s.Take();
      begin := s.PutBegin();
      length := 0;
      ParseStringToStream(fl, s, text, begin);
      if parseResult.Ok? {
        length := s.dst - begin - 1;
      }
    }

    method ParseStringToStream(fl: Flags, s: InsituStringStream, ghost text: Text, ghost begin: nat)
      requires parseResult.Ok? && s.Holds(text) && begin == s.src == s.dst
      requires Stays(fl.validateEncoding, text, begin, s.buffer.Length)
      modifies this, s, s.buffer
      ensures forall k :: 0 <= k < s.buffer.Length && !(begin <= k < s.src) ==> s.buffer[k] == old(s.buffer[k])
      ensures match Strings.Decode(fl.validateEncoding, text, begin, [])
        case Bad(code, o) =>
          parseResult == Reader.Error(code, o) && (Reached(fl, text, code, o) ==> s.src == o + Announced(text, o))
        case Done(str, q) =>
          && parseResult.Ok? && s.src == q && s.dst == begin + |str| + 1 && s.Holds(text)
          && s.buffer[begin..begin + |str|] == str && s.buffer[begin + |str|] == NUL
    {
      hide Strings.TurnAt;
      ghost var out: Text := [];
      while true
        invariant parseResult.Ok? && s.Holds(text) && begin <= s.dst == begin + |out|
        invariant s.buffer[begin..s.dst] == out
        invariant forall k :: 0 <= k < s.buffer.Length && !(begin <= k < s.src) ==> s.buffer[k] == old(s.buffer[k])
        invariant Strings.Decode(fl.validateEncoding, text, s.src, out)
            == Strings.Decode(fl.validateEncoding, text, begin, [])
        decreases |text| - s.src
      {
        ghost var d := s.dst;
        ghost var turn := Strings.TurnAt(fl.validateEncoding, text, s.src);
        TurnStays(fl.validateEncoding, text, s.src, out, begin, s.buffer.Length);
        var closing := ParseTurn(fl, s, text);
        if closing || parseResult.Error? {
          assert closing ==> s.buffer[begin..d] == out;
          return;
        }
        assert s.buffer[begin..s.dst] == s.buffer[begin..d] + s.buffer[d..s.dst];
        assert s.buffer[begin..d] == out;
        out := out + turn.bytes;
      }
    }

    /** One turn of the loop. */
    method ParseTurn(fl: Flags, s: InsituStringStream, ghost text: Text) returns (closing: bool)
      requires parseResult.Ok? && s.Holds(text)
      requires Checks(fl.validateEncoding, text, s.src) ==>
        s.src + Utf8.Validate(text, s.src).length <= s.buffer.Length
      modifies this, s, s.buffer
      ensures Kept(s)
      ensures match Strings.TurnAt(fl.validateEncoding, text, old(s.src))
        case Wrong(code) =>
          && parseResult == Reader.Error(code, old(s.src)) && !closing
          && (Reached(fl, text, code, old(s.src)) ==> s.src == old(s.src) + Announced(text, old(s.src)))
        case Closing => parseResult.Ok? && closing && s.src == old(s.src) + 1 && Wrote(s, [NUL]) && s.Holds(text)
        case Piece(bytes, next) => parseResult.Ok? && !closing && s.src == next && Wrote(s, bytes) && s.Holds(text)
    {
      hide Utf8.Validate, Strings.EscapeAt;
      closing := false;
      ghost var p := s.src;
      var c := s.Peek();
      assert c == Bytes.Peek(text, p);
      if c == BACKSLASH {
        EscapeErrors(text, p);
        ParseEscape(s, text);
      } else if c == QUOTE {
        var _ := s.Take();
        s.Put(NUL);
        closing := true;
      } else if c < 0x20 {
        SetParseError(if c == NUL then StringMissQuotationMark else StringInvalidEncoding, s.src);
      } else {
        assert text[p..p + 1] == [c];
        var offset := s.src;
        var ok := Transcode(fl, s, text);
        if !ok {
          SetParseError(StringInvalidEncoding, offset);
        }
      }
    }

    /** `Validate` or `Transcode`, as the flags choose. */
    method Transcode(fl: Flags, s: InsituStringStream, ghost text: Text) returns (ok: bool)
      requires s.Holds(text) && s.src < |text|
      requires fl.validateEncoding ==> s.src + Utf8.Validate(text, s.src).length <= s.buffer.Length
      modifies s, s.buffer
      ensures Kept(s)
      ensures var p := old(s.src);
        && (fl.validateEncoding ==> ok == Utf8.Validate(text, p).ok)
        && (!fl.validateEncoding ==> ok)
        && s.src == (if fl.validateEncoding then p + Utf8.Validate(text, p).length else p + 1)
        && (ok ==> Wrote(s, text[p..s.src]) && s.Holds(text))
    {
      if fl.validateEncoding {
        ok := Validate(s, text);
      } else {
        var c := s.Take();
        s.Put(c);
        assert text[old(s.src)..s.src] == [c];
        ok := true;
      }
    }
  }
}
