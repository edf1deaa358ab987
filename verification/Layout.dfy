/** The layout of `Writer` and `PrettyWriter`, told container by container, and the escapes they choose. */
module Layout {
  import opened Bytes
  import opened Json
  import opened WriterText
  import JsonText

  function Joined(parts: seq<Text>, separator: Text): Text {
    if parts == [] then []
    else if |parts| == 1 then parts[0]
    else parts[0] + separator + Joined(parts[1..], separator)
  }

  /** A line break, and the indentation of so many levels. */
  function Line(style: Style, depth: nat): Text
    requires style.Pretty?
  {
    [0x0A] + seq(depth * style.indentCount, _ => style.indentChar)
  }

  /** The elements of an array that has `depth` levels around it, one by one. */
  function ElementTexts(style: Style, tg: Target, es: seq<Value>, depth: nat): (r: seq<Text>)
    ensures |r| == |es|
  {
    seq(|es|, i requires 0 <= i < |es| => Print(style, tg, es[i], depth + 1))
  }

  /** The members of an object, each a name, a colon and a value. */
  function MemberTexts(style: Style, tg: Target, ms: seq<Member>, depth: nat): (r: seq<Text>)
    ensures |r| == |ms|
  {
    seq(|ms|, i requires 0 <= i < |ms| =>
      QuotedText(tg, ms[i].name) + (if style.Compact? then [0x3A] else [0x3A, 0x20])
      + Print(style, tg, ms[i].value, depth + 1))
  }

  /** What stands behind the opening bracket, between two entries, and before the closing bracket. */
  datatype Frame = Frame(opening: Text, separator: Text, closing: Text)

  /** Compact: commas.  On a single line: commas and spaces.  Else every entry is on a line of its own,
      one level deeper than the brackets, and so is the closing bracket, on their level. */
  function FrameOf(style: Style, isArray: bool, depth: nat): Frame {
    if style.Compact? then Frame([], [0x2C], [])
    else if isArray && style.singleLineArrays then Frame([], [0x2C, 0x20], [])
    else Frame(Line(style, depth + 1), [0x2C] + Line(style, depth + 1), Line(style, depth))
  }

  function Framed(f: Frame, parts: seq<Text>): Text {
    if parts == [] then [] else f.opening + Joined(parts, f.separator) + f.closing
  }

  // ---- the prefixes of the writers amount to that ----

  lemma LineIsNewLine(style: Style, depth: nat)
    requires style.Pretty?
    ensures Line(style, depth) == NewLine(style, depth)
  {
    assert Line(style, depth)[1..] == Indent(style, depth);
  }

  /** What the writer puts before an entry of a container, and after its last. */
  lemma ElementPrefix(style: Style, i: nat, depth: nat)
    ensures PrefixText(style, Level(i, true), depth + 1)
         == if i == 0 then FrameOf(style, true, depth).opening else FrameOf(style, true, depth).separator
    ensures CloseGap(style, Level(i, true), depth) == if i == 0 then [] else FrameOf(style, true, depth).closing
  {
    hide Line, NewLine;
    if style.Pretty? {
      LineIsNewLine(style, depth);
      LineIsNewLine(style, depth + 1);
    }
  }

  lemma NamePrefix(style: Style, i: nat, depth: nat)
    ensures PrefixText(style, Level(2 * i, false), depth + 1)
         == if i == 0 then FrameOf(style, false, depth).opening else FrameOf(style, false, depth).separator
    ensures PrefixText(style, Level(2 * i + 1, false), depth + 1) == if style.Compact? then [0x3A] else [0x3A, 0x20]
    ensures CloseGap(style, Level(2 * i, false), depth) == if i == 0 then [] else FrameOf(style, false, depth).closing
  {
    hide Line, NewLine;
    if style.Pretty? {
      LineIsNewLine(style, depth);
      LineIsNewLine(style, depth + 1);
    }
  }

  function Lead(f: Frame, i: nat): Text {
    if i == 0 then f.opening else f.separator
  }

  lemma JoinedFirst(lead: Text, parts: seq<Text>, separator: Text, rest: Text)
    requires parts != []
    requires rest == if |parts| == 1 then [] else separator + Joined(parts[1..], separator)
    ensures lead + Joined(parts, separator) == lead + parts[0] + rest
  {
    if |parts| > 1 {
      assert lead + (parts[0] + separator + Joined(parts[1..], separator))
          == lead + parts[0] + (separator + Joined(parts[1..], separator));
    } else {
      assert lead + parts[0] + [] == lead + parts[0];
    }
  }

  lemma {:induction false} ElementsJoined(style: Style, tg: Target, es: seq<Value>, i: nat, depth: nat)
    ensures var f := FrameOf(style, true, depth);
      PrintElements(style, tg, es, i, depth + 1)
      == if es == [] then [] else Lead(f, i) + Joined(ElementTexts(style, tg, es, depth), f.separator)
    decreases |es|
  {
    hide Print, PrefixText, FrameOf, Joined;
    if es != [] {
      var f, parts := FrameOf(style, true, depth), ElementTexts(style, tg, es, depth);
      ElementsJoined(style, tg, es[1..], i + 1, depth);
      ElementPrefix(style, i, depth);
      assert parts[1..] == ElementTexts(style, tg, es[1..], depth);
      JoinedFirst(Lead(f, i), parts, f.separator, PrintElements(style, tg, es[1..], i + 1, depth + 1));
    }
  }

  lemma {:induction false} MembersJoined(style: Style, tg: Target, ms: seq<Member>, i: nat, depth: nat)
    ensures var f := FrameOf(style, false, depth);
      PrintMembers(style, tg, ms, i, depth + 1)
      == if ms == [] then [] else Lead(f, i) + Joined(MemberTexts(style, tg, ms, depth), f.separator)
    decreases |ms|
  {
    hide Print, PrefixText, FrameOf, Joined, QuotedText, MemberTexts;
    if ms != [] {
      var f, parts := FrameOf(style, false, depth), MemberTexts(style, tg, ms, depth);
      var rest := PrintMembers(style, tg, ms[1..], i + 1, depth + 1);
      MembersJoined(style, tg, ms[1..], i + 1, depth);
      NamePrefix(style, i, depth);
      FirstMember(style, tg, ms, depth);
      JoinedFirst(Lead(f, i), parts, f.separator, rest);
      var name, colon := QuotedText(tg, ms[0].name), PrefixText(style, Level(2 * i + 1, false), depth + 1);
      Grouped(Lead(f, i), name, colon, Print(style, tg, ms[0].value, depth + 1), rest);
    }
  }

  lemma FirstMember(style: Style, tg: Target, ms: seq<Member>, depth: nat)
    requires ms != []
    ensures var parts := MemberTexts(style, tg, ms, depth);
      && parts[0]
         == QuotedText(tg, ms[0].name) + (if style.Compact? then [0x3A] else [0x3A, 0x20])
            + Print(style, tg, ms[0].value, depth + 1)
      && parts[1..] == MemberTexts(style, tg, ms[1..], depth)
  {
    hide Print, QuotedText;
  }

  lemma Grouped(lead: Text, name: Text, colon: Text, value: Text, rest: Text)
    ensures lead + name + colon + value + rest == lead + (name + colon + value) + rest
  {
  }

  /** An array is its elements in the frame of its depth. */
  lemma ArrayLayout(style: Style, tg: Target, es: seq<Value>, depth: nat)
    ensures Print(style, tg, ArrayValue(es), depth)
         == [0x5B] + Framed(FrameOf(style, true, depth), ElementTexts(style, tg, es, depth)) + [0x5D]
  {
    hide PrintElements, CloseGap, FrameOf, Joined;
    ElementsJoined(style, tg, es, 0, depth);
    ElementPrefix(style, |es|, depth);
    Bracketed(LBRACKET, PrintElements(style, tg, es, 0, depth + 1), CloseGap(style, Level(|es|, true), depth),
              RBRACKET);
  }

  /** An object is its members in the frame of its depth. */
  lemma ObjectLayout(style: Style, tg: Target, ms: seq<Member>, depth: nat)
    ensures Print(style, tg, ObjectValue(ms), depth)
         == [0x7B] + Framed(FrameOf(style, false, depth), MemberTexts(style, tg, ms, depth)) + [0x7D]
  {
    hide PrintMembers, CloseGap, FrameOf, Joined;
    MembersJoined(style, tg, ms, 0, depth);
    NamePrefix(style, |ms|, depth);
    Bracketed(LBRACE, PrintMembers(style, tg, ms, 0, depth + 1), CloseGap(style, Level(2 * |ms|, false), depth),
              RBRACE);
  }

  lemma Bracketed(opening: byte, inner: Text, gap: Text, closing: byte)
    ensures [opening] + inner + gap + [closing] == [opening] + (inner + gap) + [closing]
    ensures inner == [] && gap == [] ==> inner + gap == []
  {
  }

  // ---- the escapes the writers choose ----

  /**
   Exactly the quotation mark, the reverse solidus and the control characters are escaped: in the short
   form where section 7 of RFC 8259 has one, and numerically, in capitals, where it has none.
   */
  lemma EscapesChosen(c: byte)
    ensures EscapeLetter(c) == NUL <==> c >= 0x20 && c != 0x22 && c != 0x5C
    ensures EscapeLetter(c) != NUL && EscapeLetter(c) != 0x75 ==> JsonText.EscapedBy(EscapeLetter(c)) == Some(c)
    ensures EscapeLetter(c) == 0x75 ==> forall letter :: JsonText.EscapedBy(letter) != Some(c)
    ensures EscapeLetter(c) != NUL && EscapeLetter(c) != 0x75 ==> EscapeText(c) == [0x5C, EscapeLetter(c)]
    ensures EscapeLetter(c) == 0x75 ==>
      var d := EscapeText(c)[2..];
      && EscapeText(c)[..2] == [0x5C, 0x75]
      && JsonText.FourHex(d) && JsonText.HexNumber(d) == c && Capitals(d)
  {
  }

  predicate Capitals(t: Text) {
    forall i :: 0 <= i < |t| ==> 0x30 <= t[i] <= 0x39 || 0x41 <= t[i] <= 0x46
  }
}
