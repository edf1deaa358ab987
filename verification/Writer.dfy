/** `Writer` and `PrettyWriter`: a level stack and an output that every handler call changes in place. */
module Writer {
  import opened Bytes
  import opened Json
  import opened WriterText
  import Document
  import Utf8

  class Writer {
    const style: Style
    const target: Target
    var os: Text
    var levelStack: seq<Level>
    var hasRoot: bool

    constructor (style: Style, target: Target)
      ensures this.style == style && this.target == target && State() == Sheet([], [], false)
    {
      this.style := style;
      this.target := target;
      os, levelStack, hasRoot := [], [], false;
    }

    function State(): Sheet
      reads this
    {
      Sheet(os, levelStack, hasRoot)
    }

    /** A call had this outcome: what it returned, and the sheet it left when it succeeded. */
    ghost predicate Did(outcome: Option<Sheet>, ok: bool)
      reads this
    {
      ok == outcome.Some? && (ok ==> State() == outcome.value)
    }

    /** Whether the text is a whole document. */
    predicate IsComplete()
      reads this
      ensures IsComplete() == Complete(State())
    {
      hasRoot && levelStack == []
    }

    // ---- output ----

    method Put(c: byte)
      modifies this`os
      ensures os == old(os) + [c]
    {
      os := os + [c];
    }

    method PutAll(t: Text)
      modifies this`os
      ensures os == old(os) + t
    {
      for i := 0 to |t|
        invariant os == old(os) + t[..i]
      {
        Put(t[i]);
        assert t[..i + 1] == t[..i] + [t[i]];
      }
      assert t[..|t|] == t;
    }

    method WriteIndent()
      requires style.Pretty?
      modifies this`os
      ensures os == old(os) + Indent(style, |levelStack|)
    {
      var count := |levelStack| * style.indentCount;
      for i := 0 to count
        invariant os == old(os) + Indent(style, |levelStack|)[..i]
      {
        Put(style.indentChar);
        assert Indent(style, |levelStack|)[..i + 1] == Indent(style, |levelStack|)[..i] + [style.indentChar];
      }
      assert Indent(style, |levelStack|)[..count] == Indent(style, |levelStack|);
    }

    /** The value about to be written is counted in its level, or becomes the root. */
    method CountValue()
      modifies this`levelStack, this`hasRoot
      ensures if old(levelStack) == [] then levelStack == [] && hasRoot else hasRoot == old(hasRoot)
      ensures old(levelStack) != [] ==>
        var top := Top(old(State()));
        levelStack == old(levelStack)[|old(levelStack)| - 1 := top.(valueCount := top.valueCount + 1)]
    {
      if levelStack != [] {
        var top := levelStack[|levelStack| - 1];
        levelStack := levelStack[|levelStack| - 1 := top.(valueCount := top.valueCount + 1)];
      } else {
        hasRoot := true;
      }
    }

    method Prefix()
      requires style.Compact? && ReadyForString(State())
      modifies this
      ensures State() == Entered(style, old(State()))
    {
      if levelStack != [] {
        var level := levelStack[|levelStack| - 1];
        if level.valueCount > 0 {
          if level.inArray {
            Put(COMMA);
          } else {
            Put(if level.valueCount % 2 == 0 then COMMA else COLON);
          }
        }
      }
      CountValue();
    }

    method PrettyPrefix()
      requires style.Pretty? && ReadyForString(State())
      modifies this
      ensures State() == Entered(style, old(State()))
    {
      hide Indent, PrefixText;
      if levelStack != [] {
        var level := levelStack[|levelStack| - 1];
        PrettyPieces(style, level, |levelStack|, os);
        if level.inArray {
          if level.valueCount > 0 {
            Put(COMMA);
            if style.singleLineArrays {
              Put(SPACE);
            }
          }
          if !style.singleLineArrays {
            Put(LF);
            WriteIndent();
          }
        } else {
          if level.valueCount > 0 {
            if level.valueCount % 2 == 0 {
              Put(COMMA);
              Put(LF);
            } else {
              Put(COLON);
              Put(SPACE);
            }
          } else {
            Put(LF);
          }
          if level.valueCount % 2 == 0 {
            WriteIndent();
          }
        }
      }
      CountValue();
    }

    /** The prefix of whichever writer this is. */
    method Enter()
      requires ReadyForString(State())
      modifies this
      ensures State() == Entered(style, old(State()))
    {
      if style.Compact? {
        Prefix();
      } else {
        PrettyPrefix();
      }
    }

    /** Four hexadecimal digits. */
    method PutHex4(n: nat)
      requires n < 0x10000
      modifies this`os
      ensures os == old(os) + Hex4Text(n)
    {
      Put(HexDigit(n / 0x1000));
      Put(HexDigit(n / 0x100 % 16));
      Put(HexDigit(n / 16 % 16));
      Put(HexDigit(n % 16));
    }

    method PutCodepoint(cp: nat)
      requires Utf8.Scalar(cp)
      modifies this`os
      ensures os == old(os) + UnicodeText(cp)
    {
      hide Hex4Text, UnicodeText;
      Put(BACKSLASH);
      Put(0x75);
      UnitText(old(os), cp);
      if cp <= 0xD7FF || 0xE000 <= cp <= 0xFFFF {
        PutHex4(cp);
      } else {
        var s := cp - 0x10000;
        var lead, trail := s / 0x400 + 0xD800, s % 0x400 + 0xDC00;
        PutHex4(lead);
        Put(BACKSLASH);
        Put(0x75);
        PutHex4(trail);
        PairText(old(os), cp);
      }
    }

    /** One turn of the string loop. */
    method PutNext(str: Text, p: nat) returns (next: nat, ok: bool)
      requires p < |str|
      modifies this`os
      ensures ok == PrintedAt(target, str, p).Some?
      ensures ok ==> PrintedAt(target, str, p).value.next == next
      ensures ok ==> os == old(os) + PrintedAt(target, str, p).value.bytes
    {
      hide Utf8.Validate, Utf8.Decode, UnicodeText;
      var c := str[p];
      next := p + 1;
      ok := true;
      if target.ascii && c >= 0x80 {
        var codepoint := Utf8.Decode(str, p);
        if codepoint.None? {
          return next, false;
        }
        Utf8.EncodeDecode(str, p);
        next := p + Utf8.Validate(str, p).length;
        PutCodepoint(codepoint.value);
      } else if EscapeLetter(c) != NUL {
        Put(BACKSLASH);
        Put(EscapeLetter(c));
        if EscapeLetter(c) == 0x75 {
          Put(ZERO);
          Put(ZERO);
          Put(HexDigit(c / 16));
          Put(HexDigit(c % 16));
        }
      } else if target.validate {
        var t := Utf8.Validate(str, p);
        if !t.ok {
          return next, false;
        }
        PutAll(str[p..p + t.length]);
        next := p + t.length;
      } else {
        Put(c);
      }
    }

    method WriteString(str: Text) returns (ok: bool)
      modifies this`os
      ensures ok == Quoted(target, str).Some?
      ensures ok ==> os == old(os) + Quoted(target, str).value
    {
      hide PrintedAt;
      Put(QUOTE);
      ghost var from := os;
      ghost var done: Text := [];
      var p := 0;
      while p < |str|
        invariant p <= |str| && os == from + done
        invariant Escaped(target, str, p).Some? <==> Escaped(target, str, 0).Some?
        invariant Escaped(target, str, p).Some? ==>
          Escaped(target, str, 0).value == done + Escaped(target, str, p).value
        decreases |str| - p
      {
        ghost var piece := PrintedAt(target, str, p);
        var next;
        next, ok := PutNext(str, p);
        if !ok {
          return;
        }
        done := done + piece.value.bytes;
        p := next;
      }
      Put(QUOTE);
      ok := true;
    }

    // ---- the handler ----

    /** A whole value of no more than one event. */
    method Null() returns (ok: bool)
      requires Allowed(State(), Event.Null)
      modifies this
      ensures Did(Write(style, target, old(State()), Event.Null), ok)
    {
      hide Entered, Quoted;
      Enter();
      PutAll(NULL_TEXT);
      ok := true;
    }

    method Bool(b: bool) returns (ok: bool)
      requires Allowed(State(), Event.Bool(b))
      modifies this
      ensures Did(Write(style, target, old(State()), Event.Bool(b)), ok)
    {
      hide Entered, Quoted;
      Enter();
      PutAll(if b then TRUE_TEXT else FALSE_TEXT);
      ok := true;
    }

    method Int(i: int) returns (ok: bool)
      requires Allowed(State(), Event.Int(i))
      modifies this
      ensures Did(Write(style, target, old(State()), Event.Int(i)), ok)
    {
      hide Entered, IntegerText, Quoted;
      Enter();
      PutAll(IntegerText(i));
      ok := true;
    }

    method Uint(u: int) returns (ok: bool)
      requires Allowed(State(), Event.Uint(u))
      modifies this
      ensures Did(Write(style, target, old(State()), Event.Uint(u)), ok)
    {
      hide Entered, IntegerText, Quoted;
      Enter();
      PutAll(IntegerText(u));
      ok := true;
    }

    method Int64(i64: int) returns (ok: bool)
      requires Allowed(State(), Event.Int64(i64))
      modifies this
      ensures Did(Write(style, target, old(State()), Event.Int64(i64)), ok)
    {
      hide Entered, IntegerText, Quoted;
      Enter();
      PutAll(IntegerText(i64));
      ok := true;
    }

    method Uint64(u64: int) returns (ok: bool)
      requires Allowed(State(), Event.Uint64(u64))
      modifies this
      ensures Did(Write(style, target, old(State()), Event.Uint64(u64)), ok)
    {
      hide Entered, IntegerText, Quoted;
      Enter();
      PutAll(IntegerText(u64));
      ok := true;
    }

    method String(str: Text) returns (ok: bool)
      requires Allowed(State(), Event.String(str))
      modifies this
      ensures Did(Write(style, target, old(State()), Event.String(str)), ok)
    {
      hide Entered, Quoted;
      Enter();
      ok := WriteString(str);
    }

    method Key(name: Text) returns (ok: bool)
      requires Allowed(State(), Event.Key(name))
      modifies this
      ensures Did(Write(style, target, old(State()), Event.Key(name)), ok)
    {
      ok := String(name);
    }

    method StartObject() returns (ok: bool)
      requires Allowed(State(), Event.StartObject)
      modifies this
      ensures Did(Write(style, target, old(State()), Event.StartObject), ok)
    {
      hide Entered;
      Enter();
      levelStack := levelStack + [Level(0, false)];
      Put(LBRACE);
      ok := true;
    }

    method StartArray() returns (ok: bool)
      requires Allowed(State(), Event.StartArray)
      modifies this
      ensures Did(Write(style, target, old(State()), Event.StartArray), ok)
    {
      hide Entered;
      Enter();
      levelStack := levelStack + [Level(0, true)];
      Put(LBRACKET);
      ok := true;
    }

    method EndObject(memberCount: nat) returns (ok: bool)
      requires Allowed(State(), Event.EndObject(memberCount))
      modifies this
      ensures Did(Write(style, target, old(State()), Event.EndObject(memberCount)), ok)
    {
      hide Indent;
      var empty := levelStack[|levelStack| - 1].valueCount == 0;
      levelStack := levelStack[..|levelStack| - 1];
      if style.Pretty? && !empty {
        Put(LF);
        WriteIndent();
      }
      Put(RBRACE);
      ok := true;
    }

    method EndArray(elementCount: nat) returns (ok: bool)
      requires Allowed(State(), Event.EndArray(elementCount))
      modifies this
      ensures Did(Write(style, target, old(State()), Event.EndArray(elementCount)), ok)
    {
      hide Indent;
      var empty := levelStack[|levelStack| - 1].valueCount == 0;
      levelStack := levelStack[..|levelStack| - 1];
      if style.Pretty? && !empty && !style.singleLineArrays {
        Put(LF);
        WriteIndent();
      }
      Put(RBRACKET);
      ok := true;
    }

    // ---- `GenericValue::Accept` on a writer ----

    method Accept(v: Value) returns (ok: bool)
      requires Integral(v) && ReadyForValue(State())
      modifies this
      ensures Did(if Printable(target, v) then Some(Written(style, target, old(State()), v)) else None, ok)
      decreases v, 1
    {
      hide Entered, Quoted, PrintElements, PrintMembers, Write, PrintableElements, PrintableMembers;
      match v
      case NullValue => ok := Null(); Scalar(style, target, old(State()), v);
      case BoolValue(b) => ok := Bool(b); Scalar(style, target, old(State()), v);
      case StringValue(str) => ok := String(str); Scalar(style, target, old(State()), v);
      case NumberValue(n) =>
        if -0x8000_0000 <= n <= 0x7FFF_FFFF {
          ok := Int(n);
        } else if 0 <= n <= 0xFFFF_FFFF {
          ok := Uint(n);
        } else if n <= 0x7FFF_FFFF_FFFF_FFFF {
          ok := Int64(n);
        } else {
          ok := Uint64(n);
        }
        Scalar(style, target, old(State()), v);
      case ArrayValue(es) => ok := AcceptArray(es);
      case ObjectValue(ms) => ok := AcceptObject(ms);
      case DoubleValue(_) => ok := false;
    }

    method AcceptArray(es: seq<Value>) returns (ok: bool)
      requires IntegralElements(es) && ReadyForValue(State())
      modifies this
      ensures ok == PrintableElements(target, es)
      ensures ok ==> State() == Written(style, target, old(State()), ArrayValue(es))
      decreases es, 0
    {
      hide Entered, Printable, Integral, Print, PrintElements, Write, PrefixText, CloseGap, AfterElements, Written;
      WriteStart(style, target, State(), Event.StartArray);
      ok := StartArray();
      ghost var start := State();
      var i := 0;
      while i < |es|
        invariant 0 <= i <= |es| && levelStack != [] && Top(State()) == Level(i, true)
        invariant IntegralElements(es[i..]) && PrintableElements(target, es[i..]) == PrintableElements(target, es)
        invariant AfterElements(style, target, State(), es[i..], i) == AfterElements(style, target, start, es, 0)
      {
        AfterElement(style, target, State(), es[i..], i);
        assert es[i..][1..] == es[i + 1..];
        ok := Accept(es[i]);
        if !ok {
          return;
        }
        i := i + 1;
      }
      ArrayClosed(style, target, old(State()), start, State(), es);
      ok := EndArray(|es|);
    }

    method AcceptObject(ms: seq<Member>) returns (ok: bool)
      requires IntegralMembers(ms) && ReadyForValue(State())
      modifies this
      ensures ok == PrintableMembers(target, ms)
      ensures ok ==> State() == Written(style, target, old(State()), ObjectValue(ms))
      decreases ms, 0
    {
      hide Entered, Printable, Integral, Print, PrintMembers, Write, PrefixText, CloseGap, AfterMembers, Written,
          Quoted, Named;
      WriteStart(style, target, State(), Event.StartObject);
      ok := StartObject();
      ghost var start := State();
      var i := 0;
      while i < |ms|
        invariant 0 <= i <= |ms| && levelStack != [] && Top(State()) == Level(2 * i, false)
        invariant IntegralMembers(ms[i..]) && PrintableMembers(target, ms[i..]) == PrintableMembers(target, ms)
        invariant AfterMembers(style, target, State(), ms[i..], i) == AfterMembers(style, target, start, ms, 0)
      {
        AfterMember(style, target, State(), ms[i..], i);
        assert ms[i..][1..] == ms[i + 1..];
        WritesName(style, target, State(), ms[i].name, i);
        ok := Key(ms[i].name);
        if !ok {
          return;
        }
        ok := Accept(ms[i].value);
        if !ok {
          return;
        }
        i := i + 1;
      }
      ObjectClosed(style, target, old(State()), start, State(), ms);
      ok := EndObject(|ms|);
    }
  }

  lemma UnitText(before: Text, cp: nat)
    requires Utf8.Scalar(cp)
    ensures cp <= 0xFFFF ==> before + UnicodeText(cp) == before + [BACKSLASH] + [0x75] + Hex4Text(cp)
  {
    hide Hex4Text;
  }

  lemma PairText(before: Text, cp: nat)
    requires Utf8.Scalar(cp) && cp > 0xFFFF
    ensures var lead, trail := (cp - 0x10000) / 0x400 + 0xD800, (cp - 0x10000) % 0x400 + 0xDC00;
      before + UnicodeText(cp)
      == before + [BACKSLASH] + [0x75] + Hex4Text(lead) + [BACKSLASH] + [0x75] + Hex4Text(trail)
  {
    hide Hex4Text;
  }

  /** The pieces the indenting writer puts before a value, in the order it puts them. */
  lemma PrettyPieces(style: Style, level: Level, depth: nat, before: Text)
    requires style.Pretty?
    ensures level.inArray && style.singleLineArrays && level.valueCount == 0 ==>
      before + PrefixText(style, level, depth) == before
    ensures level.inArray && style.singleLineArrays && level.valueCount > 0 ==>
      before + PrefixText(style, level, depth) == before + [COMMA] + [SPACE]
    ensures level.inArray && !style.singleLineArrays && level.valueCount == 0 ==>
      before + PrefixText(style, level, depth) == before + [LF] + Indent(style, depth)
    ensures level.inArray && !style.singleLineArrays && level.valueCount > 0 ==>
      before + PrefixText(style, level, depth) == before + [COMMA] + [LF] + Indent(style, depth)
    ensures !level.inArray && level.valueCount == 0 ==>
      before + PrefixText(style, level, depth) == before + [LF] + Indent(style, depth)
    ensures !level.inArray && level.valueCount > 0 && level.valueCount % 2 == 0 ==>
      before + PrefixText(style, level, depth) == before + [COMMA] + [LF] + Indent(style, depth)
    ensures !level.inArray && level.valueCount % 2 == 1 ==>
      before + PrefixText(style, level, depth) == before + [COLON] + [SPACE]
  {
    hide Indent;
  }

  lemma Scalar(style: Style, tg: Target, st: Sheet, v: Value)
    requires Integral(v) && ReadyForValue(st) && !v.ArrayValue? && !v.ObjectValue?
    ensures |Document.Accept(v)| == 1
    ensures Write(style, tg, st, Document.Accept(v)[0])
         == if Printable(tg, v) then Some(Written(style, tg, st, v)) else None
  {
    hide Entered, Quoted;
  }

  lemma ArrayClosed(style: Style, tg: Target, st: Sheet, start: Sheet, full: Sheet, es: seq<Value>)
    requires Write(style, tg, st, Event.StartArray) == Some(start) && ReadyForValue(st)
    requires full.levels != [] && start.levels != [] && Top(full) == Level(|es|, true)
    requires AfterElements(style, tg, full, [], |es|) == AfterElements(style, tg, start, es, 0)
    ensures Write(style, tg, full, Event.EndArray(|es|)) == Some(Written(style, tg, st, ArrayValue(es)))
  {
    hide Entered, CloseGap, Print, Write, PrintElements;
    WriteStart(style, tg, st, Event.StartArray);
    var e := Entered(style, st);
    assert full == AfterElements(style, tg, start, es, 0) by { FullArray(style, tg, full); }
    assert full.levels == e.levels + [Level(|es|, true)];
    WriteEnd(style, tg, full, e.levels, Level(|es|, true), Event.EndArray(|es|));
    PrintArray(style, tg, es, |st.levels|);
    var inner, gap := PrintElements(style, tg, es, 0, |st.levels| + 1), CloseGap(style, Level(|es|, true), |st.levels|);
    assert full.out == e.out + [LBRACKET] + inner;
    assert e.out + [LBRACKET] + inner + gap + [RBRACKET] == e.out + ([LBRACKET] + inner + gap + [RBRACKET]);
  }

  lemma FullArray(style: Style, tg: Target, full: Sheet)
    requires full.levels != [] && Top(full).inArray
    ensures AfterElements(style, tg, full, [], Top(full).valueCount) == full
  {
    assert full.levels[|full.levels| - 1 := Top(full)] == full.levels;
    assert PrintElements(style, tg, [], Top(full).valueCount, |full.levels|) == [];
  }

  lemma PrintArray(style: Style, tg: Target, es: seq<Value>, depth: nat)
    ensures Print(style, tg, ArrayValue(es), depth)
         == [LBRACKET] + PrintElements(style, tg, es, 0, depth + 1) + CloseGap(style, Level(|es|, true), depth)
             + [RBRACKET]
  {
    hide PrintElements, CloseGap;
  }

  lemma ObjectClosed(style: Style, tg: Target, st: Sheet, start: Sheet, full: Sheet, ms: seq<Member>)
    requires Write(style, tg, st, Event.StartObject) == Some(start) && ReadyForValue(st)
    requires full.levels != [] && start.levels != [] && Top(full) == Level(2 * |ms|, false)
    requires AfterMembers(style, tg, full, [], |ms|) == AfterMembers(style, tg, start, ms, 0)
    ensures Write(style, tg, full, Event.EndObject(|ms|)) == Some(Written(style, tg, st, ObjectValue(ms)))
  {
    hide Entered, CloseGap, Print, Write, PrintMembers;
    WriteStart(style, tg, st, Event.StartObject);
    var e := Entered(style, st);
    assert full == AfterMembers(style, tg, start, ms, 0) by { FullObject(style, tg, full); }
    assert full.levels == e.levels + [Level(2 * |ms|, false)];
    WriteEnd(style, tg, full, e.levels, Level(2 * |ms|, false), Event.EndObject(|ms|));
    PrintObject(style, tg, ms, |st.levels|);
    var inner, gap := PrintMembers(style, tg, ms, 0, |st.levels| + 1),
        CloseGap(style, Level(2 * |ms|, false), |st.levels|);
    assert full.out == e.out + [LBRACE] + inner;
    assert e.out + [LBRACE] + inner + gap + [RBRACE] == e.out + ([LBRACE] + inner + gap + [RBRACE]);
  }

  lemma FullObject(style: Style, tg: Target, full: Sheet)
    requires full.levels != [] && !Top(full).inArray && Top(full).valueCount % 2 == 0
    ensures AfterMembers(style, tg, full, [], Top(full).valueCount / 2) == full
  {
    assert full.levels[|full.levels| - 1 := Top(full)] == full.levels;
    assert PrintMembers(style, tg, [], Top(full).valueCount / 2, |full.levels|) == [];
  }

  lemma PrintObject(style: Style, tg: Target, ms: seq<Member>, depth: nat)
    ensures Print(style, tg, ObjectValue(ms), depth)
         == [LBRACE] + PrintMembers(style, tg, ms, 0, depth + 1) + CloseGap(style, Level(2 * |ms|, false), depth)
             + [RBRACE]
  {
    hide PrintMembers, CloseGap;
  }
}
