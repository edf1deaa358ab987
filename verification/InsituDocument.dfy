/**
 The strings of a whole document decoded in place, one after the other: none of them touches an earlier
 one, and in order they are the strings and names the reader sends.
 */
module InsituDocument {
  import opened Bytes
  import opened Json
  import opened Grammar
  import opened Insitu
  import Numbers = NumberSyntax
  import Strings = StringSyntax

  /** A string of a text: where its opening quotation mark is, what it decodes to, where it ends. */
  datatype Span = Span(open: nat, str: Text, end: nat)

  predicate IsSpan(validate: bool, s: Text, span: Span) {
    && span.open < span.end <= |s| && s[span.open] == QUOTE
    && Strings.ParseString(validate, s, span.open) == Strings.Done(span.str, span.end)
  }

  /** Strings of the text, one behind the other, all before `q`. */
  predicate Spaced(validate: bool, s: Text, spans: seq<Span>, q: nat) {
    && q <= |s|
    && (forall i :: 0 <= i < |spans| ==> IsSpan(validate, s, spans[i]) && spans[i].end <= q)
    && (forall i, j :: 0 <= i < j < |spans| ==> spans[i].end <= spans[j].open)
  }

  function Strs(spans: seq<Span>): (r: seq<Text>)
    ensures |r| == |spans|
  {
    seq(|spans|, i requires 0 <= i < |spans| => spans[i].str)
  }

  /** The strings and names among events. */
  function StringsIn(evs: seq<Event>): seq<Text> {
    if evs == [] then []
    else
      var ev := evs[|evs| - 1];
      StringsIn(evs[..|evs| - 1])
      + (if ev.String? then [ev.str] else if ev.Key? then [ev.name] else [])
  }

  /** The strings before `q` are those of the events sent so far. */
  predicate Tracked(validate: bool, s: Text, spans: seq<Span>, q: nat, evs: seq<Event>) {
    Spaced(validate, s, spans, q) && Strs(spans) == StringsIn(evs)
  }

  /** So it is where a production ends, and where it fails. */
  predicate Tracks(validate: bool, s: Text, spans: seq<Span>, r: Parsed) {
    Tracked(validate, s, spans, if r.Parsed? then r.pos else |s|, r.events)
  }

  lemma TrackFurther(validate: bool, s: Text, spans: seq<Span>, p: nat, q: nat, evs: seq<Event>)
    requires Tracked(validate, s, spans, p, evs) && p <= q <= |s|
    ensures Tracked(validate, s, spans, q, evs)
  {
    hide IsSpan;
  }

  lemma TrackEvent(validate: bool, s: Text, spans: seq<Span>, q: nat, evs: seq<Event>, ev: Event)
    requires Tracked(validate, s, spans, q, evs) && !ev.String? && !ev.Key?
    ensures Tracked(validate, s, spans, q, evs + [ev])
  {
    hide Spaced;
    assert (evs + [ev])[..|evs|] == evs;
  }

  lemma TrackString(fl: Flags, s: Text, spans: seq<Span>, p: nat, isKey: bool, evs: seq<Event>)
    returns (more: seq<Span>)
    requires p < |s| && s[p] == QUOTE && Tracked(fl.validateEncoding, s, spans, p, evs)
    ensures Tracks(fl.validateEncoding, s, more, ParseString(fl, s, p, isKey, evs))
  {
    hide Strings.ParseString, IsSpan;
    match Strings.ParseString(fl.validateEncoding, s, p)
    case Bad(_, _) =>
      more := spans;
      TrackFurther(fl.validateEncoding, s, spans, p, |s|, evs);
    case Done(str, q) =>
      var span := Span(p, str, q);
      assert IsSpan(fl.validateEncoding, s, span) by { StringSpan(fl.validateEncoding, s, span); }
      more := spans + [span];
      var ev := if isKey then Key(str) else Event.String(str);
      assert (evs + [ev])[..|evs|] == evs;
      assert Strs(more) == Strs(spans) + [str];
  }

  lemma StringSpan(validate: bool, s: Text, span: Span)
    requires span.open < |s| && s[span.open] == QUOTE
    requires Strings.ParseString(validate, s, span.open) == Strings.Done(span.str, span.end)
    ensures IsSpan(validate, s, span)
  {
  }

  lemma ScalarTracks(fl: Flags, s: Text, p: nat, evs: seq<Event>, spans: seq<Span>) returns (more: seq<Span>)
    requires p <= |s| && Tracked(fl.validateEncoding, s, spans, p, evs)
    ensures Tracks(fl.validateEncoding, s, more, ParseScalar(fl, s, p, evs))
  {
    hide Tracked, Numbers.ParseNumber, Strings.ParseString, Matched;
    var r := ParseScalar(fl, s, p, evs);
    if Peek(s, p) == QUOTE {
      more := TrackString(fl, s, spans, p, false, evs);
    } else {
      more := spans;
      TrackFurther(fl.validateEncoding, s, spans, p, if r.Parsed? then r.pos else |s|, evs);
      if r.Parsed? {
        PlainEvent(fl, s, p, evs);
        TrackEvent(fl.validateEncoding, s, spans, r.pos, evs, r.events[|evs|]);
      }
    }
  }

  /** A scalar that is no string sends one event, and no string. */
  lemma PlainEvent(fl: Flags, s: Text, p: nat, evs: seq<Event>)
    requires p <= |s| && Peek(s, p) != QUOTE && ParseScalar(fl, s, p, evs).Parsed?
    ensures var e := ParseScalar(fl, s, p, evs).events;
      |e| == |evs| + 1 && e == evs + [e[|evs|]] && !e[|evs|].String? && !e[|evs|].Key?
  {
    hide Matched, Numbers.ParseNumber;
  }

  lemma {:induction false} ValueTracks(fl: Flags, s: Text, p: nat, evs: seq<Event>, spans: seq<Span>)
    returns (more: seq<Span>)
    requires p <= |s| && Tracked(fl.validateEncoding, s, spans, p, evs)
    ensures Tracks(fl.validateEncoding, s, more, ParseValue(fl, s, p, evs))
    decreases |s| - p, 2
  {
    hide Tracks, Tracked, ParseArray, ParseObject, ParseScalar;
    if Peek(s, p) == LBRACKET {
      more := ArrayTracks(fl, s, p, evs, spans);
    } else if Peek(s, p) == LBRACE {
      more := ObjectTracks(fl, s, p, evs, spans);
    } else {
      more := ScalarTracks(fl, s, p, evs, spans);
    }
  }

  /** An event that is no string, sent further on. */
  lemma TrackTo(fl: Flags, s: Text, spans: seq<Span>, p: nat, evs: seq<Event>, q: nat, ev: Event)
    requires Tracked(fl.validateEncoding, s, spans, p, evs) && p <= q <= |s| && !ev.String? && !ev.Key?
    ensures Tracked(fl.validateEncoding, s, spans, q, evs) && Tracked(fl.validateEncoding, s, spans, |s|, evs)
    ensures Tracked(fl.validateEncoding, s, spans, q, evs + [ev])
    ensures Tracked(fl.validateEncoding, s, spans, |s|, evs + [ev])
  {
    hide Tracked;
    TrackFurther(fl.validateEncoding, s, spans, p, q, evs);
    TrackFurther(fl.validateEncoding, s, spans, p, |s|, evs);
    TrackEvent(fl.validateEncoding, s, spans, q, evs, ev);
    TrackEvent(fl.validateEncoding, s, spans, |s|, evs, ev);
  }

  lemma {:induction false} ArrayTracks(fl: Flags, s: Text, p: nat, evs: seq<Event>, spans: seq<Span>)
    returns (more: seq<Span>)
    requires p < |s| && Tracked(fl.validateEncoding, s, spans, p, evs)
    ensures Tracks(fl.validateEncoding, s, more, ParseArray(fl, s, p, evs))
    decreases |s| - p, 1
  {
    hide Tracked, Skip, ParseElements;
    more := spans;
    var evs' := evs + [StartArray];
    TrackTo(fl, s, spans, p, evs, p + 1, StartArray);
    match Skip(fl, s, p + 1) {
      case Unterminated(o) =>
      case To(q) =>
        TrackTo(fl, s, spans, p + 1, evs', q, EndArray(0));
        if Peek(s, q) == RBRACKET {
          TrackTo(fl, s, spans, p + 1, evs', q + 1, EndArray(0));
        } else {
          more := ElementsTrack(fl, s, q, 0, evs', spans);
        }
    }
  }

  lemma {:induction false} ElementsTrack(fl: Flags, s: Text, p: nat, n: nat, evs: seq<Event>, spans: seq<Span>)
    returns (more: seq<Span>)
    requires p <= |s| && Tracked(fl.validateEncoding, s, spans, p, evs)
    ensures Tracks(fl.validateEncoding, s, more, ParseElements(fl, s, p, n, evs))
    decreases |s| - p, 3
  {
    hide Tracked, Skip, ParseValue;
    more := ValueTracks(fl, s, p, evs, spans);
    var r := ParseValue(fl, s, p, evs);
    if r.Parsed? {
      var close := EndArray(n + 1);
      TrackTo(fl, s, more, r.pos, r.events, r.pos, close);
      match Skip(fl, s, r.pos) {
        case Unterminated(o) =>
        case To(q) =>
          TrackTo(fl, s, more, r.pos, r.events, q, close);
          if Peek(s, q) == COMMA {
            match Skip(fl, s, q + 1) {
              case Unterminated(o) =>
              case To(q) =>
                TrackTo(fl, s, more, r.pos, r.events, q, close);
                if fl.trailingCommas && Peek(s, q) == RBRACKET {
                  TrackTo(fl, s, more, r.pos, r.events, q + 1, close);
                } else {
                  more := ElementsTrack(fl, s, q, n + 1, r.events, more);
                }
            }
          } else if Peek(s, q) == RBRACKET {
            TrackTo(fl, s, more, r.pos, r.events, q + 1, close);
          }
      }
    }
  }

  lemma {:induction false} ObjectTracks(fl: Flags, s: Text, p: nat, evs: seq<Event>, spans: seq<Span>)
    returns (more: seq<Span>)
    requires p < |s| && Tracked(fl.validateEncoding, s, spans, p, evs)
    ensures Tracks(fl.validateEncoding, s, more, ParseObject(fl, s, p, evs))
    decreases |s| - p, 1
  {
    hide Tracked, Skip, ParseMembers;
    more := spans;
    var evs' := evs + [StartObject];
    TrackTo(fl, s, spans, p, evs, p + 1, StartObject);
    match Skip(fl, s, p + 1) {
      case Unterminated(o) =>
      case To(q) =>
        TrackTo(fl, s, spans, p + 1, evs', q, EndObject(0));
        if Peek(s, q) == RBRACE {
          TrackTo(fl, s, spans, p + 1, evs', q + 1, EndObject(0));
        } else {
          more := MembersTrack(fl, s, q, 0, evs', spans);
        }
    }
  }

  lemma NameTracks(fl: Flags, s: Text, p: nat, evs: seq<Event>, spans: seq<Span>) returns (more: seq<Span>)
    requires p <= |s| && Tracked(fl.validateEncoding, s, spans, p, evs)
    ensures Tracks(fl.validateEncoding, s, more, ParseName(fl, s, p, evs))
  {
    hide Tracked, Skip, ParseString;
    more := spans;
    TrackTo(fl, s, spans, p, evs, p, StartArray);
    if Peek(s, p) == QUOTE {
      more := TrackString(fl, s, spans, p, true, evs);
      var r := ParseString(fl, s, p, true, evs);
      if r.Parsed? {
        TrackTo(fl, s, more, r.pos, r.events, r.pos, StartArray);
        if Skip(fl, s, r.pos).To? {
          var q := Skip(fl, s, r.pos).pos;
          if Peek(s, q) == COLON && Skip(fl, s, q + 1).To? {
            TrackTo(fl, s, more, r.pos, r.events, Skip(fl, s, q + 1).pos, StartArray);
          }
        }
      }
    }
  }

  lemma {:induction false} MembersTrack(fl: Flags, s: Text, p: nat, n: nat, evs: seq<Event>, spans: seq<Span>)
    returns (more: seq<Span>)
    requires p <= |s| && Tracked(fl.validateEncoding, s, spans, p, evs)
    ensures Tracks(fl.validateEncoding, s, more, ParseMembers(fl, s, p, n, evs))
    decreases |s| - p, 3
  {
    hide Tracked, Skip, ParseValue, ParseName;
    more := NameTracks(fl, s, p, evs, spans);
    var k := ParseName(fl, s, p, evs);
    if k.Parsed? {
      more := ValueTracks(fl, s, k.pos, k.events, more);
      var r := ParseValue(fl, s, k.pos, k.events);
      if r.Parsed? {
        var close := EndObject(n + 1);
        TrackTo(fl, s, more, r.pos, r.events, r.pos, close);
        match Skip(fl, s, r.pos) {
          case Unterminated(o) =>
          case To(q) =>
            TrackTo(fl, s, more, r.pos, r.events, q, close);
            if Peek(s, q) == COMMA {
              match Skip(fl, s, q + 1) {
                case Unterminated(o) =>
                case To(q) =>
                  TrackTo(fl, s, more, r.pos, r.events, q, close);
                  if fl.trailingCommas && Peek(s, q) == RBRACE {
                    TrackTo(fl, s, more, r.pos, r.events, q + 1, close);
                  } else {
                    more := MembersTrack(fl, s, q, n + 1, r.events, more);
                  }
              }
            } else if Peek(s, q) == RBRACE {
              TrackTo(fl, s, more, r.pos, r.events, q + 1, close);
            }
        }
      }
    }
  }

  /** The strings of a document, in the order of the events that carry them, accepted or not. */
  lemma DocumentTracks(fl: Flags, s: Text) returns (spans: seq<Span>)
    ensures Tracked(fl.validateEncoding, s, spans, |s|, ParseDocument(fl, s).events)
  {
    hide Tracked, Skip, ParseValue;
    spans := [];
    assert Tracked(fl.validateEncoding, s, [], |s|, []) by { NothingTracked(fl.validateEncoding, s, |s|); }
    if Skip(fl, s, 0).To? {
      var p := Skip(fl, s, 0).pos;
      NothingTracked(fl.validateEncoding, s, p);
      if Peek(s, p) != NUL {
        spans := ValueTracks(fl, s, p, [], []);
        var r := ParseValue(fl, s, p, []);
        TrackFurther(fl.validateEncoding, s, spans, if r.Parsed? then r.pos else |s|, |s|, r.events);
      }
    }
  }

  lemma NothingTracked(validate: bool, s: Text, p: nat)
    requires p <= |s|
    ensures Tracked(validate, s, [], p, [])
  {
  }

  // ---- decoding them in place ----

  /** A string and its NUL stand in the buffer. */
  predicate Stands(buffer: Text, begin: nat, str: Text) {
    begin + |str| < |buffer| && buffer[begin..begin + |str|] == str && buffer[begin + |str|] == NUL
  }

  /** The decoded string stands behind the opening quotation mark, within the string's source. */
  predicate InPlace(buffer: Text, span: Span) {
    span.open + 1 + |span.str| < span.end <= |buffer| && Stands(buffer, span.open + 1, span.str)
  }

  /** The bytes between the quotation marks of strings. */
  predicate Covered(spans: seq<Span>, k: nat) {
    exists i :: 0 <= i < |spans| && spans[i].open < k < spans[i].end
  }

  /** What lies before a string is left alone when the string is decoded. */
  lemma InPlaceKept(before: Text, after: Text, span: Span)
    requires InPlace(before, span) && |before| == |after|
    requires forall k :: 0 <= k < span.end ==> after[k] == before[k]
    ensures InPlace(after, span)
  {
    assert after[span.open + 1..span.open + 1 + |span.str|] == before[span.open + 1..span.open + 1 + |span.str|];
  }

  /**
   Decodes the strings of a text in turn; what lies between them is only read.  At the end each of them
   stands where it was decoded, and the rest of the buffer is as it was.
   */
  method DecodeStrings(fl: Flags, s: InsituStringStream, reader: InsituReader, ghost text: Text, opens: seq<nat>,
                       ghost spans: seq<Span>)
    requires s.Holds(text) && s.src == 0 && reader.parseResult.Ok?
    requires Spaced(fl.validateEncoding, text, spans, |text|)
    requires |opens| == |spans| && forall i :: 0 <= i < |spans| ==> opens[i] == spans[i].open
    modifies s, s.buffer, reader
    ensures reader.parseResult.Ok? && s.Holds(text)
    ensures forall i :: 0 <= i < |spans| ==> InPlace(s.buffer[..], spans[i])
    ensures forall k :: 0 <= k < s.buffer.Length && !Covered(spans, k) ==> s.buffer[k] == old(s.buffer[k])
  {
    hide IsSpan, InPlace, Strings.ParseString;
    for i := 0 to |opens|
      invariant reader.parseResult.Ok? && s.Holds(text)
      invariant s.src <= if i < |spans| then spans[i].open else |text|
      invariant forall j :: 0 <= j < i ==> spans[j].end <= s.src && InPlace(s.buffer[..], spans[j])
      invariant forall k :: 0 <= k < s.buffer.Length && !Covered(spans, k) ==> s.buffer[k] == old(s.buffer[k])
    {
      ghost var before := s.buffer[..];
      s.src := opens[i];
      SpanStays(fl.validateEncoding, text, spans[i], s.buffer.Length);
      var begin, length := reader.ParseString(fl, s, text);
      forall j | 0 <= j < i
        ensures InPlace(s.buffer[..], spans[j])
      {
        InPlaceKept(before, s.buffer[..], spans[j]);
      }
      NowInPlace(s.buffer[..], spans[i], begin, length);
    }
  }

  /**
   So it is for the strings of a document: in the end every string and name that the reader sends stands
   in the buffer, each behind its own quotation mark.
   */
  method DecodeDocument(fl: Flags, s: InsituStringStream, reader: InsituReader, ghost text: Text, opens: seq<nat>,
                        ghost spans: seq<Span>)
    requires s.Holds(text) && s.src == 0 && reader.parseResult.Ok?
    requires Tracked(fl.validateEncoding, text, spans, |text|, ParseDocument(fl, text).events)
    requires |opens| == |spans| && forall i :: 0 <= i < |spans| ==> opens[i] == spans[i].open
    modifies s, s.buffer, reader
    ensures reader.parseResult.Ok?
    ensures var strs := StringsIn(ParseDocument(fl, text).events);
      |strs| == |opens| && forall i :: 0 <= i < |opens| ==> Stands(s.buffer[..], opens[i] + 1, strs[i])
  {
    hide Spaced, Stands, ParseDocument, StringsIn;
    DecodeStrings(fl, s, reader, text, opens, spans);
    assert Strs(spans) == StringsIn(ParseDocument(fl, text).events);
  }

  lemma SpanStays(validate: bool, text: Text, span: Span, n: nat)
    requires IsSpan(validate, text, span)
    ensures span.open < span.end <= |text| && text[span.open] == QUOTE && Stays(validate, text, span.open + 1, n)
    ensures Strings.ParseString(validate, text, span.open) == Strings.Done(span.str, span.end)
  {
  }

  lemma NowInPlace(buffer: Text, span: Span, begin: nat, length: nat)
    requires begin == span.open + 1 && length == |span.str| && begin + length < span.end <= |buffer|
    requires buffer[begin..begin + length] == span.str && buffer[begin + length] == NUL
    ensures InPlace(buffer, span)
  {
  }
}
