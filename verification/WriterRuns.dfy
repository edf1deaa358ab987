/** Whatever calls a writer takes: when it says that its text is complete, the text is that of a value. */
module WriterRuns {
  import opened Bytes
  import opened Json
  import opened Document
  import opened WriterText
  import Grammar
  import RoundTrip

  // ---- open arrays and objects ----

  /** An open container: what has been written into it, and a name that waits for its value. */
  datatype Partial =
    | PartialArray(done: seq<Value>)
    | PartialObject(members: seq<Member>, key: Option<Text>)

  /** The level of a container, with or without a child open in it. */
  function LevelOf(f: Partial, child: bool): Level {
    var more := if child then 1 else 0;
    match f
    case PartialArray(es) => Level(|es| + more, true)
    case PartialObject(ms, key) => Level(2 * |ms| + (if key.Some? then 1 else 0) + more, false)
  }

  function Levels(frames: seq<Partial>): (r: seq<Level>)
    ensures |r| == |frames|
  {
    seq(|frames|, i requires 0 <= i < |frames| => LevelOf(frames[i], i + 1 < |frames|))
  }

  /** The container can take a value: it is an array, or a name is waiting. */
  predicate TakesValue(f: Partial) {
    f.PartialObject? ==> f.key.Some?
  }

  predicate Sane(tg: Target, frames: seq<Partial>) {
    && (forall i :: 0 <= i < |frames| ==> SaneOne(tg, frames[i]))
    && (forall i :: 0 <= i < |frames| - 1 ==> TakesValue(frames[i]))
  }

  predicate SaneOne(tg: Target, f: Partial) {
    match f
    case PartialArray(es) => IntegralElements(es) && PrintableElements(tg, es)
    case PartialObject(ms, key) =>
      IntegralMembers(ms) && PrintableMembers(tg, ms) && (key.Some? ==> Quoted(tg, key.value).Some?)
  }

  function Bracket(f: Partial): Text {
    if f.PartialArray? then [LBRACKET] else [LBRACE]
  }

  /** The text inside a container so far. */
  function Inside(style: Style, tg: Target, f: Partial, depth: nat): Text {
    match f
    case PartialArray(es) => PrintElements(style, tg, es, 0, depth)
    case PartialObject(ms, key) =>
      PrintMembers(style, tg, ms, 0, depth)
      + (if key.Some? then PrefixText(style, Level(2 * |ms|, false), depth) + QuotedText(tg, key.value) else [])
  }

  /** The text of containers that are open inside each other. */
  function OpenText(style: Style, tg: Target, frames: seq<Partial>): Text
    decreases |frames|, 0
  {
    if frames == [] then []
    else
      var n := |frames|;
      Outer(style, tg, frames[..n - 1]) + Bracket(frames[n - 1]) + Inside(style, tg, frames[n - 1], n)
  }

  /** The text before a value that follows the open containers. */
  function Outer(style: Style, tg: Target, frames: seq<Partial>): Text
    decreases |frames|, 1
  {
    if frames == [] then []
    else OpenText(style, tg, frames) + PrefixText(style, LevelOf(frames[|frames| - 1], false), |frames|)
  }

  /** What a sheet shows: nothing, open containers, or a whole value. */
  datatype Progress =
    | Nothing
    | Open(frames: seq<Partial>)
    | Root(v: Value)

  predicate Shows(style: Style, tg: Target, p: Progress, st: Sheet) {
    match p
    case Nothing => st == Sheet([], [], false)
    case Open(frames) =>
      frames != [] && Sane(tg, frames) && st == Sheet(OpenText(style, tg, frames), Levels(frames), true)
    case Root(v) => Integral(v) && Printable(tg, v) && st == Sheet(Print(style, tg, v, 0), [], true)
  }

  // ---- one more child ----

  lemma {:induction false} ElementsSnoc(style: Style, tg: Target, es: seq<Value>, v: Value, i: nat, depth: nat)
    ensures PrintElements(style, tg, es + [v], i, depth)
         == PrintElements(style, tg, es, i, depth) + PrefixText(style, Level(i + |es|, true), depth)
             + Print(style, tg, v, depth)
    ensures IntegralElements(es) && Integral(v) ==> IntegralElements(es + [v])
    ensures PrintableElements(tg, es) && Printable(tg, v) ==> PrintableElements(tg, es + [v])
    decreases |es|
  {
    hide Print, PrefixText, Integral, Printable;
    if es == [] {
      assert [] + [v] == [v] && [v][1..] == [];
      assert PrintElements(style, tg, [], i + 1, depth) == [];
    } else {
      assert (es + [v])[0] == es[0] && (es + [v])[1..] == es[1..] + [v];
      ElementsSnoc(style, tg, es[1..], v, i + 1, depth);
    }
  }

  lemma {:induction false} MembersSnoc(style: Style, tg: Target, ms: seq<Member>, m: Member, i: nat, depth: nat)
    ensures PrintMembers(style, tg, ms + [m], i, depth)
         == PrintMembers(style, tg, ms, i, depth) + MemberText(style, tg, m, i + |ms|, depth)
    ensures IntegralMembers(ms) && Integral(m.value) ==> IntegralMembers(ms + [m])
    ensures PrintableMembers(tg, ms) && Quoted(tg, m.name).Some? && Printable(tg, m.value) ==>
        PrintableMembers(tg, ms + [m])
    decreases |ms|
  {
    hide Print, PrefixText, Integral, Printable, QuotedText, Quoted, PrintMembers, MemberText;
    MembersUnfold(style, tg, ms + [m], i, depth);
    if ms == [] {
      assert [] + [m] == [m] && [m][1..] == [];
      MembersUnfold(style, tg, [], i, depth);
      MembersUnfold(style, tg, [], i + 1, depth);
      assert MemberText(style, tg, m, i, depth) + [] == [] + MemberText(style, tg, m, i, depth);
    } else {
      assert (ms + [m])[0] == ms[0] && (ms + [m])[1..] == ms[1..] + [m];
      MembersSnoc(style, tg, ms[1..], m, i + 1, depth);
      MembersUnfold(style, tg, ms, i, depth);
    }
  }

  /** The text of one member, with what comes before its name and its value. */
  function MemberText(style: Style, tg: Target, m: Member, i: nat, depth: nat): Text {
    (PrefixText(style, Level(2 * i, false), depth) + QuotedText(tg, m.name))
    + PrefixText(style, Level(2 * i + 1, false), depth) + Print(style, tg, m.value, depth)
  }

  lemma MembersUnfold(style: Style, tg: Target, ms: seq<Member>, i: nat, depth: nat)
    ensures PrintMembers(style, tg, ms, i, depth)
         == if ms == [] then []
            else MemberText(style, tg, ms[0], i, depth) + PrintMembers(style, tg, ms[1..], i + 1, depth)
  {
    hide Print, PrefixText, QuotedText;
  }

  /** The container with one more child. */
  function With(f: Partial, v: Value): Partial
    requires TakesValue(f)
  {
    match f
    case PartialArray(es) => PartialArray(es + [v])
    case PartialObject(ms, key) => PartialObject(ms + [Member(key.value, v)], None)
  }

  lemma WithText(style: Style, tg: Target, f: Partial, v: Value, depth: nat)
    requires TakesValue(f) && SaneOne(tg, f) && Integral(v) && Printable(tg, v)
    ensures Inside(style, tg, With(f, v), depth)
         == Inside(style, tg, f, depth) + PrefixText(style, LevelOf(f, false), depth) + Print(style, tg, v, depth)
    ensures SaneOne(tg, With(f, v)) && Bracket(With(f, v)) == Bracket(f)
    ensures LevelOf(With(f, v), false) == LevelOf(f, true)
  {
    hide Print, PrefixText, PrintElements, PrintMembers, IntegralElements, IntegralMembers, PrintableElements,
        PrintableMembers;
    hide Integral, Printable, Quoted, QuotedText;
    match f
    case PartialArray(es) => ElementsSnoc(style, tg, es, v, 0, depth);
    case PartialObject(ms, key) =>
      MembersSnoc(style, tg, ms, Member(key.value, v), 0, depth);
      assert Inside(style, tg, With(f, v), depth) == PrintMembers(style, tg, ms + [Member(key.value, v)], 0, depth);
  }

  function ReplaceLast(frames: seq<Partial>, f: Partial): (r: seq<Partial>)
    requires frames != []
    ensures |r| == |frames|
  {
    frames[..|frames| - 1] + [f]
  }

  lemma ReplaceLastText(style: Style, tg: Target, frames: seq<Partial>, f: Partial)
    requires frames != []
    ensures OpenText(style, tg, ReplaceLast(frames, f))
         == Outer(style, tg, frames[..|frames| - 1]) + Bracket(f) + Inside(style, tg, f, |frames|)
  {
    hide Outer, Inside;
    assert ReplaceLast(frames, f)[..|frames| - 1] == frames[..|frames| - 1];
  }

  lemma ReplaceLastSane(tg: Target, frames: seq<Partial>, f: Partial)
    requires frames != [] && Sane(tg, frames) && SaneOne(tg, f)
    ensures Sane(tg, ReplaceLast(frames, f))
    ensures Levels(ReplaceLast(frames, f)) == Levels(frames)[|frames| - 1 := LevelOf(f, false)]
  {
    hide SaneOne, TakesValue;
    var r := ReplaceLast(frames, f);
    forall i | 0 <= i < |r| - 1
      ensures TakesValue(r[i])
    {
      assert r[i] == frames[i];
    }
  }

  /** A whole value, written into the innermost container. */
  lemma AddChild(style: Style, tg: Target, frames: seq<Partial>, v: Value) returns (more: seq<Partial>)
    requires frames != [] && Sane(tg, frames) && TakesValue(frames[|frames| - 1]) && Integral(v) && Printable(tg, v)
    ensures more != [] && Sane(tg, more)
    ensures OpenText(style, tg, more) == Outer(style, tg, frames) + Print(style, tg, v, |frames|)
    ensures Levels(more) == Levels(frames)[|frames| - 1 := LevelOf(frames[|frames| - 1], true)]
  {
    hide Inside, PrefixText, Print, LevelOf, Integral, Printable, SaneOne, TakesValue, Bracket, ReplaceLast;
    var last := frames[|frames| - 1];
    WithText(style, tg, last, v, |frames|);
    more := ReplaceLast(frames, With(last, v));
    ReplaceLastText(style, tg, frames, With(last, v));
    ReplaceLastSane(tg, frames, With(last, v));
    var a, b, c := Outer(style, tg, frames[..|frames| - 1]) + Bracket(last),
        PrefixText(style, LevelOf(last, false), |frames|),
                   Print(style, tg, v, |frames|);
    assert a + (Inside(style, tg, last, |frames|) + b + c) == a + Inside(style, tg, last, |frames|) + b + c;
  }

  // ---- one call ----

  /** A scalar event as a value. */
  function ScalarValue(ev: Event): Value {
    match ev
    case Bool(b) => BoolValue(b)
    case Int(n) => NumberValue(n)
    case Uint(n) => NumberValue(n)
    case Int64(n) => NumberValue(n)
    case Uint64(n) => NumberValue(n)
    case String(str) => StringValue(str)
    case Key(name) => StringValue(name)
    case _ => NullValue
  }

  lemma ScalarPrints(style: Style, tg: Target, ev: Event, depth: nat)
    requires RoundTrip.EventFits(ev) && ScalarText(tg, ev).Some?
    ensures Integral(ScalarValue(ev)) && Printable(tg, ScalarValue(ev))
    ensures Print(style, tg, ScalarValue(ev), depth) == ScalarText(tg, ev).value
  {
    hide Quoted, IntegerText;
  }

  /** The level that a call sees is the innermost container's. */
  lemma TopLevel(frames: seq<Partial>)
    requires frames != []
    ensures Levels(frames)[|frames| - 1] == LevelOf(frames[|frames| - 1], false)
    ensures Levels(frames)[|frames| - 1].inArray <==> frames[|frames| - 1].PartialArray?
    ensures frames[|frames| - 1].PartialArray? ==> TakesValue(frames[|frames| - 1])
    ensures !Levels(frames)[|frames| - 1].inArray ==>
      (Levels(frames)[|frames| - 1].valueCount % 2 == 1 <==> TakesValue(frames[|frames| - 1]))
  {
  }

  lemma Counted(frames: seq<Partial>)
    requires frames != []
    ensures var top := Levels(frames)[|frames| - 1];
      top.(valueCount := top.valueCount + 1) == LevelOf(frames[|frames| - 1], true)
  {
  }

  lemma EnteredOpen(style: Style, tg: Target, frames: seq<Partial>)
    requires frames != []
    ensures Entered(style, Sheet(OpenText(style, tg, frames), Levels(frames), true))
         == Sheet(Outer(style, tg, frames), Levels(frames)[|frames| - 1 := LevelOf(frames[|frames| - 1], true)], true)
  {
    hide OpenText, PrefixText;
    Counted(frames);
  }

  /** A name or a string where a name is due. */
  lemma NameStep(style: Style, tg: Target, frames: seq<Partial>, name: Text) returns (more: seq<Partial>)
    requires frames != [] && Sane(tg, frames) && !TakesValue(frames[|frames| - 1]) && Quoted(tg, name).Some?
    ensures more != [] && Sane(tg, more)
    ensures OpenText(style, tg, more) == Outer(style, tg, frames) + QuotedText(tg, name)
    ensures Levels(more) == Levels(frames)[|frames| - 1 := LevelOf(frames[|frames| - 1], true)]
  {
    hide PrefixText, PrintMembers, IntegralMembers, PrintableMembers, Quoted, QuotedText, ReplaceLast, Outer;
    var n, last := |frames|, frames[|frames| - 1];
    var f := PartialObject(last.members, Some(name));
    assert SaneOne(tg, last);
    more := ReplaceLast(frames, f);
    ReplaceLastText(style, tg, frames, f);
    ReplaceLastSane(tg, frames, f);
    OuterUnfolds(style, tg, frames);
    assert Inside(style, tg, last, n) == PrintMembers(style, tg, last.members, 0, n);
    var a, b, c := Outer(style, tg, frames[..n - 1]) + Bracket(last), PrefixText(style, LevelOf(last, false), n),
        QuotedText(tg, name);
    assert a + (Inside(style, tg, last, n) + (b + c)) == a + Inside(style, tg, last, n) + b + c;
  }

  lemma OuterUnfolds(style: Style, tg: Target, frames: seq<Partial>)
    requires frames != []
    ensures var n := |frames|;
      Outer(style, tg, frames)
      == Outer(style, tg, frames[..n - 1]) + Bracket(frames[n - 1]) + Inside(style, tg, frames[n - 1], n)
         + PrefixText(style, LevelOf(frames[n - 1], false), n)
  {
    hide Inside, PrefixText, Bracket;
  }

  lemma ScalarStep(style: Style, tg: Target, p: Progress, st: Sheet, ev: Event, next: Sheet) returns (more: Progress)
    requires Shows(style, tg, p, st) && RoundTrip.EventFits(ev) && Write(style, tg, st, ev) == Some(next)
    requires !ev.StartObject? && !ev.StartArray? && !ev.EndObject? && !ev.EndArray?
    ensures Shows(style, tg, more, next)
  {
    hide Entered, OpenText, Outer, Print, ScalarText, Integral, Printable, Sane, TakesValue, Levels, LevelOf,
        RoundTrip.EventFits;
    var v := ScalarValue(ev);
    ScalarPrints(style, tg, ev, 0);
    match p
    case Nothing =>
      more := Root(v);
      EnteredBlank(style);
    case Root(_) => more := p;
    case Open(frames) =>
      TopLevel(frames);
      EnteredOpen(style, tg, frames);
      if TakesValue(frames[|frames| - 1]) {
        ScalarPrints(style, tg, ev, |frames|);
        var fs := AddChild(style, tg, frames, v);
        more := Open(fs);
      } else {
        StringPrints(tg, ev);
        var fs := NameStep(style, tg, frames, if ev.String? then ev.str else ev.name);
        more := Open(fs);
      }
  }

  lemma StringPrints(tg: Target, ev: Event)
    requires (ev.String? || ev.Key?) && ScalarText(tg, ev).Some?
    ensures var str := if ev.String? then ev.str else ev.name;
      Quoted(tg, str).Some? && ScalarText(tg, ev) == Some(QuotedText(tg, str))
  {
    hide Quoted;
  }

  lemma EnteredBlank(style: Style)
    ensures Entered(style, Sheet([], [], false)) == Sheet([], [], true)
  {
  }

  lemma StartStep(style: Style, tg: Target, p: Progress, st: Sheet, ev: Event, next: Sheet) returns (more: Progress)
    requires Shows(style, tg, p, st) && Write(style, tg, st, ev) == Some(next)
    requires ev.StartObject? || ev.StartArray?
    ensures Shows(style, tg, more, next)
  {
    hide Entered, OpenText, Outer, Print, Integral, Printable, Sane, TakesValue, LevelOf, Levels;
    var f := if ev.StartArray? then PartialArray([]) else PartialObject([], None);
    match p
    case Nothing =>
      EnteredBlank(style);
      more := Open([f]);
      FirstFrame(style, tg, f);
    case Root(_) => more := p;
    case Open(frames) =>
      TopLevel(frames);
      EnteredOpen(style, tg, frames);
      more := Open(frames + [f]);
      NextFrame(style, tg, frames, f);
  }

  predicate Empty(f: Partial) {
    f == PartialArray([]) || f == PartialObject([], None)
  }

  lemma FirstFrame(style: Style, tg: Target, f: Partial)
    requires Empty(f)
    ensures Sane(tg, [f]) && OpenText(style, tg, [f]) == Bracket(f) && Levels([f]) == [Level(0, f.PartialArray?)]
  {
    assert [f][..0] == [];
    assert Inside(style, tg, f, 1) == [];
  }

  lemma NextFrame(style: Style, tg: Target, frames: seq<Partial>, f: Partial)
    requires frames != [] && Sane(tg, frames) && TakesValue(frames[|frames| - 1]) && Empty(f)
    ensures Sane(tg, frames + [f])
    ensures OpenText(style, tg, frames + [f]) == Outer(style, tg, frames) + Bracket(f)
    ensures Levels(frames + [f])
        == Levels(frames)[|frames| - 1 := LevelOf(frames[|frames| - 1], true)] + [Level(0, f.PartialArray?)]
  {
    hide Outer, TakesValue;
    assert (frames + [f])[..|frames|] == frames;
    assert Inside(style, tg, f, |frames| + 1) == [];
    assert SaneOne(tg, f);
  }

  /** The value of a container that closes. */
  function Closed(f: Partial): Value {
    match f
    case PartialArray(es) => ArrayValue(es)
    case PartialObject(ms, _) => ObjectValue(ms)
  }

  lemma ClosedPrints(style: Style, tg: Target, f: Partial, depth: nat)
    requires SaneOne(tg, f) && (f.PartialObject? ==> f.key.None?)
    ensures Integral(Closed(f)) && Printable(tg, Closed(f))
    ensures Print(style, tg, Closed(f), depth)
         == Bracket(f) + Inside(style, tg, f, depth + 1) + CloseGap(style, LevelOf(f, false), depth)
            + [if f.PartialArray? then RBRACKET else RBRACE]
  {
    hide PrintElements, PrintMembers, CloseGap;
  }

  lemma EndStep(style: Style, tg: Target, p: Progress, st: Sheet, ev: Event, next: Sheet) returns (more: Progress)
    requires Shows(style, tg, p, st) && Write(style, tg, st, ev) == Some(next)
    requires ev.EndObject? || ev.EndArray?
    ensures Shows(style, tg, more, next)
  {
    hide Entered, OpenText, Outer, Print, Inside, Integral, Printable, TakesValue, CloseGap, SaneOne;
    more := p;
    if p.Open? {
      var frames := p.frames;
      var n, last := |frames|, frames[|frames| - 1];
      TopLevel(frames);
      assert last.PartialObject? ==> last.key.None?;
      var front := frames[..n - 1];
      ClosedPrints(style, tg, last, n - 1);
      OpenUnfolds(style, tg, frames);
      var v := Closed(last);
      assert next.out == Outer(style, tg, front) + Print(style, tg, v, n - 1);
      if front == [] {
        NoOuter(style, tg);
        more := Root(v);
      } else {
        FrontSane(tg, frames);
        var fs := AddChild(style, tg, front, v);
        more := Open(fs);
      }
    }
  }

  lemma OpenUnfolds(style: Style, tg: Target, frames: seq<Partial>)
    requires frames != []
    ensures var n := |frames|;
      OpenText(style, tg, frames)
          == Outer(style, tg, frames[..n - 1]) + Bracket(frames[n - 1]) + Inside(style, tg, frames[n - 1], n)
  {
    hide Inside, Outer;
  }

  lemma NoOuter(style: Style, tg: Target)
    ensures Outer(style, tg, []) == []
  {
  }

  lemma FrontSane(tg: Target, frames: seq<Partial>)
    requires Sane(tg, frames) && |frames| > 1
    ensures var front := frames[..|frames| - 1];
      && Sane(tg, front) && TakesValue(front[|front| - 1])
      && Levels(frames)[..|front|] == Levels(front)[|front| - 1 := LevelOf(front[|front| - 1], true)]
  {
    hide SaneOne, TakesValue, LevelOf;
    var front := frames[..|frames| - 1];
    forall i | 0 <= i < |front|
      ensures TakesValue(front[i]) && SaneOne(tg, front[i])
    {
      assert front[i] == frames[i];
    }
  }

  // ---- every run ----

  lemma {:induction false} RunShows(style: Style, tg: Target, p: Progress, st: Sheet, evs: seq<Event>)
    returns (more: Progress)
    requires Shows(style, tg, p, st) && RoundTrip.AllFit(evs) && WriteAll(style, tg, st, evs).Some?
    ensures Shows(style, tg, more, WriteAll(style, tg, st, evs).value)
    decreases |evs|
  {
    hide Shows, Write, RoundTrip.EventFits;
    if evs == [] {
      more := p;
    } else {
      var ev := evs[0];
      var next := Write(style, tg, st, ev).value;
      var q: Progress;
      if ev.StartObject? || ev.StartArray? {
        q := StartStep(style, tg, p, st, ev, next);
      } else if ev.EndObject? || ev.EndArray? {
        q := EndStep(style, tg, p, st, ev, next);
      } else {
        q := ScalarStep(style, tg, p, st, ev, next);
      }
      more := RunShows(style, tg, q, next, evs[1..]);
    }
  }

  lemma CompleteIsRoot(style: Style, tg: Target, p: Progress, st: Sheet)
    requires Shows(style, tg, p, st) && Complete(st)
    ensures p.Root?
  {
    hide OpenText, Print, Sane;
  }

  /**
   After any calls that the writer took, if it is complete (`IsComplete`) its text is the whole text
   of a value: no misplaced comma, colon, bracket or gap, whatever counts the caller gave.  The reader
   then accepts the text to its end; a reader that checks the encoding needs a writer that did, or valid
   strings.
   */
  lemma CompleteMeansValue(fl: Flags, style: Style, tg: Target, evs: seq<Event>) returns (v: Value)
    requires Indents(style) && RoundTrip.AllFit(evs)
    requires WriteAll(style, tg, RoundTrip.BLANK, evs).Some?
    ensures var st := WriteAll(style, tg, RoundTrip.BLANK, evs).value;
      Complete(st) ==>
        && Integral(v) && Printable(tg, v) && st.out == Print(style, tg, v, 0)
        && ((fl.validateEncoding ==> tg.ascii || tg.validate || RoundTrip.ValidStrings(v)) ==>
              Grammar.ParseDocument(fl, st.out) == Grammar.Parsed(|st.out|, RoundTrip.AsReadAll(Accept(v))))
  {
    hide WriteAll, Print, Integral, Printable, Grammar.ParseDocument, Accept, RoundTrip.AsReadAll, Indents;
    assert Shows(style, tg, Nothing, RoundTrip.BLANK);
    var p := RunShows(style, tg, Nothing, RoundTrip.BLANK, evs);
    v := NullValue;
    var st := WriteAll(style, tg, RoundTrip.BLANK, evs).value;
    if Complete(st) {
      CompleteIsRoot(style, tg, p, st);
      v := p.v;
      RoundTrip.PrintableIff(tg, v);
      if fl.validateEncoding ==> RoundTrip.ValidStrings(v) {
        RoundTrip.TextReads(fl, style, tg, v);
      }
    }
  }
}
