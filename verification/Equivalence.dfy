/** The pushdown machine simulates recursive descent. */
module Equivalence {
  import opened Bytes
  import opened Json
  import opened Grammar
  import opened Machine

  /** The states from which a value may start. */
  predicate TakesValue(st: State) {
    st.Start? || st.ArrayInitial? || st.ElementDelimiter? || st.KeyValueDelimiter?
  }

  /** The state after the value. */
  function AfterValue(st: State): State {
    match st
    case Start => Finish
    case KeyValueDelimiter => MemberValue
    case _ => Element
  }

  /** A closing bracket where the machine closes the array instead of taking a value. */
  predicate ClosesArray(fl: Flags, st: State, c: byte) {
    c == RBRACKET && (st.ArrayInitial? || (st.ElementDelimiter? && fl.trailingCommas))
  }

  predicate IsStray(c: byte) {
    c == NUL || c == RBRACKET || c == RBRACE || c == COMMA || c == COLON
  }

  /** The machine, resumed after a production that ended as `r` says. */
  function Continue(fl: Flags, s: Text, r: Parsed, st: State, stack: seq<Frame>): Parsed
    requires r.Parsed? ==> r.pos <= |s|
    requires Sound(st, stack)
  {
    match r
    case Failed(_, _, _) => r
    case Parsed(q, evs) => Resume(fl, s, Config(st, stack, q, evs))
  }

  lemma StrayIsNotAValue(fl: Flags, s: Text, p: nat, evs: seq<Event>)
    requires p <= |s| && IsStray(Peek(s, p))
    ensures ParseValue(fl, s, p, evs) == Failed(ValueInvalid, p, evs)
  {
  }

  // ---- single turns of the machine's loop ----

  function Opened(st: State, stack: seq<Frame>): seq<Frame> {
    stack + [Frame(Pushed(st), 0)]
  }

  lemma TurnOpen(fl: Flags, s: Text, st: State, stack: seq<Frame>, p: nat, evs: seq<Event>)
    requires p < |s| && TakesValue(st) && Sound(st, stack)
    requires Peek(s, p) == LBRACKET || Peek(s, p) == LBRACE
    ensures Sound(ArrayInitial, Opened(st, stack)) && Sound(ObjectInitial, Opened(st, stack))
    ensures Run(fl, s, Config(st, stack, p, evs)) ==
      Resume(fl, s, if Peek(s, p) == LBRACKET
                    then Config(ArrayInitial, Opened(st, stack), p + 1, evs + [StartArray])
                    else Config(ObjectInitial, Opened(st, stack), p + 1, evs + [StartObject]))
  {
    hide Resume, ParseValue, ParseString;
  }

  lemma TurnScalar(fl: Flags, s: Text, st: State, stack: seq<Frame>, p: nat, evs: seq<Event>)
    requires p < |s| && TakesValue(st) && Sound(st, stack)
    requires !IsStray(Peek(s, p)) && Peek(s, p) != LBRACKET && Peek(s, p) != LBRACE
    ensures Sound(AfterValue(st), stack)
    ensures Run(fl, s, Config(st, stack, p, evs)) == Continue(fl, s, ParseValue(fl, s, p, evs), AfterValue(st), stack)
  {
    hide Resume, ParseValue, ParseString;
  }

  /** Where no transition applies, the machine stops with the error of its state. */
  lemma TurnError(fl: Flags, s: Text, st: State, stack: seq<Frame>, p: nat, evs: seq<Event>)
    requires p <= |s| && Sound(st, stack) && (st.Finish? ==> Peek(s, p) != NUL)
    requires Peek(s, p) == NUL || Predict(st, Tokenize(Peek(s, p))).ErrorState?
    ensures Run(fl, s, Config(st, stack, p, evs)) == Failed(HandleError(st), p, evs)
  {
    hide Resume, ParseValue, ParseString;
  }

  /** A closing bracket after a comma, when trailing commas are not allowed. */
  lemma TurnTrailing(fl: Flags, s: Text, st: State, stack: seq<Frame>, p: nat, evs: seq<Event>)
    requires p < |s| && Sound(st, stack) && !fl.trailingCommas
    requires (st.ElementDelimiter? && Peek(s, p) == RBRACKET) || (st.MemberDelimiter? && Peek(s, p) == RBRACE)
    ensures Run(fl, s, Config(st, stack, p, evs)) == Failed(HandleError(st), p, evs)
  {
    hide Resume, ParseValue, ParseString;
  }

  predicate Closes(fl: Flags, st: State, c: byte) {
    || (c == RBRACKET && (st.ArrayInitial? || st.Element? || (st.ElementDelimiter? && fl.trailingCommas)))
    || (c == RBRACE && (st.ObjectInitial? || st.MemberValue? || (st.MemberDelimiter? && fl.trailingCommas)))
  }

  lemma TurnClose(fl: Flags, s: Text, st: State, stack: seq<Frame>, f: Frame, p: nat, evs: seq<Event>)
    requires p < |s| && Sound(st, stack + [f]) && Closes(fl, st, Peek(s, p))
    ensures Sound(Restored(f.restore), stack)
    ensures var n := if st.Element? || st.MemberValue? then f.count + 1 else f.count;
      Run(fl, s, Config(st, stack + [f], p, evs)) ==
      Resume(fl, s, Config(Restored(f.restore), stack, p + 1,
                           evs + [if Peek(s, p) == RBRACE then EndObject(n) else EndArray(n)]))
  {
    hide Resume, ParseValue, ParseString;
    assert (stack + [f])[|stack + [f]| - 1] == f && (stack + [f])[..|stack + [f]| - 1] == stack;
    forall i | 0 <= i < |stack|
      ensures stack[i] == (stack + [f])[i]
    {
    }
  }

  lemma TurnComma(fl: Flags, s: Text, st: State, stack: seq<Frame>, f: Frame, p: nat, evs: seq<Event>)
    requires p < |s| && (st.Element? || st.MemberValue?) && Sound(st, stack + [f]) && Peek(s, p) == COMMA
    ensures var g := f.(count := f.count + 1);
      var dst := if st.Element? then ElementDelimiter else MemberDelimiter;
      && Sound(dst, stack + [g])
      && Run(fl, s, Config(st, stack + [f], p, evs)) == Resume(fl, s, Config(dst, stack + [g], p + 1, evs))
  {
    hide Resume, ParseValue, ParseString;
    assert Counted(stack + [f]) == stack + [f.(count := f.count + 1)];
  }

  lemma TurnColon(fl: Flags, s: Text, stack: seq<Frame>, p: nat, evs: seq<Event>)
    requires p < |s| && Sound(MemberKey, stack) && Peek(s, p) == COLON
    ensures Run(fl, s, Config(MemberKey, stack, p, evs)) == Resume(fl, s, Config(KeyValueDelimiter, stack, p + 1, evs))
  {
    hide Resume, ParseValue, ParseString;
  }

  lemma TurnKey(fl: Flags, s: Text, st: State, stack: seq<Frame>, p: nat, evs: seq<Event>)
    requires p < |s| && (st.ObjectInitial? || st.MemberDelimiter?) && Sound(st, stack) && Peek(s, p) == QUOTE
    ensures Run(fl, s, Config(st, stack, p, evs)) == Continue(fl, s, ParseString(fl, s, p, true, evs), MemberKey, stack)
  {
    hide Resume, ParseValue, ParseString;
  }

  /** Between turns of an unfinished machine white space is skipped. */
  lemma Between(fl: Flags, s: Text, c: Config)
    requires c.pos <= |s| && Sound(c.state, c.stack) && !c.state.Finish?
    ensures Skip(fl, s, c.pos).Unterminated? ==>
      Resume(fl, s, c) == Failed(UnspecificSyntaxError, Skip(fl, s, c.pos).offset, c.events)
    ensures Skip(fl, s, c.pos).To? ==> Resume(fl, s, c) == Run(fl, s, c.(pos := Skip(fl, s, c.pos).pos))
  {
    hide Run, Skip;
  }

  // ---- productions ----

  /** A value: wherever the machine may take one, running it is parsing it and resuming. */
  lemma {:induction false} SimulateValue(fl: Flags, s: Text, st: State, stack: seq<Frame>, p: nat, evs: seq<Event>)
    requires p <= |s| && TakesValue(st) && Sound(st, stack)
    requires !ClosesArray(fl, st, Peek(s, p))
    requires st.Start? ==> !IsStray(Peek(s, p))
    ensures Sound(AfterValue(st), stack)
    ensures Run(fl, s, Config(st, stack, p, evs))
         == Continue(fl, s, ParseValue(fl, s, p, evs), AfterValue(st), stack)
    decreases |s| - p, 2
  {
    hide Run, Resume, Skip, ParseArray, ParseObject, ParseScalar;
    var c := Peek(s, p);
    if IsStray(c) {
      StrayIsNotAValue(fl, s, p, evs);
      if st.ElementDelimiter? && c == RBRACKET {
        TurnTrailing(fl, s, st, stack, p, evs);
      } else {
        TurnError(fl, s, st, stack, p, evs);
      }
    } else if c == LBRACE {
      SimulateObject(fl, s, st, stack, p, evs);
    } else if c == LBRACKET {
      SimulateArray(fl, s, st, stack, p, evs);
    } else {
      TurnScalar(fl, s, st, stack, p, evs);
    }
  }

  lemma {:induction false} SimulateArray(fl: Flags, s: Text, st: State, stack: seq<Frame>, p: nat, evs: seq<Event>)
    requires p < |s| && TakesValue(st) && Sound(st, stack) && Peek(s, p) == LBRACKET
    ensures Sound(AfterValue(st), stack)
    ensures Run(fl, s, Config(st, stack, p, evs))
         == Continue(fl, s, ParseArray(fl, s, p, evs), AfterValue(st), stack)
    decreases |s| - p, 1
  {
    hide Run, Resume, Skip, ParseElements;
    var f := Frame(Pushed(st), 0);
    var evs' := evs + [StartArray];
    TurnOpen(fl, s, st, stack, p, evs);
    Between(fl, s, Config(ArrayInitial, stack + [f], p + 1, evs'));
    match Skip(fl, s, p + 1) {
      case Unterminated(o) =>
      case To(q) =>
        if Peek(s, q) == RBRACKET {
          TurnClose(fl, s, ArrayInitial, stack, f, q, evs');
        } else {
          SimulateElements(fl, s, ArrayInitial, stack, f, q, evs');
        }
    }
  }

  /** The element loop, entered before the first element or after a comma. */
  lemma {:induction false} SimulateElements(fl: Flags, s: Text, st: State, stack: seq<Frame>, f: Frame, p: nat,
      evs: seq<Event>)
    requires p <= |s| && (st.ArrayInitial? || st.ElementDelimiter?) && Sound(st, stack + [f])
    requires Sound(Restored(f.restore), stack)
    requires !ClosesArray(fl, st, Peek(s, p))
    ensures Run(fl, s, Config(st, stack + [f], p, evs))
         == Continue(fl, s, ParseElements(fl, s, p, f.count, evs), Restored(f.restore), stack)
    decreases |s| - p, 3
  {
    hide Run, Resume, Skip, ParseValue;
    SimulateValue(fl, s, st, stack + [f], p, evs);
    var r := ParseValue(fl, s, p, evs);
    if r.Parsed? {
      Between(fl, s, Config(Element, stack + [f], r.pos, r.events));
      match Skip(fl, s, r.pos) {
        case Unterminated(o) =>
        case To(q) =>
          if Peek(s, q) == COMMA {
            TurnComma(fl, s, Element, stack, f, q, r.events);
            var g := f.(count := f.count + 1);
            Between(fl, s, Config(ElementDelimiter, stack + [g], q + 1, r.events));
            match Skip(fl, s, q + 1) {
              case Unterminated(o) =>
              case To(q) =>
                if fl.trailingCommas && Peek(s, q) == RBRACKET {
                  TurnClose(fl, s, ElementDelimiter, stack, g, q, r.events);
                } else {
                  SimulateElements(fl, s, ElementDelimiter, stack, g, q, r.events);
                }
            }
          } else if Peek(s, q) == RBRACKET {
            TurnClose(fl, s, Element, stack, f, q, r.events);
          } else {
            TurnError(fl, s, Element, stack + [f], q, r.events);
          }
      }
    }
  }

  lemma {:induction false} SimulateObject(fl: Flags, s: Text, st: State, stack: seq<Frame>, p: nat, evs: seq<Event>)
    requires p < |s| && TakesValue(st) && Sound(st, stack) && Peek(s, p) == LBRACE
    ensures Sound(AfterValue(st), stack)
    ensures Run(fl, s, Config(st, stack, p, evs))
         == Continue(fl, s, ParseObject(fl, s, p, evs), AfterValue(st), stack)
    decreases |s| - p, 1
  {
    hide Run, Resume, Skip, ParseMembers;
    var f := Frame(Pushed(st), 0);
    var evs' := evs + [StartObject];
    TurnOpen(fl, s, st, stack, p, evs);
    Between(fl, s, Config(ObjectInitial, stack + [f], p + 1, evs'));
    match Skip(fl, s, p + 1) {
      case Unterminated(o) =>
      case To(q) =>
        if Peek(s, q) == RBRACE {
          TurnClose(fl, s, ObjectInitial, stack, f, q, evs');
        } else {
          SimulateMembers(fl, s, ObjectInitial, stack, f, q, evs');
        }
    }
  }

  predicate ClosesObject(fl: Flags, st: State, c: byte) {
    c == RBRACE && (st.ObjectInitial? || (st.MemberDelimiter? && fl.trailingCommas))
  }

  function AfterName(fl: Flags, s: Text, r: Parsed, stack: seq<Frame>): Parsed
    requires r.Parsed? ==> r.pos <= |s|
    requires Sound(KeyValueDelimiter, stack)
  {
    match r
    case Failed(_, _, _) => r
    case Parsed(q, evs) => Run(fl, s, Config(KeyValueDelimiter, stack, q, evs))
  }

  /** A member's name and colon. */
  lemma SimulateName(fl: Flags, s: Text, st: State, stack: seq<Frame>, p: nat, evs: seq<Event>)
    requires p <= |s| && (st.ObjectInitial? || st.MemberDelimiter?) && Sound(st, stack)
    requires !ClosesObject(fl, st, Peek(s, p))
    ensures Run(fl, s, Config(st, stack, p, evs)) == AfterName(fl, s, ParseName(fl, s, p, evs), stack)
  {
    hide Run, Resume, Skip, ParseString;
    if Peek(s, p) != QUOTE {
      if st.MemberDelimiter? && Peek(s, p) == RBRACE {
        TurnTrailing(fl, s, st, stack, p, evs);
      } else {
        TurnError(fl, s, st, stack, p, evs);
      }
    } else {
      TurnKey(fl, s, st, stack, p, evs);
      var r := ParseString(fl, s, p, true, evs);
      if r.Parsed? {
        Between(fl, s, Config(MemberKey, stack, r.pos, r.events));
        match Skip(fl, s, r.pos) {
          case Unterminated(o) =>
          case To(q) =>
            if Peek(s, q) == COLON {
              TurnColon(fl, s, stack, q, r.events);
              Between(fl, s, Config(KeyValueDelimiter, stack, q + 1, r.events));
            } else {
              TurnError(fl, s, MemberKey, stack, q, r.events);
            }
        }
      }
    }
  }

  /** The member loop, entered before the first member or after a comma. */
  lemma {:induction false} SimulateMembers(fl: Flags, s: Text, st: State, stack: seq<Frame>, f: Frame, p: nat,
      evs: seq<Event>)
    requires p <= |s| && (st.ObjectInitial? || st.MemberDelimiter?) && Sound(st, stack + [f])
    requires Sound(Restored(f.restore), stack)
    requires !ClosesObject(fl, st, Peek(s, p))
    ensures Run(fl, s, Config(st, stack + [f], p, evs))
         == Continue(fl, s, ParseMembers(fl, s, p, f.count, evs), Restored(f.restore), stack)
    decreases |s| - p, 3
  {
    hide Run, Resume, Skip, ParseValue, ParseName;
    SimulateName(fl, s, st, stack + [f], p, evs);
    var k := ParseName(fl, s, p, evs);
    if k.Parsed? {
      SimulateValue(fl, s, KeyValueDelimiter, stack + [f], k.pos, k.events);
      var r := ParseValue(fl, s, k.pos, k.events);
      if r.Parsed? {
        Between(fl, s, Config(MemberValue, stack + [f], r.pos, r.events));
        match Skip(fl, s, r.pos) {
          case Unterminated(o) =>
          case To(q) =>
            if Peek(s, q) == COMMA {
              TurnComma(fl, s, MemberValue, stack, f, q, r.events);
              var g := f.(count := f.count + 1);
              Between(fl, s, Config(MemberDelimiter, stack + [g], q + 1, r.events));
              match Skip(fl, s, q + 1) {
                case Unterminated(o) =>
                case To(q) =>
                  if fl.trailingCommas && Peek(s, q) == RBRACE {
                    TurnClose(fl, s, MemberDelimiter, stack, g, q, r.events);
                  } else {
                    SimulateMembers(fl, s, MemberDelimiter, stack, g, q, r.events);
                  }
              }
            } else if Peek(s, q) == RBRACE {
              TurnClose(fl, s, MemberValue, stack, f, q, r.events);
            } else {
              TurnError(fl, s, MemberValue, stack + [f], q, r.events);
            }
        }
      }
    }
  }

  /** The first character that is neither white space nor comment, if it is reached. */
  predicate StartsStray(fl: Flags, s: Text) {
    match Skip(fl, s, 0)
    case Unterminated(_) => false
    case To(p) => Peek(s, p) != NUL && IsStray(Peek(s, p))
  }

  /**
   The two readers agree on every text: same verdict, same events, same error at the same place,
   same final position.  The one family of texts where they differ starts with a stray `]`, `}`, `,`
   or `:`, and there only the reported code differs.
   */
  lemma ReadersAgree(fl: Flags, s: Text)
    ensures IterativeDocument(fl, s) == ParseDocument(fl, s) <==> !StartsStray(fl, s)
    ensures StartsStray(fl, s) ==>
      exists p :: ParseDocument(fl, s) == Failed(ValueInvalid, p, [])
               && IterativeDocument(fl, s) == Failed(DocumentEmpty, p, [])
  {
    match Skip(fl, s, 0) {
      case Unterminated(o) =>
      case To(p) =>
        if !IsStray(Peek(s, p)) {
          SimulateValue(fl, s, Start, [], p, []);
          AfterRoot(fl, s, ParseValue(fl, s, p, []));
        } else if Peek(s, p) != NUL {
          StrayIsNotAValue(fl, s, p, []);
          assert ParseDocument(fl, s) == Failed(ValueInvalid, p, []);
          assert IterativeDocument(fl, s) == Failed(DocumentEmpty, p, []);
        }
    }
  }

  /** After the root value both readers look for the end of the text. */
  lemma AfterRoot(fl: Flags, s: Text, r: Parsed)
    requires r.Parsed? ==> r.pos <= |s|
    ensures Continue(fl, s, r, Finish, []) == EndDocument(fl, s, r)
  {
    hide Run, Skip;
    if r.Parsed? && !fl.stopWhenDone {
      match Skip(fl, s, r.pos) {
        case Unterminated(o) =>
        case To(q) =>
          if Peek(s, q) != NUL {
            TurnError(fl, s, Finish, [], q, r.events);
          } else {
            TurnEnd(fl, s, q, r.events);
          }
      }
    }
  }

  lemma TurnEnd(fl: Flags, s: Text, p: nat, evs: seq<Event>)
    requires p <= |s| && Peek(s, p) == NUL
    ensures Run(fl, s, Config(Finish, [], p, evs)) == Parsed(p, evs)
  {
  }
}
