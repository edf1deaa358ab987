/** Parsing token by token against parsing in one call. */
module TokenByToken {
  import opened Bytes
  import opened Json
  import opened Grammar
  import opened Machine

  /** At the end of the text, every state but the first reports what the one-call loop reports. */
  lemma EndOfText(fl: Flags, s: Text, c: Config)
    requires c.pos <= |s| && Peek(s, c.pos) == NUL && Sound(c.state, c.stack)
    ensures Transit(fl, s, c) == Halt(if c.state.Start? then ValueInvalid else HandleError(c.state), c.pos, c.events)
  {
    hide ParseArray, ParseObject;
    NothingThere(fl, s, c.pos, c.events);
  }

  lemma NothingThere(fl: Flags, s: Text, p: nat, evs: seq<Event>)
    requires p <= |s| && Peek(s, p) == NUL
    ensures ParseValue(fl, s, p, evs) == Failed(ValueInvalid, p, evs)
  {
  }

  /** The end of a text is nothing to skip. */
  lemma SkipNothing(fl: Flags, s: Text, p: nat)
    requires p <= |s| && Peek(s, p) == NUL
    ensures Skip(fl, s, p) == To(p)
  {
  }

  /** The calls end as the one-call loop does; where they go on after a comment error, that loop fails with it. */
  predicate Matches(d: Driven, outcome: Parsed) {
    match d
    case Ended(p) => p == outcome
    case EndedTainted(o, evs) => outcome == Failed(UnspecificSyntaxError, o, evs)
    case WentOn(o, evs) => outcome == Failed(UnspecificSyntaxError, o, evs)
  }

  /** From any configuration but the first, the calls carry on as the one-call loop does. */
  lemma {:induction false} CallsRun(fl: Flags, s: Text, c: Config)
    requires c.pos <= |s| && Sound(c.state, c.stack) && !c.state.Start? && !c.state.Finish?
    ensures Matches(Drive(fl, s, c), Resume(fl, s, c))
    decreases |s| - c.pos, 1
  {
    hide *;
    if Peek(s, c.pos) == NUL {
      SkipNothing(fl, s, c.pos);
      UnfoldEnd(fl, s, c);
    } else {
      FirstCall(fl, s, c);
    }
  }

  /** One step of either, from a text that is not at its end. */
  lemma {:induction false} FirstCall(fl: Flags, s: Text, c: Config)
    requires c.pos <= |s| && Sound(c.state, c.stack) && !c.state.Finish? && Peek(s, c.pos) != NUL
    requires c.state.Start? && Skip(fl, s, c.pos).To? ==> Peek(s, Skip(fl, s, c.pos).pos) != NUL
    ensures Matches(Drive(fl, s, c), Resume(fl, s, c))
    decreases |s| - c.pos, 0
  {
    hide Transit, Skip, Sound, Drive, NextCall, Run, Resume;
    ResumeSkips(fl, s, c);
    match Skip(fl, s, c.pos)
    case Unterminated(o) =>
      UnfoldComment(fl, s, c);
    case To(p) =>
      var c1 := c.(pos := p);
      RunUnfolds(fl, s, c1);
      if Peek(s, p) == NUL {
        EndOfText(fl, s, c1);
        UnfoldHalt(fl, s, c);
      } else {
        match Transit(fl, s, c1)
        case Halt(code, o, evs) =>
          UnfoldHalt(fl, s, c);
        case Next(n) =>
          NeverStart(fl, s, c1);
          if n.state.Finish? {
            UnfoldFinish(fl, s, c, n);
          } else {
            UnfoldMore(fl, s, c, n);
            CallsRun(fl, s, n);
          }
      }
  }

  lemma RunUnfolds(fl: Flags, s: Text, c: Config)
    requires c.pos <= |s| && Sound(c.state, c.stack)
    ensures Peek(s, c.pos) == NUL ==>
      Run(fl, s, c)
      == if c.state.Finish? then Parsed(c.pos, c.events) else Failed(HandleError(c.state), c.pos, c.events)
    ensures Peek(s, c.pos) != NUL && Transit(fl, s, c).Halt? ==>
      Run(fl, s, c) == Failed(Transit(fl, s, c).code, Transit(fl, s, c).offset, Transit(fl, s, c).events)
    ensures Peek(s, c.pos) != NUL && Transit(fl, s, c).Next? ==>
      Run(fl, s, c) == Resume(fl, s, Transit(fl, s, c).config)
  {
    hide Transit, Sound, Resume;
  }

  lemma ResumeSkips(fl: Flags, s: Text, n: Config)
    requires n.pos <= |s| && Sound(n.state, n.stack) && !n.state.Finish?
    ensures Skip(fl, s, n.pos).Unterminated? ==>
      Resume(fl, s, n) == Failed(UnspecificSyntaxError, Skip(fl, s, n.pos).offset, n.events)
    ensures Skip(fl, s, n.pos).To? ==> Resume(fl, s, n) == Run(fl, s, n.(pos := Skip(fl, s, n.pos).pos))
  {
    hide Skip, Sound, Run;
  }

  /** A comment is cut short before the next token. */
  lemma UnfoldComment(fl: Flags, s: Text, c: Config)
    requires c.pos <= |s| && Peek(s, c.pos) != NUL && Sound(c.state, c.stack) && Skip(fl, s, c.pos).Unterminated?
    ensures Matches(Drive(fl, s, c), Failed(UnspecificSyntaxError, Skip(fl, s, c.pos).offset, c.events))
  {
    hide Transit, Skip, Sound;
  }

  lemma NeverStart(fl: Flags, s: Text, c: Config)
    requires c.pos <= |s| && Sound(c.state, c.stack)
    ensures Transit(fl, s, c).Next? ==> !Transit(fl, s, c).config.state.Start?
  {
    hide ParseValue, ParseString;
  }

  /** The root is complete. */
  lemma UnfoldFinish(fl: Flags, s: Text, c: Config, n: Config)
    requires c.pos <= |s| && Peek(s, c.pos) != NUL && Sound(c.state, c.stack) && Skip(fl, s, c.pos).To?
    requires Transit(fl, s, c.(pos := Skip(fl, s, c.pos).pos)) == Next(n) && n.state.Finish?
    requires n.pos <= |s| && Sound(n.state, n.stack)
    ensures Matches(Drive(fl, s, c), Resume(fl, s, n))
  {
    hide Transit, Skip, Sound;
    var q := Skip(fl, s, n.pos);
    if q.To? && Peek(s, q.pos) != NUL {
      FinishRefuses(fl, s, n.(pos := q.pos));
    }
  }

  lemma FinishRefuses(fl: Flags, s: Text, c: Config)
    requires c.pos <= |s| && Sound(c.state, c.stack) && c.state.Finish?
    ensures Transit(fl, s, c) == Halt(DocumentRootNotSingular, c.pos, c.events)
  {
    hide ParseValue, ParseString;
  }

  /** The call returns after the token, or goes on after a delimiter. */
  lemma UnfoldMore(fl: Flags, s: Text, c: Config, n: Config)
    requires c.pos <= |s| && Peek(s, c.pos) != NUL && Sound(c.state, c.stack) && Skip(fl, s, c.pos).To?
    requires Transit(fl, s, c.(pos := Skip(fl, s, c.pos).pos)) == Next(n) && !n.state.Finish?
    requires n.pos <= |s| && Sound(n.state, n.stack)
    ensures Drive(fl, s, c) == Drive(fl, s, n)
  {
    hide Transit, Skip, Sound;
  }

  lemma UnfoldEnd(fl: Flags, s: Text, c: Config)
    requires c.pos <= |s| && Peek(s, c.pos) == NUL && Sound(c.state, c.stack) && !c.state.Finish?
    requires Skip(fl, s, c.pos) == To(c.pos)
    ensures Matches(Drive(fl, s, c), Resume(fl, s, c))
  {
    hide Skip;
  }

  lemma UnfoldHalt(fl: Flags, s: Text, c: Config)
    requires c.pos <= |s| && Peek(s, c.pos) != NUL && Sound(c.state, c.stack) && Skip(fl, s, c.pos).To?
    requires Transit(fl, s, c.(pos := Skip(fl, s, c.pos).pos)).Halt?
    ensures var h := Transit(fl, s, c.(pos := Skip(fl, s, c.pos).pos));
      Drive(fl, s, c) == Ended(Failed(h.code, h.offset, h.events))
  {
    hide Transit, Skip, Sound;
  }

  /** White space, and comments where they are allowed, and nothing else. */
  predicate OnlyBlanks(fl: Flags, s: Text) {
    Peek(s, 0) != NUL && Skip(fl, s, 0).To? && Peek(s, Skip(fl, s, 0).pos) == NUL
  }

  /**
   Token by token or in one call, under every flag setting.  When the calls end without an overlooked
   comment error, events, verdict, error and position are the same on every text, but for one that holds
   only blanks, where only the reported code differs.  When they overlook one, the one-call reader fails
   with it, at the same offset and after the same events.
   */
  lemma CallsAgree(fl: Flags, s: Text)
    ensures var d := TokenByToken(fl, s);
      if d.Ended? then d.outcome == IterativeDocument(fl, s) <==> !OnlyBlanks(fl, s)
      else IterativeDocument(fl, s) == Failed(UnspecificSyntaxError, d.offset, d.events)
    ensures OnlyBlanks(fl, s) ==>
      var q := Skip(fl, s, 0).pos;
      && TokenByToken(fl, s) == Ended(Failed(ValueInvalid, q, []))
      && IterativeDocument(fl, s) == Failed(DocumentEmpty, q, [])
    ensures NoCutComment(fl, s) ==> TokenByToken(fl, s).Ended?
    ensures !fl.comments ==> NoCutComment(fl, s)
  {
    hide Transit, Skip, Drive, NextCall, Run, Resume, NoCutComment;
    var c := Config(Start, [], 0, []);
    ResumeSkips(fl, s, c);
    assert Resume(fl, s, c) == IterativeDocument(fl, s);
    if Peek(s, 0) == NUL {
      SkipNothing(fl, s, 0);
      UnfoldEnd(fl, s, c);
    } else if OnlyBlanks(fl, s) {
      var c1 := c.(pos := Skip(fl, s, 0).pos);
      RunUnfolds(fl, s, c1);
      EndOfText(fl, s, c1);
      UnfoldHalt(fl, s, c);
    } else {
      FirstCall(fl, s, c);
    }
    PlainClean(fl, s);
    if NoCutComment(fl, s) {
      CleanEnds(fl, s, c);
    }
  }

  /** No comment is cut short wherever one might begin; so it is when comments are off. */
  ghost predicate NoCutComment(fl: Flags, s: Text) {
    forall p :: 0 <= p <= |s| ==> Skip(fl, s, p).To?
  }

  lemma PlainClean(fl: Flags, s: Text)
    ensures !fl.comments ==> NoCutComment(fl, s)
  {
  }

  /** Where no comment is cut short there is no error to overlook. */
  lemma {:induction false} CleanEnds(fl: Flags, s: Text, c: Config)
    requires NoCutComment(fl, s) && c.pos <= |s| && Sound(c.state, c.stack)
    ensures Drive(fl, s, c).Ended?
    decreases |s| - c.pos
  {
    hide Transit, Skip, Sound, NextCall, NoCutComment;
    CleanCall(fl, s, c);
    if NextCall(fl, s, c).More? {
      CleanEnds(fl, s, NextCall(fl, s, c).config);
    }
  }

  lemma {:induction false} CleanCall(fl: Flags, s: Text, c: Config)
    requires NoCutComment(fl, s) && c.pos <= |s| && Sound(c.state, c.stack)
    ensures !NextCall(fl, s, c).Tainted? && !NextCall(fl, s, c).Overlooked?
    decreases |s| - c.pos
  {
    hide Transit, Skip, Sound;
    if Peek(s, c.pos) != NUL {
      var m := Transit(fl, s, c.(pos := Skip(fl, s, c.pos).pos));
      if m.Next? {
        CleanCall(fl, s, m.config);
      }
    }
  }

  /** An empty array, and a block comment that is cut short. */
  const CUT: Text := [LBRACKET, RBRACKET, SLASH, STAR]

  lemma CutSkips(fl: Flags)
    requires fl.comments
    ensures Skip(fl, CUT, 0) == To(0) && Skip(fl, CUT, 1) == To(1) && Skip(fl, CUT, 2) == Unterminated(4)
  {
  }

  /** The configuration after the opening bracket. */
  const OPENED := Config(ArrayInitial, [Frame(Start, 0)], 1, [StartArray])

  lemma CutMoves(fl: Flags)
    ensures Sound(Start, []) && Sound(ArrayInitial, OPENED.stack)
    ensures Transit(fl, CUT, Config(Start, [], 0, [])) == Next(OPENED)
    ensures Transit(fl, CUT, OPENED) == Next(Config(Finish, [], 2, [StartArray, EndArray(0)]))
  {
    hide ParseValue, ParseString, Predict, Tokenize, Peek, FromParsed, Counted;
    CutTokens();
    var events := [StartArray] + [EndArray(0)];
    assert Close(OPENED, false, false) == Config(Finish, [], 2, events);
  }

  lemma CutTokens()
    ensures Predict(Start, Tokenize(Peek(CUT, 0))).ArrayInitial?
    ensures Predict(ArrayInitial, Tokenize(Peek(CUT, 1))).ArrayFinish?
  {
  }

  /** A cut comment behind the root is overlooked: the last call reports success, the one-call reader fails. */
  lemma CutCommentOverlooked(fl: Flags)
    requires fl.comments && !fl.stopWhenDone
    ensures TokenByToken(fl, CUT) == EndedTainted(4, [StartArray, EndArray(0)])
    ensures IterativeDocument(fl, CUT) == Failed(UnspecificSyntaxError, 4, [StartArray, EndArray(0)])
  {
    hide Transit, Skip, Sound, Predict, IterativeDocument;
    CutSkips(fl);
    CutMoves(fl);
    assert NextCall(fl, CUT, Config(Start, [], 0, [])) == More(OPENED);
    assert NextCall(fl, CUT, OPENED).Tainted?;
    assert Drive(fl, CUT, OPENED) == EndedTainted(4, [StartArray, EndArray(0)]);
    CallsAgree(fl, CUT);
  }
}
