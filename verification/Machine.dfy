/**
 The table-driven reader: tokens, the transition table, and the pushdown machine that `IterativeParse`
 runs, as functions of a configuration.
 */
module Machine {
  import opened Bytes
  import opened Json
  import opened Grammar

  datatype Token =
    | LeftBracket | RightBracket
    | LeftCurlyBracket | RightCurlyBracket
    | CommaToken | ColonToken
    | StringToken | FalseToken | TrueToken | NullToken | NumberToken

  datatype State =
    | Finish | ErrorState | Start
    | ObjectInitial | MemberKey | MemberValue | ObjectFinish
    | ArrayInitial | Element | ArrayFinish
    | SingleValue
    | ElementDelimiter | MemberDelimiter | KeyValueDelimiter

  /** The first character decides the token; every other character announces a number. */
  function Tokenize(c: byte): Token {
    if c == LBRACKET then LeftBracket
    else if c == RBRACKET then RightBracket
    else if c == LBRACE then LeftCurlyBracket
    else if c == RBRACE then RightCurlyBracket
    else if c == COMMA then CommaToken
    else if c == COLON then ColonToken
    else if c == QUOTE then StringToken
    else if c == 0x66 then FalseToken
    else if c == 0x74 then TrueToken
    else if c == 0x6E then NullToken
    else NumberToken
  }

  predicate IsScalarToken(t: Token) {
    t.StringToken? || t.FalseToken? || t.TrueToken? || t.NullToken? || t.NumberToken?
  }

  /** The table of `Predict`, row by row. */
  function Predict(state: State, token: Token): State {
    match state
    case Start =>
      if token.LeftBracket? then ArrayInitial
      else if token.LeftCurlyBracket? then ObjectInitial
      else if IsScalarToken(token) then SingleValue
      else ErrorState
    case ObjectInitial =>
      if token.RightCurlyBracket? then ObjectFinish
      else if token.StringToken? then MemberKey
      else ErrorState
    case MemberKey =>
      if token.ColonToken? then KeyValueDelimiter else ErrorState
    case MemberValue =>
      if token.RightCurlyBracket? then ObjectFinish
      else if token.CommaToken? then MemberDelimiter
      else ErrorState
    case ArrayInitial =>
      if token.LeftBracket? then ArrayInitial
      else if token.RightBracket? then ArrayFinish
      else if token.LeftCurlyBracket? then ObjectInitial
      else if IsScalarToken(token) then Element
      else ErrorState
    case Element =>
      if token.RightBracket? then ArrayFinish
      else if token.CommaToken? then ElementDelimiter
      else ErrorState
    case ElementDelimiter =>
      if token.LeftBracket? then ArrayInitial
      else if token.RightBracket? then ArrayFinish
      else if token.LeftCurlyBracket? then ObjectInitial
      else if IsScalarToken(token) then Element
      else ErrorState
    case MemberDelimiter =>
      if token.RightCurlyBracket? then ObjectFinish
      else if token.StringToken? then MemberKey
      else ErrorState
    case KeyValueDelimiter =>
      if token.LeftBracket? then ArrayInitial
      else if token.LeftCurlyBracket? then ObjectInitial
      else if IsScalarToken(token) then MemberValue
      else ErrorState
    case _ => ErrorState
  }

  /** One open object or array: the state to restore when it closes and the count of delimiters so far. */
  datatype Frame = Frame(restore: State, count: nat)

  datatype Config = Config(state: State, stack: seq<Frame>, pos: nat, events: seq<Event>)

  /** The states in which an object or array is open. */
  predicate IsInner(st: State) {
    || st.ObjectInitial? || st.MemberKey? || st.MemberValue? || st.MemberDelimiter? || st.KeyValueDelimiter?
    || st.ArrayInitial? || st.Element? || st.ElementDelimiter?
  }

  /** What the machine keeps: inside a container there is a frame to return to, frames restore the
      states that `Transit` pushes, and only the bottom frame restores the start. */
  predicate Sound(state: State, stack: seq<Frame>) {
    && (IsInner(state) || state.Start? || state.Finish?)
    && (IsInner(state) <==> stack != [])
    && forall i :: 0 <= i < |stack| ==>
         if i == 0 then stack[i].restore.Start? else stack[i].restore.Element? || stack[i].restore.MemberValue?
  }

  /** The outcome of `Transit`: a configuration, or the error it or `HandleError` reports. */
  datatype Moved =
    | Next(config: Config)
    | Halt(code: ErrorCode, offset: nat, events: seq<Event>)

  /** The state pushed when a container opens. */
  function Pushed(src: State): State {
    match src
    case ArrayInitial => Element
    case ElementDelimiter => Element
    case KeyValueDelimiter => MemberValue
    case _ => src
  }

  /** The state restored when a container closes. */
  function Restored(restore: State): State {
    if restore.Start? then Finish else restore
  }

  /** `HandleError`: the code for stopping in a state. */
  function HandleError(st: State): ErrorCode {
    match st
    case Start => DocumentEmpty
    case Finish => DocumentRootNotSingular
    case ObjectInitial => ObjectMissName
    case MemberDelimiter => ObjectMissName
    case MemberKey => ObjectMissColon
    case MemberValue => ObjectMissCommaOrCurlyBracket
    case KeyValueDelimiter => ValueInvalid
    case ArrayInitial => ValueInvalid
    case ElementDelimiter => ValueInvalid
    case _ => ArrayMissCommaOrSquareBracket
  }

  function FromParsed(r: Parsed, st: State, stack: seq<Frame>): Moved {
    match r
    case Failed(code, o, evs) => Halt(code, o, evs)
    case Parsed(q, evs) => Next(Config(st, stack, q, evs))
  }

  /** Closing a container: the last member or element is counted unless a delimiter was. */
  function Close(c: Config, last: bool, isObject: bool): (r: Config)
    requires c.stack != []
  {
    var top := c.stack[|c.stack| - 1];
    var n := if last then top.count + 1 else top.count;
    Config(Restored(top.restore), c.stack[..|c.stack| - 1], c.pos + 1,
      c.events + [if isObject then EndObject(n) else EndArray(n)])
  }

  /** `Transit`, on the token that the next character announces. */
  function Transit(fl: Flags, s: Text, c: Config): (r: Moved)
    requires c.pos <= |s| && Sound(c.state, c.stack)
    ensures r.Next? ==> c.pos < r.config.pos <= |s|
    ensures r.Next? ==> Sound(r.config.state, r.config.stack)
  {
    var src, p, evs := c.state, c.pos, c.events;
    var dst := Predict(src, Tokenize(Peek(s, p)));
    match dst
    case ObjectInitial => Next(Config(dst, c.stack + [Frame(Pushed(src), 0)], p + 1, evs + [StartObject]))
    case ArrayInitial => Next(Config(dst, c.stack + [Frame(Pushed(src), 0)], p + 1, evs + [StartArray]))
    case MemberKey => FromParsed(ParseString(fl, s, p, true, evs), dst, c.stack)
    case KeyValueDelimiter => Next(Config(dst, c.stack, p + 1, evs))
    case MemberValue => FromParsed(ParseValue(fl, s, p, evs), dst, c.stack)
    case Element => FromParsed(ParseValue(fl, s, p, evs), dst, c.stack)
    case MemberDelimiter => Next(Config(dst, Counted(c.stack), p + 1, evs))
    case ElementDelimiter => Next(Config(dst, Counted(c.stack), p + 1, evs))
    case ObjectFinish =>
      if !fl.trailingCommas && src.MemberDelimiter? then Halt(ObjectMissName, p, evs)
      else Next(Close(c, src.MemberValue?, true))
    case ArrayFinish =>
      if !fl.trailingCommas && src.ElementDelimiter? then Halt(ValueInvalid, p, evs)
      else Next(Close(c, src.Element?, false))
    case SingleValue => FromParsed(ParseValue(fl, s, p, evs), Finish, c.stack)
    case _ => Halt(HandleError(src), p, evs)
  }

  /** One more delimiter in the open container. */
  function Counted(stack: seq<Frame>): seq<Frame>
    requires stack != []
  {
    var top := stack[|stack| - 1];
    stack[|stack| - 1 := top.(count := top.count + 1)]
  }

  /** The loop of `IterativeParse` at its head. */
  function Run(fl: Flags, s: Text, c: Config): (r: Parsed)
    requires c.pos <= |s| && Sound(c.state, c.stack)
    decreases |s| - c.pos, 1
  {
    if Peek(s, c.pos) == NUL then
      if c.state.Finish? then Parsed(c.pos, c.events) else Failed(HandleError(c.state), c.pos, c.events)
    else
      match Transit(fl, s, c)
      case Halt(code, o, evs) => Failed(code, o, evs)
      case Next(c) => Resume(fl, s, c)
  }

  /** The rest of the loop body after a transition, and what follows. */
  function Resume(fl: Flags, s: Text, c: Config): (r: Parsed)
    requires c.pos <= |s| && Sound(c.state, c.stack)
    decreases |s| - c.pos, 2
  {
    if fl.stopWhenDone && c.state.Finish? then Parsed(c.pos, c.events)
    else
      match Skip(fl, s, c.pos)
      case Unterminated(o) => Failed(UnspecificSyntaxError, o, c.events)
      case To(q) => Run(fl, s, c.(pos := q))
  }

  /** `IterativeParse`. */
  function IterativeDocument(fl: Flags, s: Text): Parsed {
    match Skip(fl, s, 0)
    case Unterminated(o) => Failed(UnspecificSyntaxError, o, [])
    case To(p) => Run(fl, s, Config(Start, [], p, []))
  }

  // ---- token by token ----

  predicate IsDelimiter(st: State) {
    st.MemberDelimiter? || st.ElementDelimiter? || st.KeyValueDelimiter?
  }

  /**
   The outcome of one `IterativeParseNext`.  It does not look at the error of a comment that is cut
   short: behind the root it may then report success with the error set (`Tainted`), and elsewhere,
   unless the next token is refused anyway, it makes the next transition with the error set
   (`Overlooked`).
   */
  datatype Call =
    | More(config: Config)
    | Complete(config: Config)
    | Refused(code: ErrorCode, offset: nat, events: seq<Event>)
    | Tainted(offset: nat, config: Config)
    | Overlooked(offset: nat, events: seq<Event>)

  /** `IterativeParseNext`, up to a transition made with an error set. */
  function NextCall(fl: Flags, s: Text, c: Config): (r: Call)
    requires c.pos <= |s| && Sound(c.state, c.stack)
    ensures r.More? ==> c.pos < r.config.pos <= |s| && Sound(r.config.state, r.config.stack)
    decreases |s| - c.pos
  {
    if Peek(s, c.pos) == NUL then
      if c.state.Finish? then Complete(c) else Refused(HandleError(c.state), c.pos, c.events)
    else
      match Skip(fl, s, c.pos)
      case Unterminated(o) =>
        if Predict(c.state, Tokenize(Peek(s, o))).ErrorState? then Refused(UnspecificSyntaxError, o, c.events)
        else Overlooked(o, c.events)
      case To(p) =>
        match Transit(fl, s, c.(pos := p))
        case Halt(code, o, evs) => Refused(code, o, evs)
        case Next(n) =>
          if n.state.Finish? then AfterRoot(fl, s, n)
          else if IsDelimiter(n.state) then NextCall(fl, s, n)
          else More(n)
  }

  /** The end of the call that completed the root. */
  function AfterRoot(fl: Flags, s: Text, n: Config): (r: Call)
    requires n.pos <= |s|
    ensures !r.More?
  {
    if fl.stopWhenDone then Complete(n)
    else
      match Skip(fl, s, n.pos)
      case Unterminated(o) =>
        if Peek(s, o) == NUL then Tainted(o, n) else Refused(UnspecificSyntaxError, o, n.events)
      case To(q) =>
        if Peek(s, q) != NUL then Refused(HandleError(n.state), q, n.events) else Complete(n.(pos := q))
  }

  /** How a series of calls ends. */
  datatype Driven =
    | Ended(outcome: Parsed)
    | EndedTainted(offset: nat, events: seq<Event>)
    | WentOn(offset: nat, events: seq<Event>)

  /** Calls until one completes or refuses. */
  function Drive(fl: Flags, s: Text, c: Config): Driven
    requires c.pos <= |s| && Sound(c.state, c.stack)
    decreases |s| - c.pos
  {
    match NextCall(fl, s, c)
    case More(n) => Drive(fl, s, n)
    case Complete(n) => Ended(Parsed(n.pos, n.events))
    case Refused(code, o, evs) => Ended(Failed(code, o, evs))
    case Tainted(o, n) => EndedTainted(o, n.events)
    case Overlooked(o, evs) => WentOn(o, evs)
  }

  /** A parse with `IterativeParseInit` and `IterativeParseNext`. */
  function TokenByToken(fl: Flags, s: Text): Driven {
    Drive(fl, s, Config(Start, [], 0, []))
  }
}
