/** The reader accepts exactly the texts of the grammar, and sends their events. */
module JsonGrammar {
  import opened Bytes
  import opened Json
  import opened Grammar
  import opened JsonText
  import opened TokenGrammar
  import Numbers = NumberSyntax
  import Strings = StringSyntax

  // ---- white space ----

  /** The reader skips the white space of the grammar. */
  lemma WhiteIsSpace(c: byte)
    ensures IsWhite(c) <==> IsSpace(c)
  {
  }

  lemma NulIsNoSpace()
    ensures !IsSpace(NUL)
  {
  }

  lemma SpaceSkipped(fl: Flags, s: Text, p: nat)
    requires p < |s| && IsSpace(s[p])
    ensures Skip(fl, s, p) == Skip(fl, s, p + 1)
  {
    hide SkipComments;
  }

  lemma {:induction false} BlockSkipped(s: Text, p: nat, t: Text, i: nat)
    requires At(s, p, t) && BlockComment(t) && 2 <= i <= |t| - 2
    ensures SkipBlock(s, p + i) == To(p + |t|)
    decreases |t| - i
  {
    AtPeek(s, p, t, i);
    AtPeek(s, p, t, i + 1);
    if i < |t| - 2 {
      BlockSkipped(s, p, t, i + 1);
    }
  }

  lemma {:induction false} LineSkipped(s: Text, p: nat, t: Text, i: nat)
    requires At(s, p, t) && LineComment(t) && 2 <= i < |t|
    ensures SkipLine(s, p + i) == p + |t|
    decreases |t| - i
  {
    AtPeek(s, p, t, i);
    if i < |t| - 1 {
      assert t[..|t| - 1][i] == t[i];
      LineSkipped(s, p, t, i + 1);
    }
  }

  lemma CommentSkipped(fl: Flags, s: Text, p: nat, t: Text)
    requires fl.comments && At(s, p, t) && Comment(t)
    ensures p + |t| <= |s| && Skip(fl, s, p) == Skip(fl, s, p + |t|)
  {
    hide SkipBlock, SkipLine;
    CommentLength(t);
    AtPeek(s, p, t, 0);
    AtPeek(s, p, t, 1);
    if BlockComment(t) {
      BlockSkipped(s, p, t, 2);
    } else {
      LineSkipped(s, p, t, 2);
    }
  }

  lemma CommentLength(t: Text)
    requires Comment(t)
    ensures |t| >= 3 && t[0] == SLASH && (t[1] == if BlockComment(t) then STAR else SLASH)
  {
    if LineComment(t) {
      var body := t[..|t| - 1];
      assert body[0] == t[0] && body[1] == t[1];
    }
  }

  /** Skipping from before a gap is skipping from behind it. */
  lemma {:induction false} GapSkipped(fl: Flags, s: Text, p: nat, w: Text)
    requires At(s, p, w) && Gap(fl, w)
    ensures p + |w| <= |s| && Skip(fl, s, p) == Skip(fl, s, p + |w|)
    decreases |w|
  {
    hide *;
    if w == [] {
      AtNothing(s, p);
    } else {
      var n := GapCut(fl, w);
      assert w == w[..n] + w[n..];
      AtConcat(s, p, w[..n], w[n..]);
      if n == 1 {
        WhiteIsSpace(w[0]);
        AtPeek(s, p, w, 0);
        PeekInside(s, p);
        NulIsNoSpace();
        SpaceSkipped(fl, s, p);
      } else {
        CommentSkipped(fl, s, p, w[..n]);
      }
      GapSkipped(fl, s, p + n, w[n..]);
    }
  }

  lemma AtNothing(s: Text, p: nat)
    requires At(s, p, [])
    ensures p <= |s|
  {
  }

  /** The first white space or comment of a gap. */
  lemma GapCut(fl: Flags, w: Text) returns (n: nat)
    requires Gap(fl, w) && w != []
    ensures 0 < n <= |w| && Gap(fl, w[n..])
    ensures n == 1 ==> IsWhite(w[0])
    ensures n > 1 ==> fl.comments && Comment(w[..n])
  {
    hide Comment, IsWhite;
    if IsWhite(w[0]) && Gap(fl, w[1..]) {
      n := 1;
    } else {
      n :| 2 < n <= |w| && Comment(w[..n]) && Gap(fl, w[n..]);
    }
  }

  lemma NoGap(fl: Flags, s: Text, p: nat)
    requires p <= |s| && !IsSpace(Peek(s, p)) && Peek(s, p) != SLASH
    ensures Skip(fl, s, p) == To(p)
  {
  }

  /** A gap is skipped up to what follows it, if that starts no further one. */
  lemma GapRead(fl: Flags, s: Text, p: nat, w: Text)
    requires At(s, p, w) && Gap(fl, w) && !IsSpace(Peek(s, p + |w|)) && Peek(s, p + |w|) != SLASH
    ensures p <= |s| && Skip(fl, s, p) == To(p + |w|)
  {
    hide Skip, IsSpace, Gap;
    GapSkipped(fl, s, p, w);
    NoGap(fl, s, p + |w|);
  }

  lemma {:induction false} OpenSkipped(s: Text, p: nat, t: Text, i: nat)
    requires At(s, p, t) && OpenComment(t) && 2 <= i <= |t| && p + |t| == |s|
    ensures SkipLine(s, p + i) == |s|
    decreases |t| - i
  {
    if i < |t| {
      AtPeek(s, p, t, i);
      OpenSkipped(s, p, t, i + 1);
    }
  }

  /** What may stand behind the root is skipped to the end of the text. */
  lemma LastGapRead(fl: Flags, s: Text, p: nat, w: Text)
    requires At(s, p, w) && LastGap(fl, w) && p + |w| == |s|
    ensures Skip(fl, s, p) == To(|s|)
  {
    hide Gap, Skip, OpenComment;
    NulIsNoSpace();
    if Gap(fl, w) {
      GapRead(fl, s, p, w);
    } else {
      var n :| 0 <= n <= |w| && Gap(fl, w[..n]) && OpenComment(w[n..]);
      assert w == w[..n] + w[n..];
      AtConcat(s, p, w[..n], w[n..]);
      GapSkipped(fl, s, p, w[..n]);
      OpenRead(fl, s, p + n, w[n..]);
    }
  }

  lemma OpenRead(fl: Flags, s: Text, p: nat, t: Text)
    requires fl.comments && At(s, p, t) && OpenComment(t) && p + |t| == |s|
    ensures Skip(fl, s, p) == To(|s|)
  {
    hide SkipLine, SkipBlock;
    AtPeek(s, p, t, 0);
    AtPeek(s, p, t, 1);
    OpenSkipped(s, p, t, 2);
    NothingAtEnd(s, |s|);
  }

  // ---- what is skipped is a gap ----

  lemma {:induction false} GapThenGap(fl: Flags, a: Text, b: Text)
    requires Gap(fl, a) && Gap(fl, b)
    ensures Gap(fl, a + b)
    decreases |a|
  {
    hide Comment, IsWhite;
    if a == [] {
      assert a + b == b;
    } else {
      var n := GapCut(fl, a);
      GapThenGap(fl, a[n..], b);
      assert (a + b)[..n] == a[..n] && (a + b)[n..] == a[n..] + b && (a + b)[0] == a[0];
      if n > 1 {
        CommentLength(a[..n]);
      }
    }
  }

  lemma GapConcat(fl: Flags, a: Text, b: Text)
    requires Gap(fl, a)
    ensures Gap(fl, b) ==> Gap(fl, a + b)
    ensures LastGap(fl, b) ==> LastGap(fl, a + b)
  {
    hide Gap, OpenComment;
    if Gap(fl, b) {
      GapThenGap(fl, a, b);
    } else if LastGap(fl, b) {
      var n :| 0 <= n <= |b| && Gap(fl, b[..n]) && OpenComment(b[n..]);
      GapThenGap(fl, a, b[..n]);
      assert (a + b)[..|a| + n] == a + b[..n] && (a + b)[|a| + n..] == b[n..];
    }
  }

  lemma {:induction false} SpacesSound(fl: Flags, s: Text, p: nat)
    requires p <= |s|
    ensures Gap(fl, s[p..SkipSpaces(s, p)])
    decreases |s| - p
  {
    hide IsSpace, IsWhite;
    if IsSpace(Peek(s, p)) {
      NulIsNoSpace();
      WhiteIsSpace(s[p]);
      SpacesSound(fl, s, p + 1);
      var q := SkipSpaces(s, p);
      assert s[p..q] == [s[p]] + s[p + 1..q];
    }
  }

  lemma {:induction false} BlockSound(s: Text, p: nat)
    requires p <= |s| && SkipBlock(s, p).To?
    ensures var e := SkipBlock(s, p).pos;
      && p + 2 <= e <= |s| && s[e - 2] == STAR && s[e - 1] == SLASH
      && forall i :: p <= i < e - 2 ==> s[i] != NUL && (s[i] != STAR || s[i + 1] != SLASH)
    decreases |s| - p
  {
    if Peek(s, p) != STAR || Peek(s, p + 1) != SLASH {
      BlockSound(s, p + 1);
    }
  }

  lemma BlockIsComment(s: Text, p: nat)
    requires p + 2 <= |s| && s[p] == SLASH && s[p + 1] == STAR && SkipBlock(s, p + 2).To?
    ensures p + 4 <= SkipBlock(s, p + 2).pos <= |s| && BlockComment(s[p..SkipBlock(s, p + 2).pos])
  {
    hide SkipBlock;
    BlockSound(s, p + 2);
    var e := SkipBlock(s, p + 2).pos;
    var t := s[p..e];
    forall i | 0 <= i < |t|
      ensures t[i] != NUL
    {
      assert t[i] == s[p + i];
    }
  }

  lemma {:induction false} LineSound(s: Text, p: nat)
    requires p <= |s|
    ensures var e := SkipLine(s, p);
      && p <= e <= |s|
      && (Peek(s, e) == NUL || (p < e && s[e - 1] == LF))
      && (forall i :: p <= i < e - 1 ==> s[i] != NUL && s[i] != LF)
      && (p < e && s[e - 1] != LF ==> s[e - 1] != NUL && Peek(s, e) == NUL)
    decreases |s| - p
  {
    if Peek(s, p) != NUL && Peek(s, p) != LF {
      LineSound(s, p + 1);
    }
  }

  lemma LineIsComment(s: Text, p: nat)
    requires p + 2 <= |s| && s[p] == SLASH && s[p + 1] == SLASH
    ensures var e := SkipLine(s, p + 2);
      && p + 2 <= e <= |s|
      && (if p + 2 < e && s[e - 1] == LF then LineComment(s[p..e])
          else OpenComment(s[p..e]) && Peek(s, e) == NUL)
  {
    hide SkipLine;
    LineSound(s, p + 2);
    var e := SkipLine(s, p + 2);
    var t := s[p..e];
    var body := if p + 2 < e && s[e - 1] == LF then t[..|t| - 1] else t;
    forall i | 0 <= i < |body|
      ensures body[i] != NUL && body[i] != LF
    {
      assert body[i] == s[p + i];
    }
  }

  lemma OneComment(fl: Flags, t: Text)
    requires fl.comments && Comment(t)
    ensures Gap(fl, t)
  {
    hide Comment;
    CommentLength(t);
    assert t[..|t|] == t && t[|t|..] == [];
  }

  lemma {:induction false} CommentsSound(fl: Flags, s: Text, p: nat)
    requires fl.comments && p <= |s| && SkipComments(s, p).To?
    ensures var q := SkipComments(s, p).pos;
      p <= q <= |s| && LastGap(fl, s[p..q]) && (Peek(s, q) != NUL ==> Gap(fl, s[p..q]))
    decreases |s| - p
  {
    hide SkipBlock, SkipLine, SkipSpaces, Gap, BlockComment, LineComment, OpenComment;
    NothingBetween(fl);
    NulIsNoSpace();
    if Peek(s, p) != SLASH {
      assert s[p..p] == [];
    } else {
      var q := SkipComments(s, p).pos;
      if Peek(s, p + 1) == STAR {
        var e := SkipBlock(s, p + 2).pos;
        BlockIsComment(s, p);
        CommentThenMore(fl, s, p, e, q);
      } else {
        var e := SkipLine(s, p + 2);
        LineIsComment(s, p);
        if p + 2 < e && s[e - 1] == LF {
          CommentThenMore(fl, s, p, e, q);
        } else {
          NothingAtEnd(s, e);
          assert s[p..q][..0] == [] && s[p..q][0..] == s[p..q];
        }
      }
    }
  }

  lemma NothingBetween(fl: Flags)
    ensures Gap(fl, [])
  {
  }

  lemma NothingAtEnd(s: Text, e: nat)
    requires e <= |s| && Peek(s, e) == NUL
    ensures SkipSpaces(s, e) == e && SkipComments(s, e) == To(e)
  {
  }

  lemma {:induction false} CommentThenMore(fl: Flags, s: Text, p: nat, e: nat, q: nat)
    requires fl.comments && p < e <= |s| && Comment(s[p..e]) && SkipComments(s, SkipSpaces(s, e)) == To(q)
    ensures p <= q <= |s| && LastGap(fl, s[p..q]) && (Peek(s, q) != NUL ==> Gap(fl, s[p..q]))
    decreases |s| - p, 0
  {
    hide SkipBlock, SkipLine, SkipComments, SkipSpaces, Gap, LastGap, Comment;
    var f := SkipSpaces(s, e);
    OneComment(fl, s[p..e]);
    SpacesSound(fl, s, e);
    CommentsSound(fl, s, f);
    assert s[p..q] == s[p..e] + (s[e..f] + s[f..q]);
    GapConcat(fl, s[e..f], s[f..q]);
    GapConcat(fl, s[p..e], s[e..f] + s[f..q]);
  }

  /** What is skipped is a gap, or a last one where the text ends. */
  lemma SkipSound(fl: Flags, s: Text, p: nat)
    requires p <= |s|
    ensures !fl.comments ==> Skip(fl, s, p).To?
    ensures Skip(fl, s, p).To? ==>
      var q := Skip(fl, s, p).pos;
      LastGap(fl, s[p..q]) && (Peek(s, q) != NUL ==> Gap(fl, s[p..q]))
  {
    hide SkipSpaces, SkipComments, Gap;
    SpacesSound(fl, s, p);
    if fl.comments && Skip(fl, s, p).To? {
      var f, q := SkipSpaces(s, p), Skip(fl, s, p).pos;
      CommentsSound(fl, s, f);
      assert s[p..q] == s[p..f] + s[f..q];
      GapConcat(fl, s[p..f], s[f..q]);
    }
  }

  /** White space is a gap whatever the flags. */
  lemma {:induction false} WhiteGap(fl: Flags, w: Text)
    requires forall i :: 0 <= i < |w| ==> IsWhite(w[i])
    ensures Gap(fl, w)
    decreases |w|
  {
    hide IsWhite;
    if w != [] {
      WhiteGap(fl, w[1..]);
    }
  }

  lemma Stops()
    ensures Punctuation(COMMA) && Punctuation(RBRACKET) && Punctuation(RBRACE)
    ensures COMMA != COLON && RBRACKET != COLON && RBRACE != COLON
    ensures COMMA != NUL && RBRACKET != NUL && RBRACE != NUL
    ensures !IsSpace(COMMA) && !IsSpace(COLON) && !IsSpace(RBRACKET) && !IsSpace(RBRACE)
    ensures !GoesOn(COMMA) && !GoesOn(RBRACKET) && !GoesOn(RBRACE)
    ensures !GoesOn(SLASH) && forall c: byte :: IsWhite(c) ==> !GoesOn(c)
  {
  }

  /** A gap starts with white space or a comment. */
  lemma GapStarts(fl: Flags, w: Text)
    requires LastGap(fl, w) && w != []
    ensures IsWhite(w[0]) || w[0] == SLASH
  {
    hide Comment, IsWhite;
    if !Gap(fl, w) {
      var n :| 0 <= n <= |w| && Gap(fl, w[..n]) && OpenComment(w[n..]);
      if n == 0 {
        assert w[0] == w[n..][0];
      } else {
        assert w[0] == w[..n][0];
        InnerGapStarts(fl, w[..n]);
      }
    } else {
      InnerGapStarts(fl, w);
    }
  }

  lemma InnerGapStarts(fl: Flags, w: Text)
    requires Gap(fl, w) && w != []
    ensures IsWhite(w[0]) || w[0] == SLASH
  {
    hide Comment, IsWhite;
    if !IsWhite(w[0]) {
      var n :| 2 < n <= |w| && Comment(w[..n]) && Gap(fl, w[n..]);
      CommentLength(w[..n]);
    }
  }

  lemma GapIsLast(fl: Flags, w: Text)
    requires Gap(fl, w)
    ensures LastGap(fl, w)
  {
  }

  predicate Punctuation(c: byte) {
    c == COMMA || c == COLON || c == RBRACKET || c == RBRACE
  }

  /** A gap and the punctuation behind it: where the gap ends, and that its first character ends a number. */
  lemma GapThen(fl: Flags, s: Text, p: nat, gap: Text, c: byte)
    requires Gap(fl, gap) && Punctuation(c) && At(s, p, gap + [c])
    ensures p < |s| && (c != COLON ==> !GoesOn(Peek(s, p)))
    ensures p + |gap| < |s| && Peek(s, p + |gap|) == c && Skip(fl, s, p) == To(p + |gap|)
  {
    hide Skip, IsSpace, IsWhite, Gap;
    if gap != [] {
      GapIsLast(fl, gap);
      GapStarts(fl, gap);
      assert (gap + [c])[0] == gap[0];
    }
    AtConcat(s, p, gap, [c]);
    AtPeek(s, p, gap + [c], 0);
    AtPeek(s, p + |gap|, [c], 0);
    Stops();
    GapRead(fl, s, p, gap);
  }

  // ---- scalars ----

  lemma LiteralComplete(s: Text, p: nat, literal: Text, ev: Event, evs: seq<Event>)
    requires literal != [] && forall i :: 0 <= i < |literal| ==> literal[i] != NUL
    requires At(s, p, literal)
    ensures p < |s| && Peek(s, p) == literal[0]
    ensures ParseLiteral(s, p, literal, ev, evs) == Parsed(p + |literal|, evs + [ev])
  {
    hide Matched;
    forall i | 0 <= i < |literal|
      ensures Peek(s, p + i) == literal[i]
    {
      AtPeek(s, p, literal, i);
    }
    assert Peek(s, p + 0) == literal[0];
  }

  /** The first character of a value starts no gap and closes nothing. */
  predicate Opens(c: byte) {
    !IsSpace(c) && c != SLASH && c != RBRACKET && c != RBRACE && c != NUL
  }

  lemma FirstChar(fl: Flags, t: Tree)
    requires TreeOk(fl, t)
    ensures Spell(t) != [] && Opens(Spell(t)[0])
  {
    hide SpellItems, SpellFields, ItemsOk, FieldsOk, UnitsText, FractionText, ExponentText, InRange;
    if t.NumberTree? {
      var n := t.numeral;
      assert IsDigit(n.whole[0]);
      assert NumeralText(n)[0] == (SignText(n) + n.whole)[0];
    }
  }

  lemma OpensSomething(c: byte)
    requires Opens(c)
    ensures !IsSpace(c) && c != SLASH && c != RBRACKET && c != RBRACE && c != NUL
  {
  }

  lemma ScalarComplete(fl: Flags, t: Tree, s: Text, p: nat, evs: seq<Event>)
    requires TreeOk(fl, t) && !t.ArrayTree? && !t.ObjectTree?
    requires At(s, p, Spell(t)) && !GoesOn(Peek(s, p + |Spell(t)|))
    ensures p <= |s| && ParseValue(fl, s, p, evs) == Parsed(p + |Spell(t)|, evs + Send(t))
  {
    hide ParseLiteral, Numbers.ParseNumber, Strings.ParseString, NumeralText, StringText, InRange, UnitsOk, UnitsBytes;
    match t
    case NullTree => LiteralComplete(s, p, NULL_TEXT, Null, evs);
    case BoolTree(b) => LiteralComplete(s, p, if b then TRUE_TEXT else FALSE_TEXT, Bool(b), evs);
    case NumberTree(n) => NumeralComplete(fl, n, s, p);
    case StringTree(us) => StringComplete(fl.validateEncoding, us, s, p);
    case _ =>
  }

  lemma ScalarSound(fl: Flags, s: Text, p: nat, evs: seq<Event>) returns (t: Tree)
    requires p <= |s| && ParseScalar(fl, s, p, evs).Parsed?
    ensures var r := ParseScalar(fl, s, p, evs);
      TreeOk(fl, t) && s[p..r.pos] == Spell(t) && r.events == evs + Send(t)
  {
    hide Matched, Numbers.ParseNumber, Strings.ParseString, NumeralText, StringText, InRange, NumeralOk, NumeralEvent;
    hide UnitsOk, UnitsBytes;
    var c := Peek(s, p);
    var r := ParseScalar(fl, s, p, evs);
    if c == NULL_TEXT[0] {
      LiteralSound(s, p, NULL_TEXT);
      t := NullTree;
    } else if c == TRUE_TEXT[0] {
      LiteralSound(s, p, TRUE_TEXT);
      t := BoolTree(true);
    } else if c == FALSE_TEXT[0] {
      LiteralSound(s, p, FALSE_TEXT);
      t := BoolTree(false);
    } else if c == QUOTE {
      var us := StringSound(fl.validateEncoding, s, p);
      t := StringTree(us);
    } else {
      var n := NumeralSound(fl, s, p);
      t := NumberTree(n);
    }
  }

  lemma LiteralSound(s: Text, p: nat, literal: Text)
    requires p <= |s| && literal != [] && forall i :: 0 <= i < |literal| ==> literal[i] != NUL
    ensures Matched(s, p, literal) == |literal| ==> p + |literal| <= |s| && s[p..p + |literal|] == literal
  {
    hide Matched;
    var n := Matched(s, p, literal);
    if n == |literal| {
      assert Peek(s, p + (n - 1)) == literal[n - 1];
      forall i | 0 <= i < n
        ensures s[p..p + n][i] == literal[i]
      {
        assert Peek(s, p + i) == literal[i];
      }
    }
  }

  // ---- completeness: what the grammar spells is read ----

  lemma {:induction false} ValueComplete(fl: Flags, t: Tree, s: Text, p: nat, evs: seq<Event>)
    requires TreeOk(fl, t) && At(s, p, Spell(t)) && !GoesOn(Peek(s, p + |Spell(t)|))
    ensures p <= |s| && ParseValue(fl, s, p, evs) == Parsed(p + |Spell(t)|, evs + Send(t))
    decreases t, 2
  {
    hide *;
    if t.ArrayTree? {
      ArrayComplete(fl, t, s, p, evs);
    } else if t.ObjectTree? {
      ObjectComplete(fl, t, s, p, evs);
    } else {
      ScalarComplete(fl, t, s, p, evs);
    }
  }

  /** The text of items behind the gap before the first, up to the bracket. */
  function ItemsBody(items: seq<Item>, bracket: Text): Text
    requires items != []
  {
    var it := items[0];
    Spell(it.tree) + (it.after + (if |items| == 1 then bracket
                                  else [COMMA] + (items[1].before + ItemsBody(items[1..], bracket))))
  }

  lemma {:induction false} ItemsSpell(items: seq<Item>, bracket: Text)
    requires items != []
    ensures SpellItems(items) + bracket == items[0].before + ItemsBody(items, bracket)
  {
    hide Spell;
    var it, head := items[0], Spell(items[0].tree);
    if |items| == 1 {
      assert it.before + (head + (it.after + [])) + bracket == it.before + (head + (it.after + bracket));
    } else {
      ItemsSpell(items[1..], bracket);
      var rest, body := SpellItems(items[1..]), ItemsBody(items[1..], bracket);
      assert rest + bracket == items[1].before + body;
      assert it.before + (head + (it.after + ([COMMA] + rest))) + bracket
          == it.before + (head + (it.after + ([COMMA] + (rest + bracket))));
    }
  }

  lemma ItemsFirst(fl: Flags, items: seq<Item>, bracket: Text)
    requires items != [] && ItemsOk(fl, items)
    ensures var b := ItemsBody(items, bracket); b != [] && Opens(b[0])
    ensures TreeOk(fl, items[0].tree) && Gap(fl, items[0].before) && Gap(fl, items[0].after) &&
        ItemsOk(fl, items[1..])
  {
    hide Spell, TreeOk, Opens, Gap;
    FirstChar(fl, items[0].tree);
  }

  lemma {:induction false} ArrayComplete(fl: Flags, t: Tree, s: Text, p: nat, evs: seq<Event>)
    requires t.ArrayTree? && TreeOk(fl, t) && At(s, p, Spell(t))
    ensures p <= |s| && ParseValue(fl, s, p, evs) == Parsed(p + |Spell(t)|, evs + Send(t))
    decreases t, 1
  {
    hide *;
    var items, gap, evs' := t.items, t.gap, evs + [StartArray];
    var bracket := t.last + [RBRACKET];
    Stops();
    NoNul();
    ArrayParts(fl, t);
    OpeningAt(s, p, LBRACKET, gap + (SpellItems(items) + bracket));
    if items == [] {
      NothingSpelled();
      assert gap + (SpellItems(items) + bracket) == gap + [RBRACKET];
      GapThen(fl, s, p + 1, gap, RBRACKET);
      ArrayOpened(fl, s, p, evs);
      assert evs' + [EndArray(0)] == evs + ([StartArray] + [] + [EndArray(0)]);
    } else {
      var first, body := items[0], ItemsBody(items, bracket);
      ItemsSpell(items, bracket);
      ItemsFirst(fl, items, bracket);
      assert gap + (SpellItems(items) + bracket) == first.before + body;
      GapOpens(fl, s, p + 1, first.before, body);
      ArrayOpened(fl, s, p, evs);
      ItemsComplete(fl, items, t.last, 0, s, p + 1 + |first.before|, evs');
      assert evs' + SendItems(items) + [EndArray(|items|)]
          == evs + ([StartArray] + SendItems(items) + [EndArray(|items|)]);
    }
  }

  lemma ArrayParts(fl: Flags, t: Tree)
    requires t.ArrayTree? && TreeOk(fl, t)
    ensures Gap(fl, t.gap) && ItemsOk(fl, t.items) && Trailing(fl, t.last)
    ensures if t.items == [] then t.last == [] else t.gap == []
    ensures Spell(t) == [LBRACKET] + (t.gap + (SpellItems(t.items) + (t.last + [RBRACKET])))
    ensures Send(t) == [StartArray] + SendItems(t.items) + [EndArray(|t.items|)]
  {
    hide Gap, Trailing, ItemsOk, SpellItems, SendItems;
  }

  /** Where reading goes on behind the opening bracket. */
  lemma ArrayOpened(fl: Flags, s: Text, p: nat, evs: seq<Event>)
    requires p < |s| && Peek(s, p) == LBRACKET && Skip(fl, s, p + 1).To?
    ensures var q := Skip(fl, s, p + 1).pos;
      ParseValue(fl, s, p, evs)
      == if Peek(s, q) == RBRACKET then Parsed(q + 1, evs + [StartArray] + [EndArray(0)])
         else ParseElements(fl, s, q, 0, evs + [StartArray])
  {
    hide Skip, ParseElements;
  }

  lemma NoNul()
    ensures LBRACKET != NUL && LBRACE != NUL
  {
  }

  lemma OpeningAt(s: Text, p: nat, bracket: byte, inner: Text)
    requires At(s, p, [bracket] + inner) && bracket != NUL
    ensures p < |s| && s[p] == Peek(s, p) == bracket && At(s, p + 1, inner)
  {
    AtConcat(s, p, [bracket], inner);
    AtPeek(s, p, [bracket], 0);
  }

  lemma PeekInside(s: Text, p: nat)
    ensures Peek(s, p) != NUL ==> p < |s| && s[p] == Peek(s, p)
  {
  }

  lemma NothingSpelled()
    ensures SpellItems([]) == [] && SendItems([]) == [] && SpellFields([]) == [] && SendFields([]) == []
  {
  }

  /** A gap and the value behind it. */
  lemma GapOpens(fl: Flags, s: Text, p: nat, gap: Text, body: Text)
    requires Gap(fl, gap) && body != [] && Opens(body[0]) && At(s, p, gap + body)
    ensures p <= |s| && Skip(fl, s, p) == To(p + |gap|) && At(s, p + |gap|, body)
    ensures var c := Peek(s, p + |gap|);
      c == body[0] && !IsSpace(c) && c != SLASH && c != RBRACKET && c != RBRACE && c != NUL
  {
    hide Skip, Gap, IsSpace, At;
    AtConcat(s, p, gap, body);
    AtPeek(s, p + |gap|, body, 0);
    GapRead(fl, s, p, gap);
  }

  lemma {:induction false} ItemsComplete(fl: Flags, items: seq<Item>, last: Text, i: nat, s: Text, q: nat,
      evs: seq<Event>)
    requires items != [] && ItemsOk(fl, items) && Trailing(fl, last)
    requires At(s, q, ItemsBody(items, last + [RBRACKET]))
    ensures q <= |s|
    ensures ParseElements(fl, s, q, i, evs)
         == Parsed(q + |ItemsBody(items, last + [RBRACKET])|, evs + SendItems(items) + [EndArray(i + |items|)])
    decreases items, 0
  {
    hide *;
    Stops();
    var bracket := last + [RBRACKET];
    ItemsFirst(fl, items, bracket);
    var it, rest := items[0], items[1..];
    var head := Spell(it.tree);
    var e := q + |head|;
    var evs' := evs + Send(it.tree);
    if rest == [] {
      LastItem(items, bracket);
      AtConcat(s, q, head, it.after + bracket);
      LastBracket(fl, s, e, it.after, last, RBRACKET);
      ValueComplete(fl, it.tree, s, q, evs);
      ElementsLast(fl, s, q, i, evs, last);
    } else {
      NextItem(items, bracket);
      ItemsFirst(fl, rest, bracket);
      var next, body := rest[0], ItemsBody(rest, bracket);
      AtConcat(s, q, head, it.after + [COMMA] + (next.before + body));
      AtConcat(s, e, it.after + [COMMA], next.before + body);
      GapThen(fl, s, e, it.after, COMMA);
      ValueComplete(fl, it.tree, s, q, evs);
      var n := e + |it.after| + 1;
      GapOpens(fl, s, n, next.before, body);
      ElementsNext(fl, s, q, i, evs);
      ItemsComplete(fl, rest, last, i + 1, s, n + |next.before|, evs');
      assert evs' + SendItems(rest) == evs + SendItems(items);
    }
  }

  /** What stands behind the last value: its gap and the bracket, or a comma and a gap before the bracket. */
  lemma LastBracket(fl: Flags, s: Text, e: nat, after: Text, last: Text, bracket: byte)
    requires Gap(fl, after) && Trailing(fl, last) && (bracket == RBRACKET || bracket == RBRACE)
    requires At(s, e, after + (last + [bracket]))
    ensures e <= |s| && !GoesOn(Peek(s, e)) && e + |after| + |last| < |s|
    ensures Skip(fl, s, e) == To(e + |after|)
    ensures last == [] ==> Peek(s, e + |after|) == bracket
    ensures last != [] ==>
      && fl.trailingCommas && Peek(s, e + |after|) == COMMA
      && Skip(fl, s, e + |after| + 1) == To(e + |after| + |last|) && Peek(s, e + |after| + |last|) == bracket
  {
    hide Skip, Gap, GoesOn, At;
    if last == [] {
      assert last + [bracket] == [bracket];
      GapThen(fl, s, e, after, bracket);
    } else {
      var g := last[1..];
      assert after + (last + [bracket]) == after + [COMMA] + (g + [bracket]);
      AtConcat(s, e, after + [COMMA], g + [bracket]);
      GapThen(fl, s, e, after, COMMA);
      GapThen(fl, s, e + |after| + 1, g, bracket);
    }
  }

  lemma LastItem(items: seq<Item>, bracket: Text)
    requires items != [] && items[1..] == []
    ensures ItemsBody(items, bracket) == Spell(items[0].tree) + (items[0].after + bracket)
    ensures SendItems(items) == Send(items[0].tree)
  {
    hide Spell, Send;
    assert |items| == 1;
    assert SendItems(items[1..]) == [];
  }

  lemma NextItem(items: seq<Item>, bracket: Text)
    requires items != [] && items[1..] != []
    ensures ItemsBody(items, bracket)
         == Spell(items[0].tree) + (items[0].after + [COMMA] + (items[1..][0].before + ItemsBody(items[1..], bracket)))
    ensures SendItems(items) == Send(items[0].tree) + SendItems(items[1..])
  {
    hide Spell, Send;
    var a, c := items[0].after, items[1].before + ItemsBody(items[1..], bracket);
    assert a + ([COMMA] + c) == a + [COMMA] + c;
  }

  lemma ElementsLast(fl: Flags, s: Text, q: nat, i: nat, evs: seq<Event>, last: Text)
    requires q <= |s| && ParseValue(fl, s, q, evs).Parsed?
    requires var e := Skip(fl, s, ParseValue(fl, s, q, evs).pos);
      && e.To? && e.pos < |s|
      && (last == [] ==> Peek(s, e.pos) == RBRACKET)
      && (last != [] ==>
            && fl.trailingCommas && Peek(s, e.pos) == COMMA
            && Skip(fl, s, e.pos + 1) == To(e.pos + |last|) && Peek(s, e.pos + |last|) == RBRACKET)
    ensures var r := ParseValue(fl, s, q, evs);
      ParseElements(fl, s, q, i, evs)
      == Parsed(Skip(fl, s, r.pos).pos + |last| + 1, r.events + [EndArray(i + 1)])
  {
    hide Skip, ParseValue;
  }

  lemma ElementsNext(fl: Flags, s: Text, q: nat, i: nat, evs: seq<Event>)
    requires q <= |s| && ParseValue(fl, s, q, evs).Parsed?
    requires var e := Skip(fl, s, ParseValue(fl, s, q, evs).pos); e.To? && Peek(s, e.pos) == COMMA
    requires var n := Skip(fl, s, Skip(fl, s, ParseValue(fl, s, q, evs).pos).pos + 1);
      n.To? && Peek(s, n.pos) != RBRACKET
    ensures var r := ParseValue(fl, s, q, evs);
      ParseElements(fl, s, q, i, evs)
      == ParseElements(fl, s, Skip(fl, s, Skip(fl, s, r.pos).pos + 1).pos, i + 1, r.events)
  {
    hide Skip, ParseValue;
  }

  // ---- objects ----

  /** The text of members behind the gap before the first name, up to the bracket. */
  function FieldsBody(fields: seq<Field>, bracket: Text): Text
    requires fields != []
  {
    var f := fields[0];
    SpellName(f) + (Spell(f.tree) + (f.after + (if |fields| == 1 then bracket
                                                else [COMMA] + (fields[1].before + FieldsBody(fields[1..], bracket)))))
  }

  lemma {:induction false} FieldsSpell(fields: seq<Field>, bracket: Text)
    requires fields != []
    ensures SpellFields(fields) + bracket == fields[0].before + FieldsBody(fields, bracket)
  {
    hide Spell, SpellName;
    var f, name, head := fields[0], SpellName(fields[0]), Spell(fields[0].tree);
    if |fields| == 1 {
      assert f.before + (name + (head + (f.after + []))) + bracket == f.before + (name + (head + (f.after + bracket)));
    } else {
      FieldsSpell(fields[1..], bracket);
      var rest, body := SpellFields(fields[1..]), FieldsBody(fields[1..], bracket);
      assert rest + bracket == fields[1].before + body;
      assert f.before + (name + (head + (f.after + ([COMMA] + rest)))) + bracket
          == f.before + (name + (head + (f.after + ([COMMA] + (rest + bracket)))));
    }
  }

  lemma FieldsFirst(fl: Flags, fields: seq<Field>, bracket: Text)
    requires fields != [] && FieldsOk(fl, fields)
    ensures var b := FieldsBody(fields, bracket); b != [] && Opens(b[0])
    ensures var f := fields[0];
      && TreeOk(fl, f.tree) && UnitsOk(fl.validateEncoding, f.name)
      && Gap(fl, f.before) && Gap(fl, f.beforeColon) && Gap(fl, f.afterColon) && Gap(fl, f.after)
    ensures FieldsOk(fl, fields[1..])
  {
    hide Spell, TreeOk, Gap, UnitsOk, UnitsText;
  }

  lemma {:induction false} ObjectComplete(fl: Flags, t: Tree, s: Text, p: nat, evs: seq<Event>)
    requires t.ObjectTree? && TreeOk(fl, t) && At(s, p, Spell(t))
    ensures p <= |s| && ParseValue(fl, s, p, evs) == Parsed(p + |Spell(t)|, evs + Send(t))
    decreases t, 1
  {
    hide *;
    var fields, gap, evs' := t.fields, t.gap, evs + [StartObject];
    var bracket := t.last + [RBRACE];
    Stops();
    NoNul();
    ObjectParts(fl, t);
    OpeningAt(s, p, LBRACE, gap + (SpellFields(fields) + bracket));
    if fields == [] {
      NothingSpelled();
      assert gap + (SpellFields(fields) + bracket) == gap + [RBRACE];
      GapThen(fl, s, p + 1, gap, RBRACE);
      ObjectOpened(fl, s, p, evs);
      assert evs' + [EndObject(0)] == evs + ([StartObject] + [] + [EndObject(0)]);
    } else {
      var first, body := fields[0], FieldsBody(fields, bracket);
      FieldsSpell(fields, bracket);
      FieldsFirst(fl, fields, bracket);
      assert gap + (SpellFields(fields) + bracket) == first.before + body;
      GapOpens(fl, s, p + 1, first.before, body);
      ObjectOpened(fl, s, p, evs);
      FieldsComplete(fl, fields, t.last, 0, s, p + 1 + |first.before|, evs');
      assert evs' + SendFields(fields) + [EndObject(|fields|)]
          == evs + ([StartObject] + SendFields(fields) + [EndObject(|fields|)]);
    }
  }

  lemma ObjectParts(fl: Flags, t: Tree)
    requires t.ObjectTree? && TreeOk(fl, t)
    ensures Gap(fl, t.gap) && FieldsOk(fl, t.fields) && Trailing(fl, t.last)
    ensures if t.fields == [] then t.last == [] else t.gap == []
    ensures Spell(t) == [LBRACE] + (t.gap + (SpellFields(t.fields) + (t.last + [RBRACE])))
    ensures Send(t) == [StartObject] + SendFields(t.fields) + [EndObject(|t.fields|)]
  {
    hide Gap, Trailing, FieldsOk, SpellFields, SendFields;
  }

  /** Where reading goes on behind the opening bracket. */
  lemma ObjectOpened(fl: Flags, s: Text, p: nat, evs: seq<Event>)
    requires p < |s| && Peek(s, p) == LBRACE && Skip(fl, s, p + 1).To?
    ensures var q := Skip(fl, s, p + 1).pos;
      ParseValue(fl, s, p, evs)
      == if Peek(s, q) == RBRACE then Parsed(q + 1, evs + [StartObject] + [EndObject(0)])
         else ParseMembers(fl, s, q, 0, evs + [StartObject])
  {
    hide Skip, ParseMembers;
  }

  /** A name up to its value. */
  lemma NameComplete(fl: Flags, f: Field, s: Text, q: nat, evs: seq<Event>)
    requires UnitsOk(fl.validateEncoding, f.name) && Gap(fl, f.beforeColon) && Gap(fl, f.afterColon)
    requires At(s, q, SpellName(f)) && Opens(Peek(s, q + |SpellName(f)|))
    ensures q <= |s|
    ensures ParseName(fl, s, q, evs) == Parsed(q + |SpellName(f)|, evs + [Key(UnitsBytes(f.name))])
  {
    hide Skip, Strings.ParseString, UnitsOk, UnitsBytes, StringText, IsSpace, Gap, At;
    var name := StringText(f.name);
    AtConcat(s, q, name, f.beforeColon + ([COLON] + f.afterColon));
    StringComplete(fl.validateEncoding, f.name, s, q);
    var e := q + |name|;
    assert f.beforeColon + ([COLON] + f.afterColon) == f.beforeColon + [COLON] + f.afterColon;
    AtConcat(s, e, f.beforeColon + [COLON], f.afterColon);
    GapThen(fl, s, e, f.beforeColon, COLON);
    GapRead(fl, s, e + |f.beforeColon| + 1, f.afterColon);
  }

  lemma {:induction false} FieldsComplete(fl: Flags, fields: seq<Field>, last: Text, i: nat, s: Text, q: nat,
      evs: seq<Event>)
    requires fields != [] && FieldsOk(fl, fields) && Trailing(fl, last)
    requires At(s, q, FieldsBody(fields, last + [RBRACE]))
    ensures q <= |s|
    ensures ParseMembers(fl, s, q, i, evs)
         == Parsed(q + |FieldsBody(fields, last + [RBRACE])|, evs + SendFields(fields) + [EndObject(i + |fields|)])
    decreases fields, 0
  {
    hide *;
    Stops();
    var bracket := last + [RBRACE];
    FieldsFirst(fl, fields, bracket);
    var f, rest := fields[0], fields[1..];
    var name, head := SpellName(f), Spell(f.tree);
    var p, e := q + |name|, q + |name| + |head|;
    var named := evs + [Key(UnitsBytes(f.name))];
    var evs' := named + Send(f.tree);
    FirstChar(fl, f.tree);
    if rest == [] {
      LastField(fields, bracket);
      AtConcat(s, q, name, head + (f.after + bracket));
      AtConcat(s, p, head, f.after + bracket);
      AtPeek(s, p, head, 0);
      LastBracket(fl, s, e, f.after, last, RBRACE);
      NameComplete(fl, f, s, q, evs);
      ValueComplete(fl, f.tree, s, p, named);
      MembersLast(fl, s, q, i, evs, last);
      assert evs' == evs + SendFields(fields);
    } else {
      NextField(fields, bracket);
      FieldsFirst(fl, rest, bracket);
      var next, body := rest[0], FieldsBody(rest, bracket);
      AtConcat(s, q, name, head + (f.after + [COMMA] + (next.before + body)));
      AtConcat(s, p, head, f.after + [COMMA] + (next.before + body));
      AtConcat(s, e, f.after + [COMMA], next.before + body);
      AtPeek(s, p, head, 0);
      GapThen(fl, s, e, f.after, COMMA);
      NameComplete(fl, f, s, q, evs);
      ValueComplete(fl, f.tree, s, p, named);
      var n := e + |f.after| + 1;
      GapOpens(fl, s, n, next.before, body);
      MembersNext(fl, s, q, i, evs);
      FieldsComplete(fl, rest, last, i + 1, s, n + |next.before|, evs');
      assert evs' + SendFields(rest) == evs + SendFields(fields);
    }
  }

  lemma LastField(fields: seq<Field>, bracket: Text)
    requires fields != [] && fields[1..] == []
    ensures FieldsBody(fields, bracket) == SpellName(fields[0]) + (Spell(fields[0].tree) + (fields[0].after + bracket))
    ensures SendFields(fields) == [Key(UnitsBytes(fields[0].name))] + Send(fields[0].tree)
  {
    hide Spell, Send, SpellName, UnitsBytes;
    assert |fields| == 1;
    assert SendFields(fields[1..]) == [];
  }

  lemma NextField(fields: seq<Field>, bracket: Text)
    requires fields != [] && fields[1..] != []
    ensures FieldsBody(fields, bracket)
         == SpellName(fields[0]) + (Spell(fields[0].tree)
            + (fields[0].after + [COMMA] + (fields[1..][0].before + FieldsBody(fields[1..], bracket))))
    ensures SendFields(fields) == [Key(UnitsBytes(fields[0].name))] + Send(fields[0].tree) + SendFields(fields[1..])
  {
    hide Spell, Send, SpellName, UnitsBytes;
    var a, c := fields[0].after, fields[1].before + FieldsBody(fields[1..], bracket);
    assert a + ([COMMA] + c) == a + [COMMA] + c;
  }

  lemma MembersLast(fl: Flags, s: Text, q: nat, i: nat, evs: seq<Event>, last: Text)
    requires q <= |s| && ParseName(fl, s, q, evs).Parsed?
    requires var k := ParseName(fl, s, q, evs); ParseValue(fl, s, k.pos, k.events).Parsed?
    requires var k := ParseName(fl, s, q, evs);
      var e := Skip(fl, s, ParseValue(fl, s, k.pos, k.events).pos);
      && e.To? && e.pos < |s|
      && (last == [] ==> Peek(s, e.pos) == RBRACE)
      && (last != [] ==>
            && fl.trailingCommas && Peek(s, e.pos) == COMMA
            && Skip(fl, s, e.pos + 1) == To(e.pos + |last|) && Peek(s, e.pos + |last|) == RBRACE)
    ensures var k := ParseName(fl, s, q, evs);
      var r := ParseValue(fl, s, k.pos, k.events);
      ParseMembers(fl, s, q, i, evs)
      == Parsed(Skip(fl, s, r.pos).pos + |last| + 1, r.events + [EndObject(i + 1)])
  {
    hide Skip, ParseValue, ParseName;
  }

  lemma MembersNext(fl: Flags, s: Text, q: nat, i: nat, evs: seq<Event>)
    requires q <= |s| && ParseName(fl, s, q, evs).Parsed?
    requires var k := ParseName(fl, s, q, evs); ParseValue(fl, s, k.pos, k.events).Parsed?
    requires var k := ParseName(fl, s, q, evs);
      var e := Skip(fl, s, ParseValue(fl, s, k.pos, k.events).pos); e.To? && Peek(s, e.pos) == COMMA
    requires var k := ParseName(fl, s, q, evs);
      var n := Skip(fl, s, Skip(fl, s, ParseValue(fl, s, k.pos, k.events).pos).pos + 1);
      n.To? && Peek(s, n.pos) != RBRACE
    ensures var k := ParseName(fl, s, q, evs);
      var r := ParseValue(fl, s, k.pos, k.events);
      ParseMembers(fl, s, q, i, evs)
      == ParseMembers(fl, s, Skip(fl, s, Skip(fl, s, r.pos).pos + 1).pos, i + 1, r.events)
  {
    hide Skip, ParseValue, ParseName;
  }

  /** Every text of the grammar is accepted to its end, with its events. */
  lemma DocumentComplete(fl: Flags, s: Text, before: Text, t: Tree, after: Text)
    requires IsText(fl, s, before, t, after)
    ensures var r := ParseDocument(fl, s);
      r.Parsed? && r.events == Send(t) && (!fl.stopWhenDone ==> r.pos == |s|)
  {
    hide Skip, ParseValue, Spell, TreeOk, Gap, Send, IsSpace, Opens, At;
    FirstChar(fl, t);
    assert At(s, 0, before + (Spell(t) + after)) by { WholeAt(s); }
    var body := Spell(t) + after;
    GapOpens(fl, s, 0, before, body);
    var p := |before|;
    AtConcat(s, p, Spell(t), after);
    var e := p + |Spell(t)|;
    AfterRoot(fl, s, e, after);
    ValueComplete(fl, t, s, p, []);
    assert [] + Send(t) == Send(t);
    NulStops();
    LastGapRead(fl, s, e, after);
  }

  /** When reading stops after the root, a text may go on behind it with anything that does not continue
      the value. */
  lemma RootComplete(fl: Flags, s: Text, q: nat, before: Text, t: Tree)
    requires fl.stopWhenDone && q <= |s| && IsText(fl, s[..q], before, t, []) && !GoesOn(Peek(s, q))
    ensures ParseDocument(fl, s) == Parsed(q, Send(t))
  {
    hide Skip, ParseValue, Spell, TreeOk, Gap, Send, IsSpace, Opens, At, GoesOn;
    FirstChar(fl, t);
    assert before + (Spell(t) + []) == before + Spell(t);
    PrefixAt(s, q);
    GapOpens(fl, s, 0, before, Spell(t));
    AtConcat(s, 0, before, Spell(t));
    ValueComplete(fl, t, s, |before|, []);
    assert [] + Send(t) == Send(t);
    NulStops();
  }

  lemma PrefixAt(s: Text, q: nat)
    requires q <= |s|
    ensures At(s, 0, s[..q])
  {
  }

  lemma WholeAt(s: Text)
    ensures At(s, 0, s)
  {
  }

  lemma NulStops()
    ensures !IsSpace(NUL) && !GoesOn(NUL)
  {
  }

  lemma AfterRoot(fl: Flags, s: Text, e: nat, after: Text)
    requires At(s, e, after) && e + |after| == |s| && LastGap(fl, after)
    ensures !GoesOn(Peek(s, e))
  {
    Stops();
    if after != [] {
      GapStarts(fl, after);
      AtPeek(s, e, after, 0);
    }
  }

  // ---- soundness: what is read is spelled by the grammar ----

  lemma {:induction false} ValueSound(fl: Flags, s: Text, p: nat, evs: seq<Event>) returns (t: Tree)
    requires p <= |s| && ParseValue(fl, s, p, evs).Parsed?
    ensures var r := ParseValue(fl, s, p, evs);
      TreeOk(fl, t) && s[p..r.pos] == Spell(t) && r.events == evs + Send(t)
    decreases |s| - p, 2
  {
    hide ParseObject, ParseArray, ParseScalar, TreeOk, Spell, Send;
    if Peek(s, p) == LBRACE {
      t := ObjectSound(fl, s, p, evs);
    } else if Peek(s, p) == LBRACKET {
      t := ArraySound(fl, s, p, evs);
    } else {
      t := ScalarSound(fl, s, p, evs);
    }
  }

  lemma Slice(s: Text, p: nat, q: nat, r: nat)
    requires p <= q <= r <= |s|
    ensures s[p..r] == s[p..q] + s[q..r]
  {
  }

  lemma SliceOne(s: Text, p: nat, c: byte)
    requires Peek(s, p) == c && c != NUL
    ensures p < |s| && s[p..p + 1] == [c]
  {
  }

  /** A value does not start at the end of the text. */
  lemma ValueStarts(fl: Flags, s: Text, p: nat, evs: seq<Event>)
    requires p <= |s| && ParseValue(fl, s, p, evs).Parsed?
    ensures Peek(s, p) != NUL
  {
    hide ParseObject, ParseArray, Numbers.ParseTail;
  }

  lemma {:induction false} ArraySound(fl: Flags, s: Text, p: nat, evs: seq<Event>) returns (t: Tree)
    requires p < |s| && s[p] == LBRACKET && ParseArray(fl, s, p, evs).Parsed?
    ensures var r := ParseArray(fl, s, p, evs);
      TreeOk(fl, t) && s[p..r.pos] == Spell(t) && r.events == evs + Send(t)
    decreases |s| - p, 1
  {
    hide Skip, ParseElements, ParseValue, Gap, Trailing, ItemsBody, SpellItems, SendItems, ItemsOk, TreeOk, Spell, Send;
    SkipSound(fl, s, p + 1);
    var q := Skip(fl, s, p + 1).pos;
    var gap := s[p + 1..q];
    SliceOne(s, p, LBRACKET);
    var r := ParseArray(fl, s, p, evs);
    Slice(s, p, p + 1, r.pos);
    Slice(s, p + 1, q, r.pos);
    if Peek(s, q) == RBRACKET {
      t := ArrayTree(gap, [], []);
      EmptyArray(fl, gap);
      SliceOne(s, q, RBRACKET);
      assert evs + [StartArray] + [EndArray(0)] == evs + [StartArray, EndArray(0)];
    } else {
      ElementsCases(fl, s, q, 0, evs + [StartArray]);
      ValueStarts(fl, s, q, evs + [StartArray]);
      var items, last := ElementsSound(fl, s, q, 0, evs + [StartArray]);
      items := Preceded(fl, items, gap, last + [RBRACKET]);
      t := ArrayTree([], items, last);
      FullArray(fl, items, last);
      assert evs + [StartArray] + SendItems(items) + [EndArray(|items|)]
          == evs + ([StartArray] + SendItems(items) + [EndArray(|items|)]);
    }
  }

  lemma EmptyArray(fl: Flags, gap: Text)
    requires Gap(fl, gap)
    ensures var t := ArrayTree(gap, [], []);
      TreeOk(fl, t) && Spell(t) == [LBRACKET] + (gap + [RBRACKET]) && Send(t) == [StartArray, EndArray(0)]
  {
    hide Gap;
    NothingSpelled();
    NoItems(fl);
    assert SpellItems([]) + ([] + [RBRACKET]) == [RBRACKET];
  }

  lemma FullArray(fl: Flags, items: seq<Item>, last: Text)
    requires items != [] && ItemsOk(fl, items) && Trailing(fl, last)
    ensures var t := ArrayTree([], items, last);
      && TreeOk(fl, t)
      && Spell(t) == [LBRACKET] + (items[0].before + ItemsBody(items, last + [RBRACKET]))
      && Send(t) == [StartArray] + SendItems(items) + [EndArray(|items|)]
  {
    hide Gap, Spell, ItemsOk, ItemsBody, SendItems, Trailing;
    NoItems(fl);
    ArrayText(items, last);
  }

  lemma ArrayText(items: seq<Item>, last: Text)
    requires items != []
    ensures Spell(ArrayTree([], items, last)) == [LBRACKET] + (items[0].before + ItemsBody(items, last + [RBRACKET]))
  {
    hide ItemsBody, SpellItems;
    ItemsSpell(items, last + [RBRACKET]);
    assert [] + (SpellItems(items) + (last + [RBRACKET])) == SpellItems(items) + (last + [RBRACKET]);
  }

  lemma NoItems(fl: Flags)
    ensures ItemsOk(fl, []) && FieldsOk(fl, []) && Gap(fl, [])
  {
  }

  /** Items whose first gap was skipped before they were read. */
  lemma Preceded(fl: Flags, items: seq<Item>, gap: Text, bracket: Text) returns (all: seq<Item>)
    requires items != [] && ItemsOk(fl, items) && Gap(fl, gap)
    ensures |all| == |items| && ItemsOk(fl, all) && all[0].before == gap
    ensures ItemsBody(all, bracket) == ItemsBody(items, bracket) && SendItems(all) == SendItems(items)
  {
    hide TreeOk, Spell, Send, Gap;
    all := items[0 := items[0].(before := gap)];
    assert all[1..] == items[1..];
    assert |items| > 1 ==> all[1] == items[1];
  }

  /** The element loop, from an element on; its first gap is empty. */
  lemma {:induction false} ElementsSound(fl: Flags, s: Text, q: nat, i: nat, evs: seq<Event>)
    returns (items: seq<Item>, last: Text)
    requires q <= |s| && ParseElements(fl, s, q, i, evs).Parsed?
    ensures var r := ParseElements(fl, s, q, i, evs);
      && items != [] && ItemsOk(fl, items) && Trailing(fl, last)
      && s[q..r.pos] == ItemsBody(items, last + [RBRACKET])
      && r.events == evs + SendItems(items) + [EndArray(i + |items|)]
    decreases |s| - q, 3
  {
    hide *;
    Stops();
    NoItems(fl);
    ElementsCases(fl, s, q, i, evs);
    var t := ValueSound(fl, s, q, evs);
    var v := ParseValue(fl, s, q, evs);
    SkipSound(fl, s, v.pos);
    var e := Skip(fl, s, v.pos).pos;
    var r := ParseElements(fl, s, q, i, evs);
    var item := Item([], t, s[v.pos..e]);
    if Peek(s, e) != COMMA {
      items, last := [item], [];
      assert [] + [RBRACKET] == [RBRACKET];
      NoTrailing(fl);
      TextToEnd(s, q, q, v.pos, e, RBRACKET);
      OneItem(fl, s, q, v.pos, item, [RBRACKET], r.pos);
    } else {
      SkipSound(fl, s, e + 1);
      var n := Skip(fl, s, e + 1).pos;
      if fl.trailingCommas && Peek(s, n) == RBRACKET {
        items, last := [item], [COMMA] + s[e + 1..n];
        TrailingComma(fl, s[e + 1..n]);
        TextToComma(s, q, q, v.pos, e, n, RBRACKET);
        OneItem(fl, s, q, v.pos, item, last + [RBRACKET], r.pos);
      } else {
        ElementsCases(fl, s, n, i + 1, v.events);
        ValueStarts(fl, s, n, v.events);
        var rest;
        rest, last := ElementsSound(fl, s, n, i + 1, v.events);
        rest := Preceded(fl, rest, s[e + 1..n], last + [RBRACKET]);
        items := [item] + rest;
        TextToNext(s, q, q, v.pos, e, n, r.pos);
        MoreItems(fl, s, q, v.pos, item, rest, last + [RBRACKET], r.pos);
        assert v.events + SendItems(rest) == evs + (Send(t) + SendItems(rest));
      }
    }
  }

  /** A single item read, up to its bracket. */
  lemma OneItem(fl: Flags, s: Text, q: nat, v: nat, item: Item, bracket: Text, r: nat)
    requires q <= v <= r <= |s| && item.before == [] && TreeOk(fl, item.tree) && Gap(fl, item.after)
    requires s[q..v] == Spell(item.tree) && s[q..r] == s[q..q] + (s[q..v] + (item.after + bracket))
    ensures ItemsOk(fl, [item]) && s[q..r] == ItemsBody([item], bracket) && SendItems([item]) == Send(item.tree)
  {
    hide *;
    assert [item][1..] == [] && s[q..q] == [];
    NoItems(fl);
    LastItem([item], bracket);
    ItemsJoin(fl, [item]);
    assert [] + (s[q..v] + (item.after + bracket)) == s[q..v] + (item.after + bracket);
  }

  /** An item read before others. */
  lemma MoreItems(fl: Flags, s: Text, q: nat, v: nat, item: Item, rest: seq<Item>, bracket: Text, r: nat)
    requires q <= v <= r <= |s| && item.before == [] && TreeOk(fl, item.tree) && Gap(fl, item.after)
    requires rest != [] && ItemsOk(fl, rest) && s[q..v] == Spell(item.tree)
    requires s[q..r] == s[q..q] + (s[q..v] + (item.after + [COMMA] + (rest[0].before + ItemsBody(rest, bracket))))
    ensures ItemsOk(fl, [item] + rest) && s[q..r] == ItemsBody([item] + rest, bracket)
    ensures SendItems([item] + rest) == Send(item.tree) + SendItems(rest)
  {
    hide *;
    var items, tail := [item] + rest, item.after + [COMMA] + (rest[0].before + ItemsBody(rest, bracket));
    assert items[1..] == rest && s[q..q] == [];
    NextItem(items, bracket);
    ItemsJoin(fl, items);
    assert [] + (s[q..v] + tail) == s[q..v] + tail;
  }

  lemma NoTrailing(fl: Flags)
    ensures Trailing(fl, [])
  {
  }

  lemma TrailingComma(fl: Flags, gap: Text)
    requires fl.trailingCommas && Gap(fl, gap)
    ensures Trailing(fl, [COMMA] + gap)
  {
    hide Gap;
    assert ([COMMA] + gap)[1..] == gap;
  }

  /** The ways the element loop goes on. */
  lemma ElementsCases(fl: Flags, s: Text, q: nat, i: nat, evs: seq<Event>)
    requires q <= |s| && ParseElements(fl, s, q, i, evs).Parsed?
    ensures ParseValue(fl, s, q, evs).Parsed?
    ensures var v := ParseValue(fl, s, q, evs);
      var e := Skip(fl, s, v.pos);
      && e.To?
      && (Peek(s, e.pos) == COMMA ==>
            var n := Skip(fl, s, e.pos + 1);
            && n.To?
            && ParseElements(fl, s, q, i, evs)
               == if fl.trailingCommas && Peek(s, n.pos) == RBRACKET then
                    Parsed(n.pos + 1, v.events + [EndArray(i + 1)])
                  else ParseElements(fl, s, n.pos, i + 1, v.events))
      && (Peek(s, e.pos) != COMMA ==>
            Peek(s, e.pos) == RBRACKET &&
                ParseElements(fl, s, q, i, evs) == Parsed(e.pos + 1, v.events + [EndArray(i + 1)]))
  {
    hide Skip, ParseValue;
  }

  lemma ItemsJoin(fl: Flags, items: seq<Item>)
    requires items != [] && items[0].before == [] && TreeOk(fl, items[0].tree) && Gap(fl, items[0].after)
    requires ItemsOk(fl, items[1..])
    ensures ItemsOk(fl, items)
  {
    hide TreeOk;
  }

  lemma {:induction false} ObjectSound(fl: Flags, s: Text, p: nat, evs: seq<Event>) returns (t: Tree)
    requires p < |s| && s[p] == LBRACE && ParseObject(fl, s, p, evs).Parsed?
    ensures var r := ParseObject(fl, s, p, evs);
      TreeOk(fl, t) && s[p..r.pos] == Spell(t) && r.events == evs + Send(t)
    decreases |s| - p, 1
  {
    hide Skip, ParseMembers, ParseName, Gap, Trailing, FieldsBody, SpellFields, SendFields, FieldsOk;
    hide TreeOk, Spell, Send;
    SkipSound(fl, s, p + 1);
    var q := Skip(fl, s, p + 1).pos;
    var gap := s[p + 1..q];
    SliceOne(s, p, LBRACE);
    var r := ParseObject(fl, s, p, evs);
    Slice(s, p, p + 1, r.pos);
    Slice(s, p + 1, q, r.pos);
    if Peek(s, q) == RBRACE {
      t := ObjectTree(gap, [], []);
      EmptyObject(fl, gap);
      SliceOne(s, q, RBRACE);
      assert evs + [StartObject] + [EndObject(0)] == evs + [StartObject, EndObject(0)];
    } else {
      MembersCases(fl, s, q, 0, evs + [StartObject]);
      NameStarts(fl, s, q, evs + [StartObject]);
      var fields, last := MembersSound(fl, s, q, 0, evs + [StartObject]);
      fields := FieldsPreceded(fl, fields, gap, last + [RBRACE]);
      t := ObjectTree([], fields, last);
      FullObject(fl, fields, last);
      assert evs + [StartObject] + SendFields(fields) + [EndObject(|fields|)]
          == evs + ([StartObject] + SendFields(fields) + [EndObject(|fields|)]);
    }
  }

  lemma NameStarts(fl: Flags, s: Text, q: nat, evs: seq<Event>)
    requires q <= |s| && ParseName(fl, s, q, evs).Parsed?
    ensures Peek(s, q) != NUL
  {
  }

  lemma EmptyObject(fl: Flags, gap: Text)
    requires Gap(fl, gap)
    ensures var t := ObjectTree(gap, [], []);
      TreeOk(fl, t) && Spell(t) == [LBRACE] + (gap + [RBRACE]) && Send(t) == [StartObject, EndObject(0)]
  {
    hide Gap;
    NothingSpelled();
    NoItems(fl);
    assert SpellFields([]) + ([] + [RBRACE]) == [RBRACE];
  }

  lemma FullObject(fl: Flags, fields: seq<Field>, last: Text)
    requires fields != [] && FieldsOk(fl, fields) && Trailing(fl, last)
    ensures var t := ObjectTree([], fields, last);
      && TreeOk(fl, t)
      && Spell(t) == [LBRACE] + (fields[0].before + FieldsBody(fields, last + [RBRACE]))
      && Send(t) == [StartObject] + SendFields(fields) + [EndObject(|fields|)]
  {
    hide Gap, Spell, FieldsOk, FieldsBody, SendFields, Trailing;
    NoItems(fl);
    ObjectText(fields, last);
  }

  lemma ObjectText(fields: seq<Field>, last: Text)
    requires fields != []
    ensures Spell(ObjectTree([], fields, last)) == [LBRACE] + (fields[0].before + FieldsBody(fields, last + [RBRACE]))
  {
    hide FieldsBody, SpellFields;
    FieldsSpell(fields, last + [RBRACE]);
    assert [] + (SpellFields(fields) + (last + [RBRACE])) == SpellFields(fields) + (last + [RBRACE]);
  }

  lemma FieldsPreceded(fl: Flags, fields: seq<Field>, gap: Text, bracket: Text) returns (all: seq<Field>)
    requires fields != [] && FieldsOk(fl, fields) && Gap(fl, gap)
    ensures |all| == |fields| && FieldsOk(fl, all) && all[0].before == gap
    ensures FieldsBody(all, bracket) == FieldsBody(fields, bracket) && SendFields(all) == SendFields(fields)
  {
    hide TreeOk, Spell, Send, Gap, UnitsOk, UnitsBytes, StringText;
    all := fields[0 := fields[0].(before := gap)];
    assert all[1..] == fields[1..];
    assert |fields| > 1 ==> all[1] == fields[1];
  }

  /** A name up to its value; the value and what follows are still to be read. */
  lemma NameSound(fl: Flags, s: Text, q: nat, evs: seq<Event>)
    returns (name: seq<Unit>, beforeColon: Text, afterColon: Text)
    requires q <= |s| && ParseName(fl, s, q, evs).Parsed? && Peek(s, ParseName(fl, s, q, evs).pos) != NUL
    ensures var r := ParseName(fl, s, q, evs);
      && UnitsOk(fl.validateEncoding, name) && Gap(fl, beforeColon) && Gap(fl, afterColon)
      && s[q..r.pos] == StringText(name) + (beforeColon + ([COLON] + afterColon))
      && r.events == evs + [Key(UnitsBytes(name))]
  {
    hide Skip, Strings.ParseString, Gap, UnitsOk, UnitsBytes, StringText;
    name := StringSound(fl.validateEncoding, s, q);
    var k := Strings.ParseString(fl.validateEncoding, s, q).pos;
    SkipSound(fl, s, k);
    var c := Skip(fl, s, k).pos;
    SkipSound(fl, s, c + 1);
    var v := Skip(fl, s, c + 1).pos;
    beforeColon, afterColon := s[k..c], s[c + 1..v];
    SliceOne(s, c, COLON);
    Slice(s, q, k, v);
    Slice(s, k, c, v);
    Slice(s, c, c + 1, v);
  }

  lemma {:induction false} MembersSound(fl: Flags, s: Text, q: nat, i: nat, evs: seq<Event>)
    returns (fields: seq<Field>, last: Text)
    requires q <= |s| && ParseMembers(fl, s, q, i, evs).Parsed?
    ensures var r := ParseMembers(fl, s, q, i, evs);
      && fields != [] && FieldsOk(fl, fields) && Trailing(fl, last)
      && s[q..r.pos] == FieldsBody(fields, last + [RBRACE])
      && r.events == evs + SendFields(fields) + [EndObject(i + |fields|)]
    decreases |s| - q, 3
  {
    hide *;
    Stops();
    NoItems(fl);
    MembersCases(fl, s, q, i, evs);
    var k := ParseName(fl, s, q, evs);
    ValueStarts(fl, s, k.pos, k.events);
    var name, beforeColon, afterColon := NameSound(fl, s, q, evs);
    var t := ValueSound(fl, s, k.pos, k.events);
    var v := ParseValue(fl, s, k.pos, k.events);
    SkipSound(fl, s, v.pos);
    var e := Skip(fl, s, v.pos).pos;
    var r := ParseMembers(fl, s, q, i, evs);
    var f := Field([], name, beforeColon, afterColon, t, s[v.pos..e]);
    NameText(f);
    if Peek(s, e) != COMMA {
      fields, last := [f], [];
      assert fields[1..] == [] && [] + [RBRACE] == [RBRACE];
      NoTrailing(fl);
      LastField(fields, [RBRACE]);
      FieldsJoin(fl, fields);
      TextToEnd(s, q, k.pos, v.pos, e, RBRACE);
      assert v.events == evs + ([Key(UnitsBytes(name))] + Send(t));
    } else {
      SkipSound(fl, s, e + 1);
      var n := Skip(fl, s, e + 1).pos;
      if fl.trailingCommas && Peek(s, n) == RBRACE {
        fields, last := [f], [COMMA] + s[e + 1..n];
        assert fields[1..] == [];
        TrailingComma(fl, s[e + 1..n]);
        LastField(fields, last + [RBRACE]);
        FieldsJoin(fl, fields);
        TextToComma(s, q, k.pos, v.pos, e, n, RBRACE);
        assert v.events == evs + ([Key(UnitsBytes(name))] + Send(t));
      } else {
        MembersCases(fl, s, n, i + 1, v.events);
        NameStarts(fl, s, n, v.events);
        var rest;
        rest, last := MembersSound(fl, s, n, i + 1, v.events);
        rest := FieldsPreceded(fl, rest, s[e + 1..n], last + [RBRACE]);
        fields := [f] + rest;
        assert fields[1..] == rest;
        NextField(fields, last + [RBRACE]);
        FieldsJoin(fl, fields);
        TextToNext(s, q, k.pos, v.pos, e, n, r.pos);
        assert v.events + SendFields(rest) == evs + ([Key(UnitsBytes(name))] + Send(t) + SendFields(rest));
      }
    }
  }

  /** A piece of text cut at a trailing comma and the bracket behind it. */
  lemma TextToComma(s: Text, q: nat, k: nat, v: nat, e: nat, n: nat, bracket: byte)
    requires q <= k <= v <= e < n <= |s| && Peek(s, e) == COMMA && Peek(s, n) == bracket && bracket != NUL
    ensures n < |s|
    ensures s[q..n + 1] == s[q..k] + (s[k..v] + (s[v..e] + ([COMMA] + s[e + 1..n] + [bracket])))
  {
    TextToNext(s, q, k, v, e, n, n + 1);
    SliceOne(s, n, bracket);
    assert s[v..e] + [COMMA] + (s[e + 1..n] + [bracket]) == s[v..e] + ([COMMA] + s[e + 1..n] + [bracket]);
  }

  /** A piece of text cut at a comma and the gaps around it. */
  lemma TextToNext(s: Text, q: nat, k: nat, v: nat, e: nat, n: nat, r: nat)
    requires q <= k <= v <= e < n <= r <= |s| && Peek(s, e) == COMMA
    ensures s[q..r] == s[q..k] + (s[k..v] + (s[v..e] + [COMMA] + (s[e + 1..n] + s[n..r])))
  {
    SliceOne(s, e, COMMA);
    Slice(s, q, k, r);
    Slice(s, k, v, r);
    Slice(s, v, e + 1, r);
    Slice(s, v, e, e + 1);
    Slice(s, e + 1, n, r);
  }

  lemma TextToEnd(s: Text, q: nat, k: nat, v: nat, e: nat, bracket: byte)
    requires q <= k <= v <= e <= |s| && Peek(s, e) == bracket && bracket != NUL
    ensures e < |s| && s[q..e + 1] == s[q..k] + (s[k..v] + (s[v..e] + [bracket]))
  {
    SliceOne(s, e, bracket);
    Slice(s, q, k, e + 1);
    Slice(s, k, v, e + 1);
    Slice(s, v, e, e + 1);
  }

  lemma NameText(f: Field)
    ensures SpellName(f) == StringText(f.name) + (f.beforeColon + ([COLON] + f.afterColon))
  {
  }

  /** The ways the member loop goes on. */
  lemma MembersCases(fl: Flags, s: Text, q: nat, i: nat, evs: seq<Event>)
    requires q <= |s| && ParseMembers(fl, s, q, i, evs).Parsed?
    ensures ParseName(fl, s, q, evs).Parsed?
    ensures var k := ParseName(fl, s, q, evs); ParseValue(fl, s, k.pos, k.events).Parsed?
    ensures var k := ParseName(fl, s, q, evs);
      var v := ParseValue(fl, s, k.pos, k.events);
      var e := Skip(fl, s, v.pos);
      && e.To?
      && (Peek(s, e.pos) == COMMA ==>
            var n := Skip(fl, s, e.pos + 1);
            && n.To?
            && ParseMembers(fl, s, q, i, evs)
               == if fl.trailingCommas && Peek(s, n.pos) == RBRACE then
                    Parsed(n.pos + 1, v.events + [EndObject(i + 1)])
                  else ParseMembers(fl, s, n.pos, i + 1, v.events))
      && (Peek(s, e.pos) != COMMA ==>
            Peek(s, e.pos) == RBRACE &&
                ParseMembers(fl, s, q, i, evs) == Parsed(e.pos + 1, v.events + [EndObject(i + 1)]))
  {
    hide Skip, ParseValue, ParseName;
  }

  lemma FieldsJoin(fl: Flags, fields: seq<Field>)
    requires fields != [] && FieldsOk(fl, fields[1..])
    requires var f := fields[0];
      && f.before == [] && TreeOk(fl, f.tree) && Gap(fl, f.after)
      && UnitsOk(fl.validateEncoding, f.name) && Gap(fl, f.beforeColon) && Gap(fl, f.afterColon)
    ensures FieldsOk(fl, fields)
  {
    hide TreeOk, UnitsOk;
  }

  /**
   The reader accepts a text, up to its terminating NUL, exactly when it is a JSON value of RFC 8259 between
   gaps, and then sends the events of that value.  When reading stops after the root, it does so behind the
   value.  Gaps hold white space, and comments under that flag; a comma may trail under its flag; strings
   may hold raw bytes unless the encoding is checked, and numbers must be in range.
   */
  lemma AcceptsTheGrammar(fl: Flags, s: Text, q: nat, evs: seq<Event>)
    ensures ParseDocument(fl, s) == Parsed(q, evs) ==>
      && q <= |s| && (Peek(s, q) == NUL || fl.stopWhenDone)
      && exists before, t, after ::
           IsText(fl, s[..q], before, t, after) && evs == Send(t) && (fl.stopWhenDone ==> after == [])
    ensures !fl.stopWhenDone && q == |s| ==>
      (exists before, t, after :: IsText(fl, s, before, t, after) && evs == Send(t)) ==>
        ParseDocument(fl, s) == Parsed(q, evs)
    ensures fl.stopWhenDone && q <= |s| && !GoesOn(Peek(s, q)) ==>
      (exists before, t :: IsText(fl, s[..q], before, t, []) && evs == Send(t)) ==>
        ParseDocument(fl, s) == Parsed(q, evs)
  {
    hide IsText, ParseDocument, Send, GoesOn;
    if ParseDocument(fl, s) == Parsed(q, evs) {
      var before, t, after := DocumentSound(fl, s);
    }
    if !fl.stopWhenDone && q == |s| && exists before, t, after :: IsText(fl, s, before, t, after) && evs == Send(t) {
      var before, t, after :| IsText(fl, s, before, t, after) && evs == Send(t);
      DocumentComplete(fl, s, before, t, after);
    }
    if fl.stopWhenDone && q <= |s| && !GoesOn(Peek(s, q))
        && exists before, t :: IsText(fl, s[..q], before, t, []) && evs == Send(t) {
      var before, t :| IsText(fl, s[..q], before, t, []) && evs == Send(t);
      RootComplete(fl, s, q, before, t);
    }
  }

  lemma DocumentSound(fl: Flags, s: Text) returns (before: Text, t: Tree, after: Text)
    requires ParseDocument(fl, s).Parsed?
    ensures var r := ParseDocument(fl, s);
      r.pos <= |s| && IsText(fl, s[..r.pos], before, t, after) && r.events == Send(t)
    ensures if fl.stopWhenDone then after == [] else Peek(s, ParseDocument(fl, s).pos) == NUL
  {
    hide Skip, ParseValue, Gap, TreeOk, Spell, Send;
    SkipSound(fl, s, 0);
    var p := Skip(fl, s, 0).pos;
    ValueStarts(fl, s, p, []);
    t := ValueSound(fl, s, p, []);
    var v := ParseValue(fl, s, p, []);
    SkipSound(fl, s, v.pos);
    var q := if fl.stopWhenDone then v.pos else Skip(fl, s, v.pos).pos;
    before, after := s[0..p], s[v.pos..q];
    NoItems(fl);
    GapIsLast(fl, []);
    assert fl.stopWhenDone ==> after == [];
    Slice(s, 0, p, q);
    Slice(s, p, v.pos, q);
    assert [] + Send(t) == Send(t) && s[..q] == s[0..q];
  }
}
