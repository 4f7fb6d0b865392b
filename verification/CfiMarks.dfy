/** What becomes of a side bias that is not plain but does not swallow its closing bracket: the tokens read
    from it, wherever it is printed (frontend/public/foliate/epubcfi.js). None of them is the side bias
    itself, so the step it belongs to ends up with another one, or none. */
module CfiMarks {
  import opened Wrappers
  import opened CfiSyntax
  import opened CfiReading
  import opened CfiRoundTrip
  import opened CfiWeights

  // ---- what is read from a side bias ----

  /** The tokenizer where a side bias begins. */
  const AT_SIDE: Machine := Machine([], InParam(";s"), false, "")

  /** After the side bias and its bracket the tokenizer is where it would be after a plain one. */
  predicate Closes(side: string) {
    var m := Feed(AT_SIDE, side + "]");
    m.mode.Idle? && !m.escape
  }

  /** The tokens read from a side bias and its bracket. */
  function Remains(side: string): seq<Token> {
    Feed(AT_SIDE, side + "]").tokens
  }

  function Prefixed(tokens: seq<Token>, m: Machine): Machine {
    m.(tokens := tokens + m.tokens)
  }

  /** What has been read does not matter for what is read next. */
  lemma RoundPrefixed(tokens: seq<Token>, m: Machine, c: Option<char>)
    requires m.Consistent()
    ensures Prefixed(tokens, m).Consistent() && Round(Prefixed(tokens, m), c) == Prefixed(tokens, Round(m, c))
  {
    hide Round;
    if Outside(m.(escape := false)) {
      OutsidePrefixed(tokens, m, c);
    } else {
      BracketPrefixed(tokens, m, c);
    }
  }

  lemma OutsidePrefixed(tokens: seq<Token>, m: Machine, c: Option<char>)
    requires m.Consistent() && !m.mode.InBracket? && !m.mode.InParam?
    ensures Round(Prefixed(tokens, m), c) == Prefixed(tokens, Round(m, c))
  {
    hide ParseInt, ModeOf, IsDigit;
    forall t: Token
      ensures tokens + m.tokens + [t] == tokens + (m.tokens + [t])
    {
    }
  }

  lemma BracketPrefixed(tokens: seq<Token>, m: Machine, c: Option<char>)
    requires m.mode.InBracket? || m.mode.InParam?
    ensures Round(Prefixed(tokens, m), c) == Prefixed(tokens, Round(m, c))
  {
    forall t: Token
      ensures tokens + m.tokens + [t] == tokens + (m.tokens + [t])
    {
    }
  }

  lemma {:induction false} FeedPrefixed(tokens: seq<Token>, m: Machine, s: string)
    requires m.Consistent()
    ensures Prefixed(tokens, m).Consistent() && Feed(Prefixed(tokens, m), s) == Prefixed(tokens, Feed(m, s))
    decreases |s|
  {
    hide Round, Prefixed;
    RoundPrefixed(tokens, m, None);
    if s != "" {
      RoundPrefixed(tokens, m, Some(s[0]));
      FeedPrefixed(tokens, Round(m, Some(s[0])), s[1..]);
    }
  }

  /** A side bias that closes, after any tokens. */
  lemma ReadsRemains(tokens: seq<Token>, side: string)
    requires Closes(side)
    ensures Feed(Machine(tokens, InParam(";s"), false, ""), side + "]") ==
            Machine(tokens + Remains(side), Idle, false, "")
  {
    hide Feed;
    FeedPrefixed(tokens, AT_SIDE, side + "]");
    assert tokens + [] == tokens;
  }

  /** Without a caret there is no escape, so it closes. */
  lemma NoCaretCloses(side: string)
    requires '^' !in side
    ensures Closes(side)
  {
    hide Feed, Round;
    NoEscape(AT_SIDE, side);
    FeedConcat(AT_SIDE, side, "]");
    var m := Feed(AT_SIDE, side);
    FeedOne(m, ']', "");
    ClosingIdles(m);
  }

  lemma {:induction false} NoEscape(m: Machine, s: string)
    requires m.Consistent() && !m.escape && '^' !in s
    ensures !Feed(m, s).escape
    decreases |s|
  {
    if s != "" {
      assert s[0] in s;
      NoEscape(Round(m, Some(s[0])), s[1..]);
    }
  }

  lemma ClosingIdles(m: Machine)
    requires m.Consistent() && !m.escape
    ensures Round(m, Some(']')).mode.Idle? && !Round(m, Some(']')).escape
  {
  }

  // ---- reading what is printed ----

  function SideRemains(side: Option<string>): seq<Token> {
    if Truthy(side) then Remains(side.value) else []
  }

  predicate SideCloses(p: Part) {
    Truthy(p.side) ==> Closes(p.side.value)
  }

  lemma RawBracket(m: Machine, xs: seq<string>, side: Option<string>)
    requires Outside(m) && xs != [] && (Truthy(side) ==> Closes(side.value))
    ensures var r := Feed(m, BracketString(xs, side));
            && Reads(m, BracketString(xs, side), BracketTokens(xs) + SideRemains(side)) && !r.mode.InSpatial?
  {
    hide Round, Feed, Flushed, Joined, EscapedAll, BracketTokens, Remains, Closes;
    if Truthy(side) {
      var open := "[" + Joined(EscapedAll(xs), ",") + ";s=";
      BracketOpens(m, xs);
      ReadsRemains(Flushed(m) + BracketTokens(xs), side.value);
      assert BracketString(xs, side) == open + (side.value + "]");
      FeedConcat(m, open, side.value + "]");
      FlushIdle(Flushed(m) + BracketTokens(xs) + Remains(side.value));
      Associate(Flushed(m), BracketTokens(xs), Remains(side.value));
    } else {
      BracketPiece(m, xs, side);
      assert SideTokens(side) == [] == SideRemains(side);
    }
  }

  function RawId(p: Part): seq<Token> {
    if Truthy(p.id) then BracketTokens([p.id.value]) + SideRemains(p.side) else []
  }

  function RawText(p: Part): seq<Token> {
    if PrintsText(p) then BracketTokens(Texts(p)) + SideRemains(p.side) else []
  }

  /** What a printed step is read as, whatever its side. */
  function RawPart(p: Part): seq<Token> {
    [Step(p.index)] + RawId(p) + OffsetTokens(p) + TemporalTokens(p) + AllSpatialTokens(p) + RawText(p)
  }

  lemma RawPartPiece(m: Machine, p: Part)
    requires Outside(m) && HasNumbers(p) && SideCloses(p)
    ensures Reads(m, PartToString(p), RawPart(p))
  {
    hide Feed, Flushed, Reads, HasNumbers, PartToString, BracketString, BracketTokens, SideRemains, Closes;
    hide OffsetTokens, TemporalTokens, AllSpatialTokens;
    IdIsBracket(p);
    TextIsBracket(p);
    forall n | Outside(n) && !n.mode.InSpatial?
      ensures Reads(n, IdString(p), RawId(p)) && !Feed(n, IdString(p)).mode.InSpatial?
    {
      if Truthy(p.id) {
        RawBracket(n, [p.id.value], p.side);
      } else {
        ReadsNothing(n);
      }
    }
    forall n | Outside(n)
      ensures Reads(n, TextString(p), RawText(p))
    {
      if PrintsText(p) {
        RawBracket(n, Texts(p), p.side);
      } else {
        ReadsNothing(n);
      }
    }
    PartPieces(m, p, RawId(p), RawText(p));
  }

  /** What can be read to the end, whatever the sides. */
  predicate Readable(p: Part) {
    HasNumbers(p) && SideCloses(p)
  }

  function RawPath(path: Path): seq<Token> {
    if path == [] then [] else RawPart(path[0]) + RawPath(path[1..])
  }

  lemma {:induction false} RawPathPiece(m: Machine, path: Path)
    requires Outside(m) && forall p <- path :: Readable(p)
    ensures Reads(m, PathToString(path), RawPath(path))
    decreases |path|
  {
    hide Round, Feed, Flushed, HasNumbers, SideCloses, PartToString, RawPart;
    if path == [] {
      ReadsNothing(m);
    } else {
      assert path[0] in path;
      RawPartPiece(m, path[0]);
      RawPathPiece(Feed(m, PartToString(path[0])), path[1..]);
      ReadsConcat(m, PartToString(path[0]), RawPart(path[0]), PathToString(path[1..]), RawPath(path[1..]));
    }
  }

  predicate AllReadable(paths: seq<Path>) {
    forall path <- paths, p <- path :: Readable(p)
  }

  function RawPaths(paths: seq<Path>): seq<Token> {
    if paths == [] then []
    else if |paths| == 1 then RawPath(paths[0])
    else RawPath(paths[0]) + ([Indirection] + RawPaths(paths[1..]))
  }

  lemma {:induction false} RawPathsPiece(m: Machine, paths: seq<Path>)
    requires Outside(m) && AllReadable(paths)
    ensures Reads(m, PathsToString(paths), RawPaths(paths))
    decreases |paths|
  {
    hide Round, Feed, Flushed, Readable, PathToString, RawPath;
    if paths == [] {
      ReadsNothing(m);
    } else {
      assert paths[0] in paths;
      RawPathPiece(m, paths[0]);
      if |paths| > 1 {
        var s, x := PathToString(paths[0]), RawPath(paths[0]);
        MarkPiece(Feed(m, s), '!');
        ReadsConcat(m, s, x, "!", [Indirection]);
        RawPathsPiece(Feed(m, s + "!"), paths[1..]);
        ReadsConcat(m, s + "!", x + [Indirection], PathsToString(paths[1..]), RawPaths(paths[1..]));
        Associate(x, [Indirection], RawPaths(paths[1..]));
      }
    }
  }

  predicate ReadableCfi(c: Cfi) {
    match c
    case Point(paths) => AllReadable(paths)
    case Range(parent, start, end) => AllReadable(parent) && AllReadable(start) && AllReadable(end)
  }

  function RawCfi(c: Cfi): seq<Token> {
    match c
    case Point(paths) => RawPaths(paths)
    case Range(parent, start, end) =>
      RawPaths(parent) + ([Comma] + (RawPaths(start) + ([Comma] + RawPaths(end))))
  }

  lemma RawCfiPiece(m: Machine, c: Cfi)
    requires Outside(m) && ReadableCfi(c)
    ensures Reads(m, ToInnerString(c), RawCfi(c))
  {
    hide Round, Feed, Flushed, Reads, AllReadable, PathsToString, RawPaths;
    match c {
      case Point(paths) => RawPathsPiece(m, paths);
      case Range(parent, start, end) =>
        var s1, x1 := PathsToString(parent), RawPaths(parent);
        RawPathsPiece(m, parent);
        ReadsOutside(m, s1, x1);
        CommaPiece(m, s1, x1);
        var s2, x2 := s1 + "," + PathsToString(start), x1 + [Comma] + RawPaths(start);
        RawPathsPiece(Feed(m, s1 + ","), start);
        ReadsConcat(m, s1 + ",", x1 + [Comma], PathsToString(start), RawPaths(start));
        ReadsOutside(m, s2, x2);
        CommaPiece(m, s2, x2);
        RawPathsPiece(Feed(m, s2 + ","), end);
        ReadsConcat(m, s2 + ",", x2 + [Comma], PathsToString(end), RawPaths(end));
        assert x2 + [Comma] + RawPaths(end) == RawCfi(c);
    }
  }

  /** The tokens of the printed text. */
  lemma RawTokens(c: Cfi)
    requires ReadableCfi(c) && CfiHasNumbers(c)
    ensures TokensOf(Unwrap(ToString(c))) == RawCfi(c)
  {
    hide CfiHasNumbers, ToInnerString, RawCfi, Round, Feed, Wrap, Unwrap, IsCfi, Trim, Tight, Reads, ReadableCfi;
    var inner := ToInnerString(c);
    TightCfi(c);
    TrimTight(inner);
    RawCfiPiece(START, c);
    FeedWrapped(inner, RawCfi(c));
    UnwrapWrapped(inner);
  }

  // ---- the sides that tokens leave ----

  predicate SetsSide(t: Token) {
    t.Param? && t.kind == ";s"
  }

  /** For each step the side it is left with: the last one before the next step. */
  function Marks(tokens: seq<Token>): seq<Option<string>> {
    if tokens == [] then []
    else
      var before, last := Marks(tokens[..|tokens| - 1]), tokens[|tokens| - 1];
      if last.Step? then before + [None]
      else if SetsSide(last) && before != [] then before[..|before| - 1] + [Some(last.value)]
      else before
  }

  /** No side is set before the first step. */
  predicate StepFirst(tokens: seq<Token>) {
    tokens == [] ||
    var front, last := tokens[..|tokens| - 1], tokens[|tokens| - 1];
    StepFirst(front) && (SetsSide(last) ==> Marks(front) != [])
  }

  lemma MarksSnoc(tokens: seq<Token>, t: Token)
    ensures var before := Marks(tokens);
            Marks(tokens + [t]) ==
              if t.Step? then before + [None]
              else if SetsSide(t) && before != [] then before[..|before| - 1] + [Some(t.value)]
              else before
    ensures StepFirst(tokens + [t]) <==> StepFirst(tokens) && (SetsSide(t) ==> Marks(tokens) != [])
  {
    assert (tokens + [t])[..|tokens|] == tokens;
  }

  lemma NoMarks()
    ensures Marks([]) == [] && StepFirst([])
  {
  }

  lemma {:induction false} MarksConcat(x: seq<Token>, y: seq<Token>)
    requires StepFirst(y)
    ensures Marks(x + y) == Marks(x) + Marks(y)
    ensures StepFirst(x) ==> StepFirst(x + y)
    decreases |y|
  {
    hide SetsSide, Marks, StepFirst;
    NoMarks();
    if y == [] {
      assert x + y == x;
    } else {
      var front, t := y[..|y| - 1], y[|y| - 1];
      assert y == front + [t] && x + y == (x + front) + [t];
      MarksSnoc(front, t);
      MarksSnoc(x + front, t);
      MarksConcat(x, front);
    }
  }

  /** What follows a step sets no side before it. */
  lemma {:induction false} LedByStep(n: Number, y: seq<Token>)
    ensures Marks([Step(n)] + y) != [] && StepFirst([Step(n)] + y)
    decreases |y|
  {
    hide Marks, StepFirst;
    NoMarks();
    if y == [] {
      MarksSnoc([], Step(n));
      assert [Step(n)] + y == [] + [Step(n)];
    } else {
      var front, t := y[..|y| - 1], y[|y| - 1];
      assert [Step(n)] + y == ([Step(n)] + front) + [t];
      LedByStep(n, front);
      MarksSnoc([Step(n)] + front, t);
    }
  }

  /** A side that no token sets is not left. */
  lemma {:induction false} NeverLeft(tokens: seq<Token>, side: string)
    requires forall t <- tokens :: SetsSide(t) ==> t.value != side
    ensures forall i :: 0 <= i < |Marks(tokens)| ==> Marks(tokens)[i] != Some(side)
    decreases |tokens|
  {
    hide SetsSide;
    if tokens != [] {
      NeverLeft(tokens[..|tokens| - 1], side);
    }
  }

  /** One step whose tokens set one side, or none. */
  lemma {:induction false} OneStep(n: Number, y: seq<Token>, side: string)
    requires forall t <- y :: !t.Step? && (SetsSide(t) ==> t.value == side)
    ensures Marks([Step(n)] + y) == [if exists t <- y :: SetsSide(t) then Some(side) else None]
    decreases |y|
  {
    hide SetsSide, Marks;
    NoMarks();
    if y == [] {
      MarksSnoc([], Step(n));
      assert [Step(n)] + y == [] + [Step(n)];
    } else {
      var front, t := y[..|y| - 1], y[|y| - 1];
      assert y == front + [t] && [Step(n)] + y == ([Step(n)] + front) + [t];
      assert t in y && forall x <- y :: x in front || x == t;
      OneStep(n, front, side);
      MarksSnoc([Step(n)] + front, t);
    }
  }

  // ---- the sides that a parse gives ----

  function PathMarks(path: Path): seq<Option<string>> {
    seq(|path|, i requires 0 <= i < |path| => path[i].side)
  }

  function PathsMarks(paths: seq<Path>): seq<Option<string>> {
    if paths == [] then [] else PathMarks(paths[0]) + PathsMarks(paths[1..])
  }

  function CfiMarksOf(c: Cfi): seq<Option<string>> {
    match c
    case Point(paths) => PathsMarks(paths)
    case Range(parent, start, end) => PathsMarks(parent) + PathsMarks(start) + PathsMarks(end)
  }

  lemma TokenMarks(s: Parsing, t: Token)
    requires !s.failed && !ParseToken(s, t).failed
    ensures SetsSide(t) ==> s.parts != []
    ensures var before := PathMarks(s.parts);
            PathMarks(ParseToken(s, t).parts) ==
              if t.Step? then before + [None]
              else if SetsSide(t) && before != [] then before[..|before| - 1] + [Some(t.value)]
              else before
  {
  }

  lemma {:induction false} ParseMarks(tokens: seq<Token>)
    requires !ParseTokens(NOTHING_PARSED, tokens).failed
    ensures PathMarks(ParseTokens(NOTHING_PARSED, tokens).parts) == Marks(tokens) && StepFirst(tokens)
    decreases |tokens|
  {
    hide ParseToken, ParseTokens, SetsSide, Marks, StepFirst;
    NoMarks();
    if tokens == [] {
      ParseNothing(NOTHING_PARSED);
    } else {
      var front, t := tokens[..|tokens| - 1], tokens[|tokens| - 1];
      var s := ParseTokens(NOTHING_PARSED, front);
      assert tokens == front + [t];
      ParseConcat(NOTHING_PARSED, front, [t]);
      ParseOne(s, t);
      if s.failed {
        FailedStays(s, [t]);
      }
      ParseMarks(front);
      TokenMarks(s, t);
      MarksSnoc(front, t);
    }
  }

  /** Separators set nothing. */
  lemma Separated(x: seq<Token>, t: Token, y: seq<Token>)
    requires StepFirst(x) && StepFirst(y) && (t.Indirection? || t.Comma?)
    ensures Marks(x + ([t] + y)) == Marks(x) + Marks(y) && StepFirst(x + ([t] + y))
  {
    hide Marks, StepFirst;
    NoMarks();
    MarksSnoc([], t);
    assert [] + [t] == [t] && [] + Marks(y) == Marks(y);
    MarksConcat([t], y);
    MarksConcat(x, [t] + y);
  }

  lemma {:induction false} ParsedMarks(tokens: seq<Token>, paths: seq<Path>)
    requires ParserIndir(tokens) == Some(paths)
    ensures PathsMarks(paths) == Marks(tokens) && StepFirst(tokens)
    decreases |tokens|
  {
    hide SplitAt, Marks, StepFirst, PathMarks, ParseTokens;
    var r := SplitAt(tokens, Indirection);
    var rest := SplitOnce(tokens, Indirection);
    assert PathOf(r[0]) == Some(paths[0]);
    ParseMarks(r[0]);
    if |r| == 1 {
      assert r[1..] == [] && PathsOf([]) == Some([]);
      assert paths[1..] == [] && PathMarks(paths[0]) + [] == PathMarks(paths[0]);
    } else {
      assert ParserIndir(rest) == Some(paths[1..]);
      ParsedMarks(rest, paths[1..]);
      Separated(r[0], Indirection, rest);
    }
  }

  lemma {:induction false} AllParsed(tokens: seq<Token>)
    requires forall x <- SplitAt(tokens, Comma) :: ParserIndir(x).Some?
    ensures StepFirst(tokens)
    decreases |tokens|
  {
    hide SplitAt, ParserIndir, StepFirst, Marks;
    var r := SplitAt(tokens, Comma);
    var rest := SplitOnce(tokens, Comma);
    assert r[0] in r;
    ParsedMarks(r[0], ParserIndir(r[0]).value);
    if |r| > 1 {
      assert forall x <- r[1..] :: x in r;
      AllParsed(rest);
      Separated(r[0], Comma, rest);
    }
  }

  /** The sides of a parsed CFI are those its tokens leave; a range takes the first three stretches. */
  lemma CfiMarked(s: string, c: Cfi)
    requires ParseCfi(s) == Whole(c)
    ensures CfiMarksOf(c) <= Marks(TokensOf(Unwrap(s)))
  {
    hide ParserIndir, SplitAt, Marks, StepFirst, PathsMarks, TokensOf, Unwrap;
    var tokens := TokensOf(Unwrap(s));
    var r := SplitAt(tokens, Comma);
    var rest := SplitOnce(tokens, Comma);
    if |r| == 1 {
      ParsedMarks(tokens, c.paths);
    } else {
      var later := SplitAt(rest, Comma);
      var last := SplitOnce(rest, Comma);
      var ends := SplitAt(last, Comma);
      assert later == r[1..] && ends == later[1..];
      var more := SplitOnce(last, Comma);
      ParsedMarks(r[0], c.parent);
      ParsedMarks(r[1], c.start);
      ParsedMarks(r[2], c.end);
      if |ends| > 1 {
        assert SplitAt(more, Comma) == ends[1..] == r[3..];
        assert forall x <- r[3..] :: x in r;
        AllParsed(more);
        Separated(r[2], Comma, more);
      }
      Separated(r[1], Comma, last);
      Separated(r[0], Comma, rest);
    }
  }

  // ---- a side that is not plain is not left ----

  /** Only sides below a length are set. */
  predicate Short(tokens: seq<Token>, n: nat) {
    forall t <- tokens :: SetsSide(t) ==> |t.value| < n
  }

  /** What has been read of a side bias into a parameter: either all of it so far, all plain, in one
      value, or less. */
  predicate Behind(m: Machine, side: string, k: nat)
    requires k <= |side|
  {
    && m.Consistent() && Short(m.tokens, |side|)
    && (m.mode.InParam? ==>
        && |m.value| <= k
        && (|m.value| == k ==> m.mode.kind == ";s" && !m.escape && PlainSide(side[..k])))
  }

  lemma PushedShort(tokens: seq<Token>, t: Token, n: nat)
    requires Short(tokens, n) && (SetsSide(t) ==> |t.value| < n)
    ensures Short(tokens + [t], n)
  {
  }

  lemma BehindRound(m: Machine, side: string, k: nat)
    requires k < |side| && Behind(m, side, k)
    ensures Behind(Round(m, Some(side[k])), side, k + 1)
  {
    hide PlainSide, ParseInt, Short;
    var c := side[k];
    assert side[..k + 1] == side[..k] + [c];
    if m.mode.InParam? && |m.value| == k {
      PlainNext(side, k);
    }
    forall t: Token | SetsSide(t) ==> |t.value| <= k
      ensures Short(m.tokens + [t], |side|)
    {
      PushedShort(m.tokens, t, |side|);
    }
  }

  lemma PlainNext(side: string, k: nat)
    requires k < |side| && PlainSide(side[..k])
    ensures IsPlain(side[k]) ==> PlainSide(side[..k + 1])
  {
    assert side[..k + 1] == side[..k] + [side[k]];
  }

  lemma {:induction false} BehindFeed(m: Machine, side: string, k: nat)
    requires k <= |side| && Behind(m, side, k) && !PlainSide(side)
    ensures m.Consistent()
    ensures Short(Feed(m, side[k..] + "]").tokens, |side|)
    decreases |side| - k
  {
    hide Round, Feed, PlainSide, Short;
    if k == |side| {
      assert side[k..] + "]" == "]" && side[..k] == side;
      FeedOne(m, ']', "");
      LastShort(m, side);
    } else {
      var rest := side[k + 1..] + "]";
      assert side[k..] + "]" == [side[k]] + rest;
      FeedOne(m, side[k], rest);
      BehindRound(m, side, k);
      BehindFeed(Round(m, Some(side[k])), side, k + 1);
    }
  }

  lemma LastShort(m: Machine, side: string)
    requires Behind(m, side, |side|) && !PlainSide(side)
    ensures Short(Round(m, Some(']')).tokens, |side|)
  {
    hide PlainSide, ParseInt, Short;
    assert side[..|side|] == side;
    forall t: Token | SetsSide(t) ==> |t.value| < |side|
      ensures Short(m.tokens + [t], |side|)
    {
      PushedShort(m.tokens, t, |side|);
    }
  }

  /** No token read from a side that is not plain sets that side. */
  lemma RemainsShort(side: string)
    requires !PlainSide(side)
    ensures forall t <- Remains(side) :: SetsSide(t) ==> t.value != side
  {
    hide Feed, PlainSide, SetsSide;
    assert Behind(AT_SIDE, side, 0) by { NothingBehind(side); }
    BehindFeed(AT_SIDE, side, 0);
    assert side[0..] == side;
  }

  lemma NothingBehind(side: string)
    ensures Behind(AT_SIDE, side, 0)
  {
    assert side[..0] == "";
  }

  lemma PlainRemains(side: string)
    requires PlainSide(side)
    ensures Remains(side) == [Param(";s", side)] && Closes(side)
  {
    hide Feed, Round, PlainSide;
    FeedConcat(AT_SIDE, side, "]");
    FeedSide(AT_SIDE, side);
    assert "" + side == side;
    SideParam([], side);
    FeedOne(Machine([], InParam(";s"), false, side), ']', "");
  }

  // ---- the steps of a printed CFI ----

  lemma {:induction false} BracketsOnly(xs: seq<string>)
    ensures forall t <- BracketTokens(xs) :: t.Bracket?
  {
    if xs != [] {
      BracketsOnly(xs[1..]);
    }
  }

  lemma {:induction false} SpatialsOnly(xs: seq<string>)
    ensures forall t <- SpatialTokens(xs) :: t.Spatial?
  {
    if xs != [] {
      SpatialsOnly(xs[1..]);
    }
  }

  /** The tokens of a printed step after its number. */
  function AfterStep(p: Part): seq<Token> {
    RawId(p) + OffsetTokens(p) + TemporalTokens(p) + AllSpatialTokens(p) + RawText(p)
  }

  lemma RawPartIs(p: Part)
    ensures RawPart(p) == [Step(p.index)] + AfterStep(p)
  {
    hide RawId, OffsetTokens, TemporalTokens, AllSpatialTokens, RawText;
  }

  /** They are those read from the side, if it is printed, and others that set nothing. */
  lemma AfterStepTokens(p: Part)
    ensures forall t <- AfterStep(p) :: (Truthy(p.side) && t in Remains(p.side.value)) || (!t.Step? && !SetsSide(t))
    ensures Truthy(p.side) ==> forall t <- Remains(p.side.value) :: t in AfterStep(p)
  {
    hide Remains, BracketTokens, SpatialTokens, TruthyNumber, IsOdd;
    if Truthy(p.id) {
      BracketsOnly([p.id.value]);
    }
    BracketsOnly(Texts(p));
    if p.spatial.Some? {
      SpatialsOnly(p.spatial.value);
    }
  }

  lemma RawPartMarks(p: Part)
    ensures Marks(RawPart(p)) != [] && StepFirst(RawPart(p))
    ensures PlainlySided(p) ==> Marks(RawPart(p)) == [if Truthy(p.side) then p.side else None]
    ensures !PlainlySided(p) ==> Marks(RawPart(p))[0] != p.side
  {
    hide Remains, AfterStep, RawPart, Marks, StepFirst, PlainSide, SetsSide;
    RawPartIs(p);
    AfterStepTokens(p);
    LedByStep(p.index, AfterStep(p));
    if PlainlySided(p) {
      var side := if Truthy(p.side) then p.side.value else "";
      if Truthy(p.side) {
        PlainRemains(side);
        var t := Param(";s", side);
        assert t in Remains(side) && SetsSide(t) by { SideSets(side); }
      }
      OneStep(p.index, AfterStep(p), side);
    } else {
      RemainsShort(p.side.value);
      assert !SetsSide(Step(p.index)) by { StepSetsNothing(p.index); }
      NeverLeft(RawPart(p), p.side.value);
    }
  }

  lemma SideSets(side: string)
    ensures SetsSide(Param(";s", side))
  {
  }

  lemma StepSetsNothing(n: Number)
    ensures !SetsSide(Step(n))
  {
  }

  // ---- against a CFI ----

  ghost predicate Differ(a: seq<Option<string>>, b: seq<Option<string>>) {
    exists i :: 0 <= i < |a| && i < |b| && a[i] != b[i]
  }

  /** The sides left are those wanted, or one is another; and one is, if a side is not plain. */
  ghost predicate Agree(wanted: seq<Option<string>>, left: seq<Option<string>>, plain: bool) {
    Differ(wanted, left) || (plain && wanted == left)
  }

  lemma AgreeConcat(a: seq<Option<string>>, b: seq<Option<string>>, p: bool,
                    c: seq<Option<string>>, d: seq<Option<string>>, q: bool)
    requires Agree(a, b, p) && Agree(c, d, q)
    ensures Agree(a + c, b + d, p && q)
  {
    if Differ(a, b) {
      var i :| 0 <= i < |a| && i < |b| && a[i] != b[i];
      assert (a + c)[i] == a[i] && (b + d)[i] == b[i];
    } else if Differ(c, d) {
      var i :| 0 <= i < |c| && i < |d| && c[i] != d[i];
      assert (a + c)[|a| + i] == c[i] && (b + d)[|a| + i] == d[i];
    }
  }

  /** The same side, or none for an empty one. */
  predicate SideKept(p: Part, q: Part) {
    q.side == p.side || (p.side == Some("") && q.side.None?)
  }

  lemma PartAgrees(p: Part, q: Part)
    requires SideKept(p, q)
    ensures Agree([q.side], Marks(RawPart(p)), PlainlySided(p)) && StepFirst(RawPart(p))
  {
    hide RawPart, Marks, StepFirst, PlainSide;
    RawPartMarks(p);
    var marks := Marks(RawPart(p));
    if !PlainlySided(p) || p.side == q.side == Some("") {
      assert [q.side][0] != marks[0];
    }
  }

  predicate PathKept(path: Path, target: Path) {
    |path| == |target| && forall i :: 0 <= i < |path| ==> SideKept(path[i], target[i])
  }

  predicate PlainPath(path: Path) {
    forall p <- path :: PlainlySided(p)
  }

  lemma {:induction false} PathAgrees(path: Path, target: Path)
    requires PathKept(path, target)
    ensures Agree(PathMarks(target), Marks(RawPath(path)), PlainPath(path)) && StepFirst(RawPath(path))
    decreases |path|
  {
    hide RawPart, Marks, StepFirst, PlainlySided, SideKept, Agree;
    if path == [] {
      NoMarks();
      assert Agree([], [], true) by { NothingDiffers(); }
    } else {
      PartAgrees(path[0], target[0]);
      PathAgrees(path[1..], target[1..]);
      MarksConcat(RawPart(path[0]), RawPath(path[1..]));
      AgreeConcat([target[0].side], Marks(RawPart(path[0])), PlainlySided(path[0]),
        PathMarks(target[1..]), Marks(RawPath(path[1..])), PlainPath(path[1..]));
      assert PathMarks(target) == [target[0].side] + PathMarks(target[1..]);
      assert path == [path[0]] + path[1..];
    }
  }

  lemma NothingDiffers()
    ensures Agree([], [], true)
  {
  }

  predicate PlainPaths(paths: seq<Path>) {
    forall path <- paths :: PlainPath(path)
  }

  /** Path by path; no path at all prints like one without steps. */
  predicate PathsKept(paths: seq<Path>, targets: seq<Path>) {
    (paths == [] && targets == [[]]) ||
    (|paths| == |targets| && forall i :: 0 <= i < |paths| ==> PathKept(paths[i], targets[i]))
  }

  lemma {:induction false} PathsAgree(paths: seq<Path>, targets: seq<Path>)
    requires PathsKept(paths, targets)
    ensures Agree(PathsMarks(targets), Marks(RawPaths(paths)), PlainPaths(paths)) && StepFirst(RawPaths(paths))
    decreases |paths|
  {
    hide RawPath, Marks, StepFirst, PathKept, PlainPath, Agree;
    NothingDiffers();
    NoMarks();
    if paths == [] {
      assert targets != [] ==> targets[1..] == [];
      assert PathsMarks(targets) == [];
    } else {
      PathAgrees(paths[0], targets[0]);
      assert paths == [paths[0]] + paths[1..];
      if |paths| == 1 {
        assert targets[1..] == [] && PathMarks(targets[0]) + [] == PathMarks(targets[0]);
      } else {
        PathsAgree(paths[1..], targets[1..]);
        Separated(RawPath(paths[0]), Indirection, RawPaths(paths[1..]));
        AgreeConcat(PathMarks(targets[0]), Marks(RawPath(paths[0])), PlainPath(paths[0]),
          PathsMarks(targets[1..]), Marks(RawPaths(paths[1..])), PlainPaths(paths[1..]));
      }
    }
  }

  /** No side bias has a character that ends a parameter, starts one or escapes. */
  predicate PlainSides(c: Cfi) {
    match c
    case Point(paths) => PlainPaths(paths)
    case Range(parent, start, end) => PlainPaths(parent) && PlainPaths(start) && PlainPaths(end)
  }

  predicate CfiKept(c: Cfi, target: Cfi) {
    match c
    case Point(paths) => target.Point? && PathsKept(paths, target.paths)
    case Range(parent, start, end) =>
      target.Range? && PathsKept(parent, target.parent) && PathsKept(start, target.start) && PathsKept(end, target.end)
  }

  lemma CfiAgrees(c: Cfi, target: Cfi)
    requires CfiKept(c, target)
    ensures Agree(CfiMarksOf(target), Marks(RawCfi(c)), PlainSides(c))
  {
    hide RawPaths, Marks, StepFirst, PathsKept, PlainPaths, PathsMarks, Agree;
    match c {
      case Point(paths) => PathsAgree(paths, target.paths);
      case Range(parent, start, end) =>
        var x, y, z := RawPaths(parent), RawPaths(start), RawPaths(end);
        PathsAgree(parent, target.parent);
        PathsAgree(start, target.start);
        PathsAgree(end, target.end);
        Separated(y, Comma, z);
        Separated(x, Comma, y + ([Comma] + z));
        var a, b, d := PathsMarks(target.parent), PathsMarks(target.start), PathsMarks(target.end);
        AgreeConcat(b, Marks(y), PlainPaths(start), d, Marks(z), PlainPaths(end));
        AgreeConcat(a, Marks(x), PlainPaths(parent), b + d, Marks(y) + Marks(z), PlainPaths(start) && PlainPaths(end));
        assert a + b + d == a + (b + d);
    }
  }

  /** With a side that is not plain, but none that swallows its bracket, a CFI reads back neither as
      itself nor as any other with these sides. */
  lemma ClosedIsLost(c: Cfi, target: Cfi)
    requires ReadableCfi(c) && CfiHasNumbers(c) && CfiKept(c, target) && !PlainSides(c)
    ensures ParseCfi(ToString(c)) != Whole(target)
  {
    hide ParseCfi, ToString, TokensOf, Unwrap, RawCfi, Marks, CfiMarksOf, CfiHasNumbers, ReadableCfi, CfiKept,
         PlainSides;
    RawTokens(c);
    CfiAgrees(c, target);
    if ParseCfi(ToString(c)) == Whole(target) {
      CfiMarked(ToString(c), target);
    }
  }
}
