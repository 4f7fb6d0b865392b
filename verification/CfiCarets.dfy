/** Counting carets (frontend/public/foliate/epubcfi.js). Inside brackets a caret that is read takes two
    carets of text, and one that escapes something else is lost. A printed CFI has no carets to spare for a
    side bias that swallows its closing bracket, however often the side bias is printed. */
module CfiCarets {
  import opened Wrappers
  import opened CfiSyntax
  import opened CfiReading
  import opened CfiRoundTrip
  import opened CfiWeights
  import opened CfiMarks

  // ---- carets ----

  function Carets(s: string): nat {
    if s == "" then 0 else Carets(s[1..]) + if s[0] == '^' then 1 else 0
  }

  lemma {:induction false} CaretsConcat(s: string, t: string)
    ensures Carets(s + t) == Carets(s) + Carets(t)
  {
    if s == "" {
      assert s + t == t;
    } else {
      assert (s + t)[1..] == s[1..] + t;
      CaretsConcat(s[1..], t);
    }
  }

  lemma CaretsSnoc(s: string, c: char)
    ensures Carets(s + [c]) == Carets(s) + if c == '^' then 1 else 0
  {
    CaretsConcat(s, [c]);
    assert [c][1..] == "";
  }

  lemma {:induction false} NoCarets(s: string)
    requires '^' !in s
    ensures Carets(s) == 0
  {
    if s != "" {
      assert s[0] in s;
      NoCarets(s[1..]);
    }
  }

  predicate InBrackets(m: Machine) {
    m.mode.InBracket? || m.mode.InParam?
  }

  /** The carets of text that a token takes. */
  function TokenCarets(t: Token): nat {
    match t
    case Bracket(x) => 2 * Carets(x)
    case Param(kind, x) => 2 * Carets(kind) + 2 * Carets(x)
    case _ => 0
  }

  function TokensCarets(tokens: seq<Token>): nat {
    if tokens == [] then 0 else TokensCarets(tokens[..|tokens| - 1]) + TokenCarets(tokens[|tokens| - 1])
  }

  lemma CaretsOfSnoc(tokens: seq<Token>, t: Token)
    ensures TokensCarets(tokens + [t]) == TokensCarets(tokens) + TokenCarets(t)
  {
    assert (tokens + [t])[..|tokens|] == tokens;
  }

  /** The carets that what has been read has taken. */
  function Taken(m: Machine): nat {
    TokensCarets(m.tokens) + (if m.escape then 1 else 0) +
    match m.mode
    case InBracket => 2 * Carets(m.value)
    case InParam(kind) => 2 * Carets(kind) + 2 * Carets(m.value)
    case _ => 0
  }

  /** One character adds no more than the caret it is; a bracket that is escaped loses the caret. */
  lemma RoundTakes(m: Machine, c: char)
    requires m.Consistent()
    ensures Taken(Round(m, Some(c))) <= Taken(m) + if c == '^' then 1 else 0
    ensures c == ']' && InBrackets(Round(m, Some(c))) ==> Taken(Round(m, Some(c))) < Taken(m)
  {
    hide TokensCarets, Carets, ParseInt;
    forall t: Token
      ensures TokensCarets(m.tokens + [t]) == TokensCarets(m.tokens) + TokenCarets(t)
    {
      CaretsOfSnoc(m.tokens, t);
    }
    CaretsSnoc(m.value, c);
    CaretsConcat(";", m.value);
    assert Carets("") == 0 && Carets(";") == 0 by { NoCarets(""); NoCarets(";"); }
  }

  lemma {:induction false} FeedTakes(m: Machine, s: string)
    requires m.Consistent()
    ensures Taken(Feed(m, s)) <= Taken(m) + Carets(s)
    decreases |s|
  {
    hide Round, Taken;
    if s != "" {
      RoundTakes(m, s[0]);
      FeedTakes(Round(m, Some(s[0])), s[1..]);
    }
  }

  lemma EndTakes(m: Machine)
    requires m.Consistent()
    ensures TokensCarets(Flushed(m)) <= Taken(m)
    ensures TokensCarets(Flushed(Round(m, Some(')')))) <= Taken(m)
  {
    hide Round, Taken;
    RoundTakes(m, ')');
    FlushTakes(m);
    FlushTakes(Round(m, Some(')')));
  }

  lemma FlushTakes(m: Machine)
    requires m.Consistent()
    ensures TokensCarets(Flushed(m)) <= Taken(m)
  {
    hide TokensCarets, Carets, ParseInt;
    forall t: Token
      ensures TokensCarets(m.tokens + [t]) == TokensCarets(m.tokens) + TokenCarets(t)
    {
      CaretsOfSnoc(m.tokens, t);
    }
  }

  // ---- what a printed CFI takes ----

  predicate Steady(m: Machine) {
    m.Consistent() && !m.escape
  }

  /** After the side bias and its bracket no escape is pending: it closes, or its last caret escapes the
      bracket. */
  predicate Settles(side: string) {
    !Feed(AT_SIDE, side + "]").escape
  }

  lemma NoCaretTakes(m: Machine, s: string)
    requires Steady(m) && '^' !in s
    ensures Steady(Feed(m, s)) && Taken(Feed(m, s)) <= Taken(m)
  {
    hide Round, Feed, Taken;
    NoEscape(m, s);
    FeedTakes(m, s);
    NoCarets(s);
  }

  function AllCarets(xs: seq<string>): nat {
    if xs == [] then 0 else AllCarets(xs[..|xs| - 1]) + 2 * Carets(xs[|xs| - 1])
  }

  lemma AllCaretsSnoc(xs: seq<string>, x: string)
    ensures AllCarets(xs + [x]) == AllCarets(xs) + 2 * Carets(x)
  {
    assert (xs + [x])[..|xs|] == xs;
  }

  lemma {:induction false} AllCaretsFirst(xs: seq<string>)
    requires xs != []
    ensures AllCarets(xs) == 2 * Carets(xs[0]) + AllCarets(xs[1..])
    decreases |xs|
  {
    hide Carets;
    var front, last := xs[..|xs| - 1], xs[|xs| - 1];
    if |xs| > 1 {
      AllCaretsFirst(front);
      assert xs[1..] == front[1..] + [last];
      AllCaretsSnoc(front[1..], last);
    }
  }

  lemma EscapedTakes(m: Machine, s: string)
    requires InBrackets(m) && !m.escape
    ensures var r := Feed(m, EscapeCfi(s));
            InBrackets(r) && !r.escape && Taken(r) <= Taken(m) + 2 * Carets(s)
  {
    hide Feed, TokensCarets, Carets;
    FeedEscaped(m, s);
    CaretsConcat(m.value, s);
  }

  /** A bracket or a comma before a text. */
  lemma BeforeText(m: Machine, c: char)
    requires Steady(m) && (c == '[' || (c == ',' && InBrackets(m)))
    ensures var r := Round(m, Some(c));
            InBrackets(r) && !r.escape && Taken(r) <= Taken(m)
  {
    hide TokensCarets, Carets;
    RoundTakes(m, c);
  }

  lemma {:induction false} TextsTake(m: Machine, xs: seq<string>)
    requires InBrackets(m) && !m.escape && xs != []
    ensures var r := Feed(m, Joined(EscapedAll(xs), ","));
            InBrackets(r) && !r.escape && Taken(r) <= Taken(m) + AllCarets(xs)
    decreases |xs|
  {
    hide Round, Feed, EscapeCfi, Taken, Carets, AllCarets, InBrackets;
    BracketsConsistent(m);
    var escaped := EscapedAll(xs);
    EscapedTakes(m, xs[0]);
    AllCaretsFirst(xs);
    var after := Feed(m, escaped[0]);
    BracketsConsistent(after);
    if |xs| == 1 {
      assert xs[1..] == [];
      assert AllCarets([]) == 0 by { NoTextsTake(); }
    } else {
      assert escaped[1..] == EscapedAll(xs[1..]);
      var rest := Joined(escaped[1..], ",");
      assert Joined(escaped, ",") == escaped[0] + ([','] + rest);
      FeedConcat(m, escaped[0], [','] + rest);
      FeedOne(after, ',', rest);
      BeforeText(after, ',');
      TextsTake(Round(after, Some(',')), xs[1..]);
    }
  }

  lemma BracketsConsistent(m: Machine)
    requires InBrackets(m)
    ensures m.Consistent()
  {
  }

  lemma NoTextsTake()
    ensures AllCarets([]) == 0
  {
  }

  /** From inside brackets, the start of a side bias. */
  lemma SideBegins(m: Machine) returns (tokens: seq<Token>)
    requires InBrackets(m) && !m.escape
    ensures Feed(m, ";s=") == Machine(tokens, InParam(";s"), false, "")
  {
    hide Feed;
    tokens := Round(m, Some(';')).tokens;
    SideParam(tokens, "");
    assert ";s=" == [';'] + "s=" && "s=" == ['s'] + "=";
    FeedOne(m, ';', "s=");
    FeedOne(Machine(tokens, InParam(";"), false, ""), 's', "=");
    FeedOne(Machine(tokens, InParam(";"), false, "s"), '=', "");
  }

  lemma AfterClosing(m: Machine)
    requires m.Consistent()
    ensures var r := Round(m, Some(']')); r.mode.Idle? || InBrackets(r)
  {
  }

  function Loss(side: string): nat {
    if Closes(side) then 0 else 1
  }

  /** A side bias takes its carets at most; one that swallows its bracket takes one less. */
  lemma SideTakes(m: Machine, side: string)
    requires InBrackets(m) && !m.escape && Settles(side)
    ensures m.Consistent()
    ensures var r := Feed(m, ";s=" + (side + "]"));
            Steady(r) && Taken(r) + Loss(side) <= Taken(m) + Carets(side)
  {
    hide Round, Feed, Taken, Carets;
    var tokens := SideBegins(m);
    var n := Machine(tokens, InParam(";s"), false, "");
    NoCaretTakes(m, ";s=");
    FeedConcat(m, ";s=", side + "]");
    FeedPrefixed(tokens, AT_SIDE, side + "]");
    assert tokens + [] == tokens && Prefixed(tokens, AT_SIDE) == n;
    FeedConcat(n, side, "]");
    FeedConcat(AT_SIDE, side, "]");
    FeedTakes(n, side);
    var last := Feed(n, side);
    FeedOne(last, ']', "");
    FeedOne(Feed(AT_SIDE, side), ']', "");
    RoundTakes(last, ']');
    AfterClosing(last);
  }

  lemma BracketTakes(m: Machine, xs: seq<string>, side: Option<string>)
    requires Steady(m) && xs != [] && (Truthy(side) ==> Settles(side.value))
    ensures var r := Feed(m, BracketString(xs, side));
            && Steady(r)
            && Taken(r) + (if Truthy(side) then Loss(side.value) else 0)
               <= Taken(m) + AllCarets(xs) + (if Truthy(side) then Carets(side.value) else 0)
  {
    hide Round, Feed, Taken, Carets, AllCarets, Joined, EscapedAll, InBrackets, Settles, Loss;
    var texts, closing := Joined(EscapedAll(xs), ","), ParamString(side) + "]";
    assert BracketString(xs, side) == ['['] + (texts + closing);
    FeedOne(m, '[', texts + closing);
    BeforeText(m, '[');
    var n := Round(m, Some('['));
    TextsTake(n, xs);
    FeedConcat(n, texts, closing);
    var after := Feed(n, texts);
    BracketsConsistent(after);
    if Truthy(side) {
      assert closing == ";s=" + (side.value + "]");
      SideTakes(after, side.value);
    } else {
      assert closing == "]";
      NoCaretTakes(after, "]");
    }
  }

  // ---- a printed step ----

  predicate SideSettles(p: Part) {
    Truthy(p.side) ==> Settles(p.side.value)
  }

  /** What is printed of a step, and can be read with its carets. */
  function PrintedCarets(p: Part): nat {
    (if Truthy(p.id) then 2 * Carets(p.id.value) else 0) + AllCarets(TextsOf(p))
    + (if Truthy(p.side) then 2 * Carets(p.side.value) else 0)
  }

  lemma {:induction false} JoinedNoCaret(xs: seq<string>)
    requires forall x <- xs :: IsDecimal(x)
    ensures '^' !in Joined(xs, ":")
    decreases |xs|
  {
    if xs != [] {
      assert xs[0] in xs;
      assert IsDecimal(xs[0]);
      if |xs| > 1 {
        JoinedNoCaret(xs[1..]);
      }
    }
  }

  lemma NumbersNoCaret(p: Part)
    requires HasNumbers(p)
    ensures '^' !in "/" + NumberString(p.index)
    ensures '^' !in OffsetString(p) + TemporalString(p) + SpatialString(p)
  {
    hide NumberText, Joined, IsOdd, TruthyNumber;
    if p.offset.Some? && p.offset.value.Num? {
      assert forall c <- NumberText(p.offset.value.n) :: IsDigit(c);
    }
    if p.index.Num? {
      assert forall c <- NumberText(p.index.n) :: IsDigit(c);
    }
    if p.spatial.Some? {
      JoinedNoCaret(p.spatial.value);
    }
    assert '^' !in OffsetString(p) && '^' !in TemporalString(p) && '^' !in SpatialString(p);
  }

  lemma PartSplits(p: Part)
    ensures PartToString(p) ==
            ("/" + NumberString(p.index)) + IdString(p) + (OffsetString(p) + TemporalString(p) + SpatialString(p))
            + TextString(p)
  {
    hide NumberString, IdString, OffsetString, TemporalString, SpatialString, TextString;
    var s, o, t, x := ("/" + NumberString(p.index)) + IdString(p), OffsetString(p), TemporalString(p), SpatialString(p);
    assert s + o + t + x == s + (o + t + x) by {
      Associate(s, o, t);
      Associate(s, o + t, x);
    }
  }

  lemma PartTakes(m: Machine, p: Part)
    requires Steady(m) && HasNumbers(p) && SideSettles(p)
    ensures var r := Feed(m, PartToString(p));
            Steady(r) && Taken(r) + (if SideCloses(p) then 0 else 1) <= Taken(m) + PrintedCarets(p)
  {
    hide Feed, Taken, Carets, AllCarets, BracketString, HasNumbers, Steady, Settles, Closes;
    hide NumberString, OffsetString, TemporalString, SpatialString, IdString, TextString, PartToString, Texts;
    var s1, s2 := "/" + NumberString(p.index), OffsetString(p) + TemporalString(p) + SpatialString(p);
    PartSplits(p);
    NumbersNoCaret(p);
    IdIsBracket(p);
    TextIsBracket(p);
    SteadyConsistent(m);
    NoCaretTakes(m, s1);
    var m1 := Feed(m, s1);
    SteadyConsistent(m1);
    FeedConcat(m, s1, IdString(p));
    FeedConcat(m, s1 + IdString(p), s2);
    FeedConcat(m, s1 + IdString(p) + s2, TextString(p));
    NoTextsTake();
    if Truthy(p.id) {
      BracketTakes(m1, [p.id.value], p.side);
      OneTakes(p.id.value);
    } else {
      FeedNothing(m1);
    }
    var m2 := Feed(m1, IdString(p));
    SteadyConsistent(m2);
    NoCaretTakes(m2, s2);
    var m3 := Feed(m2, s2);
    SteadyConsistent(m3);
    if PrintsText(p) {
      BracketTakes(m3, Texts(p), p.side);
    } else {
      FeedNothing(m3);
    }
  }

  lemma SteadyConsistent(m: Machine)
    requires Steady(m)
    ensures m.Consistent()
  {
  }

  lemma OneTakes(x: string)
    ensures AllCarets([x]) == 2 * Carets(x)
  {
    AllCaretsFirst([x]);
    assert [x][1..] == [];
  }

  // ---- what a CFI takes ----

  function TextCarets(s: Option<string>): nat {
    if s.Some? then 2 * Carets(s.value) else 0
  }

  function PartCarets(p: Part): nat {
    TextCarets(p.id) + (if p.text.Some? then AllCarets(p.text.value) else 0) + TextCarets(p.side)
  }

  function PathCarets(path: Path): nat {
    if path == [] then 0 else PathCarets(path[..|path| - 1]) + PartCarets(path[|path| - 1])
  }

  lemma PathCaretsSnoc(path: Path, p: Part)
    ensures PathCarets(path + [p]) == PathCarets(path) + PartCarets(p)
  {
    assert (path + [p])[..|path|] == path;
  }

  lemma {:induction false} PathCaretsFirst(path: Path)
    requires path != []
    ensures PathCarets(path) == PartCarets(path[0]) + PathCarets(path[1..])
    decreases |path|
  {
    hide PartCarets;
    var front, last := path[..|path| - 1], path[|path| - 1];
    if |path| > 1 {
      PathCaretsFirst(front);
      assert path[1..] == front[1..] + [last];
      PathCaretsSnoc(front[1..], last);
    }
  }

  function PathsCarets(paths: seq<Path>): nat {
    if paths == [] then 0 else PathCarets(paths[0]) + PathsCarets(paths[1..])
  }

  function CfiCarets(c: Cfi): nat {
    match c
    case Point(paths) => PathsCarets(paths)
    case Range(parent, start, end) => PathsCarets(parent) + PathsCarets(start) + PathsCarets(end)
  }

  // ---- what a parse takes ----

  lemma {:induction false} CaretsOfConcat(x: seq<Token>, y: seq<Token>)
    ensures TokensCarets(x + y) == TokensCarets(x) + TokensCarets(y)
    decreases |y|
  {
    hide TokenCarets;
    if y == [] {
      assert x + y == x;
    } else {
      var front, last := y[..|y| - 1], y[|y| - 1];
      assert x + y == (x + front) + [last] && y == front + [last];
      CaretsOfSnoc(x + front, last);
      CaretsOfSnoc(front, last);
      CaretsOfConcat(x, front);
    }
  }

  lemma LastTakes(q: Part, t: Token, afterStep: bool)
    requires !t.Step? && !t.Indirection? && !t.Comma? && (t.Param? ==> t.kind == ";s")
    ensures var r := ParseToken(Parsing([q], afterStep, false), t);
            !r.failed && |r.parts| == 1 && PartCarets(r.parts[0]) <= PartCarets(q) + TokenCarets(t)
  {
    hide AllCarets, Carets;
    NoTextsTake();
    if t.Bracket? {
      AllCaretsSnoc(if q.text.Some? then q.text.value else [], t.text);
    }
  }

  lemma TokenTakes(s: Parsing, t: Token)
    requires !s.failed && !ParseToken(s, t).failed
    ensures PathCarets(ParseToken(s, t).parts) <= PathCarets(s.parts) + TokenCarets(t)
  {
    if t.Step? {
      PathCaretsSnoc(s.parts, EmptyPart(t.index));
    } else if !(t.Indirection? || t.Comma? || (t.Param? && t.kind != ";s")) {
      LastTokenTakes(s, t);
    }
  }

  lemma LastTokenTakes(s: Parsing, t: Token)
    requires s.parts != [] && !s.failed && !t.Step?
    requires !t.Indirection? && !t.Comma? && (t.Param? ==> t.kind == ";s")
    ensures PathCarets(ParseToken(s, t).parts) <= PathCarets(s.parts) + TokenCarets(t)
  {
    hide ParseToken, PartCarets, TokenCarets, PathCarets;
    OnLast(s, t);
    var front, q := s.parts[..|s.parts| - 1], s.parts[|s.parts| - 1];
    LastTakes(q, t, s.afterStep);
    assert s.parts == front + [q];
    PathCaretsSnoc(front, q);
    PathCaretsSnoc(front, ParseToken(Parsing([q], s.afterStep, false), t).parts[0]);
  }

  lemma {:induction false} TokensTake(tokens: seq<Token>)
    requires !ParseTokens(NOTHING_PARSED, tokens).failed
    ensures PathCarets(ParseTokens(NOTHING_PARSED, tokens).parts) <= TokensCarets(tokens)
    decreases |tokens|
  {
    hide ParseToken, ParseTokens, TokenCarets, TokensCarets, PathCarets;
    if tokens == [] {
      ParseNothing(NOTHING_PARSED);
      assert PathCarets([]) == 0 by { NoStepsTake(); }
    } else {
      var front, t := tokens[..|tokens| - 1], tokens[|tokens| - 1];
      var s := ParseTokens(NOTHING_PARSED, front);
      assert tokens == front + [t];
      ParseConcat(NOTHING_PARSED, front, [t]);
      ParseOne(s, t);
      if s.failed {
        FailedStays(s, [t]);
      }
      TokensTake(front);
      TokenTakes(s, t);
      CaretsOfSnoc(front, t);
    }
  }

  lemma NoStepsTake()
    ensures PathCarets([]) == 0
  {
  }

  lemma {:induction false} PathsTake(tokens: seq<Token>, paths: seq<Path>)
    requires ParserIndir(tokens) == Some(paths)
    ensures PathsCarets(paths) <= TokensCarets(tokens)
    decreases |tokens|
  {
    hide SplitAt, ParseTokens, TokensCarets, PathCarets;
    var r := SplitAt(tokens, Indirection);
    var rest := SplitOnce(tokens, Indirection);
    assert PathOf(r[0]) == Some(paths[0]);
    TokensTake(r[0]);
    if |r| == 1 {
      assert r[1..] == [] && PathsOf([]) == Some([]);
      assert paths[1..] == [];
    } else {
      assert ParserIndir(rest) == Some(paths[1..]);
      PathsTake(rest, paths[1..]);
      CaretsOfConcat(r[0], [Indirection] + rest);
      CaretsOfConcat([Indirection], rest);
    }
  }

  /** A parsed CFI takes no more carets than its tokens. */
  lemma CfiTakes(s: string, c: Cfi)
    requires ParseCfi(s) == Whole(c)
    ensures CfiCarets(c) <= TokensCarets(TokensOf(Unwrap(s)))
  {
    hide ParserIndir, SplitAt, TokensCarets, PathsCarets, TokensOf, Unwrap;
    var tokens := TokensOf(Unwrap(s));
    var r := SplitAt(tokens, Comma);
    var rest := SplitOnce(tokens, Comma);
    if |r| == 1 {
      PathsTake(tokens, c.paths);
    } else {
      var later := SplitAt(rest, Comma);
      var last := SplitOnce(rest, Comma);
      var ends := SplitAt(last, Comma);
      assert later == r[1..] && ends == later[1..];
      var more := SplitOnce(last, Comma);
      PathsTake(r[0], c.parent);
      PathsTake(r[1], c.start);
      PathsTake(r[2], c.end);
      StretchTakes(r[0], rest);
      StretchTakes(r[1], last);
      StretchTakes(r[2], more);
    }
  }

  lemma StretchTakes(x: seq<Token>, y: seq<Token>)
    ensures TokensCarets(x + ([Comma] + y)) >= TokensCarets(x) + TokensCarets(y)
  {
    hide TokensCarets;
    CaretsOfConcat(x, [Comma] + y);
    CaretsOfConcat([Comma], y);
  }

  // ---- a printed CFI against a CFI ----

  /** The CFI takes at least the carets of the printed step. */
  predicate CaretsKept(p: Part, q: Part) {
    PrintedCarets(p) <= PartCarets(q)
  }

  lemma KeptByItself(p: Part)
    ensures CaretsKept(p, p)
  {
    hide Carets;
    NoTextsTake();
    OneTakes("");
    assert Carets("") == 0 by { NoCarets(""); }
  }

  lemma {:induction false} WithoutTakes(xs: seq<string>, k: nat)
    requires k < |xs|
    ensures AllCarets(xs) == 2 * Carets(xs[k]) + AllCarets(Without(xs, k))
    decreases |xs|
  {
    hide Carets, AllCarets;
    AllCaretsFirst(xs);
    if k > 0 {
      WithoutTakes(xs[1..], k - 1);
      AllCaretsFirst(Without(xs, k));
      assert Without(xs, k)[1..] == Without(xs[1..], k - 1);
    }
  }

  lemma KeptByCanonPart(p: Part)
    ensures CaretsKept(p, CanonPart(p))
  {
    hide Carets, AllCarets, TextsOf, IdAt, CanonPart, Without;
    var xs, k := TextsOf(p), IdAt(p);
    CanonIdAndText(p);
    CanonSide(p);
    NoTextsTake();
    if k < |xs| {
      WithoutTakes(xs, k);
    } else {
      WithoutNone(xs);
    }
  }

  lemma CanonSide(p: Part)
    ensures CanonPart(p).side == if Truthy(p.side) then p.side else None
  {
    hide HasPrefix, FirstNonEmpty, Without, PrintsText, IsOdd, TruthyNumber;
  }

  predicate PathTaken(path: Path, target: Path) {
    |path| == |target| && forall i :: 0 <= i < |path| ==> CaretsKept(path[i], target[i])
  }

  /** Numbers, and no escape pending after any side bias. */
  predicate Settled(p: Part) {
    HasNumbers(p) && SideSettles(p)
  }

  predicate PathCloses(path: Path) {
    forall p <- path :: SideCloses(p)
  }

  lemma {:induction false} PathTakes(m: Machine, path: Path, target: Path)
    requires Steady(m) && (forall p <- path :: Settled(p)) && PathTaken(path, target)
    ensures var r := Feed(m, PathToString(path));
            Steady(r) && Taken(r) + (if PathCloses(path) then 0 else 1) <= Taken(m) + PathCarets(target)
    decreases |path|
  {
    hide Feed, Taken, Steady, Settled, PartToString, PartCarets, PrintedCarets, PathCarets, SideCloses;
    SteadyConsistent(m);
    if path == [] {
      FeedNothing(m);
    } else {
      var p, rest := path[0], path[1..];
      assert p in path && path == [p] + rest;
      SettledIs(p);
      PartTakes(m, p);
      var next := Feed(m, PartToString(p));
      SteadyConsistent(next);
      PathTakes(next, rest, target[1..]);
      PathCaretsFirst(target);
      FeedConcat(m, PartToString(p), PathToString(rest));
    }
  }

  lemma SettledIs(p: Part)
    requires Settled(p)
    ensures HasNumbers(p) && SideSettles(p)
  {
  }

  predicate AllSettled(paths: seq<Path>) {
    forall path <- paths, p <- path :: Settled(p)
  }

  predicate AllClose(paths: seq<Path>) {
    forall path <- paths :: PathCloses(path)
  }

  predicate PathsTaken(paths: seq<Path>, targets: seq<Path>) {
    (paths == [] && targets == [[]]) ||
    (|paths| == |targets| && forall i :: 0 <= i < |paths| ==> PathTaken(paths[i], targets[i]))
  }

  lemma {:induction false} PrintedPathsTake(m: Machine, paths: seq<Path>, targets: seq<Path>)
    requires Steady(m) && AllSettled(paths) && PathsTaken(paths, targets)
    ensures var r := Feed(m, PathsToString(paths));
            Steady(r) && Taken(r) + (if AllClose(paths) then 0 else 1) <= Taken(m) + PathsCarets(targets)
    decreases |paths|
  {
    hide Feed, Taken, Steady, Settled, PathToString, PathCarets, PathCloses, PathTaken;
    SteadyConsistent(m);
    if paths == [] {
      FeedNothing(m);
    } else {
      var path, rest := paths[0], paths[1..];
      assert path in paths && paths == [path] + rest;
      PathTakes(m, path, targets[0]);
      if rest != [] {
        var s := PathToString(path);
        MarkTakes(Feed(m, s), '!');
        SteadyConsistent(Feed(m, s));
        FeedConcat(m, s, "!");
        SteadyConsistent(Feed(m, s + "!"));
        PrintedPathsTake(Feed(m, s + "!"), rest, targets[1..]);
        FeedConcat(m, s + "!", PathsToString(rest));
      }
    }
  }

  lemma MarkTakes(m: Machine, c: char)
    requires Steady(m) && c != '^'
    ensures m.Consistent() && Steady(Feed(m, [c])) && Taken(Feed(m, [c])) <= Taken(m)
  {
    NoCaretTakes(m, [c]);
  }

  predicate SettledCfi(c: Cfi) {
    match c
    case Point(paths) => AllSettled(paths)
    case Range(parent, start, end) => AllSettled(parent) && AllSettled(start) && AllSettled(end)
  }

  predicate ClosedCfi(c: Cfi) {
    match c
    case Point(paths) => AllClose(paths)
    case Range(parent, start, end) => AllClose(parent) && AllClose(start) && AllClose(end)
  }

  predicate CfiTaken(c: Cfi, target: Cfi) {
    match c
    case Point(paths) => target.Point? && PathsTaken(paths, target.paths)
    case Range(parent, start, end) =>
      target.Range? && PathsTaken(parent, target.parent) && PathsTaken(start, target.start)
      && PathsTaken(end, target.end)
  }

  lemma PrintedCfiTakes(c: Cfi, target: Cfi)
    requires SettledCfi(c) && CfiTaken(c, target)
    ensures var r := Feed(START, ToInnerString(c));
            Taken(r) + (if ClosedCfi(c) then 0 else 1) <= CfiCarets(target)
  {
    hide Feed, Steady, Taken, PathsToString, PathsCarets, AllSettled, AllClose, PathsTaken;
    StartTakes();
    match c {
      case Point(paths) => PrintedPathsTake(START, paths, target.paths);
      case Range(parent, start, end) =>
        PrintedPathsTake(START, parent, target.parent);
        var s1 := PathsToString(parent);
        MarkTakes(Feed(START, s1), ',');
        FeedConcat(START, s1, ",");
        var m1 := Feed(START, s1 + ",");
        PrintedPathsTake(m1, start, target.start);
        SteadyConsistent(m1);
        FeedConcat(START, s1 + ",", PathsToString(start));
        var s2 := s1 + "," + PathsToString(start);
        MarkTakes(Feed(START, s2), ',');
        FeedConcat(START, s2, ",");
        var m2 := Feed(START, s2 + ",");
        PrintedPathsTake(m2, end, target.end);
        SteadyConsistent(m2);
        FeedConcat(START, s2 + ",", PathsToString(end));
    }
  }

  lemma StartTakes()
    ensures Steady(START) && Taken(START) == 0
  {
  }

  /** With a side bias that swallows its bracket, and none that leaves an escape pending outside of
      brackets, a CFI reads back neither as itself nor as any other that takes its carets. */
  lemma SwallowedIsLost(c: Cfi, target: Cfi)
    requires SettledCfi(c) && CfiHasNumbers(c) && CfiTaken(c, target) && !ClosedCfi(c)
    ensures ParseCfi(ToString(c)) != Whole(target)
  {
    hide ParseCfi, ToString, ToInnerString, TokensOf, Unwrap, Wrap, Feed, Round, Flushed, Tight, CfiHasNumbers;
    hide SettledCfi, CfiTaken, ClosedCfi, CfiCarets, TokensCarets, Taken;
    var m := Feed(START, ToInnerString(c));
    TightCfi(c);
    TokensOfWrapped(ToInnerString(c));
    assert ToString(c) == Wrap(ToInnerString(c)) by { Printed(c); }
    PrintedCfiTakes(c, target);
    EndTakes(m);
    if ParseCfi(ToString(c)) == Whole(target) {
      CfiTakes(ToString(c), target);
    }
  }
}
