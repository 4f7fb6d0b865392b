/** What the tokens of an EPUB CFI weigh, character by character, against the text they are read from and
    against the CFI they are parsed to (frontend/public/foliate/epubcfi.js). */
module CfiWeights {
  import opened Wrappers
  import opened CfiSyntax
  import opened CfiReading
  import opened CfiRoundTrip

  // ---- weights ----

  /** Characters that the tokenizer may drop, or that it adds nothing for, weigh nothing. */
  function CharWeight(c: char): nat {
    if c in {'^', ']', ')', 'N', 'a'} then 0 else 1
  }

  function Weight(s: string): nat {
    if s == "" then 0 else CharWeight(s[0]) + Weight(s[1..])
  }

  lemma {:induction false} WeightConcat(s: string, t: string)
    ensures Weight(s + t) == Weight(s) + Weight(t)
  {
    if s == "" {
      assert s + t == t;
    } else {
      assert (s + t)[1..] == s[1..] + t;
      WeightConcat(s[1..], t);
    }
  }

  lemma WeightOne(c: char)
    ensures Weight([c]) == CharWeight(c)
  {
    assert [c][1..] == "";
  }

  lemma WeightSnoc(s: string, c: char)
    ensures Weight(s + [c]) == Weight(s) + CharWeight(c)
  {
    WeightConcat(s, [c]);
    WeightOne(c);
  }

  lemma {:induction false} WeightEscaped(s: string)
    ensures Weight(EscapeCfi(s)) == Weight(s)
  {
    if s != "" {
      WeightEscaped(s[1..]);
      WeightConcat(EscapedChar(s[0]), EscapeCfi(s[1..]));
      assert EscapeCfi(s) == EscapedChar(s[0]) + EscapeCfi(s[1..]);
      WeightOne(s[0]);
      if IsSpecial(s[0]) {
        WeightSnoc("^", s[0]);
        WeightOne('^');
        assert EscapedChar(s[0]) == "^" + [s[0]];
      }
    }
  }

  lemma {:induction false} WeightDigits(s: string)
    requires forall c <- s :: IsDigit(c)
    ensures Weight(s) == |s|
  {
    if s != "" {
      assert s[0] in s;
      WeightDigits(s[1..]);
    }
  }

  /** Reading digits as a number does not make them longer. */
  lemma {:induction false} NumberNoLonger(s: string)
    requires s != "" && forall c <- s :: IsDigit(c)
    ensures |NumberText(DigitsValue(s))| <= |s|
  {
    var front, last := s[..|s| - 1], s[|s| - 1];
    assert last in s;
    var d := last as int - '0' as int;
    assert 0 <= d < 10;
    assert DigitsValue(s) == 10 * DigitsValue(front) + d;
    if front != "" {
      NumberNoLonger(front);
      assert (10 * DigitsValue(front) + d) / 10 == DigitsValue(front);
    }
  }

  // ---- what tokens weigh ----

  function KindCost(kind: string): (n: nat)
    ensures n >= 1
  {
    if |kind| < 2 then 1 else 2 + Weight(kind[1..])
  }

  function NumberWeight(n: Number): nat {
    Weight(NumberString(n))
  }

  function TokenCost(t: Token): (n: nat)
    ensures n >= 1
  {
    match t
    case Indirection => 1
    case Comma => 1
    case Step(n) => 1 + NumberWeight(n)
    case Offset(n) => 1 + NumberWeight(n)
    case Temporal(x) => 1 + Weight(x)
    case Spatial(x) => 1 + Weight(x)
    case Bracket(x) => 1 + Weight(x)
    case Param(kind, x) => KindCost(kind) + Weight(x)
  }

  function TokensCost(tokens: seq<Token>): nat {
    if tokens == [] then 0 else TokensCost(tokens[..|tokens| - 1]) + TokenCost(tokens[|tokens| - 1])
  }

  lemma CostSnoc(tokens: seq<Token>, t: Token)
    ensures TokensCost(tokens + [t]) == TokensCost(tokens) + TokenCost(t)
  {
    assert (tokens + [t])[..|tokens|] == tokens;
  }

  lemma {:induction false} CostConcat(x: seq<Token>, y: seq<Token>)
    ensures TokensCost(x + y) == TokensCost(x) + TokensCost(y)
    decreases |y|
  {
    hide TokenCost;
    if y == [] {
      assert x + y == x;
    } else {
      var front, last := y[..|y| - 1], y[|y| - 1];
      assert x + y == (x + front) + [last] && y == front + [last];
      CostSnoc(x + front, last);
      CostSnoc(front, last);
      CostConcat(x, front);
    }
  }

  /** What the token being read weighs so far. */
  function Pending(m: Machine): nat {
    match m.mode
    case Idle => 0
    case Bang => 1
    case InComma => 1
    case InParam(kind) => KindCost(kind) + Weight(m.value)
    case _ => 1 + Weight(m.value)
  }

  function Potential(m: Machine): nat {
    TokensCost(m.tokens) + Pending(m)
  }

  lemma PushWeighs(m: Machine, t: Token)
    ensures Potential(m.Push(t)) == TokensCost(m.tokens) + TokenCost(t)
    ensures forall mode :: m.Push(t).(mode := mode).tokens == m.tokens + [t]
    ensures TokensCost(m.tokens + [t]) == TokensCost(m.tokens) + TokenCost(t)
  {
    CostSnoc(m.tokens, t);
  }

  lemma ParsedNumber(s: string)
    requires forall c <- s :: IsDigit(c)
    ensures NumberWeight(ParseInt(s)) <= Weight(s)
  {
    if s == "" {
      WeightOne('N');
      WeightOne('a');
      WeightConcat("Na", "N");
      WeightConcat("N", "a");
      assert "Na" + "N" == "NaN" && "N" + "a" == "Na";
    } else {
      NumberNoLonger(s);
      WeightDigits(s);
      WeightDigits(NumberText(DigitsValue(s)));
    }
  }

  /** One character adds no more than its weight. */
  lemma RoundWeighs(m: Machine, c: char)
    requires m.Consistent()
    ensures Potential(Round(m, Some(c))) <= Potential(m) + CharWeight(c)
  {
    hide TokensCost, Weight, NumberWeight, ParseInt, KindCost;
    WeightSnoc(m.value, c);
    WeightNone();
    assert KindCost(";") == 1 by { PlainKind(); }
    match m.mode {
      case Idle =>
      case Bang => PushWeighs(m, Indirection);
      case InComma => PushWeighs(m, Comma);
      case InStep => NumberWeighs(m, c);
      case InOffset => NumberWeighs(m, c);
      case InTemporal => PushWeighs(m, Temporal(m.value));
      case InSpatial => PushWeighs(m, Spatial(m.value));
      case InBracket => PushWeighs(m, Bracket(m.value));
      case InParam(_) => ParamWeighs(m, c);
    }
  }

  lemma NumberWeighs(m: Machine, c: char)
    requires m.Consistent() && (m.mode.InStep? || m.mode.InOffset?)
    ensures Potential(Round(m, Some(c))) <= Potential(m) + CharWeight(c)
  {
    hide TokensCost, Weight, NumberWeight, ParseInt, KindCost;
    WeightSnoc(m.value, c);
    WeightNone();
    ParsedNumber(m.value);
    PushWeighs(m, if m.mode.InStep? then Step(ParseInt(m.value)) else Offset(ParseInt(m.value)));
  }

  lemma ParamWeighs(m: Machine, c: char)
    requires m.mode.InParam?
    ensures Potential(Round(m, Some(c))) <= Potential(m) + CharWeight(c)
  {
    hide TokensCost, Weight;
    WeightSnoc(m.value, c);
    WeightNone();
    PushWeighs(m, Param(m.mode.kind, m.value));
    assert (";" + m.value)[1..] == m.value;
  }

  lemma PlainKind()
    ensures KindCost(";") == 1
  {
  }

  lemma WeightNone()
    ensures Weight("") == 0
  {
  }

  lemma {:induction false} FeedWeighs(m: Machine, s: string)
    requires m.Consistent()
    ensures Potential(Feed(m, s)) <= Potential(m) + Weight(s)
    decreases |s|
  {
    hide Round, Potential, CharWeight;
    if s != "" {
      RoundWeighs(m, s[0]);
      FeedWeighs(Round(m, Some(s[0])), s[1..]);
    }
  }

  // ---- the sides read so far ----

  function ParamSides(tokens: seq<Token>): seq<string> {
    if tokens == [] then []
    else
      var last := tokens[|tokens| - 1];
      ParamSides(tokens[..|tokens| - 1]) + if last.Param? && last.kind == ";s" then [last.value] else []
  }

  lemma SidesSnoc(tokens: seq<Token>, t: Token)
    ensures ParamSides(tokens + [t]) ==
            ParamSides(tokens) + if t.Param? && t.kind == ";s" then [t.value] else []
  {
    assert (tokens + [t])[..|tokens|] == tokens;
  }

  lemma {:induction false} SidesConcat(x: seq<Token>, y: seq<Token>)
    ensures ParamSides(x + y) == ParamSides(x) + ParamSides(y)
    decreases |y|
  {
    if y == [] {
      assert x + y == x;
    } else {
      var front, last := y[..|y| - 1], y[|y| - 1];
      assert x + y == (x + front) + [last] && y == front + [last];
      SidesSnoc(x + front, last);
      SidesSnoc(front, last);
      SidesConcat(x, front);
    }
  }

  // ---- what a CFI weighs ----

  function TextCost(s: Option<string>): nat {
    if s.Some? then 1 + Weight(s.value) else 0
  }

  function NumberCost(n: Option<Number>): nat {
    if n.Some? then 1 + NumberWeight(n.value) else 0
  }

  function TextsCost(xs: seq<string>): nat {
    if xs == [] then 0 else TextsCost(xs[..|xs| - 1]) + 1 + Weight(xs[|xs| - 1])
  }

  function ListCost(xs: Option<seq<string>>): nat {
    if xs.None? then 0 else if xs.value == [] then 1 else TextsCost(xs.value)
  }

  function SideCost(p: Part): nat {
    if p.side.Some? then 3 + Weight(p.side.value) else 0
  }

  function PartCost(p: Part): nat {
    1 + NumberWeight(p.index) + TextCost(p.id) + NumberCost(p.offset) + TextCost(p.temporal)
    + ListCost(p.spatial) + ListCost(p.text) + SideCost(p)
  }

  function PartSides(p: Part): seq<string> {
    if p.side.Some? then [p.side.value] else []
  }

  function PathCost(path: Path): nat {
    if path == [] then 0 else PathCost(path[..|path| - 1]) + PartCost(path[|path| - 1])
  }

  function PathSides(path: Path): seq<string> {
    if path == [] then [] else PathSides(path[..|path| - 1]) + PartSides(path[|path| - 1])
  }

  lemma PathSnoc(path: Path, p: Part)
    ensures PathCost(path + [p]) == PathCost(path) + PartCost(p)
    ensures PathSides(path + [p]) == PathSides(path) + PartSides(p)
  {
    assert (path + [p])[..|path|] == path;
  }

  lemma {:induction false} PathFirst(path: Path)
    requires path != []
    ensures PathCost(path) == PartCost(path[0]) + PathCost(path[1..])
    ensures PathSides(path) == PartSides(path[0]) + PathSides(path[1..])
    decreases |path|
  {
    hide PartCost, PartSides, PathCost, PathSides;
    var front, last := path[..|path| - 1], path[|path| - 1];
    assert path == front + [last];
    PathSnoc(front, last);
    NoSteps();
    if |path| == 1 {
      assert front == [] && path[1..] == [];
      assert [] + PartSides(last) == PartSides(last) == PartSides(last) + [];
    } else {
      PathFirst(front);
      assert path[1..] == front[1..] + [last];
      PathSnoc(front[1..], last);
      Regroup(PartSides(front[0]), PathSides(front[1..]), PartSides(last));
    }
  }

  lemma NoSteps()
    ensures PathCost([]) == 0 && PathSides([]) == []
  {
  }

  lemma Regroup(x: seq<string>, y: seq<string>, z: seq<string>)
    ensures x + y + z == x + (y + z)
  {
  }

  function PathsCost(paths: seq<Path>): nat {
    if paths == [] then 0
    else PathCost(paths[0]) + if |paths| == 1 then 0 else 1 + PathsCost(paths[1..])
  }

  function PathsSides(paths: seq<Path>): seq<string> {
    if paths == [] then [] else PathSides(paths[0]) + PathsSides(paths[1..])
  }

  function CfiCost(c: Cfi): nat {
    match c
    case Point(paths) => PathsCost(paths)
    case Range(parent, start, end) => PathsCost(parent) + 1 + PathsCost(start) + 1 + PathsCost(end)
  }

  function CfiSidesOf(c: Cfi): seq<string> {
    match c
    case Point(paths) => PathsSides(paths)
    case Range(parent, start, end) => PathsSides(parent) + PathsSides(start) + PathsSides(end)
  }

  // ---- what a parse weighs ----

  /** The parse weighs no more than the tokens; and if it weighs as much, no side was overwritten. */
  predicate Accounts(cost: nat, sides: seq<string>, tokens: seq<Token>) {
    cost <= TokensCost(tokens) && (cost == TokensCost(tokens) ==> sides == ParamSides(tokens))
  }

  lemma TextsSnoc(xs: seq<string>, x: string)
    ensures TextsCost(xs + [x]) == TextsCost(xs) + 1 + Weight(x)
  {
    assert (xs + [x])[..|xs|] == xs;
  }

  /** One token adds no more to a step than it weighs. */
  lemma LastAdds(q: Part, t: Token, afterStep: bool)
    requires !t.Step? && !t.Indirection? && !t.Comma?
    requires t.Param? ==> t.kind == ";s"
    ensures var r := ParseToken(Parsing([q], afterStep, false), t);
            && !r.failed && |r.parts| == 1
            && PartCost(r.parts[0]) <= PartCost(q) + TokenCost(t)
            && (PartCost(r.parts[0]) == PartCost(q) + TokenCost(t) ==>
                PartSides(r.parts[0]) == PartSides(q) + ParamSides([t]))
  {
    hide TextsCost, Weight;
    SidesSnoc([], t);
    assert [] + [t] == [t];
    match t {
      case Spatial(x) => TextsSnoc(if q.spatial.Some? then q.spatial.value else [], x); NoTexts(x);
      case Bracket(x) => TextsSnoc(if q.text.Some? then q.text.value else [], x); NoTexts(x);
      case Param(_, _) => SideKind();
      case _ =>
    }
  }

  lemma NoTexts(x: string)
    ensures TextsCost([]) == 0 && [] + [x] == [x]
  {
  }

  lemma SideKind()
    ensures KindCost(";s") == 3
  {
    WeightOne('s');
    assert ";s"[1..] == "s";
  }

  /** The parse after one token: only the last step changes, or one is added. */
  lemma OnLast(s: Parsing, t: Token)
    requires s.parts != [] && !s.failed && !t.Step?
    requires !t.Indirection? && !t.Comma? && (t.Param? ==> t.kind == ";s")
    ensures var r, one := ParseToken(s, t), ParseToken(Parsing([s.parts[|s.parts| - 1]], s.afterStep, false), t);
            !r.failed && one.parts != [] && r.parts == s.parts[..|s.parts| - 1] + [one.parts[0]]
  {
    var q := s.parts[|s.parts| - 1];
    LastPart([], q);
    assert [q][..0] == [];
  }

  /** The parse r of a path with one token more than s. */
  predicate Adds(s: Parsing, t: Token, r: Parsing) {
    && PathCost(r.parts) <= PathCost(s.parts) + TokenCost(t)
    && (PathCost(r.parts) == PathCost(s.parts) + TokenCost(t) ==>
        PathSides(r.parts) == PathSides(s.parts) + ParamSides([t]))
  }

  lemma LastTokenAdds(s: Parsing, t: Token)
    requires s.parts != [] && !s.failed && !t.Step?
    requires !t.Indirection? && !t.Comma? && (t.Param? ==> t.kind == ";s")
    ensures Adds(s, t, ParseToken(s, t))
  {
    hide ParseToken, PartCost, TokenCost, PartSides, ParamSides, PathCost, PathSides;
    OnLast(s, t);
    var front, q := s.parts[..|s.parts| - 1], s.parts[|s.parts| - 1];
    LastAdds(q, t, s.afterStep);
    var p := ParseToken(Parsing([q], s.afterStep, false), t).parts[0];
    assert s.parts == front + [q];
    PathSnoc(front, q);
    PathSnoc(front, p);
    assert PathSides(front) + PartSides(q) + ParamSides([t]) == PathSides(front) + (PartSides(q) + ParamSides([t]));
  }

  lemma TokenAdds(s: Parsing, t: Token)
    requires !s.failed && !ParseToken(s, t).failed
    ensures Adds(s, t, ParseToken(s, t))
  {
    hide PathCost, PathSides, PartCost, ParamSides, NumberWeight, Weight;
    SidesSnoc([], t);
    assert ParamSides([]) == [] by { Empty(); }
    assert [] + [t] == [t] && PathSides(s.parts) + [] == PathSides(s.parts);
    if t.Step? {
      PathSnoc(s.parts, EmptyPart(t.index));
      StepCost(t.index);
    } else if !(t.Indirection? || t.Comma? || (t.Param? && t.kind != ";s")) {
      LastTokenAdds(s, t);
    }
  }

  lemma StepCost(n: Number)
    ensures PartCost(EmptyPart(n)) == TokenCost(Step(n)) && PartSides(EmptyPart(n)) == []
  {
  }

  lemma {:induction false} FailedStays(s: Parsing, tokens: seq<Token>)
    requires s.failed
    ensures ParseTokens(s, tokens).failed
    decreases |tokens|
  {
    if tokens != [] {
      FailedStays(ParseToken(s, tokens[0]), tokens[1..]);
    }
  }

  lemma {:induction false} TokensAdd(s: Parsing, tokens: seq<Token>)
    requires !s.failed && !ParseTokens(s, tokens).failed
    ensures var r := ParseTokens(s, tokens);
            && PathCost(r.parts) <= PathCost(s.parts) + TokensCost(tokens)
            && (PathCost(r.parts) == PathCost(s.parts) + TokensCost(tokens) ==>
                PathSides(r.parts) == PathSides(s.parts) + ParamSides(tokens))
    decreases |tokens|
  {
    hide ParseToken, TokenCost, PathCost, PathSides, ParamSides, TokensCost;
    Empty();
    if tokens == [] {
      assert PathSides(s.parts) + [] == PathSides(s.parts);
    } else {
      var t, rest := tokens[0], tokens[1..];
      var next := ParseToken(s, t);
      if next.failed {
        FailedStays(next, rest);
      }
      TokenAdds(s, t);
      TokensAdd(next, rest);
      assert tokens == [t] + rest && [] + [t] == [t];
      CostConcat([t], rest);
      CostSnoc([], t);
      SidesConcat([t], rest);
      Regroup(PathSides(s.parts), ParamSides([t]), ParamSides(rest));
    }
  }

  lemma PathAccounts(tokens: seq<Token>, path: Path)
    requires PathOf(tokens) == Some(path)
    ensures Accounts(PathCost(path), PathSides(path), tokens)
  {
    hide ParseTokens, TokensCost, ParamSides;
    TokensAdd(NOTHING_PARSED, tokens);
    assert PathCost([]) == 0 && PathSides([]) == [] && [] + ParamSides(tokens) == ParamSides(tokens);
  }

  /** Splitting takes off the stretch before the first separator. */
  lemma {:induction false} SplitOnce(tokens: seq<Token>, separator: Token) returns (rest: seq<Token>)
    ensures var r := SplitAt(tokens, separator);
            && (|r| == 1 ==> r[0] == tokens && rest == [])
            && (|r| > 1 ==> tokens == r[0] + ([separator] + rest) && r[1..] == SplitAt(rest, separator))
    decreases |tokens|
  {
    if tokens == [] {
      rest := [];
    } else {
      var later := SplitAt(tokens[1..], separator);
      var r := SplitAt(tokens, separator);
      if tokens[0] == separator {
        rest := tokens[1..];
        assert r[0] == [] && r[1..] == later;
        assert tokens == [] + ([separator] + rest);
      } else {
        rest := SplitOnce(tokens[1..], separator);
        assert r[0] == [tokens[0]] + later[0] && r[1..] == later[1..];
        assert tokens == [tokens[0]] + tokens[1..];
      }
    }
  }

  lemma JoinedAccounts(c: nat, x: seq<Token>, a: seq<string>, t: Token, d: nat, y: seq<Token>, b: seq<string>)
    requires Accounts(c, a, x) && Accounts(d, b, y) && TokenCost(t) == 1 && (t.Indirection? || t.Comma?)
    ensures Accounts(c + 1 + d, a + b, x + ([t] + y))
  {
    hide TokensCost, ParamSides;
    CostConcat(x, [t] + y);
    CostConcat([t], y);
    CostSnoc([], t);
    SidesConcat(x, [t] + y);
    SidesConcat([t], y);
    SidesSnoc([], t);
    assert [] + [t] == [t];
    assert TokensCost([]) == 0 && ParamSides([]) == [] by { Empty(); }
    assert a + ([] + b) == a + b;
  }

  lemma Empty()
    ensures TokensCost([]) == 0 && ParamSides([]) == []
  {
  }

  lemma {:induction false} PathsAccount(tokens: seq<Token>, paths: seq<Path>)
    requires ParserIndir(tokens) == Some(paths)
    ensures Accounts(PathsCost(paths), PathsSides(paths), tokens)
    decreases |tokens|
  {
    hide PathOf, SplitAt, TokensCost, ParamSides, Accounts, PathCost, PathSides;
    var r := SplitAt(tokens, Indirection);
    var rest := SplitOnce(tokens, Indirection);
    PathAccounts(r[0], paths[0]);
    if |r| == 1 {
      assert r[1..] == [] && PathsOf([]) == Some([]);
      assert paths[1..] == [];
      assert PathSides(paths[0]) + [] == PathSides(paths[0]);
    } else {
      assert ParserIndir(rest) == Some(paths[1..]);
      PathsAccount(rest, paths[1..]);
      JoinedAccounts(PathCost(paths[0]), r[0], PathSides(paths[0]), Indirection,
        PathsCost(paths[1..]), rest, PathsSides(paths[1..]));
    }
  }

  /** The CFI that is parsed weighs no more than its tokens; and if it weighs as much, its sides are
      exactly those read, in order. */
  lemma CfiAccounts(s: string, c: Cfi)
    requires ParseCfi(s) == Whole(c)
    ensures Accounts(CfiCost(c), CfiSidesOf(c), TokensOf(Unwrap(s)))
  {
    hide ParserIndir, SplitAt, TokensCost, ParamSides, Accounts, PathsCost, PathsSides, TokensOf, Unwrap;
    var tokens := TokensOf(Unwrap(s));
    var r := SplitAt(tokens, Comma);
    var rest := SplitOnce(tokens, Comma);
    if |r| == 1 {
      PathsAccount(tokens, c.paths);
    } else {
      var later := SplitAt(rest, Comma);
      assert later == r[1..] && later[0] == r[1];
      var last := SplitOnce(rest, Comma);
      var ends := SplitAt(last, Comma);
      assert ends == later[1..] && ends[0] == r[2];
      var more := SplitOnce(last, Comma);
      PathsAccount(r[0], c.parent);
      PathsAccount(r[1], c.start);
      PathsAccount(r[2], c.end);
      EndAccounts(PathsCost(c.end), PathsSides(c.end), r[2], more, last);
      JoinedAccounts(PathsCost(c.start), r[1], PathsSides(c.start), Comma, PathsCost(c.end), last, PathsSides(c.end));
      JoinedAccounts(PathsCost(c.parent), r[0], PathsSides(c.parent), Comma,
        PathsCost(c.start) + 1 + PathsCost(c.end), rest, PathsSides(c.start) + PathsSides(c.end));
      assert PathsSides(c.parent) + (PathsSides(c.start) + PathsSides(c.end)) == CfiSidesOf(c);
    }
  }

  /** Further stretches only make the text weigh more. */
  lemma EndAccounts(cost: nat, sides: seq<string>, end: seq<Token>, more: seq<Token>, tokens: seq<Token>)
    requires Accounts(cost, sides, end) && (tokens == end || tokens == end + ([Comma] + more))
    ensures Accounts(cost, sides, tokens)
  {
    hide ParamSides, TokensCost;
    if tokens != end {
      CostConcat(end, [Comma] + more);
      CostConcat([Comma], more);
      CostSnoc([], Comma);
      assert [] + [Comma] == [Comma];
    }
  }

  // ---- what a parse looks like ----

  /** A side stands beside an id or a text, in the same brackets. */
  predicate Grounded(p: Part) {
    p.side.Some? ==> p.id.Some? || p.text.Some?
  }

  predicate EndsInBrackets(tokens: seq<Token>) {
    tokens != [] && (tokens[|tokens| - 1].Bracket? || tokens[|tokens| - 1].Param?)
  }

  /** Every parameter follows a text or a parameter. */
  predicate Led(tokens: seq<Token>) {
    tokens == [] ||
    var front, last := tokens[..|tokens| - 1], tokens[|tokens| - 1];
    Led(front) && (last.Param? ==> EndsInBrackets(front))
  }

  lemma LedSnoc(tokens: seq<Token>, t: Token)
    ensures Led(tokens + [t]) <==> Led(tokens) && (t.Param? ==> EndsInBrackets(tokens))
    ensures EndsInBrackets(tokens + [t]) <==> t.Bracket? || t.Param?
  {
    assert (tokens + [t])[..|tokens|] == tokens;
  }

  predicate LedSoFar(m: Machine) {
    Led(m.tokens) && (m.mode.InParam? ==> EndsInBrackets(m.tokens))
  }

  lemma RoundLed(m: Machine, c: Option<char>)
    requires m.Consistent() && LedSoFar(m)
    ensures LedSoFar(Round(m, c))
  {
    hide Led, EndsInBrackets, ParseInt;
    forall t: Token | !t.Param? || m.mode.InParam?
      ensures Led(m.tokens + [t]) && (t.Bracket? || t.Param? ==> EndsInBrackets(m.tokens + [t]))
    {
      LedSnoc(m.tokens, t);
    }
  }

  lemma {:induction false} FeedLed(m: Machine, s: string)
    requires m.Consistent() && LedSoFar(m)
    ensures LedSoFar(Feed(m, s))
    decreases |s|
  {
    hide Round, LedSoFar;
    if s != "" {
      RoundLed(m, Some(s[0]));
      FeedLed(Round(m, Some(s[0])), s[1..]);
    }
  }

  lemma TokensLed(s: string)
    ensures Led(TokensOf(s))
  {
    hide Round, Feed;
    FeedLed(START, Trim(s));
    RoundLed(Feed(START, Trim(s)), None);
  }

  lemma {:induction false} LedRest(x: seq<Token>, separator: Token, y: seq<Token>)
    requires Led(x + ([separator] + y)) && (separator.Indirection? || separator.Comma?)
    ensures Led(x) && Led(y)
    decreases |y|
  {
    hide Led, EndsInBrackets;
    NoneLed();
    if y == [] {
      assert x + ([separator] + y) == x + [separator];
      LedSnoc(x, separator);
    } else {
      var front, last := y[..|y| - 1], y[|y| - 1];
      var all := x + ([separator] + front);
      assert x + ([separator] + y) == all + [last] && y == front + [last];
      LedSnoc(all, last);
      LedRest(x, separator, front);
      LedSnoc(front, last);
      SameEnd(x, separator, front);
    }
  }

  lemma NoneLed()
    ensures Led([])
  {
  }

  lemma SameEnd(x: seq<Token>, separator: Token, y: seq<Token>)
    requires separator.Indirection? || separator.Comma?
    ensures EndsInBrackets(x + ([separator] + y)) ==> EndsInBrackets(y)
  {
  }

  /** The parse of a path whose parameters are led. */
  lemma {:induction false} GroundedParse(tokens: seq<Token>)
    requires Led(tokens) && !ParseTokens(NOTHING_PARSED, tokens).failed
    ensures var parts := ParseTokens(NOTHING_PARSED, tokens).parts;
            && (forall p <- parts :: Grounded(p))
            && (EndsInBrackets(tokens) && parts != [] ==>
                var last := parts[|parts| - 1]; last.id.Some? || last.text.Some?)
    decreases |tokens|
  {
    hide ParseToken, ParseTokens, Grounded;
    if tokens == [] {
      ParseNothing(NOTHING_PARSED);
    } else {
      var front, t := tokens[..|tokens| - 1], tokens[|tokens| - 1];
      var s := ParseTokens(NOTHING_PARSED, front);
      assert tokens == front + [t];
      ParseConcat(NOTHING_PARSED, front, [t]);
      ParseOne(s, t);
      if s.failed {
        FailedStays(s, [t]);
      }
      GroundedParse(front);
      GroundedToken(s, t);
    }
  }

  lemma GroundedToken(s: Parsing, t: Token)
    requires !s.failed && !ParseToken(s, t).failed && forall p <- s.parts :: Grounded(p)
    requires t.Param? && s.parts != [] ==>
               var last := s.parts[|s.parts| - 1]; last.id.Some? || last.text.Some?
    ensures var parts := ParseToken(s, t).parts;
            && (forall p <- parts :: Grounded(p))
            && ((t.Bracket? || t.Param?) && parts != [] ==>
                var last := parts[|parts| - 1]; last.id.Some? || last.text.Some?)
  {
    var parts := ParseToken(s, t).parts;
    forall p | p in parts
      ensures Grounded(p)
    {
      var i :| 0 <= i < |parts| && parts[i] == p;
      if i < |s.parts| {
        assert s.parts[i] in s.parts;
      }
    }
  }

  predicate AllGrounded(paths: seq<Path>) {
    forall path <- paths, p <- path :: Grounded(p)
  }

  lemma {:induction false} GroundedPaths(tokens: seq<Token>, paths: seq<Path>)
    requires ParserIndir(tokens) == Some(paths) && Led(tokens)
    ensures AllGrounded(paths) && paths != []
    decreases |tokens|
  {
    hide Led, SplitAt, Grounded;
    var r := SplitAt(tokens, Indirection);
    var rest := SplitOnce(tokens, Indirection);
    assert PathOf(r[0]) == Some(paths[0]);
    if |r| == 1 {
      GroundedParse(r[0]);
      assert r[1..] == [] && PathsOf([]) == Some([]);
      assert paths == [paths[0]];
    } else {
      LedRest(r[0], Indirection, rest);
      GroundedParse(r[0]);
      assert ParserIndir(rest) == Some(paths[1..]);
      GroundedPaths(rest, paths[1..]);
      assert paths == [paths[0]] + paths[1..];
    }
  }

  predicate GroundedCfi(c: Cfi) {
    match c
    case Point(paths) => AllGrounded(paths) && paths != []
    case Range(parent, start, end) =>
      AllGrounded(parent) && parent != [] && AllGrounded(start) && start != [] && AllGrounded(end) && end != []
  }

  lemma CfiGrounded(s: string, c: Cfi)
    requires ParseCfi(s) == Whole(c)
    ensures GroundedCfi(c)
  {
    hide ParserIndir, SplitAt, TokensOf, Unwrap, Led, AllGrounded;
    var tokens := TokensOf(Unwrap(s));
    TokensLed(Unwrap(s));
    var r := SplitAt(tokens, Comma);
    var rest := SplitOnce(tokens, Comma);
    if |r| == 1 {
      GroundedPaths(tokens, c.paths);
    } else {
      LedRest(r[0], Comma, rest);
      var later := SplitAt(rest, Comma);
      var last := SplitOnce(rest, Comma);
      LedRest(r[1], Comma, last);
      var ends := SplitAt(last, Comma);
      assert later == r[1..] && ends == later[1..];
      var more := SplitOnce(last, Comma);
      if |ends| > 1 {
        LedRest(r[2], Comma, more);
      }
      GroundedPaths(r[0], c.parent);
      GroundedPaths(r[1], c.start);
      GroundedPaths(r[2], c.end);
    }
  }

  // ---- what a printed step weighs ----

  /** The printer writes the side once: not beside both an id and a text. */
  predicate PrintsSideOnce(p: Part) {
    Truthy(p.side) ==> !Truthy(p.id) || p.text.None?
  }

  lemma {:induction false} WeightJoined(xs: seq<string>, separator: char)
    requires CharWeight(separator) == 1 && xs != []
    ensures 1 + Weight(Joined(xs, [separator])) == TextsCost(xs)
    decreases |xs|
  {
    hide CharWeight, Weight;
    TextsFirst(xs);
    NoTexts(xs[0]);
    if |xs| == 1 {
      assert xs[1..] == [];
    } else {
      WeightJoined(xs[1..], separator);
      WeightConcat(xs[0] + [separator], Joined(xs[1..], [separator]));
      WeightSnoc(xs[0], separator);
    }
  }

  lemma {:induction false} TextsFirst(xs: seq<string>)
    requires xs != []
    ensures TextsCost(xs) == 1 + Weight(xs[0]) + TextsCost(xs[1..])
    decreases |xs|
  {
    hide Weight;
    var front, last := xs[..|xs| - 1], xs[|xs| - 1];
    if |xs| > 1 {
      TextsFirst(front);
      assert xs[1..] == front[1..] + [last];
      TextsSnoc(front[1..], last);
    }
  }

  lemma {:induction false} EscapedCost(xs: seq<string>)
    ensures TextsCost(EscapedAll(xs)) == TextsCost(xs)
  {
    hide Weight, EscapeCfi;
    if xs != [] {
      TextsFirst(xs);
      TextsFirst(EscapedAll(xs));
      WeightEscaped(xs[0]);
      assert EscapedAll(xs)[1..] == EscapedAll(xs[1..]);
      EscapedCost(xs[1..]);
    }
  }

  lemma WeightLed(c: char, s: string)
    ensures Weight([c] + s) == CharWeight(c) + Weight(s)
  {
    WeightConcat([c], s);
    WeightOne(c);
  }

  lemma ParamWeight(side: Option<string>)
    ensures Weight(ParamString(side)) == if Truthy(side) then 3 + Weight(side.value) else 0
  {
    hide Weight;
    WeightNone();
    if Truthy(side) {
      WeightLed('s', "=" + side.value);
      WeightLed('=', side.value);
      WeightLed(';', "s=" + side.value);
      assert ParamString(side) == [';'] + (['s'] + (['='] + side.value));
      assert ['s'] + (['='] + side.value) == "s=" + side.value;
    }
  }

  /** A bracket with these texts. */
  function BracketString(xs: seq<string>, side: Option<string>): string {
    "[" + Joined(EscapedAll(xs), ",") + ParamString(side) + "]"
  }

  lemma BracketParts(xs: seq<string>, side: string)
    requires side != ""
    ensures BracketString(xs, Some(side)) == ("[" + Joined(EscapedAll(xs), ",") + ";s=") + (side + "]")
  {
    hide Joined, EscapedAll;
    assert ParamString(Some(side)) == ";s=" + side;
  }

  lemma WeightBracket(xs: seq<string>, side: Option<string>)
    requires xs != []
    ensures Weight(BracketString(xs, side)) == TextsCost(xs) + if Truthy(side) then 3 + Weight(side.value) else 0
  {
    hide Weight, Joined, EscapedAll, ParamString;
    var inner := Joined(EscapedAll(xs), ",") + ParamString(side);
    assert BracketString(xs, side) == ['['] + (inner + "]");
    WeightLed('[', inner + "]");
    WeightSnoc(inner, ']');
    WeightConcat(Joined(EscapedAll(xs), ","), ParamString(side));
    WeightJoined(EscapedAll(xs), ',');
    EscapedCost(xs);
    ParamWeight(side);
  }

  lemma IdIsBracket(p: Part)
    ensures IdString(p) == if Truthy(p.id) then BracketString([p.id.value], p.side) else ""
  {
    if Truthy(p.id) {
      assert [p.id.value][1..] == [];
      assert EscapedAll([p.id.value]) == [EscapeCfi(p.id.value)];
    }
  }

  lemma TextIsBracket(p: Part)
    ensures TextString(p) == if PrintsText(p) then BracketString(Texts(p), p.side) else ""
  {
    assert Joined(EscapedAll([""]), ",") == "" by { assert [""][1..] == []; }
    assert EscapedAll([]) == [];
    assert p.text == Some([]) ==> Joined(EscapedAll(p.text.value), ",") == "";
  }

  lemma OneText(x: string)
    ensures TextsCost([x]) == 1 + Weight(x)
  {
    TextsFirst([x]);
    assert [x][1..] == [];
  }

  lemma WeightNumbers(p: Part)
    requires p.spatial != Some([])
    ensures Weight("/" + NumberString(p.index)) == 1 + NumberWeight(p.index)
    ensures Weight(OffsetString(p)) == NumberCost(CanonPart(p).offset)
    ensures Weight(TemporalString(p)) == TextCost(CanonPart(p).temporal)
    ensures Weight(SpatialString(p)) == ListCost(p.spatial)
  {
    hide Weight, NumberString, Joined, PrintsText, HasPrefix, FirstNonEmpty, IsOdd, Truthy;
    WeightNone();
    WeightLed('/', NumberString(p.index));
    if p.offset.Some? {
      WeightLed(':', NumberString(p.offset.value));
    }
    if p.temporal.Some? {
      WeightLed('~', p.temporal.value);
    }
    if p.spatial.Some? {
      WeightLed('@', Joined(p.spatial.value, ":"));
      WeightJoined(p.spatial.value, ':');
    }
  }

  /** A text that becomes the id is not lost. */
  lemma {:induction false} WithoutWeighs(xs: seq<string>, k: nat)
    requires k < |xs|
    ensures TextsCost(xs) == 1 + Weight(xs[k]) + TextsCost(Without(xs, k))
    decreases |xs|
  {
    hide Weight, TextsCost;
    TextsFirst(xs);
    if k > 0 {
      WithoutWeighs(xs[1..], k - 1);
      TextsFirst(Without(xs, k));
      assert Without(xs, k)[1..] == Without(xs[1..], k - 1);
    }
  }

  function TextsOf(p: Part): seq<string> {
    if PrintsText(p) then Texts(p) else []
  }

  /** Which text becomes the id of the canonical form. */
  function IdAt(p: Part): nat {
    if HasPrefix(p) then |TextsOf(p)| else FirstNonEmpty(TextsOf(p))
  }

  lemma CanonIdAndText(p: Part)
    ensures var xs, k, canon := TextsOf(p), IdAt(p), CanonPart(p);
            && k <= |xs| && (Truthy(p.id) ==> k == |xs|)
            && canon.id == (if Truthy(p.id) then p.id else if k < |xs| then Some(xs[k]) else None)
            && canon.text == (if Without(xs, k) == [] then None else Some(Without(xs, k)))
  {
    hide PrintsText, IsOdd, TruthyNumber, FirstNonEmpty, Without, Texts;
    var rest := Without(TextsOf(p), IdAt(p));
    assert [] + rest == rest;
  }

  /** Id and texts weigh the same in the canonical form, wherever they stand. */
  lemma CanonTexts(p: Part)
    ensures TextCost(CanonPart(p).id) + ListCost(CanonPart(p).text)
            == (if Truthy(p.id) then 1 + Weight(p.id.value) else 0) + TextsCost(TextsOf(p))
  {
    hide Weight, TextsOf, IdAt, CanonPart, Without, TextsCost;
    var xs, k := TextsOf(p), IdAt(p);
    CanonIdAndText(p);
    NoTexts("");
    if k < |xs| {
      WithoutWeighs(xs, k);
    } else {
      WithoutNone(xs);
    }
  }

  lemma WeightBrackets(p: Part)
    requires PrintsSideOnce(p)
    ensures Weight(IdString(p)) + Weight(TextString(p)) ==
            TextCost(CanonPart(p).id) + ListCost(CanonPart(p).text) + SideCost(CanonPart(p))
  {
    hide Weight, BracketString, Joined, EscapedAll, HasPrefix, FirstNonEmpty, Without, TextCost, ListCost;
    WeightNone();
    IdIsBracket(p);
    TextIsBracket(p);
    CanonTexts(p);
    assert TextsCost([]) == 0 by { NoTexts(""); }
    if Truthy(p.id) {
      WeightBracket([p.id.value], p.side);
      OneText(p.id.value);
    }
    if PrintsText(p) {
      WeightBracket(Texts(p), p.side);
    }
  }

  /** A printed step weighs what its canonical form weighs. */
  lemma WeightPart(p: Part)
    requires HasNumbers(p) && PrintsSideOnce(p)
    ensures Weight(PartToString(p)) == PartCost(CanonPart(p))
  {
    hide Weight, IdString, OffsetString, TemporalString, SpatialString, TextString, NumberString;
    hide TextCost, NumberCost, ListCost, SideCost, PrintsSideOnce;
    var s1 := "/" + NumberString(p.index);
    WeightConcat(s1, IdString(p));
    WeightConcat(s1 + IdString(p), OffsetString(p));
    WeightConcat(s1 + IdString(p) + OffsetString(p), TemporalString(p));
    WeightConcat(s1 + IdString(p) + OffsetString(p) + TemporalString(p), SpatialString(p));
    WeightConcat(s1 + IdString(p) + OffsetString(p) + TemporalString(p) + SpatialString(p), TextString(p));
    WeightNumbers(p);
    WeightBrackets(p);
  }

  /** The canonical form of a step is no heavier, if its side stands beside an id or a text; and if it
      weighs the same, it has the same side. */
  lemma CanonNoHeavier(p: Part)
    requires Grounded(p)
    ensures PartCost(CanonPart(p)) <= PartCost(p)
    ensures PartCost(CanonPart(p)) == PartCost(p) ==> PartSides(CanonPart(p)) == PartSides(p)
  {
    hide Weight, NumberWeight, HasPrefix, FirstNonEmpty, Without, IsOdd, TruthyNumber;
    CanonTexts(p);
    NoTexts("");
    OneText("");
    WeightNone();
  }
}
