/** The side bias, the one text that the printer of EPUB CFIs does not escape
    (frontend/public/foliate/epubcfi.js): a CFI with any other than a plain one does not come back.
    One that closes leaves its step with another side (CfiMarks). One that swallows its closing bracket
    is cut short, and, printed once, leaves no text to read a second one from: no token weighs more than
    the text it is read from (CfiWeights). */
module CfiSides {
  import opened Wrappers
  import opened CfiSyntax
  import opened CfiReading
  import opened CfiRoundTrip
  import opened CfiWeights
  import opened CfiMarks
  import opened CfiCarets
  import opened CfiOneStep

  // ---- a text that cannot become the CFI any more ----

  /** The side being read is not going to be the one the CFI has. */
  predicate OpenWrong(m: Machine, sides: seq<string>) {
    && m.mode == InParam(";s")
    && |ParamSides(m.tokens)| < |sides|
    && !(m.value <= sides[|ParamSides(m.tokens)|])
  }

  /** The text read so far cannot become the CFI any more: it weighs less than the budget, or a side
      has been read that is not the CFI's, or one is being read. */
  predicate Spoiled(m: Machine, budget: nat, sides: seq<string>) {
    && m.Consistent() && Potential(m) <= budget
    && (Potential(m) < budget || !(ParamSides(m.tokens) <= sides) || OpenWrong(m, sides))
  }

  lemma SidesOnlyGrow(m: Machine, c: Option<char>)
    requires m.Consistent()
    ensures ParamSides(m.tokens) <= ParamSides(Round(m, c).tokens)
  {
    hide ParamSides;
    forall t: Token
      ensures ParamSides(m.tokens) <= ParamSides(m.tokens + [t])
    {
      SidesSnoc(m.tokens, t);
    }
  }

  /** What happens to a side that is being read. */
  lemma SideRound(m: Machine, c: char)
    requires m.mode == InParam(";s")
    ensures var r := Round(m, Some(c));
            if c == '^' && !m.escape then r == m.(escape := true)
            else if c == '=' && !m.escape then Potential(r) < Potential(m) + CharWeight(c)
            else if c in {';', ']'} && !m.escape then ParamSides(r.tokens) == ParamSides(m.tokens) + [m.value]
            else r == m.(value := m.value + [c], escape := false)
  {
    hide TokensCost, ParamSides;
    SidesSnoc(m.tokens, Param(";s", m.value));
    WeightOne('s');
    assert ";s"[1..] == "s";
    assert (";" + m.value)[1..] == m.value;
  }

  lemma SpoiledRound(m: Machine, c: char, budget: nat, sides: seq<string>)
    requires Spoiled(m, budget, sides)
    ensures Spoiled(Round(m, Some(c)), budget + CharWeight(c), sides)
  {
    hide Round, Potential, CharWeight, ParamSides;
    RoundWeighs(m, c);
    SidesOnlyGrow(m, Some(c));
    if m.mode == InParam(";s") {
      SideRound(m, c);
    }
  }

  lemma {:induction false} SpoiledFeed(m: Machine, s: string, budget: nat, sides: seq<string>)
    requires Spoiled(m, budget, sides)
    ensures Spoiled(Feed(m, s), budget + Weight(s), sides)
    decreases |s|
  {
    hide Round, Potential, ParamSides, OpenWrong, CharWeight;
    if s != "" {
      SpoiledRound(m, s[0], budget, sides);
      SpoiledFeed(Round(m, Some(s[0])), s[1..], budget + CharWeight(s[0]), sides);
    }
  }

  /** At the end of the text, or at the bracket that wraps it, what was being read is pushed or
      dropped. */
  lemma Ended(m: Machine)
    requires m.Consistent()
    ensures var a, b := Flushed(m), Flushed(Round(m, Some(')')));
            && TokensCost(a) <= Potential(m) && TokensCost(b) <= Potential(m)
            && ParamSides(m.tokens) <= ParamSides(a) && ParamSides(m.tokens) <= ParamSides(b)
            && (m.mode.InParam? ==> a == b == m.tokens)
  {
    hide Potential, ParamSides, CharWeight, TokensCost;
    EndWeighs(m);
    var r := Round(m, Some(')'));
    assert CharWeight(')') == 0 by { ClosingWeighsNothing(); }
    RoundWeighs(m, ')');
    EndWeighs(r);
    SidesOnlyGrow(m, None);
    SidesOnlyGrow(m, Some(')'));
    SidesOnlyGrow(r, None);
  }

  lemma ClosingWeighsNothing()
    ensures CharWeight(')') == CharWeight(']') == CharWeight('^') == 0
  {
  }

  lemma EndWeighs(m: Machine)
    requires m.Consistent()
    ensures TokensCost(Flushed(m)) <= Potential(m)
  {
    hide TokensCost, Weight, NumberWeight, ParseInt;
    match m.mode {
      case Bang => PushWeighs(m, Indirection);
      case InComma => PushWeighs(m, Comma);
      case InStep =>
        PushWeighs(m, Step(ParseInt(m.value)));
        ParsedNumber(m.value);
      case InOffset =>
        PushWeighs(m, Offset(ParseInt(m.value)));
        ParsedNumber(m.value);
      case InTemporal => PushWeighs(m, Temporal(m.value));
      case InSpatial => PushWeighs(m, Spatial(m.value));
      case _ =>
    }
  }

  /** A spoiled text ends with too little weight or with a wrong side. */
  lemma SpoiledEnd(m: Machine, budget: nat, sides: seq<string>, tokens: seq<Token>)
    requires Spoiled(m, budget, sides) && tokens in {Flushed(m), Flushed(Round(m, Some(')')))}
    ensures TokensCost(tokens) <= budget && (TokensCost(tokens) < budget || !(ParamSides(tokens) <= sides))
  {
    hide ParamSides, Weight;
    Ended(m);
  }

  // ---- a side that is not plain ----

  /** Every closing bracket among the first i characters has been read into the value, where it is
      further to the front. */
  predicate ClosingsRead(side: string, i: nat, value: string)
    requires i <= |side|
  {
    forall j :: 0 <= j < i && side[j] == ']' ==> exists k :: 0 <= k < j && k < |value| && value[k] == ']'
  }

  lemma {:induction false} NoFirstClosing(side: string, value: string, j: nat)
    requires j < |side| && side[j] == ']' && value <= side && ClosingsRead(side, |side|, value)
    ensures false
    decreases j
  {
    var k :| 0 <= k < j && k < |value| && value[k] == ']';
    NoFirstClosing(side, value, k);
  }

  /** The first i characters of a side, read into a value: either all of them plain, or shorter. */
  predicate PartlyRead(m: Machine, side: string, i: nat)
    requires i <= |side|
  {
    && m.mode == InParam(";s")
    && |m.value| + (if m.escape then 1 else 0) <= i
    && (|m.value| == i ==> m.value == side[..i] && PlainSide(side[..i]))
    && ClosingsRead(side, i, m.value)
  }

  lemma PlainSnoc(side: string, i: nat)
    requires i < |side| && PlainSide(side[..i])
    ensures side[..i + 1] == side[..i] + [side[i]]
    ensures PlainSide(side[..i + 1]) <==> IsPlain(side[i])
  {
    assert side[..i + 1] == side[..i] + [side[i]];
    assert side[i] in side[..i + 1];
  }

  lemma ReadMore(m: Machine, side: string, i: nat)
    requires i < |side| && PartlyRead(m, side, i)
    requires var c := side[i]; m.escape || c !in {'=', ';', ']'}
    ensures var c := side[i];
            var r := if c == '^' && !m.escape then m.(escape := true)
                     else m.(value := m.value + [c], escape := false);
            PartlyRead(r, side, i + 1)
  {
    hide PlainSide;
    var c := side[i];
    var r := if c == '^' && !m.escape then m.(escape := true) else m.(value := m.value + [c], escape := false);
    if |m.value| == i {
      PlainSnoc(side, i);
    }
    forall j | 0 <= j < i + 1 && side[j] == ']'
      ensures exists k :: 0 <= k < j && k < |r.value| && r.value[k] == ']'
    {
      if j == i {
        assert m.escape && r.value[|m.value|] == ']';
      } else {
        var k :| 0 <= k < j && k < |m.value| && m.value[k] == ']';
        assert r.value[k] == ']';
      }
    }
  }

  /** Reading on from within the side, to its closing bracket. */
  lemma {:induction false} ReadsWrong(m: Machine, side: string, i: nat, budget: nat, sides: seq<string>)
    requires i <= |side| && PartlyRead(m, side, i) && !PlainSide(side) && Potential(m) <= budget
    requires ParamSides(m.tokens) + [side] <= sides
    ensures Spoiled(Feed(m, side[i..] + "]"), budget + Weight(side[i..]), sides)
    decreases |side| - i
  {
    hide Round, Feed, Potential, ParamSides, CharWeight, PlainSide, ClosingsRead, Weight;
    var n := |ParamSides(m.tokens)|;
    assert sides[n] == side;
    ClosingWeighsNothing();
    assert side[..|side|] == side;
    if i == |side| {
      assert side[i..] + "]" == "]" && side[i..] == "";
      FeedOne(m, ']', "");
      RoundWeighs(m, ']');
      SideRound(m, ']');
      WeightNone();
      if m.escape && m.value + "]" <= side {
        assert side[|m.value|] == ']' && m.value <= side;
        NoFirstClosing(side, m.value, |m.value|);
      }
    } else {
      var c, rest := side[i], side[i + 1..] + "]";
      assert side[i..] + "]" == [c] + rest && side[i..] == [c] + side[i + 1..];
      FeedOne(m, c, rest);
      WeightConcat([c], side[i + 1..]);
      WeightOne(c);
      RoundWeighs(m, c);
      SideRound(m, c);
      var r := Round(m, Some(c));
      if c in {'=', ';', ']'} && !m.escape {
        assert Spoiled(r, budget + CharWeight(c), sides);
        SpoiledFeed(r, rest, budget + CharWeight(c), sides);
        RestWeighs(side[i + 1..]);
      } else {
        ReadMore(m, side, i);
        ReadsWrong(r, side, i + 1, budget + CharWeight(c), sides);
      }
    }
  }

  lemma RestWeighs(s: string)
    ensures Weight(s + "]") == Weight(s)
  {
    WeightSnoc(s, ']');
  }

  // ---- reading what is printed ----

  /** So far the text has been read as it was printed. */
  predicate Faithful(m: Machine, budget: nat, sides: seq<string>) {
    Outside(m) && Potential(m) <= budget && ParamSides(Flushed(m)) == sides
  }

  lemma {:induction false} BracketSides(xs: seq<string>)
    ensures ParamSides(BracketTokens(xs)) == []
    decreases |xs|
  {
    Empty();
    if xs != [] {
      BracketSides(xs[1..]);
      SidesConcat([Bracket(xs[0])], BracketTokens(xs[1..]));
      SidesSnoc([], Bracket(xs[0]));
      assert [] + [Bracket(xs[0])] == [Bracket(xs[0])];
    }
  }

  lemma {:induction false} SpatialSides(xs: seq<string>)
    ensures ParamSides(SpatialTokens(xs)) == []
    decreases |xs|
  {
    Empty();
    if xs != [] {
      SpatialSides(xs[1..]);
      SidesConcat([Spatial(xs[0])], SpatialTokens(xs[1..]));
      SidesSnoc([], Spatial(xs[0]));
      assert [] + [Spatial(xs[0])] == [Spatial(xs[0])];
    }
  }

  lemma OneSide(t: Token)
    ensures ParamSides([t]) == if t.Param? && t.kind == ";s" then [t.value] else []
  {
    Empty();
    SidesSnoc([], t);
    assert [] + [t] == [t];
  }

  lemma SideTokensSides(side: Option<string>)
    ensures ParamSides(SideTokens(side)) == if Truthy(side) then [side.value] else []
  {
    Empty();
    if Truthy(side) {
      OneSide(Param(";s", side.value));
    }
  }

  lemma BracketSidesOf(xs: seq<string>, side: Option<string>)
    ensures ParamSides(BracketTokens(xs) + SideTokens(side)) == if Truthy(side) then [side.value] else []
  {
    hide ParamSides, BracketTokens, SideTokens;
    SidesConcat(BracketTokens(xs), SideTokens(side));
    BracketSides(xs);
    SideTokensSides(side);
  }

  /** The tokens of a printed step have its side. */
  lemma PartTokensSides(p: Part)
    requires PrintsSideOnce(p)
    ensures ParamSides(PartTokens(p)) == PartSides(CanonPart(p))
  {
    hide ParamSides, BracketTokens, SpatialTokens, SideTokens;
    Empty();
    OneSide(Step(p.index));
    if Truthy(p.id) {
      BracketSidesOf([p.id.value], p.side);
    }
    if PrintsText(p) {
      BracketSidesOf(Texts(p), p.side);
    }
    if p.offset.Some? {
      OneSide(Offset(p.offset.value));
    }
    if p.temporal.Some? {
      OneSide(Temporal(p.temporal.value));
    }
    if p.spatial.Some? {
      SpatialSides(p.spatial.value);
    }
    ConcatSides(p);
  }

  lemma ConcatSides(p: Part)
    ensures ParamSides(PartTokens(p)) ==
            ParamSides([Step(p.index)]) + ParamSides(IdTokens(p)) + ParamSides(OffsetTokens(p))
            + ParamSides(TemporalTokens(p)) + ParamSides(AllSpatialTokens(p)) + ParamSides(TextTokens(p))
  {
    hide ParamSides, IdTokens, OffsetTokens, TemporalTokens, AllSpatialTokens, TextTokens;
    var x1 := [Step(p.index)];
    SidesConcat(x1, IdTokens(p));
    SidesConcat(x1 + IdTokens(p), OffsetTokens(p));
    SidesConcat(x1 + IdTokens(p) + OffsetTokens(p), TemporalTokens(p));
    SidesConcat(x1 + IdTokens(p) + OffsetTokens(p) + TemporalTokens(p), AllSpatialTokens(p));
    SidesConcat(x1 + IdTokens(p) + OffsetTokens(p) + TemporalTokens(p) + AllSpatialTokens(p), TextTokens(p));
  }

  /** What every step must have for the counting: numbers, and a side that is printed once. */
  predicate Countable(p: Part) {
    HasNumbers(p) && PrintsSideOnce(p)
  }

  lemma FaithfulPart(m: Machine, budget: nat, sides: seq<string>, p: Part)
    requires Faithful(m, budget, sides) && Countable(p) && PlainlySided(p)
    ensures Faithful(Feed(m, PartToString(p)), budget + PartCost(CanonPart(p)), sides + PartSides(CanonPart(p)))
  {
    hide Round, Feed, Flushed, Potential, ParamSides, PartToString, PartTokens, PartCost, CanonPart, HasNumbers;
    PartPiece(m, p);
    FeedWeighs(m, PartToString(p));
    WeightPart(p);
    SidesConcat(Flushed(m), PartTokens(p));
    PartTokensSides(p);
  }

  /** Where the side of a step is printed first: what comes before the bracket, its texts, and what
      follows it. */
  function BeforeSide(p: Part): Part {
    if Truthy(p.id) then EmptyPart(p.index) else p.(id := None, text := None, side := None)
  }

  function TextsBesideSide(p: Part): seq<string> {
    if Truthy(p.id) then [p.id.value] else Texts(p)
  }

  function AfterSide(p: Part): string {
    if Truthy(p.id) then OffsetString(p) + TemporalString(p) + SpatialString(p) + TextString(p) else ""
  }

  lemma SideSplits(p: Part)
    requires Truthy(p.side)
    ensures PartToString(p) ==
            PartToString(BeforeSide(p)) + ("[" + Joined(EscapedAll(TextsBesideSide(p)), ",") + ";s=")
            + (p.side.value + "]") + AfterSide(p)
  {
    hide BracketString, PartToString, Joined, EscapedAll, IdString, TextString;
    var lead := PartToString(BeforeSide(p));
    var open := "[" + Joined(EscapedAll(TextsBesideSide(p)), ",") + ";s=";
    var bracket := BracketString(TextsBesideSide(p), p.side);
    BracketParts(TextsBesideSide(p), p.side.value);
    Grouped(lead, open, p.side.value + "]");
    if Truthy(p.id) {
      IdIsBracket(p);
      BareStep(p.index);
      IdThenRest(p);
    } else {
      TextIsBracket(p);
      SameBefore(p);
      assert lead + bracket + "" == lead + bracket;
    }
  }

  lemma Grouped(x: string, y: string, z: string)
    ensures x + y + z == x + (y + z)
  {
  }

  lemma IdThenRest(p: Part)
    requires Truthy(p.id)
    ensures PartToString(p) == ("/" + NumberString(p.index)) + IdString(p) + AfterSide(p)
  {
    hide NumberString, IdString, OffsetString, TemporalString, SpatialString, TextString;
    var s := ("/" + NumberString(p.index)) + IdString(p);
    var o, t, x, y := OffsetString(p), TemporalString(p), SpatialString(p), TextString(p);
    assert PartToString(p) == s + o + t + x + y;
    Grouped(o + t, x, y);
    Grouped(s + o + t, x, y);
    Grouped(s + o, t, x + y);
    Grouped(o, t, x + y);
    Grouped(s, o, t + (x + y));
  }

  lemma BareStep(n: Number)
    ensures PartToString(EmptyPart(n)) == "/" + NumberString(n)
  {
  }

  lemma SameBefore(p: Part)
    requires !Truthy(p.id)
    ensures PartToString(p.(id := None, text := None, side := None)) + TextString(p) == PartToString(p)
  {
    hide NumberString, TextString;
    var q := p.(id := None, text := None, side := None);
    assert TextString(q) == "" by { NoText(q); }
    assert OffsetString(q) == OffsetString(p) && TemporalString(q) == TemporalString(p);
    assert SpatialString(q) == SpatialString(p) && IdString(q) == IdString(p) == "";
  }

  lemma NoText(q: Part)
    requires q.text.None? && q.side.None?
    ensures TextString(q) == ""
  {
  }

  /** Reading up to the side of a step. */
  lemma ReadToSide(m: Machine, budget: nat, sides: seq<string>, p: Part) returns (n: Machine)
    requires Faithful(m, budget, sides) && Countable(p)
    ensures var lead := PartToString(BeforeSide(p));
            var open := "[" + Joined(EscapedAll(TextsBesideSide(p)), ",") + ";s=";
            && n == Feed(m, lead + open) == Machine(n.tokens, InParam(";s"), false, "")
            && ParamSides(n.tokens) == sides && Potential(n) <= budget + Weight(lead + open)
  {
    hide Round, Feed, Flushed, Potential, ParamSides, PartToString, PartTokens, Joined, EscapedAll;
    var q := BeforeSide(p);
    var lead := PartToString(q);
    var open := "[" + Joined(EscapedAll(TextsBesideSide(p)), ",") + ";s=";
    PartPiece(m, q);
    SidesConcat(Flushed(m), PartTokens(q));
    PartTokensSides(q);
    assert sides + [] == sides;
    BracketOpens(Feed(m, lead), TextsBesideSide(p));
    SidesConcat(Flushed(Feed(m, lead)), BracketTokens(TextsBesideSide(p)));
    BracketSides(TextsBesideSide(p));
    FeedConcat(m, lead, open);
    n := Feed(m, lead + open);
    FeedWeighs(m, lead + open);
  }

  lemma SpoilingPart(m: Machine, budget: nat, before: seq<string>, p: Part, sides: seq<string>)
    requires Faithful(m, budget, before) && Countable(p) && !PlainlySided(p)
    requires before + PartSides(CanonPart(p)) <= sides
    ensures Spoiled(Feed(m, PartToString(p)), budget + PartCost(CanonPart(p)), sides)
  {
    hide Round, Feed, Flushed, Potential, ParamSides, PartToString, PartCost, HasNumbers, Joined, EscapedAll;
    hide BeforeSide, TextsBesideSide, AfterSide, PlainSide, Weight, HasPrefix, FirstNonEmpty, Without, PrintsText;
    var side := p.side.value;
    var lead := PartToString(BeforeSide(p)) + ("[" + Joined(EscapedAll(TextsBesideSide(p)), ",") + ";s=");
    var tail := AfterSide(p);
    var n := ReadToSide(m, budget, before, p);
    SideSplits(p);
    NothingRead(n, side);
    assert side[0..] == side;
    ReadsWrong(n, side, 0, budget + Weight(lead), sides);
    SpoiledFeed(Feed(n, side + "]"), tail, budget + Weight(lead) + Weight(side), sides);
    FeedConcat(m, lead + (side + "]"), tail);
    FeedConcat(m, lead, side + "]");
    WeightConcat(lead + (side + "]"), tail);
    WeightConcat(lead, side + "]");
    RestWeighs(side);
    WeightPart(p);
  }

  lemma NothingRead(m: Machine, side: string)
    requires m.mode == InParam(";s") && !m.escape && m.value == ""
    ensures PartlyRead(m, side, 0)
  {
    assert side[..0] == "";
  }

  // ---- a whole CFI ----

  /** How far the reading of a printed CFI has come: faithful with these sides, or spoiled. */
  predicate ReadSoFar(m: Machine, budget: nat, before: seq<string>, sides: seq<string>, spoiled: bool) {
    if spoiled then Spoiled(m, budget, sides) else Faithful(m, budget, before)
  }

  lemma ReadPart(m: Machine, budget: nat, before: seq<string>, p: Part, sides: seq<string>, spoiled: bool)
    requires ReadSoFar(m, budget, before, sides, spoiled) && Countable(p)
    requires before + PartSides(CanonPart(p)) <= sides
    ensures m.Consistent()
    ensures ReadSoFar(Feed(m, PartToString(p)), budget + PartCost(CanonPart(p)), before + PartSides(CanonPart(p)),
                      sides, spoiled || !PlainlySided(p))
  {
    hide Feed, Flushed, Potential, ParamSides, PartToString, PartCost, CanonPart, HasNumbers, Weight;
    if spoiled {
      SpoiledFeed(m, PartToString(p), budget, sides);
      WeightPart(p);
    } else if !PlainlySided(p) {
      SpoilingPart(m, budget, before, p, sides);
    } else {
      FaithfulPart(m, budget, before, p);
    }
  }

  lemma {:induction false} ReadPath(m: Machine, budget: nat, before: seq<string>, path: Path, sides: seq<string>,
                                    spoiled: bool)
    requires ReadSoFar(m, budget, before, sides, spoiled) && (forall p <- path :: Countable(p))
    requires before + PathSides(CanonPath(path)) <= sides
    ensures m.Consistent()
    ensures ReadSoFar(Feed(m, PathToString(path)), budget + PathCost(CanonPath(path)),
                      before + PathSides(CanonPath(path)), sides,
                      spoiled || !PlainPath(path))
    decreases |path|
  {
    hide Round, Feed, ReadSoFar, PartToString, CanonPart, PartCost, PartSides, PathCost, PathSides;
    hide PlainlySided, Countable;
    ReadConsistent(m, budget, before, sides, spoiled);
    if path == [] {
      NoSteps();
      FeedNothing(m);
      assert before + [] == before;
    } else {
      var p, rest := path[0], path[1..];
      var q := CanonPart(p);
      PathFirst(CanonPath(path));
      assert CanonPath(path)[1..] == CanonPath(rest);
      Regroup(before, PartSides(q), PathSides(CanonPath(rest)));
      assert path == [p] + rest;
      ReadPart(m, budget, before, p, sides, spoiled);
      var next := Feed(m, PartToString(p));
      ReadPath(next, budget + PartCost(q), before + PartSides(q), rest, sides, spoiled || !PlainlySided(p));
      FeedConcat(m, PartToString(p), PathToString(rest));
    }
  }

  lemma ReadConsistent(m: Machine, budget: nat, before: seq<string>, sides: seq<string>, spoiled: bool)
    requires ReadSoFar(m, budget, before, sides, spoiled)
    ensures m.Consistent()
  {
  }

  /** An indirection or a comma between paths. */
  lemma ReadMark(m: Machine, budget: nat, before: seq<string>, c: char, sides: seq<string>, spoiled: bool)
    requires ReadSoFar(m, budget, before, sides, spoiled) && (c == '!' || c == ',')
    ensures m.Consistent() && ReadSoFar(Feed(m, [c]), budget + 1, before, sides, spoiled)
  {
    hide Round, Feed, Flushed, Potential, ParamSides, OpenWrong, Weight;
    WeightOne(c);
    if spoiled {
      SpoiledFeed(m, [c], budget, sides);
    } else {
      MarkPiece(m, c);
      FeedWeighs(m, [c]);
      SidesSnoc(Flushed(m), if c == '!' then Indirection else Comma);
    }
  }

  predicate AllCountable(paths: seq<Path>) {
    forall path <- paths, p <- path :: Countable(p)
  }

  lemma FirstOfPaths(paths: seq<Path>)
    requires paths != []
    ensures PlainPaths(paths) <==> PlainPath(paths[0]) && PlainPaths(paths[1..])
    ensures AllCountable(paths) ==> (forall p <- paths[0] :: Countable(p)) && AllCountable(paths[1..])
  {
    hide PlainlySided, Countable;
    assert paths == [paths[0]] + paths[1..];
  }

  lemma NoPathsPlain()
    ensures PlainPaths([])
  {
  }

  lemma {:induction false} ReadPaths(m: Machine, budget: nat, before: seq<string>, paths: seq<Path>,
                                     sides: seq<string>, spoiled: bool)
    requires ReadSoFar(m, budget, before, sides, spoiled) && AllCountable(paths)
    requires before + PathsSides(CanonPaths(paths)) <= sides
    ensures m.Consistent()
    ensures ReadSoFar(Feed(m, PathsToString(paths)), budget + PathsCost(CanonPaths(paths)),
                      before + PathsSides(CanonPaths(paths)), sides, spoiled || !PlainPaths(paths))
    decreases |paths|
  {
    hide Round, Feed, ReadSoFar, PathToString, CanonPath, PathCost, PathSides, PlainlySided, Countable;
    hide PlainPaths, AllCountable;
    ReadConsistent(m, budget, before, sides, spoiled);
    NoPathsPlain();
    if paths == [] {
      NoSteps();
      assert CanonPath([]) == [] by { NoCanonSteps(); }
      FeedNothing(m);
      assert before + ([] + []) == before;
    } else {
      var path, rest := paths[0], paths[1..];
      var canon := CanonPath(path);
      FirstOfPaths(paths);
      ReadPath(m, budget, before, path, sides, spoiled);
      if rest == [] {
        assert PathSides(canon) + [] == PathSides(canon);
      } else {
        var s := PathToString(path);
        var bad := spoiled || !PlainPath(path);
        Regroup(before, PathSides(canon), PathsSides(CanonPaths(rest)));
        assert CanonPaths(paths)[1..] == CanonPaths(rest);
        ReadMark(Feed(m, s), budget + PathCost(canon), before + PathSides(canon), '!', sides, bad);
        FeedConcat(m, s, "!");
        ReadPaths(Feed(m, s + "!"), budget + PathCost(canon) + 1, before + PathSides(canon), rest, sides, bad);
        FeedConcat(m, s + "!", PathsToString(rest));
      }
    }
  }

  lemma NoCanonSteps()
    ensures CanonPath([]) == []
  {
  }

  predicate CountableCfi(c: Cfi) {
    match c
    case Point(paths) => AllCountable(paths)
    case Range(parent, start, end) => AllCountable(parent) && AllCountable(start) && AllCountable(end)
  }

  /** Reading a printed CFI against its canonical form. */
  lemma ReadCfi(c: Cfi)
    requires CountableCfi(c)
    ensures var canon := CanonCfi(c);
            ReadSoFar(Feed(START, ToInnerString(c)), CfiCost(canon), CfiSidesOf(canon), CfiSidesOf(canon),
                      !PlainSides(c))
  {
    hide Round, Feed, ReadSoFar, PathsToString, CanonPaths, PathsCost, PathsSides, AllCountable, PlainPaths;
    var sides := CfiSidesOf(CanonCfi(c));
    NothingReadYet(sides);
    match c {
      case Point(paths) =>
        assert [] + sides == sides;
        ReadPaths(START, 0, [], paths, sides, false);
      case Range(parent, start, end) =>
        var a, b := PathsSides(CanonPaths(parent)), PathsSides(CanonPaths(start));
        var x, y := PathsCost(CanonPaths(parent)), PathsCost(CanonPaths(start));
        assert [] + a == a && a <= sides && a + b <= sides;
        ReadPaths(START, 0, [], parent, sides, false);
        var s1, bad1 := PathsToString(parent), !PlainPaths(parent);
        ReadMark(Feed(START, s1), x, a, ',', sides, bad1);
        FeedConcat(START, s1, ",");
        ReadPaths(Feed(START, s1 + ","), x + 1, a, start, sides, bad1);
        FeedConcat(START, s1 + ",", PathsToString(start));
        var s2, bad2 := s1 + "," + PathsToString(start), bad1 || !PlainPaths(start);
        ReadMark(Feed(START, s2), x + 1 + y, a + b, ',', sides, bad2);
        FeedConcat(START, s2, ",");
        ReadPaths(Feed(START, s2 + ","), x + 1 + y + 1, a + b, end, sides, bad2);
        FeedConcat(START, s2 + ",", PathsToString(end));
    }
  }

  lemma NothingReadYet(sides: seq<string>)
    ensures ReadSoFar(START, 0, [], sides, false)
  {
    Empty();
  }

  // ---- the round trip, with any side ----

  /** A printed CFI with a side that is not plain weighs less than its canonical form, once read, or has
      another side. */
  lemma SpoiledText(c: Cfi)
    requires CountableCfi(c) && !PlainSides(c)
    ensures var tokens, canon := TokensOf(Unwrap(ToString(c))), CanonCfi(c);
            && TokensCost(tokens) <= CfiCost(canon)
            && (TokensCost(tokens) < CfiCost(canon) || !(ParamSides(tokens) <= CfiSidesOf(canon)))
  {
    hide ToString, ToInnerString, TokensOf, Unwrap, Feed, Round, Flushed, CanonCfi, CfiCost, CfiSidesOf;
    hide Spoiled, PlainSides, CountableCfi, CfiHasNumbers, ParamSides, TokensCost, Tight, Wrap;
    ReadCfi(c);
    CountableHasNumbers(c);
    TightCfi(c);
    TokensOfWrapped(ToInnerString(c));
    assert ToString(c) == Wrap(ToInnerString(c)) by { Printed(c); }
    SpoiledEnd(Feed(START, ToInnerString(c)), CfiCost(CanonCfi(c)), CfiSidesOf(CanonCfi(c)),
      TokensOf(Unwrap(ToString(c))));
  }

  lemma PrintableIsPlain(c: Cfi)
    ensures PrintableCfi(c) <==> CfiHasNumbers(c) && PlainSides(c)
  {
    hide HasNumbers, PlainlySided;
  }

  lemma CountableHasNumbers(c: Cfi)
    requires CountableCfi(c)
    ensures CfiHasNumbers(c)
  {
    hide HasNumbers, PrintsSideOnce;
  }

  predicate OneStepOnly(c: Cfi) {
    c.Point? && |c.paths| == 1 && |c.paths[0]| == 1 && HasNumbers(c.paths[0][0])
  }

  /** What the two theorems below ask for: no side bias is printed twice, or none leaves an escape pending
      outside of brackets, or there is one step only. */
  predicate Decided(c: Cfi) {
    CountableCfi(c) || SettledCfi(c) || OneStepOnly(c)
  }

  lemma DecidedHasNumbers(c: Cfi)
    requires Decided(c)
    ensures CfiHasNumbers(c)
  {
    hide HasNumbers, PrintsSideOnce, SideSettles;
  }

  lemma ClosedIsReadable(c: Cfi)
    requires SettledCfi(c) && ClosedCfi(c)
    ensures ReadableCfi(c)
  {
    hide HasNumbers, SideSettles, SideCloses;
  }

  lemma PathsKeptByCanon(paths: seq<Path>)
    ensures PathsKept(paths, CanonPaths(paths))
  {
    hide HasPrefix, FirstNonEmpty, Without, PrintsText;
    if paths == [] {
      assert CanonPaths(paths) == [[]] by { NoPaths(); }
    }
  }

  lemma KeptByCanon(c: Cfi)
    ensures CfiKept(c, CanonCfi(c)) && CfiKept(c, c)
  {
    hide CanonPaths;
    match c {
      case Point(paths) => PathsKeptByCanon(paths);
      case Range(parent, start, end) =>
        PathsKeptByCanon(parent);
        PathsKeptByCanon(start);
        PathsKeptByCanon(end);
    }
  }

  lemma PathTakenByCanon(path: Path)
    ensures PathTaken(path, CanonPath(path)) && PathTaken(path, path)
  {
    hide CaretsKept, CanonPart;
    forall i | 0 <= i < |path|
      ensures CaretsKept(path[i], CanonPath(path)[i]) && CaretsKept(path[i], path[i])
    {
      KeptByCanonPart(path[i]);
      KeptByItself(path[i]);
    }
  }

  lemma PathsTakenByCanon(paths: seq<Path>)
    ensures PathsTaken(paths, CanonPaths(paths)) && PathsTaken(paths, paths)
  {
    hide PathTaken, CanonPath;
    if paths == [] {
      assert CanonPaths(paths) == [[]] by { NoPaths(); }
    }
    forall i | 0 <= i < |paths|
      ensures PathTaken(paths[i], CanonPath(paths[i])) && PathTaken(paths[i], paths[i])
    {
      PathTakenByCanon(paths[i]);
    }
  }

  lemma TakenByCanon(c: Cfi)
    ensures CfiTaken(c, CanonCfi(c)) && CfiTaken(c, c)
  {
    hide CanonPaths, PathsTaken;
    match c {
      case Point(paths) => PathsTakenByCanon(paths);
      case Range(parent, start, end) =>
        PathsTakenByCanon(parent);
        PathsTakenByCanon(start);
        PathsTakenByCanon(end);
    }
  }

  /** With a side that is not plain, and no escape left pending outside of brackets by any. */
  lemma SettledIsLost(c: Cfi)
    requires SettledCfi(c) && CfiHasNumbers(c) && !PlainSides(c)
    ensures ParseCfi(ToString(c)) != Whole(c) && ParseCfi(ToString(c)) != Whole(CanonCfi(c))
  {
    hide ParseCfi, ToString, CanonCfi, SettledCfi, ClosedCfi, ReadableCfi, CfiHasNumbers, PlainSides, CfiKept, CfiTaken;
    if ClosedCfi(c) {
      ClosedIsReadable(c);
      KeptByCanon(c);
      ClosedIsLost(c, c);
      ClosedIsLost(c, CanonCfi(c));
    } else {
      TakenByCanon(c);
      SwallowedIsLost(c, c);
      SwallowedIsLost(c, CanonCfi(c));
    }
  }

  /** With a side that is not plain in the only step, printed twice and leaving an escape pending. */
  lemma OneStepIsLost(c: Cfi)
    requires OneStepOnly(c) && !CountableCfi(c) && !SettledCfi(c) && !PlainSides(c)
    ensures ParseCfi(ToString(c)) != Whole(c) && ParseCfi(ToString(c)) != Whole(CanonCfi(c))
  {
    hide ParseCfi, ToString, HasNumbers, PlainSide, Settles, CanonPart, PrintsText;
    var p := c.paths[0][0];
    assert c.paths[0] == [p] && c.paths == [[p]];
    OneStepCanon(p);
    CanonSide(p);
    assert !PlainlySided(p) && !PrintsSideOnce(p) && !SideSettles(p);
    assert PrintsText(p) by { TextPrints(p); }
    LooseIsLost(p, p);
    LooseIsLost(p, CanonPart(p));
  }

  lemma OneStepCanon(p: Part)
    ensures CanonCfi(Point([[p]])) == Point([[CanonPart(p)]])
  {
    hide CanonPart;
    assert CanonPath([p]) == [CanonPart(p)];
    assert CanonPaths([[p]]) == [CanonPath([p])];
  }

  lemma TextPrints(p: Part)
    requires p.text.Some?
    ensures PrintsText(p)
  {
  }

  /** What is printed reads back as its canonical form exactly when its side biases are plain. */
  lemma ReadsBackIff(c: Cfi)
    requires Decided(c)
    ensures ParseCfi(ToString(c)) == Whole(CanonCfi(c)) <==> PlainSides(c)
  {
    hide ParseCfi, ToString, CanonCfi, TokensOf, Unwrap, TokensCost, ParamSides, CfiCost, CfiSidesOf;
    hide CountableCfi, SettledCfi, OneStepOnly, CfiHasNumbers, PlainSides, PrintableCfi;
    DecidedHasNumbers(c);
    if PlainSides(c) {
      PrintableIsPlain(c);
      ParseOfPrinted(c);
    } else if CountableCfi(c) {
      SpoiledText(c);
      if ParseCfi(ToString(c)) == Whole(CanonCfi(c)) {
        CfiAccounts(ToString(c), CanonCfi(c));
      }
    } else if SettledCfi(c) {
      SettledIsLost(c);
    } else {
      OneStepIsLost(c);
    }
  }

  lemma {:induction false} CanonPathNoHeavier(path: Path)
    requires forall p <- path :: Grounded(p)
    ensures PathCost(CanonPath(path)) <= PathCost(path)
    ensures PathCost(CanonPath(path)) == PathCost(path) ==> PathSides(CanonPath(path)) == PathSides(path)
    decreases |path|
  {
    hide CanonPart, Grounded, PartCost, PartSides, PathCost, PathSides;
    if path == [] {
      NoCanonSteps();
    } else {
      assert path[0] in path;
      CanonNoHeavier(path[0]);
      CanonPathNoHeavier(path[1..]);
      PathFirst(path);
      PathFirst(CanonPath(path));
      assert CanonPath(path)[1..] == CanonPath(path[1..]);
    }
  }

  lemma {:induction false} CanonPathsNoHeavier(paths: seq<Path>)
    requires AllGrounded(paths) && paths != []
    ensures PathsCost(CanonPaths(paths)) <= PathsCost(paths)
    ensures PathsCost(CanonPaths(paths)) == PathsCost(paths) ==> PathsSides(CanonPaths(paths)) == PathsSides(paths)
    decreases |paths|
  {
    hide CanonPath, Grounded, PathCost, PathSides;
    var path, rest := paths[0], paths[1..];
    assert path in paths && paths == [path] + rest;
    CanonPathNoHeavier(path);
    if rest != [] {
      CanonPathsNoHeavier(rest);
      assert CanonPaths(paths)[1..] == CanonPaths(rest);
    }
  }

  lemma CanonCfiNoHeavier(c: Cfi)
    requires GroundedCfi(c)
    ensures CfiCost(CanonCfi(c)) <= CfiCost(c)
    ensures CfiCost(CanonCfi(c)) == CfiCost(c) ==> CfiSidesOf(CanonCfi(c)) == CfiSidesOf(c)
  {
    hide AllGrounded, PathsCost, PathsSides, CanonPaths;
    match c {
      case Point(paths) => CanonPathsNoHeavier(paths);
      case Range(parent, start, end) =>
        CanonPathsNoHeavier(parent);
        CanonPathsNoHeavier(start);
        CanonPathsNoHeavier(end);
    }
  }

  /** Printing and parsing give a CFI back exactly when it is well formed and its side biases are plain. */
  lemma ComesBackIff(c: Cfi)
    requires Decided(c)
    ensures ParseCfi(ToString(c)) == Whole(c) <==> WellFormed(c) && PlainSides(c)
  {
    hide ParseCfi, ToString, CanonCfi, TokensOf, Unwrap, TokensCost, ParamSides, CfiCost, CfiSidesOf;
    hide CountableCfi, SettledCfi, OneStepOnly, CfiHasNumbers, PlainSides, PrintableCfi, WellFormed, GroundedCfi;
    DecidedHasNumbers(c);
    if PlainSides(c) {
      PrintableIsPlain(c);
      RoundTrip(c);
    } else if CountableCfi(c) {
      SpoiledText(c);
      if ParseCfi(ToString(c)) == Whole(c) {
        CfiAccounts(ToString(c), c);
        CfiGrounded(ToString(c), c);
        CanonCfiNoHeavier(c);
      }
    } else if SettledCfi(c) {
      SettledIsLost(c);
    } else {
      OneStepIsLost(c);
    }
  }

  // ---- what is lost ----

  /** The CFI with one step, an id and a side bias. */
  function Sided(side: string): Cfi {
    Point([[EmptyPart(Num(2)).(id := Some("x"), side := Some(side))]])
  }

  /** How its text is read up to the side. */
  lemma UpToSide() returns (tokens: seq<Token>)
    ensures Feed(START, "/2[x;s=") == Machine(tokens, InParam(";s"), false, "")
  {
    hide Round, Feed;
    var p := EmptyPart(Num(2)).(id := Some("x"), side := Some("a"));
    Empty();
    FlushIdle([]);
    assert Faithful(START, 0, []);
    var n := ReadToSide(START, 0, [], p);
    BareStep(Num(2));
    assert NumberText(2) == "2";
    assert EscapedAll(["x"]) == ["x"] by { PlainX(); }
    assert PartToString(BeforeSide(p)) + ("[" + Joined(EscapedAll(TextsBesideSide(p)), ",") + ";s=") == "/2[x;s=";
    tokens := n.tokens;
  }

  lemma PlainX()
    ensures EscapedAll(["x"]) == ["x"]
  {
    assert EscapeCfi("x") == "x";
    assert ["x"][1..] == [];
  }

  /** The text between the wrapping. */
  function SidedText(written: string): string {
    "/2[x;s=" + (written + "]")
  }

  lemma SidedPrints(side: string)
    requires side != ""
    ensures ToInnerString(Sided(side)) == SidedText(side) && ToString(Sided(side)) == Wrap(SidedText(side))
  {
    hide Wrap, PartToString;
    var p := EmptyPart(Num(2)).(id := Some("x"), side := Some(side));
    assert [p][1..] == [];
    assert PathToString([p]) == PartToString(p) + "";
    SidedPart(side);
  }

  lemma SidedPart(side: string)
    requires side != ""
    ensures PartToString(EmptyPart(Num(2)).(id := Some("x"), side := Some(side))) == SidedText(side)
  {
    hide PartToString;
    var p := EmptyPart(Num(2)).(id := Some("x"), side := Some(side));
    SideSplits(p);
    BareStep(Num(2));
    PlainX();
    assert NumberText(2) == "2" && AfterSide(p) == "";
    assert PartToString(BeforeSide(p)) + ("[" + Joined(EscapedAll(TextsBesideSide(p)), ",") + ";s=") == "/2[x;s=";
  }

  lemma SidedFits(side: string)
    requires side != ""
    ensures WellFormed(Sided(side)) && CfiHasNumbers(Sided(side)) && CanonCfi(Sided(side)) == Sided(side)
    ensures PlainSide(side) ==> PrintableCfi(Sided(side))
  {
    hide PlainSide;
    var p := EmptyPart(Num(2)).(id := Some("x"), side := Some(side));
    CanonPartFixed(p);
    CanonPathsFixed([[p]]);
  }

  lemma SidedTokens(side: string)
    requires side != ""
    ensures CfiTokens(Sided(side)) == [Step(Num(2)), Bracket("x"), Param(";s", side)]
  {
    var p := EmptyPart(Num(2)).(id := Some("x"), side := Some(side));
    assert [p][1..] == [] && ["x"][1..] == [];
    assert PartTokens(p) == [Step(Num(2)), Bracket("x"), Param(";s", side)];
    assert PathTokens([p]) == PartTokens(p) + [];
    assert PathsTokens([[p]]) == PathTokens([p]);
  }

  /** Reading a text after which nothing is open. */
  lemma ReadsTokens(s: string, tokens: seq<Token>)
    requires Tight(s) && Feed(START, s) == Machine(tokens, Idle, false, "")
    ensures TokensOf(Unwrap(Wrap(s))) == tokens
  {
    hide Feed, Wrap, Unwrap, Tight, TokensOf;
    TokensOfWrapped(s);
    FlushIdle(tokens);
    IgnoredChar(Machine(tokens, Idle, false, ""), ')');
  }

  /** What is written for the side, and read as another one. */
  lemma SidedReads(written: string, side: string)
    requires side != ""
    requires forall tokens :: Feed(Machine(tokens, InParam(";s"), false, ""), written + "]")
                              == Machine(tokens + [Param(";s", side)], Idle, false, "")
    ensures ParseCfi(Wrap(SidedText(written))) == Whole(Sided(side))
  {
    hide Feed, Wrap, Unwrap, TokensOf, ParseCfi, CfiTokens, CanonCfi, Tight;
    var tokens := UpToSide();
    FeedConcat(START, "/2[x;s=", written + "]");
    assert Tight(SidedText(written)) by { SidedTight(written); }
    ReadsTokens(SidedText(written), tokens + [Param(";s", side)]);
    SidedTokens(side);
    SidedFits(side);
    PlainTokens(tokens);
    assert [Step(Num(2)), Bracket("x")] + [Param(";s", side)] == [Step(Num(2)), Bracket("x"), Param(";s", side)];
    ParseOfTokens(Wrap(SidedText(written)), Sided(side));
  }

  lemma SidedTight(written: string)
    ensures Tight(SidedText(written))
  {
  }

  /** The tokens before the side, as a plain one shows them. */
  lemma PlainTokens(tokens: seq<Token>)
    requires Feed(START, "/2[x;s=") == Machine(tokens, InParam(";s"), false, "")
    ensures tokens == [Step(Num(2)), Bracket("x")]
  {
    hide Feed, Wrap, Unwrap, TokensOf, CfiTokens, Tight;
    SidedFits("b");
    SidedPrints("b");
    SidedTokens("b");
    TokensOfPrinted(Sided("b"));
    FeedConcat(START, "/2[x;s=", "b]");
    assert ['b'] + "]" == "b]" && "" + ['b'] == "b" && "]" + "" == "]";
    SideChars(tokens, "", 'b', "]");
    SideChars(tokens, "b", 'b', "");
    FeedNothing(Machine(tokens + [Param(";s", "b")], Idle, false, ""));
    SidedTight("b");
    ReadsTokens(SidedText("b"), tokens + [Param(";s", "b")]);
    var all := tokens + [Param(";s", "b")];
    assert all[..2] == tokens;
  }

  /** The characters of a side bias, one by one. */
  lemma SideChars(tokens: seq<Token>, value: string, c: char, rest: string)
    ensures var m := Machine(tokens, InParam(";s"), false, value);
            && (IsPlain(c) ==> Feed(m, [c] + rest) == Feed(Machine(tokens, InParam(";s"), false, value + [c]), rest))
            && Feed(m, "]" + rest) == Feed(Machine(tokens + [Param(";s", value)], Idle, false, ""), rest)
            && Feed(m, "^" + ([c] + rest)) ==
               Feed(Machine(tokens, InParam(";s"), false, value + [c]), rest)
  {
    hide Feed;
    var m := Machine(tokens, InParam(";s"), false, value);
    FeedOne(m, c, rest);
    FeedOne(m, ']', rest);
    assert "]" + rest == [']'] + rest && "^" + ([c] + rest) == ['^'] + ([c] + rest);
    FeedOne(m, '^', [c] + rest);
    FeedOne(m.(escape := true), c, rest);
  }

  lemma CaretRead(tokens: seq<Token>)
    ensures Feed(Machine(tokens, InParam(";s"), false, ""), "a^b" + "]")
            == Machine(tokens + [Param(";s", "ab")], Idle, false, "")
  {
    hide Feed;
    assert "a^b" + "]" == ['a'] + ("^" + (['b'] + "]"));
    SideChars(tokens, "", 'a', "^" + (['b'] + "]"));
    assert "" + ['a'] == "a" && "a" + ['b'] == "ab";
    SideChars(tokens, "a", 'b', "]");
    assert "]" + "" == "]";
    SideChars(tokens, "ab", 'a', "");
    FeedNothing(Machine(tokens + [Param(";s", "ab")], Idle, false, ""));
  }

  lemma ClosingRead(tokens: seq<Token>)
    ensures Feed(Machine(tokens, InParam(";s"), false, ""), "a^]b" + "]")
            == Machine(tokens + [Param(";s", "a]b")], Idle, false, "")
  {
    hide Feed;
    assert "a^]b" + "]" == ['a'] + ("^" + ([']'] + (['b'] + "]")));
    SideChars(tokens, "", 'a', "^" + ([']'] + (['b'] + "]")));
    assert "" + ['a'] == "a" && "a" + [']'] == "a]" && "a]" + ['b'] == "a]b";
    SideChars(tokens, "a", ']', ['b'] + "]");
    SideChars(tokens, "a]", 'b', "]");
    assert "]" + "" == "]";
    SideChars(tokens, "a]b", 'a', "");
    FeedNothing(Machine(tokens + [Param(";s", "a]b")], Idle, false, ""));
  }

  lemma CutRead(tokens: seq<Token>)
    ensures Feed(Machine(tokens, InParam(";s"), false, ""), "a]b" + "]")
            == Machine(tokens + [Param(";s", "a")], Idle, false, "")
  {
    hide Feed;
    assert "a]b" + "]" == ['a'] + ("]" + "b]");
    SideChars(tokens, "", 'a', "]" + "b]");
    assert "" + ['a'] == "a";
    SideChars(tokens, "a", 'a', "b]");
    FeedIgnored(Machine(tokens + [Param(";s", "a")], Idle, false, ""), "b]");
  }

  /** A well-formed CFI that does not come back: the caret of its side bias is taken for an escape. */
  lemma CaretIsLost()
    ensures WellFormed(Sided("a^b")) && ToInnerString(Sided("a^b")) == "/2[x;s=a^b]"
    ensures ParseCfi(ToString(Sided("a^b"))) == Whole(Sided("ab")) != Whole(Sided("a^b"))
  {
    hide Feed, Wrap, ParseCfi, ToString, ToInnerString, WellFormed;
    SidedFits("a^b");
    SidedPrints("a^b");
    assert SidedText("a^b") == "/2[x;s=a^b]";
    forall tokens
      ensures Feed(Machine(tokens, InParam(";s"), false, ""), "a^b" + "]")
              == Machine(tokens + [Param(";s", "ab")], Idle, false, "")
    {
      CaretRead(tokens);
    }
    SidedReads("a^b", "ab");
    assert Sided("ab") != Sided("a^b") by { assert |"ab"| != |"a^b"|; }
  }

  /** Such a side can come from a parse: a text with an escaped bracket parses to one that, printed and
      parsed again, is cut off at the bracket. */
  lemma ParsedSideIsCut()
    ensures ParseCfi(Wrap("/2[x;s=a^]b]")) == Whole(Sided("a]b"))
    ensures ParseCfi(ToString(Sided("a]b"))) == Whole(Sided("a"))
  {
    hide Feed, Wrap, ParseCfi, ToString;
    SidedPrints("a]b");
    assert SidedText("a^]b") == "/2[x;s=a^]b]";
    forall tokens
      ensures Feed(Machine(tokens, InParam(";s"), false, ""), "a^]b" + "]")
              == Machine(tokens + [Param(";s", "a]b")], Idle, false, "")
      ensures Feed(Machine(tokens, InParam(";s"), false, ""), "a]b" + "]")
              == Machine(tokens + [Param(";s", "a")], Idle, false, "")
    {
      ClosingRead(tokens);
      CutRead(tokens);
    }
    SidedReads("a^]b", "a]b");
    SidedReads("a]b", "a");
  }
}
