/** A CFI of one step (frontend/public/foliate/epubcfi.js): a side bias after which an escape is pending
    outside of brackets is never read back as it is, even when it is printed twice. */
module CfiOneStep {
  import opened Wrappers
  import opened CfiSyntax
  import opened CfiReading
  import opened CfiRoundTrip
  import opened CfiWeights
  import opened CfiMarks
  import opened CfiCarets

  // ---- outside of brackets ----

  lemma {:induction false} FeedOutside(m: Machine, s: string, n: nat)
    requires m.Consistent() && !InBrackets(m) && Short(m.tokens, n) && '[' !in s
    ensures !InBrackets(Feed(m, s)) && Short(Feed(m, s).tokens, n)
    decreases |s|
  {
    hide Round, Short;
    if s != "" {
      assert s[0] in s;
      RoundOutside(m, s[0], n);
      FeedOutside(Round(m, Some(s[0])), s[1..], n);
    }
  }

  lemma RoundOutside(m: Machine, c: char, n: nat)
    requires m.Consistent() && !InBrackets(m) && Short(m.tokens, n)
    ensures var r := Round(m, Some(c));
            Short(r.tokens, n) && !r.mode.InParam? && (c != '[' ==> !r.mode.InBracket?)
  {
    hide Short, ParseInt;
    forall t: Token | !t.Param?
      ensures Short(m.tokens + [t], n)
    {
      PushedShort(m.tokens, t, n);
    }
  }

  // ---- texts with or without an escape pending ----

  /** While texts are read: a parameter that is open has no name, and no escape is pending in it. */
  predicate InTexts(m: Machine, n: nat) {
    && m.Consistent() && Short(m.tokens, n)
    && (m.mode.InParam? ==> m.mode.kind == ";" && !m.escape)
  }

  lemma TextRound(m: Machine, c: char, n: nat)
    requires InTexts(m, n) && (m.mode.InParam? ==> c !in {'^', '=', ']'})
    ensures InTexts(Round(m, Some(c)), n)
  {
    hide Short, ParseInt;
    forall t: Token | t.Param? ==> t.kind == ";"
      ensures Short(m.tokens + [t], n)
    {
      PushedShort(m.tokens, t, n);
    }
  }

  lemma EscapedRounds(m: Machine, c: char, n: nat)
    requires InTexts(m, n)
    ensures InTexts(Feed(m, EscapedChar(c)), n)
  {
    hide Feed, Short;
    if !IsSpecial(c) {
      assert EscapedChar(c) == [c];
      FeedOne(m, c, "");
      TextRound(m, c, n);
    } else {
      assert EscapedChar(c) == ['^'] + [c];
      FeedOne(m, '^', [c]);
      var r := Round(m, Some('^'));
      FeedOne(r, c, "");
      if m.mode.InParam? {
        assert Round(r, Some(c)) == m.(value := m.value + [c]);
      } else {
        TextRound(m, '^', n);
        TextRound(r, c, n);
      }
    }
  }

  lemma {:induction false} TextFeed(m: Machine, s: string, n: nat)
    requires InTexts(m, n)
    ensures InTexts(Feed(m, EscapeCfi(s)), n)
    decreases |s|
  {
    hide Round, InTexts, IsSpecial;
    TextsConsistent(m, n);
    if s != "" {
      EscapedRounds(m, s[0], n);
      assert EscapeCfi(s) == EscapedChar(s[0]) + EscapeCfi(s[1..]);
      FeedConcat(m, EscapedChar(s[0]), EscapeCfi(s[1..]));
      TextFeed(Feed(m, EscapedChar(s[0])), s[1..], n);
    }
  }

  lemma TextsConsistent(m: Machine, n: nat)
    requires InTexts(m, n)
    ensures m.Consistent()
  {
  }

  lemma CommaRound(m: Machine, n: nat)
    requires InTexts(m, n)
    ensures InTexts(Round(m, Some(',')), n)
  {
    TextRound(m, ',', n);
  }

  lemma {:induction false} JoinedFeed(m: Machine, xs: seq<string>, n: nat)
    requires InTexts(m, n)
    ensures InTexts(Feed(m, Joined(EscapedAll(xs), ",")), n)
    decreases |xs|
  {
    hide Round, Feed, InTexts, EscapeCfi;
    TextsConsistent(m, n);
    var escaped := EscapedAll(xs);
    if xs == [] {
      FeedNothing(m);
    } else {
      TextFeed(m, xs[0], n);
      var after := Feed(m, escaped[0]);
      TextsConsistent(after, n);
      if |xs| > 1 {
        assert escaped[1..] == EscapedAll(xs[1..]);
        var rest := Joined(escaped[1..], ",");
        assert Joined(escaped, ",") == escaped[0] + ([','] + rest);
        FeedConcat(m, escaped[0], [','] + rest);
        FeedOne(after, ',', rest);
        CommaRound(after, n);
        JoinedFeed(Round(after, Some(',')), xs[1..], n);
      }
    }
  }

  /** After the name of a side parameter, the side begins where a parameter is open at all. */
  lemma NameFeed(m: Machine, side: string)
    requires InTexts(m, |side|)
    ensures Behind(Feed(m, ";s="), side, 0)
  {
    hide Feed, Short, PlainSide;
    assert side[..0] == "" && PlainSide("") by { NothingPlain(); }
    assert ";s=" == [';'] + "s=" && "s=" == ['s'] + "=";
    FeedOne(m, ';', "s=");
    var m1 := Round(m, Some(';'));
    FeedOne(m1, 's', "=");
    var m2 := Round(m1, Some('s'));
    FeedOne(m2, '=', "");
    if m.mode.InBracket? && m.escape {
      assert !m2.mode.InParam?;
    } else if InBrackets(m) {
      PushedShort(m.tokens, if m.mode.InBracket? then Bracket(m.value) else Param(";", m.value), |side|);
      assert m1.value == "" && m2 == Machine(m1.tokens, InParam(";"), false, "s");
      SideParam(m1.tokens, "");
    } else {
      FeedOutside(m, ";s=", |side|);
    }
  }

  lemma NothingPlain()
    ensures PlainSide("")
  {
  }

  /** At the end nothing sets a side any more. */
  lemma EndShort(m: Machine, n: nat)
    requires m.Consistent() && Short(m.tokens, n)
    ensures Short(Flushed(m), n) && Short(Flushed(Round(m, Some(')'))), n)
  {
    hide Round, Short;
    FlushShort(m, n);
    ClosingShort(m, n);
    FlushShort(Round(m, Some(')')), n);
  }

  lemma FlushShort(m: Machine, n: nat)
    requires m.Consistent() && Short(m.tokens, n)
    ensures Short(Flushed(m), n)
  {
    hide Short, ParseInt;
    forall t: Token | !t.Param?
      ensures Short(m.tokens + [t], n)
    {
      PushedShort(m.tokens, t, n);
    }
  }

  lemma ClosingShort(m: Machine, n: nat)
    requires m.Consistent() && Short(m.tokens, n)
    ensures Short(Round(m, Some(')')).tokens, n)
  {
    hide Short, ParseInt;
    forall t: Token | !t.Param?
      ensures Short(m.tokens + [t], n)
    {
      PushedShort(m.tokens, t, n);
    }
  }

  // ---- the step ----

  /** After the first print of the side an escape is pending outside of brackets. */
  lemma FirstPrint(p: Part) returns (n: Machine)
    requires Truthy(p.id) && Truthy(p.side) && !PlainSide(p.side.value) && !Settles(p.side.value)
    ensures n == Feed(START, ("/" + NumberString(p.index)) + IdString(p))
    ensures !InBrackets(n) && Short(n.tokens, |p.side.value|)
  {
    hide Round, Feed, Flushed, Short, PlainSide, NumberString, Joined, EscapedAll;
    var side := p.side.value;
    var s1, open := "/" + NumberString(p.index), "[" + Joined(EscapedAll([p.id.value]), ",") + ";s=";
    FlushIdle([]);
    StepPiece(START, p.index);
    var m := Feed(START, s1);
    BracketOpens(m, [p.id.value]);
    IdIsBracket(p);
    BracketParts([p.id.value], side);
    FeedConcat(START, s1, IdString(p));
    FeedConcat(m, open, side + "]");
    n := Feed(START, s1 + IdString(p));
    var tokens := Flushed(m) + BracketTokens([p.id.value]);
    FeedPrefixed(tokens, AT_SIDE, side + "]");
    assert tokens + [] == tokens;
    LooseIsOutside(side);
    assert Behind(AT_SIDE, side, 0) by { NothingBehind(side); }
    BehindFeed(AT_SIDE, side, 0);
    assert side[0..] == side;
    assert tokens == [Step(p.index)] + BracketTokens([p.id.value]) by {
      assert [] + [Step(p.index)] == [Step(p.index)];
    }
    LeadShort(p.index, [p.id.value], |side|);
    ConcatShort(tokens, Remains(side), |side|);
  }

  lemma LooseIsOutside(side: string)
    requires !Settles(side)
    ensures !InBrackets(Feed(AT_SIDE, side + "]"))
  {
    hide Feed;
    FeedConcat(AT_SIDE, side, "]");
    FeedOne(Feed(AT_SIDE, side), ']', "");
    AfterClosing(Feed(AT_SIDE, side));
  }

  lemma LeadShort(index: Number, xs: seq<string>, n: nat)
    ensures Short([Step(index)] + BracketTokens(xs), n)
  {
    BracketsOnly(xs);
  }

  lemma ConcatShort(x: seq<Token>, y: seq<Token>, n: nat)
    requires Short(x, n) && Short(y, n)
    ensures Short(x + y, n)
  {
  }

  lemma NumbersNoBracket(p: Part)
    requires HasNumbers(p)
    ensures '[' !in OffsetString(p) + TemporalString(p) + SpatialString(p)
  {
    hide NumberText, Joined, IsOdd, TruthyNumber;
    if p.offset.Some? && p.offset.value.Num? {
      assert forall c <- NumberText(p.offset.value.n) :: IsDigit(c);
    }
    if p.spatial.Some? {
      JoinedNoBracket(p.spatial.value);
    }
    assert '[' !in OffsetString(p) && '[' !in TemporalString(p) && '[' !in SpatialString(p);
  }

  lemma {:induction false} JoinedNoBracket(xs: seq<string>)
    requires forall x <- xs :: IsDecimal(x)
    ensures '[' !in Joined(xs, ":")
    decreases |xs|
  {
    if xs != [] {
      assert xs[0] in xs;
      assert IsDecimal(xs[0]);
      if |xs| > 1 {
        JoinedNoBracket(xs[1..]);
      }
    }
  }

  /** The second print of the side, after the texts. */
  lemma SecondPrint(m: Machine, xs: seq<string>, side: string)
    requires m.Consistent() && !InBrackets(m) && Short(m.tokens, |side|) && side != "" && !PlainSide(side)
    ensures Short(Feed(m, BracketString(xs, Some(side))).tokens, |side|)
  {
    hide Round, Feed, Short, PlainSide, Joined, EscapedAll, InTexts;
    var texts := Joined(EscapedAll(xs), ",");
    assert BracketString(xs, Some(side)) == ['['] + (texts + (";s=" + (side + "]"))) by { BracketParts(xs, side); }
    FeedOne(m, '[', texts + (";s=" + (side + "]")));
    RoundOutside(m, '[', |side|);
    var n := Round(m, Some('['));
    assert InTexts(n, |side|) by { NoParamYet(n, |side|); }
    JoinedFeed(n, xs, |side|);
    FeedConcat(n, texts, ";s=" + (side + "]"));
    var after := Feed(n, texts);
    TextsConsistent(after, |side|);
    FeedConcat(after, ";s=", side + "]");
    NameFeed(after, side);
    BehindFeed(Feed(after, ";s="), side, 0);
    assert side[0..] == side;
  }

  lemma NoParamYet(m: Machine, n: nat)
    requires m.Consistent() && Short(m.tokens, n) && !m.mode.InParam?
    ensures InTexts(m, n)
  {
  }

  /** No token of the printed step sets its side. */
  lemma StepShort(p: Part)
    requires HasNumbers(p) && Truthy(p.id) && PrintsText(p) && Truthy(p.side)
    requires !PlainSide(p.side.value) && !Settles(p.side.value)
    ensures Short(Feed(START, PartToString(p)).tokens, |p.side.value|)
  {
    hide Feed, Short, PlainSide, NumberString, OffsetString, TemporalString, SpatialString, IdString, TextString;
    hide PartToString, Settles, HasNumbers, Texts, BracketString, PrintsText;
    var s1, s2 := ("/" + NumberString(p.index)) + IdString(p), OffsetString(p) + TemporalString(p) + SpatialString(p);
    var n := FirstPrint(p);
    PartSplits(p);
    FeedConcat(START, s1 + s2, TextString(p));
    FeedConcat(START, s1, s2);
    NumbersNoBracket(p);
    FeedOutside(n, s2, |p.side.value|);
    TextIsBracket(p);
    SecondPrint(Feed(n, s2), Texts(p), p.side.value);
  }

  /** A step with such a side, printed twice, does not come back with it. */
  lemma LooseIsLost(p: Part, q: Part)
    requires HasNumbers(p) && Truthy(p.id) && PrintsText(p) && Truthy(p.side) && q.side == p.side
    requires !PlainSide(p.side.value) && !Settles(p.side.value)
    ensures ParseCfi(ToString(Point([[p]]))) != Whole(Point([[q]]))
  {
    hide ParseCfi, ToString, TokensOf, Unwrap, Wrap, Tight, Feed, Round, Short, PlainSide, Settles, HasNumbers, Marks;
    hide PartToString, PrintsText;
    var c := Point([[p]]);
    var tokens := TokensOf(Unwrap(ToString(c)));
    OneStepText(p);
    StepShort(p);
    TightCfi(c);
    TokensOfWrapped(PartToString(p));
    assert ToString(c) == Wrap(ToInnerString(c)) by { Printed(c); }
    EndShort(Feed(START, PartToString(p)), |p.side.value|);
    assert forall t <- tokens :: SetsSide(t) ==> t.value != p.side.value by { ShortNever(tokens, p.side.value); }
    NeverLeft(tokens, p.side.value);
    LeadsWith(q.side, Marks(tokens));
    if ParseCfi(ToString(c)) == Whole(Point([[q]])) {
      CfiMarked(ToString(c), Point([[q]]));
      OneMark(q);
    }
  }

  lemma ShortNever(tokens: seq<Token>, side: string)
    requires Short(tokens, |side|)
    ensures forall t <- tokens :: SetsSide(t) ==> t.value != side
  {
  }

  lemma LeadsWith(side: Option<string>, marks: seq<Option<string>>)
    ensures [side] <= marks ==> |marks| > 0 && marks[0] == side
  {
  }

  lemma OneStepText(p: Part)
    ensures ToInnerString(Point([[p]])) == PartToString(p)
    ensures HasNumbers(p) ==> CfiHasNumbers(Point([[p]]))
  {
    hide PartToString, HasNumbers;
    assert [p][1..] == [];
    assert PathToString([p]) == PartToString(p) + "";
  }

  lemma OneMark(q: Part)
    ensures CfiMarksOf(Point([[q]])) == [q.side]
  {
    assert [[q]][1..] == [];
    assert PathsMarks([[q]]) == PathMarks([q]) + [];
    assert PathMarks([q]) == [q.side];
  }
}
