/** What the tokenizer reads of each piece the printer writes
    (frontend/public/foliate/epubcfi.js). */
module CfiReading {
  import opened Wrappers
  import opened CfiSyntax

  /** Not inside brackets, and no escape pending. */
  predicate Outside(m: Machine) {
    m.Consistent() && !m.escape && !m.mode.InBracket? && !m.mode.InParam?
  }

  /** The tokens so far, counting the one still being collected. */
  function Flushed(m: Machine): seq<Token>
    requires m.Consistent()
  {
    Round(m, None).tokens
  }

  /** Where a piece that starts with c leaves a machine outside brackets: the pending token is
      pushed. A colon right after a spatial offset belongs to the offset. */
  lemma StartPiece(m: Machine, c: char)
    requires Outside(m) && ModeOf(c).Some? && !(m.mode.InSpatial? && c == ':')
    ensures Round(m, Some(c)) == Machine(Flushed(m), ModeOf(c).value, false, "")
  {
  }

  lemma IgnoredChar(m: Machine, c: char)
    requires Outside(m) && ModeOf(c).None? && c != '^' && !IsDigit(c) && c != '.'
    ensures Round(m, Some(c)) == Machine(Flushed(m), Idle, false, "")
  {
  }

  lemma {:induction false} FeedIgnored(m: Machine, s: string)
    requires m.Consistent() && m.mode.Idle? && !m.escape
    requires forall c <- s :: ModeOf(c).None? && c != '^'
    ensures Feed(m, s) == m
    decreases |s|
  {
    hide ModeOf;
    if s != "" {
      assert s[0] in s;
      assert Round(m, Some(s[0])) == m;
      FeedIgnored(m, s[1..]);
    }
  }

  lemma {:induction false} FeedDigits(m: Machine, s: string)
    requires m.Consistent() && !m.escape && (m.mode.InStep? || m.mode.InOffset?)
    requires forall c <- s :: IsDigit(c)
    ensures Feed(m, s) == m.(value := m.value + s)
    decreases |s|
  {
    if s == "" {
      assert m.value + s == m.value;
    } else {
      assert s[0] in s;
      var n := Round(m, Some(s[0]));
      assert n == m.(value := m.value + [s[0]]);
      FeedDigits(n, s[1..]);
      assert m.value + [s[0]] + s[1..] == m.value + s;
    }
  }

  lemma {:induction false} FeedDecimal(m: Machine, s: string)
    requires m.Consistent() && !m.escape && (m.mode.InTemporal? || m.mode.InSpatial?)
    requires s == "" || IsDecimal(s)
    ensures Feed(m, s) == m.(value := m.value + s)
    decreases |s|
  {
    if s == "" {
      assert m.value + s == m.value;
    } else {
      assert s[0] in s;
      var n := Round(m, Some(s[0]));
      assert n == m.(value := m.value + [s[0]]);
      FeedDecimal(n, s[1..]);
      assert m.value + [s[0]] + s[1..] == m.value + s;
    }
  }

  function EscapedChar(c: char): string {
    if IsSpecial(c) then ['^', c] else [c]
  }

  lemma FeedEscapedChar(m: Machine, c: char)
    requires (m.mode.InBracket? || m.mode.InParam?) && !m.escape
    ensures Feed(m, EscapedChar(c)) == m.(value := m.value + [c])
  {
    hide Feed;
    if IsSpecial(c) {
      assert EscapedChar(c) == ['^'] + [c];
      FeedOne(m, '^', [c]);
      FeedOne(Round(m, Some('^')), c, "");
    } else {
      FeedOne(m, c, "");
    }
  }

  /** Escaping is undone inside brackets. */
  lemma {:induction false} FeedEscaped(m: Machine, s: string)
    requires (m.mode.InBracket? || m.mode.InParam?) && !m.escape
    ensures Feed(m, EscapeCfi(s)) == m.(value := m.value + s)
    decreases |s|
  {
    hide Round, IsSpecial;
    if s == "" {
      assert m.value + s == m.value;
    } else {
      var n := m.(value := m.value + [s[0]]);
      FeedEscapedChar(m, s[0]);
      assert EscapeCfi(s) == EscapedChar(s[0]) + EscapeCfi(s[1..]);
      FeedConcat(m, EscapedChar(s[0]), EscapeCfi(s[1..]));
      FeedEscaped(n, s[1..]);
      assert m.value + [s[0]] + s[1..] == m.value + s;
    }
  }

  /** A side that the printer, which does not escape it, can print. */
  predicate PlainSide(s: string) {
    forall c <- s :: IsPlain(c)
  }

  predicate IsPlain(c: char) {
    c !in {'^', ';', '=', ']'}
  }

  lemma {:induction false} FeedSide(m: Machine, s: string)
    requires m.mode.InParam? && !m.escape && PlainSide(s)
    ensures Feed(m, s) == m.(value := m.value + s)
    decreases |s|
  {
    if s == "" {
      assert m.value + s == m.value;
    } else {
      assert s[0] in s;
      var n := Round(m, Some(s[0]));
      assert n == m.(value := m.value + [s[0]]);
      FeedSide(n, s[1..]);
      assert m.value + [s[0]] + s[1..] == m.value + s;
    }
  }

  lemma FeedOne(m: Machine, c: char, s: string)
    requires m.Consistent()
    ensures Feed(m, [c] + s) == Feed(Round(m, Some(c)), s)
    ensures Feed(m, [c]) == Round(m, Some(c))
  {
    hide Round;
    assert ([c] + s)[1..] == s;
    assert [c][1..] == "";
  }

  lemma FeedNothing(m: Machine)
    requires m.Consistent()
    ensures Feed(m, "") == m
  {
  }

  lemma FlushIdle(tokens: seq<Token>)
    ensures var m := Machine(tokens, Idle, false, "");
            Outside(m) && Flushed(m) == tokens
  {
  }

  lemma FlushNumber(tokens: seq<Token>, c: char, k: nat)
    requires c == '/' || c == ':'
    ensures var m := Machine(tokens, ModeOf(c).value, false, NumberText(k));
            Outside(m) && Flushed(m) == tokens + [if c == '/' then Step(Num(k)) else Offset(Num(k))]
  {
    NumberRoundTrip(k);
  }

  lemma FeedNaN(tokens: seq<Token>, c: char)
    requires c == '/' || c == ':'
    ensures Feed(Machine(tokens, ModeOf(c).value, false, ""), "NaN")
            == Machine(tokens + [if c == '/' then Step(NaN) else Offset(NaN)], Idle, false, "")
  {
    hide Feed;
    var m := Machine(tokens, ModeOf(c).value, false, "");
    IgnoredChar(m, 'N');
    FeedOne(m, 'N', "aN");
    assert ['N'] + "aN" == "NaN";
    FeedIgnored(Round(m, Some('N')), "aN");
  }

  /** A number of a step or of a character offset, from its first character on. */
  lemma NumberPiece(m: Machine, c: char, n: Number)
    requires Outside(m) && (c == '/' || (c == ':' && !m.mode.InSpatial?))
    ensures var r := Feed(m, [c] + NumberString(n));
            && Outside(r) && !r.mode.InSpatial?
            && Flushed(r) == Flushed(m) + [if c == '/' then Step(n) else Offset(n)]
  {
    hide Feed, Round, NumberText, Flushed;
    StartPiece(m, c);
    FeedOne(m, c, NumberString(n));
    var read := Flushed(m);
    match n {
      case NaN =>
        FeedNaN(read, c);
        FlushIdle(read + [if c == '/' then Step(NaN) else Offset(NaN)]);
      case Num(k) =>
        FeedDigits(Machine(read, ModeOf(c).value, false, ""), NumberText(k));
        assert "" + NumberText(k) == NumberText(k);
        FlushNumber(read, c, k);
    }
  }

  lemma TemporalPiece(m: Machine, s: string)
    requires Outside(m) && IsDecimal(s)
    ensures var r := Feed(m, "~" + s);
            && Outside(r) && !r.mode.InSpatial?
            && Flushed(r) == Flushed(m) + [Temporal(s)]
  {
    StartPiece(m, '~');
    FeedOne(m, '~', s);
    FeedDecimal(Round(m, Some('~')), s);
    assert "" + s == s;
  }

  function SpatialTokens(xs: seq<string>): seq<Token> {
    if xs == [] then [] else [Spatial(xs[0])] + SpatialTokens(xs[1..])
  }

  lemma Associate<T>(x: seq<T>, y: seq<T>, z: seq<T>)
    ensures x + y + z == x + (y + z)
  {
  }

  lemma NextSpatial(tokens: seq<Token>, x: string)
    ensures var m := Machine(tokens, InSpatial, false, x);
            && Outside(m) && Flushed(m) == tokens + [Spatial(x)]
            && Round(m, Some(':')) == Machine(tokens + [Spatial(x)], InSpatial, false, "")
  {
  }

  lemma {:induction false} FeedSpatial(m: Machine, xs: seq<string>)
    requires m.mode.InSpatial? && !m.escape && m.value == ""
    requires xs != [] && forall x <- xs :: IsDecimal(x)
    ensures var r := Feed(m, Joined(xs, ":"));
            Outside(r) && Flushed(r) == m.tokens + SpatialTokens(xs)
    decreases |xs|
  {
    hide Feed, Round, Flushed, Outside, IsDecimal;
    assert xs[0] in xs;
    assert IsDecimal(xs[0]);
    FeedDecimal(m, xs[0]);
    NextSpatial(m.tokens, xs[0]);
    assert "" + xs[0] == xs[0];
    var after := m.(value := xs[0]);
    if |xs| == 1 {
      assert SpatialTokens(xs) == [Spatial(xs[0])];
    } else {
      var rest := Joined(xs[1..], ":");
      assert Joined(xs, ":") == xs[0] + ([':'] + rest);
      FeedConcat(m, xs[0], [':'] + rest);
      FeedOne(after, ':', rest);
      Associate(m.tokens, [Spatial(xs[0])], SpatialTokens(xs[1..]));
      FeedSpatial(Machine(m.tokens + [Spatial(xs[0])], InSpatial, false, ""), xs[1..]);
    }
  }

  lemma SpatialPiece(m: Machine, xs: seq<string>)
    requires Outside(m) && xs != [] && forall x <- xs :: IsDecimal(x)
    ensures var r := Feed(m, "@" + Joined(xs, ":"));
            Outside(r) && Flushed(r) == Flushed(m) + SpatialTokens(xs)
  {
    StartPiece(m, '@');
    FeedOne(m, '@', Joined(xs, ":"));
    FeedSpatial(Round(m, Some('@')), xs);
  }

  function BracketTokens(xs: seq<string>): seq<Token> {
    if xs == [] then [] else [Bracket(xs[0])] + BracketTokens(xs[1..])
  }

  function SideTokens(side: Option<string>): seq<Token> {
    if Truthy(side) then [Param(";s", side.value)] else []
  }

  lemma NextText(m: Machine)
    requires m.mode.InBracket? && !m.escape
    ensures Round(m, Some(',')) == Machine(m.tokens + [Bracket(m.value)], InBracket, false, "")
    ensures Round(m, Some(';')) == Machine(m.tokens + [Bracket(m.value)], InParam(";"), false, "")
    ensures Round(m, Some(']')) == Machine(m.tokens + [Bracket(m.value)], Idle, false, "")
  {
  }

  lemma SideParam(tokens: seq<Token>, side: string)
    ensures var m := Round(Machine(tokens, InParam(";"), false, ""), Some('s'));
            && m == Machine(tokens, InParam(";"), false, "s")
            && Round(m, Some('=')) == Machine(tokens, InParam(";s"), false, "")
    ensures Round(Machine(tokens, InParam(";s"), false, side), Some(']'))
            == Machine(tokens + [Param(";s", side)], Idle, false, "")
  {
    assert "" + ['s'] == "s" && ";" + "s" == ";s";
  }

  /** The end of a bracket: the optional side bias and the closing character. */
  lemma FeedClosing(m: Machine, side: Option<string>)
    requires m.mode.InBracket? && !m.escape && (Truthy(side) ==> PlainSide(side.value))
    ensures Feed(m, ParamString(side) + "]")
            == Machine(m.tokens + ([Bracket(m.value)] + SideTokens(side)), Idle, false, "")
  {
    hide Round, Feed, PlainSide;
    NextText(m);
    if Truthy(side) {
      var s := side.value;
      var tail := s + "]";
      assert ParamString(side) + "]" == [';'] + (['s'] + (['='] + tail));
      var read := m.tokens + [Bracket(m.value)];
      SideParam(read, s);
      FeedOne(m, ';', ['s'] + (['='] + tail));
      FeedOne(Machine(read, InParam(";"), false, ""), 's', ['='] + tail);
      FeedOne(Machine(read, InParam(";"), false, "s"), '=', tail);
      var m3 := Machine(read, InParam(";s"), false, "");
      FeedConcat(m3, s, "]");
      FeedSide(m3, s);
      assert "" + s == s;
      FeedOne(Machine(read, InParam(";s"), false, s), ']', "");
      assert read + [Param(";s", s)] == m.tokens + ([Bracket(m.value)] + SideTokens(side));
    } else {
      assert ParamString(side) + "]" == "]";
      FeedOne(m, ']', "");
      assert m.tokens + ([Bracket(m.value)] + SideTokens(side)) == m.tokens + [Bracket(m.value)];
    }
  }

  lemma {:induction false} FeedTexts(m: Machine, xs: seq<string>, side: Option<string>)
    requires m.mode.InBracket? && !m.escape && m.value == "" && xs != []
    requires Truthy(side) ==> PlainSide(side.value)
    ensures Feed(m, Joined(EscapedAll(xs), ",") + (ParamString(side) + "]"))
            == Machine(m.tokens + (BracketTokens(xs) + SideTokens(side)), Idle, false, "")
    decreases |xs|
  {
    hide Round, Feed, EscapeCfi, ParamString, PlainSide, SideTokens;
    var closing := ParamString(side) + "]";
    var escaped := EscapedAll(xs);
    var after := m.(value := xs[0]);
    FeedEscaped(m, xs[0]);
    assert "" + xs[0] == xs[0];
    if |xs| == 1 {
      FeedConcat(m, escaped[0], closing);
      FeedClosing(after, side);
      assert BracketTokens(xs) == [Bracket(xs[0])] + [];
    } else {
      assert escaped[1..] == EscapedAll(xs[1..]);
      var tail := Joined(escaped[1..], ",") + closing;
      assert Joined(escaped, ",") + closing == escaped[0] + ([','] + tail);
      FeedConcat(m, escaped[0], [','] + tail);
      FeedOne(after, ',', tail);
      NextText(after);
      var read := m.tokens + [Bracket(xs[0])];
      FeedTexts(Machine(read, InBracket, false, ""), xs[1..], side);
      assert read + (BracketTokens(xs[1..]) + SideTokens(side))
             == m.tokens + (BracketTokens(xs) + SideTokens(side));
    }
  }

  /** The texts of a bracket up to the last one. */
  lemma {:induction false} FeedTextsUpToLast(m: Machine, xs: seq<string>, tail: string)
    requires m.mode.InBracket? && !m.escape && m.value == "" && xs != []
    ensures Feed(m, Joined(EscapedAll(xs), ",") + tail)
            == Feed(Machine(m.tokens + BracketTokens(xs[..|xs| - 1]), InBracket, false, xs[|xs| - 1]), tail)
    decreases |xs|
  {
    hide Round, Feed, EscapeCfi;
    var escaped := EscapedAll(xs);
    var after := m.(value := xs[0]);
    FeedEscaped(m, xs[0]);
    assert "" + xs[0] == xs[0];
    if |xs| == 1 {
      FeedConcat(m, escaped[0], tail);
      assert m.tokens + [] == m.tokens;
    } else {
      assert escaped[1..] == EscapedAll(xs[1..]);
      var rest := Joined(escaped[1..], ",") + tail;
      assert Joined(escaped, ",") + tail == escaped[0] + ([','] + rest);
      FeedConcat(m, escaped[0], [','] + rest);
      FeedOne(after, ',', rest);
      NextText(after);
      var read := m.tokens + [Bracket(xs[0])];
      FeedTextsUpToLast(Machine(read, InBracket, false, ""), xs[1..], tail);
      assert xs[1..][..|xs| - 2] == xs[..|xs| - 1][1..];
      assert read + BracketTokens(xs[1..][..|xs| - 2]) == m.tokens + BracketTokens(xs[..|xs| - 1]);
    }
  }

  lemma {:induction false} BracketsSnoc(xs: seq<string>)
    requires xs != []
    ensures BracketTokens(xs) == BracketTokens(xs[..|xs| - 1]) + [Bracket(xs[|xs| - 1])]
    decreases |xs|
  {
    if |xs| == 1 {
      assert xs[1..] == [] && xs[..0] == [];
    } else {
      BracketsSnoc(xs[1..]);
      assert xs[1..][..|xs| - 2] == xs[..|xs| - 1][1..];
    }
  }

  /** A bracket up to the point where its side bias begins. */
  lemma BracketOpens(m: Machine, xs: seq<string>)
    requires Outside(m) && xs != []
    ensures Feed(m, "[" + Joined(EscapedAll(xs), ",") + ";s=")
            == Machine(Flushed(m) + BracketTokens(xs), InParam(";s"), false, "")
  {
    hide Round, Feed, Flushed, Joined, EscapedAll, BracketTokens;
    var texts, last := xs[..|xs| - 1], xs[|xs| - 1];
    var rest := Joined(EscapedAll(xs), ",") + ";s=";
    StartPiece(m, '[');
    assert "[" + Joined(EscapedAll(xs), ",") + ";s=" == ['['] + rest;
    FeedOne(m, '[', rest);
    FeedTextsUpToLast(Machine(Flushed(m), InBracket, false, ""), xs, ";s=");
    var read := Flushed(m) + BracketTokens(texts);
    var n := Machine(read, InBracket, false, last);
    var tokens := read + [Bracket(last)];
    NextText(n);
    SideParam(tokens, "");
    assert ";s=" == [';'] + "s=" && "s=" == ['s'] + "=";
    FeedOne(n, ';', "s=");
    FeedOne(Machine(tokens, InParam(";"), false, ""), 's', "=");
    FeedOne(Machine(tokens, InParam(";"), false, "s"), '=', "");
    BracketsSnoc(xs);
    Associate(Flushed(m), BracketTokens(texts), [Bracket(last)]);
  }

  /** A whole bracket: its texts, then the side bias. */
  lemma BracketPiece(m: Machine, xs: seq<string>, side: Option<string>)
    requires Outside(m) && xs != [] && (Truthy(side) ==> PlainSide(side.value))
    ensures var r := Feed(m, "[" + Joined(EscapedAll(xs), ",") + ParamString(side) + "]");
            && Outside(r) && !r.mode.InSpatial?
            && Flushed(r) == Flushed(m) + (BracketTokens(xs) + SideTokens(side))
  {
    hide Feed, Round, Flushed, EscapeCfi, Joined, EscapedAll, ParamString, PlainSide, SideTokens, BracketTokens;
    StartPiece(m, '[');
    var rest := Joined(EscapedAll(xs), ",") + (ParamString(side) + "]");
    assert "[" + Joined(EscapedAll(xs), ",") + ParamString(side) + "]" == ['['] + rest;
    FeedOne(m, '[', rest);
    FeedTexts(Machine(Flushed(m), InBracket, false, ""), xs, side);
    FlushIdle(Flushed(m) + (BracketTokens(xs) + SideTokens(side)));
  }

  /** Feeding s to m reads the tokens, no more and no fewer. */
  predicate Reads(m: Machine, s: string, tokens: seq<Token>)
    requires m.Consistent()
  {
    Outside(Feed(m, s)) && Flushed(Feed(m, s)) == Flushed(m) + tokens
  }

  lemma ReadsConcat(m: Machine, s: string, x: seq<Token>, t: string, y: seq<Token>)
    requires Outside(m) && Reads(m, s, x) && Reads(Feed(m, s), t, y)
    ensures Reads(m, s + t, x + y) && Feed(m, s + t) == Feed(Feed(m, s), t)
  {
    hide Round, Feed, Flushed;
    FeedConcat(m, s, t);
    assert Flushed(m) + x + y == Flushed(m) + (x + y);
  }

  lemma ReadsNothing(m: Machine)
    requires Outside(m)
    ensures Reads(m, "", []) && Feed(m, "") == m
  {
  }

  // ---- what the printer writes for a step ----

  /** Temporal and spatial offsets are numbers. */
  predicate HasNumbers(p: Part) {
    && (TruthyNumber(p.temporal) ==> IsDecimal(p.temporal.value))
    && (p.spatial.Some? ==> p.spatial.value != [] && forall x <- p.spatial.value :: IsDecimal(x))
  }

  predicate PlainlySided(p: Part) {
    Truthy(p.side) ==> PlainSide(p.side.value)
  }

  /** A step whose side bias the printer, which does not escape it, can print. */
  predicate Printable(p: Part) {
    HasNumbers(p) && PlainlySided(p)
  }

  function IdTokens(p: Part): seq<Token> {
    if Truthy(p.id) then BracketTokens([p.id.value]) + SideTokens(p.side) else []
  }

  function OffsetTokens(p: Part): seq<Token> {
    if p.offset.Some? && IsOdd(p.index) then [Offset(p.offset.value)] else []
  }

  function TemporalTokens(p: Part): seq<Token> {
    if TruthyNumber(p.temporal) then [Temporal(p.temporal.value)] else []
  }

  function AllSpatialTokens(p: Part): seq<Token> {
    if p.spatial.Some? then SpatialTokens(p.spatial.value) else []
  }

  /** The texts between the brackets; brackets with nothing between them hold one empty text. */
  function Texts(p: Part): (xs: seq<string>)
    ensures xs != []
  {
    if p.text.Some? && p.text.value != [] then p.text.value else [""]
  }

  function TextTokens(p: Part): seq<Token> {
    if PrintsText(p) then BracketTokens(Texts(p)) + SideTokens(p.side) else []
  }

  function PartTokens(p: Part): seq<Token> {
    [Step(p.index)] + IdTokens(p) + OffsetTokens(p) + TemporalTokens(p) + AllSpatialTokens(p) + TextTokens(p)
  }

  lemma IdPiece(m: Machine, p: Part)
    requires Outside(m) && Printable(p) && !m.mode.InSpatial?
    ensures Reads(m, IdString(p), IdTokens(p)) && !Feed(m, IdString(p)).mode.InSpatial?
  {
    hide Round, Feed, Flushed, Outside, ParamString, EscapeCfi, BracketTokens, SideTokens;
    if Truthy(p.id) {
      BracketPiece(m, [p.id.value], p.side);
      assert [p.id.value][1..] == [];
    } else {
      ReadsNothing(m);
    }
  }

  lemma OffsetPiece(m: Machine, p: Part)
    requires Outside(m) && !m.mode.InSpatial?
    ensures Reads(m, OffsetString(p), OffsetTokens(p))
  {
    hide Round, Feed, Flushed, Outside;
    if p.offset.Some? && IsOdd(p.index) {
      NumberPiece(m, ':', p.offset.value);
    } else {
      ReadsNothing(m);
    }
  }

  lemma TemporalPart(m: Machine, p: Part)
    requires Outside(m) && HasNumbers(p)
    ensures Reads(m, TemporalString(p), TemporalTokens(p))
  {
    hide Round, Feed, Flushed, Outside;
    if TruthyNumber(p.temporal) {
      TemporalPiece(m, p.temporal.value);
    } else {
      ReadsNothing(m);
    }
  }

  lemma SpatialPart(m: Machine, p: Part)
    requires Outside(m) && HasNumbers(p)
    ensures Reads(m, SpatialString(p), AllSpatialTokens(p))
  {
    hide Round, Feed, Flushed, Outside, Joined, SpatialTokens;
    if p.spatial.Some? {
      SpatialPiece(m, p.spatial.value);
    } else {
      ReadsNothing(m);
    }
  }

  lemma TextPiece(m: Machine, p: Part)
    requires Outside(m) && Printable(p)
    ensures Reads(m, TextString(p), TextTokens(p))
  {
    hide Round, Feed, Flushed, Outside, ParamString, BracketTokens, SideTokens;
    if PrintsText(p) {
      BracketPiece(m, Texts(p), p.side);
      assert Joined(EscapedAll([""]), ",") == "" by { assert [""][1..] == []; }
      assert EscapedAll([]) == [];
      assert p.text == Some([]) ==> Joined(EscapedAll(p.text.value), ",") == "";
    } else {
      ReadsNothing(m);
    }
  }

  /** The pieces of a printed step one after the other, whatever its brackets are read as. */
  lemma PartPieces(m: Machine, p: Part, x: seq<Token>, y: seq<Token>)
    requires Outside(m) && HasNumbers(p)
    requires forall n :: Outside(n) && !n.mode.InSpatial? ==>
               Reads(n, IdString(p), x) && !Feed(n, IdString(p)).mode.InSpatial?
    requires forall n :: Outside(n) ==> Reads(n, TextString(p), y)
    ensures Reads(m, PartToString(p),
                  [Step(p.index)] + x + OffsetTokens(p) + TemporalTokens(p) + AllSpatialTokens(p) + y)
  {
    hide Round, Feed, Flushed, Reads, HasNumbers;
    hide NumberString, IdString, OffsetString, TemporalString, SpatialString, TextString;
    hide OffsetTokens, TemporalTokens, AllSpatialTokens;
    var s1, x1 := "/" + NumberString(p.index), [Step(p.index)];
    StepPiece(m, p.index);
    var s2, x2 := s1 + IdString(p), x1 + x;
    ReadsConcat(m, s1, x1, IdString(p), x);
    ReadsOutside(m, s2, x2);
    OffsetPiece(Feed(m, s2), p);
    var s3, x3 := s2 + OffsetString(p), x2 + OffsetTokens(p);
    ReadsConcat(m, s2, x2, OffsetString(p), OffsetTokens(p));
    ReadsOutside(m, s3, x3);
    TemporalPart(Feed(m, s3), p);
    var s4, x4 := s3 + TemporalString(p), x3 + TemporalTokens(p);
    ReadsConcat(m, s3, x3, TemporalString(p), TemporalTokens(p));
    ReadsOutside(m, s4, x4);
    SpatialPart(Feed(m, s4), p);
    var s5, x5 := s4 + SpatialString(p), x4 + AllSpatialTokens(p);
    ReadsConcat(m, s4, x4, SpatialString(p), AllSpatialTokens(p));
    ReadsOutside(m, s5, x5);
    ReadsConcat(m, s5, x5, TextString(p), y);
  }

  /** The tokenizer reads a printed step as the tokens of the step. */
  lemma PartPiece(m: Machine, p: Part)
    requires Outside(m) && Printable(p)
    ensures Reads(m, PartToString(p), PartTokens(p))
  {
    hide Feed, Flushed, Reads, HasNumbers, PlainlySided, PartToString, IdString, TextString;
    hide IdTokens, OffsetTokens, TemporalTokens, AllSpatialTokens, TextTokens;
    forall n | Outside(n) && !n.mode.InSpatial?
      ensures Reads(n, IdString(p), IdTokens(p)) && !Feed(n, IdString(p)).mode.InSpatial?
    {
      IdPiece(n, p);
    }
    forall n | Outside(n)
      ensures Reads(n, TextString(p), TextTokens(p))
    {
      TextPiece(n, p);
    }
    PartPieces(m, p, IdTokens(p), TextTokens(p));
  }

  lemma StepPiece(m: Machine, n: Number)
    requires Outside(m)
    ensures var s := "/" + NumberString(n);
            Reads(m, s, [Step(n)]) && Outside(Feed(m, s)) && !Feed(m, s).mode.InSpatial?
  {
    hide Round, Feed, Flushed;
    NumberPiece(m, '/', n);
  }

  lemma ReadsOutside(m: Machine, s: string, x: seq<Token>)
    requires m.Consistent() && Reads(m, s, x)
    ensures Outside(Feed(m, s))
  {
  }
}
