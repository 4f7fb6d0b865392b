/** EPUB CFI text: tokenizer, parser and printer (frontend/public/foliate/epubcfi.js),
    after sections 2.2 (Syntax) and 2.3 (Character Escaping) of EPUB Canonical Fragment
    Identifiers 1.1. */
module CfiSyntax {
  import opened Wrappers

  // ---- numbers ----

  /** What parseInt gives for a string of digits; the empty string is not a number. */
  datatype Number = NaN | Num(n: nat)

  predicate IsDigit(c: char) {
    '0' <= c <= '9'
  }

  function DigitOf(n: nat): (c: char)
    requires n < 10
    ensures IsDigit(c) && c as int - '0' as int == n
  {
    ('0' as int + n) as char
  }

  function NumberText(n: nat): (s: string)
    ensures s != "" && forall c <- s :: IsDigit(c)
  {
    if n < 10 then [DigitOf(n)] else NumberText(n / 10) + [DigitOf(n % 10)]
  }

  function DigitsValue(s: string): nat
    requires forall c <- s :: IsDigit(c)
  {
    if s == "" then 0
    else
      var last := s[|s| - 1];
      assert last in s && IsDigit(last);
      10 * DigitsValue(s[..|s| - 1]) + (last as int - '0' as int)
  }

  function ParseInt(s: string): Number
    requires forall c <- s :: IsDigit(c)
  {
    if s == "" then NaN else Num(DigitsValue(s))
  }

  lemma {:induction false} NumberRoundTrip(n: nat)
    ensures ParseInt(NumberText(n)) == Num(n)
  {
    var s := NumberText(n);
    if n >= 10 {
      NumberRoundTrip(n / 10);
      assert s[..|s| - 1] == NumberText(n / 10);
    } else {
      assert s[..|s| - 1] == "";
      assert DigitsValue(s) == 10 * DigitsValue(s[..|s| - 1]) + n;
    }
  }

  /** Temporal and spatial numbers, as their decimal text. */
  predicate IsDecimal(s: string) {
    s != "" && forall c <- s :: IsDigit(c) || c == '.'
  }

  // ---- tokens ----

  datatype Token =
    | Indirection
    | Comma
    | Step(index: Number)
    | Offset(offset: Number)
    | Temporal(time: string)
    | Spatial(coordinate: string)
    | Bracket(text: string)
    | Param(kind: string, value: string)

  datatype Mode = Idle | Bang | InComma | InStep | InOffset | InTemporal | InSpatial | InBracket | InParam(kind: string)

  /** The tokenizer's variables. */
  datatype Machine = Machine(tokens: seq<Token>, mode: Mode, escape: bool, value: string) {
    /** A number mode has collected digits, and nothing is collected outside the collecting modes. */
    predicate Consistent() {
      && (mode.InStep? || mode.InOffset? ==> forall c <- value :: IsDigit(c))
      && (mode.Idle? || mode.Bang? || mode.InComma? ==> value == "")
    }

    function Push(t: Token): Machine {
      this.(tokens := tokens + [t], mode := Idle, value := "")
    }

    function Cat(c: Option<char>): Machine {
      this.(value := value + (if c.Some? then [c.value] else ""), escape := false)
    }
  }

  const START: Machine := Machine([], Idle, false, "")

  /** The mode a character outside brackets starts. */
  function ModeOf(c: char): Option<Mode> {
    match c
    case '/' => Some(InStep)
    case ':' => Some(InOffset)
    case '~' => Some(InTemporal)
    case '@' => Some(InSpatial)
    case '[' => Some(InBracket)
    case '!' => Some(Bang)
    case ',' => Some(InComma)
    case _ => None
  }

  function Started(m: Machine, c: Option<char>): Machine {
    if c.Some? && ModeOf(c.value).Some? then m.(mode := ModeOf(c.value).value) else m
  }

  /** One round of the tokenizer loop; None is the empty string appended as a sentinel. */
  function Round(m: Machine, c: Option<char>): (r: Machine)
    requires m.Consistent()
    ensures r.Consistent()
  {
    if c == Some('^') && !m.escape then m.(escape := true)
    else match m.mode
      case Idle => Started(m, c)
      case Bang => Started(m.Push(Indirection), c)
      case InComma => Started(m.Push(Comma), c)
      case InStep =>
        if c.Some? && IsDigit(c.value) then m.Cat(c) else Started(m.Push(Step(ParseInt(m.value))), c)
      case InOffset =>
        if c.Some? && IsDigit(c.value) then m.Cat(c) else Started(m.Push(Offset(ParseInt(m.value))), c)
      case InTemporal =>
        if c.Some? && (IsDigit(c.value) || c.value == '.') then m.Cat(c)
        else Started(m.Push(Temporal(m.value)), c)
      case InSpatial =>
        if c == Some(':') then m.Push(Spatial(m.value)).(mode := InSpatial)
        else if c.Some? && (IsDigit(c.value) || c.value == '.') then m.Cat(c)
        else Started(m.Push(Spatial(m.value)), c)
      case InBracket =>
        if c == Some(';') && !m.escape then m.Push(Bracket(m.value)).(mode := InParam(";"))
        else if c == Some(',') && !m.escape then m.Push(Bracket(m.value)).(mode := InBracket)
        else if c == Some(']') && !m.escape then m.Push(Bracket(m.value))
        else m.Cat(c)
      case InParam(kind) =>
        if c == Some('=') && !m.escape then m.(mode := InParam(";" + m.value), value := "")
        else if c == Some(';') && !m.escape then m.Push(Param(kind, m.value)).(mode := InParam(";"))
        else if c == Some(']') && !m.escape then m.Push(Param(kind, m.value))
        else m.Cat(c)
  }

  function Feed(m: Machine, s: string): (r: Machine)
    requires m.Consistent()
    ensures r.Consistent()
    decreases |s|
  {
    if s == "" then m else Feed(Round(m, Some(s[0])), s[1..])
  }

  lemma {:induction false} FeedConcat(m: Machine, s: string, t: string)
    requires m.Consistent()
    ensures Feed(m, s + t) == Feed(Feed(m, s), t)
    decreases |s|
  {
    hide Round;
    if s == "" {
      assert s + t == t;
    } else {
      assert (s + t)[1..] == s[1..] + t;
      FeedConcat(Round(m, Some(s[0])), s[1..], t);
    }
  }

  /** String.prototype.trim. */
  predicate IsTrimmed(c: char) {
    c in {'\t', '\n', '\U{0B}', '\U{0C}', '\r', ' ', '\U{A0}', '\U{1680}', '\U{2028}', '\U{2029}',
          '\U{202F}', '\U{205F}', '\U{3000}', '\U{FEFF}'}
    || '\U{2000}' <= c <= '\U{200A}'
  }

  /** What ECMAScript calls white space and line terminators, by code point. */
  lemma TrimmedAre(c: char)
    ensures IsTrimmed(c) <==>
      var n := c as int;
      0x09 <= n <= 0x0D || n in {0x20, 0xA0, 0x1680} || 0x2000 <= n <= 0x200A
      || n in {0x2028, 0x2029, 0x202F, 0x205F, 0x3000, 0xFEFF}
  {
  }

  function Trim(s: string): string {
    if s != "" && IsTrimmed(s[0]) then Trim(s[1..])
    else if s != "" && IsTrimmed(s[|s| - 1]) then Trim(s[..|s| - 1])
    else s
  }

  /** Trimming drops the white space at both ends, and nothing else. */
  lemma {:induction false} TrimBetween(x: string, t: string, y: string)
    requires (forall c <- x :: IsTrimmed(c)) && (forall c <- y :: IsTrimmed(c))
    requires t != "" ==> !IsTrimmed(t[0]) && !IsTrimmed(t[|t| - 1])
    ensures Trim(x + t + y) == t
    decreases |x| + |y|
  {
    var s := x + t + y;
    if x != "" {
      assert s[0] == x[0] && x[0] in x && s[1..] == x[1..] + t + y;
      assert forall c <- x[1..] :: c in x;
      TrimBetween(x[1..], t, y);
    } else if y != "" {
      var init := y[..|y| - 1];
      assert s[|s| - 1] == y[|y| - 1] && y[|y| - 1] in y && s[..|s| - 1] == x + t + init;
      assert forall c <- init :: c in y;
      if t == "" {
        assert s == y && s[1..] == "" + "" + y[1..] && y[0] in y;
        assert forall c <- y[1..] :: c in y;
        TrimBetween("", "", y[1..]);
      } else {
        assert s[0] == t[0];
        TrimBetween(x, t, init);
      }
    } else {
      assert s == t;
    }
  }

  function TokensOf(s: string): seq<Token> {
    Round(Feed(START, Trim(s)), None).tokens
  }

  /** The tokenizer loop. */
  method Tokenizer(s: string) returns (tokens: seq<Token>)
    ensures tokens == TokensOf(s)
  {
    hide Round;
    var text := Trim(s);
    var m := START;
    var i := 0;
    while i < |text|
      invariant 0 <= i <= |text|
      invariant m.Consistent() && Feed(m, text[i..]) == Feed(START, text)
    {
      assert text[i..][1..] == text[i + 1..];
      m := Round(m, Some(text[i]));
      i := i + 1;
    }
    m := Round(m, None);
    tokens := m.tokens;
  }

  // ---- parts ----

  datatype Part = Part(
    index: Number, id: Option<string>, offset: Option<Number>, temporal: Option<string>,
    spatial: Option<seq<string>>, text: Option<seq<string>>, side: Option<string>)

  type Path = seq<Part>

  function EmptyPart(index: Number): Part {
    Part(index, None, None, None, None, None, None)
  }

  /** The parser's variables; failed stands for the TypeError of a token that needs a
      step where there is none. */
  datatype Parsing = Parsing(parts: Path, afterStep: bool, failed: bool) {
    function UpdateLast(p: Part): Parsing
      requires parts != []
    {
      this.(parts := parts[..|parts| - 1] + [p])
    }
  }

  const NOTHING_PARSED: Parsing := Parsing([], false, false)

  function ParseToken(s: Parsing, t: Token): Parsing {
    if s.failed then s
    else if t.Step? then Parsing(s.parts + [EmptyPart(t.index)], true, false)
    else if t.Indirection? || t.Comma? || (t.Param? && t.kind != ";s") then s.(afterStep := false)
    else if s.parts == [] then s.(failed := true)
    else
      var last := s.parts[|s.parts| - 1];
      match t
      case Offset(n) => s.UpdateLast(last.(offset := Some(n))).(afterStep := false)
      case Temporal(x) => s.UpdateLast(last.(temporal := Some(x))).(afterStep := false)
      case Spatial(x) =>
        var before := if last.spatial.Some? then last.spatial.value else [];
        s.UpdateLast(last.(spatial := Some(before + [x]))).(afterStep := false)
      case Param(_, x) => s.UpdateLast(last.(side := Some(x))).(afterStep := false)
      case Bracket(x) =>
        if s.afterStep && x != "" then s.UpdateLast(last.(id := Some(x))).(afterStep := false)
        else
          var before := if last.text.Some? then last.text.value else [];
          s.UpdateLast(last.(text := Some(before + [x])))
      case _ => s
  }

  function ParseTokens(s: Parsing, tokens: seq<Token>): Parsing
    decreases |tokens|
  {
    if tokens == [] then s else ParseTokens(ParseToken(s, tokens[0]), tokens[1..])
  }

  lemma {:induction false} ParseConcat(s: Parsing, x: seq<Token>, y: seq<Token>)
    ensures ParseTokens(s, x + y) == ParseTokens(ParseTokens(s, x), y)
    decreases |x|
  {
    hide ParseToken;
    if x == [] {
      assert x + y == y;
    } else {
      assert (x + y)[1..] == x[1..] + y;
      ParseConcat(ParseToken(s, x[0]), x[1..], y);
    }
  }

  /** The parser loop over one path; None when it throws. */
  method Parser(tokens: seq<Token>) returns (r: Option<Path>)
    ensures r == PathOf(tokens)
  {
    hide ParseToken;
    var s := NOTHING_PARSED;
    var i := 0;
    while i < |tokens|
      invariant 0 <= i <= |tokens|
      invariant ParseTokens(s, tokens[i..]) == ParseTokens(NOTHING_PARSED, tokens)
    {
      assert tokens[i..][1..] == tokens[i + 1..];
      s := ParseToken(s, tokens[i]);
      i := i + 1;
    }
    r := if s.failed then None else Some(s.parts);
  }

  function PathOf(tokens: seq<Token>): Option<Path> {
    var s := ParseTokens(NOTHING_PARSED, tokens);
    if s.failed then None else Some(s.parts)
  }

  /** splitAt: the stretches between the separators. */
  function SplitAt(tokens: seq<Token>, separator: Token): (r: seq<seq<Token>>)
    ensures r != []
  {
    if tokens == [] then [[]]
    else
      var rest := SplitAt(tokens[1..], separator);
      if tokens[0] == separator then [[]] + rest else [[tokens[0]] + rest[0]] + rest[1..]
  }

  /** Parses each stretch between indirections. */
  function PathsOf(stretches: seq<seq<Token>>): Option<seq<Path>> {
    if stretches == [] then Some([])
    else
      var first, rest := PathOf(stretches[0]), PathsOf(stretches[1..]);
      if first.None? || rest.None? then None else Some([first.value] + rest.value)
  }

  function ParserIndir(tokens: seq<Token>): Option<seq<Path>> {
    PathsOf(SplitAt(tokens, Indirection))
  }

  datatype Cfi = Point(paths: seq<Path>) | Range(parent: seq<Path>, start: seq<Path>, end: seq<Path>)

  /** A parse can throw, and a range with a single comma has no end. */
  datatype Parsed = Whole(cfi: Cfi) | NoEnd(parent: seq<Path>, start: seq<Path>) | TypeError

  const PREFIX: string := "epubcfi("

  predicate IsLineTerminator(c: char) {
    c in {'\n', '\r', '\U{2028}', '\U{2029}'}
  }

  /** The expression /^epubcfi\((.*)\)$/, whose dot stops at line terminators. */
  predicate IsCfi(s: string) {
    && |s| > |PREFIX| && PREFIX <= s && s[|s| - 1] == ')'
    && forall c <- s[|PREFIX|..|s| - 1] :: !IsLineTerminator(c)
  }

  function Wrap(s: string): string {
    if IsCfi(s) then s else PREFIX + s + ")"
  }

  function Unwrap(s: string): string {
    if IsCfi(s) then s[|PREFIX|..|s| - 1] else s
  }

  /** What is between the parentheses is the CFI, unless a line ends in it: then the expression does not
      match, and the text stays as it is. */
  lemma UnwrapIs(s: string)
    ensures Unwrap("epubcfi(" + s + ")") ==
      if '\n' in s || '\r' in s || '\U{2028}' in s || '\U{2029}' in s then "epubcfi(" + s + ")" else s
  {
    var text := PREFIX + s + ")";
    assert text == "epubcfi(" + s + ")";
    assert text[..|PREFIX|] == PREFIX && text[|text| - 1] == ')';
    assert text[|PREFIX|..|text| - 1] == s;
    assert IsCfi(text) <==> forall c <- s :: !IsLineTerminator(c);
    if c :| c in s && IsLineTerminator(c) {
      assert c in {'\n', '\r', '\U{2028}', '\U{2029}'};
    }
    assert IsLineTerminator('\n') && IsLineTerminator('\r');
    assert IsLineTerminator('\U{2028}') && IsLineTerminator('\U{2029}');
  }

  function ParseCfi(s: string): Parsed {
    var tokens := TokensOf(Unwrap(s));
    var stretches := SplitAt(tokens, Comma);
    if |stretches| == 1 then
      var paths := ParserIndir(tokens);
      if paths.None? then TypeError else Whole(Point(paths.value))
    else
      var parent, start := ParserIndir(stretches[0]), ParserIndir(stretches[1]);
      if parent.None? || start.None? || exists x <- stretches :: ParserIndir(x).None? then TypeError
      else if |stretches| == 2 then NoEnd(parent.value, start.value)
      else Whole(Range(parent.value, start.value, ParserIndir(stretches[2]).value))
  }

  // ---- printing ----

  predicate IsSpecial(c: char) {
    c in {'^', '[', ']', '(', ')', ',', ';', '='}
  }

  function EscapeCfi(s: string): string {
    if s == "" then "" else (if IsSpecial(s[0]) then ['^', s[0]] else [s[0]]) + EscapeCfi(s[1..])
  }

  /** A character that the grammar of section 2.2 gives a meaning is written behind a circumflex, as
      section 2.3 asks, and any other as it is. */
  lemma EscapedOne(c: char)
    ensures EscapeCfi([c]) == if c in "^[](),;=" then ['^', c] else [c]
  {
    assert [c][1..] == "";
  }

  lemma {:induction false} EscapedConcat(s: string, t: string)
    ensures EscapeCfi(s + t) == EscapeCfi(s) + EscapeCfi(t)
  {
    if s == "" {
      assert s + t == t;
    } else {
      assert (s + t)[1..] == s[1..] + t;
      EscapedConcat(s[1..], t);
    }
  }

  function NumberString(n: Number): string {
    match n
    case NaN => "NaN"
    case Num(k) => NumberText(k)
  }

  function Joined(ss: seq<string>, separator: string): string {
    if ss == [] then "" else if |ss| == 1 then ss[0] else ss[0] + separator + Joined(ss[1..], separator)
  }

  function EscapedAll(ss: seq<string>): (r: seq<string>)
    ensures |r| == |ss|
  {
    if ss == [] then [] else [EscapeCfi(ss[0])] + EscapedAll(ss[1..])
  }

  predicate Truthy(s: Option<string>) {
    s.Some? && s.value != ""
  }

  /** A temporal offset without a digit above zero is zero or not a number; either is falsy and is
      not printed. */
  predicate TruthyNumber(s: Option<string>) {
    s.Some? && exists c <- s.value :: '1' <= c <= '9'
  }

  /** Of digits with one dot at most, only zeros are falsy. */
  lemma FalsyIsZero(s: string)
    requires forall c <- s :: IsDigit(c) || c == '.'
    requires forall i, j :: 0 <= i < j < |s| && s[i] == '.' ==> s[j] != '.'
    ensures TruthyNumber(Some(s)) <==> exists c <- s :: c != '0' && c != '.'
  {
    if c :| c in s && c != '0' && c != '.' {
      assert '1' <= c <= '9';
    }
  }

  predicate IsOdd(n: Number) {
    n.Num? && n.n % 2 == 1
  }

  function ParamString(side: Option<string>): string {
    if Truthy(side) then ";s=" + side.value else ""
  }

  function IdString(p: Part): string {
    if Truthy(p.id) then "[" + EscapeCfi(p.id.value) + ParamString(p.side) + "]" else ""
  }

  function OffsetString(p: Part): string {
    if p.offset.Some? && IsOdd(p.index) then ":" + NumberString(p.offset.value) else ""
  }

  function TemporalString(p: Part): string {
    if TruthyNumber(p.temporal) then "~" + p.temporal.value else ""
  }

  function SpatialString(p: Part): string {
    if p.spatial.Some? then "@" + Joined(p.spatial.value, ":") else ""
  }

  predicate PrintsText(p: Part) {
    p.text.Some? || (!Truthy(p.id) && Truthy(p.side))
  }

  function TextString(p: Part): string {
    if PrintsText(p) then
      "[" + (if p.text.Some? then Joined(EscapedAll(p.text.value), ",") else "") + ParamString(p.side) + "]"
    else ""
  }

  function PartToString(p: Part): string {
    "/" + NumberString(p.index)
    + IdString(p) + OffsetString(p) + TemporalString(p) + SpatialString(p) + TextString(p)
  }

  function PathToString(path: Path): string {
    if path == [] then "" else PartToString(path[0]) + PathToString(path[1..])
  }

  function PathsToString(paths: seq<Path>): string {
    if paths == [] then ""
    else if |paths| == 1 then PathToString(paths[0])
    else PathToString(paths[0]) + "!" + PathsToString(paths[1..])
  }

  function ToInnerString(c: Cfi): string {
    match c
    case Point(paths) => PathsToString(paths)
    case Range(parent, start, end) =>
      PathsToString(parent) + "," + PathsToString(start) + "," + PathsToString(end)
  }

  function ToString(c: Cfi): string {
    Wrap(ToInnerString(c))
  }
}
