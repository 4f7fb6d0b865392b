/** The printer and the parser of EPUB CFIs undo each other
    (frontend/public/foliate/epubcfi.js). */
module CfiRoundTrip {
  import opened Wrappers
  import opened CfiSyntax
  import opened CfiReading

  // ---- the parser on the tokens of one step ----

  /** Something of the step is printed between its number and its text assertion. */
  predicate HasPrefix(p: Part) {
    Truthy(p.id) || (p.offset.Some? && IsOdd(p.index)) || TruthyNumber(p.temporal) || p.spatial.Some?
  }

  function FirstNonEmpty(xs: seq<string>): (k: nat)
    ensures k <= |xs| && (k < |xs| ==> xs[k] != "") && forall i :: 0 <= i < k ==> xs[i] == ""
  {
    if xs == [] || xs[0] != "" then 0 else 1 + FirstNonEmpty(xs[1..])
  }

  function Appended(t: Option<seq<string>>, xs: seq<string>): Option<seq<string>> {
    if xs == [] then t else Some((if t.Some? then t.value else []) + xs)
  }

  function Without(xs: seq<string>, k: nat): seq<string> {
    if xs == [] then [] else if k == 0 then xs[1..] else [xs[0]] + Without(xs[1..], k - 1)
  }

  /** What a printed step reads back as: what is falsy is gone, an offset on an even step is gone,
      and a text that directly follows the step's number has become its id. */
  function CanonPart(p: Part): Part {
    var xs := if PrintsText(p) then Texts(p) else [];
    var k := if HasPrefix(p) then |xs| else FirstNonEmpty(xs);
    Part(
      p.index,
      if Truthy(p.id) then p.id else if k < |xs| then Some(xs[k]) else None,
      if IsOdd(p.index) then p.offset else None,
      if TruthyNumber(p.temporal) then p.temporal else None,
      p.spatial,
      Appended(None, Without(xs, k)),
      if Truthy(p.side) then p.side else None)
  }

  lemma ParseOne(s: Parsing, t: Token)
    ensures ParseTokens(s, [t]) == ParseToken(s, t)
  {
    hide ParseToken;
    assert [t][1..] == [];
  }

  /** Brackets after something other than the step's number are texts. */
  lemma {:induction false} ParseTexts(parts: Path, q: Part, xs: seq<string>)
    ensures ParseTokens(Parsing(parts + [q], false, false), BracketTokens(xs))
            == Parsing(parts + [q.(text := Appended(q.text, xs))], false, false)
    decreases |xs|
  {
    var s := Parsing(parts + [q], false, false);
    if xs != [] {
      var next := q.(text := Appended(q.text, [xs[0]]));
      assert ParseToken(s, Bracket(xs[0])) == Parsing(parts + [next], false, false) by { LastPart(parts, q); }
      hide ParseToken;
      ParseTexts(parts, next, xs[1..]);
      AppendedTwice(q.text, [xs[0]], xs[1..]);
      assert [xs[0]] + xs[1..] == xs;
      ParseFirst(s, Bracket(xs[0]), BracketTokens(xs[1..]));
    }
  }

  lemma AppendedTwice(t: Option<seq<string>>, x: seq<string>, y: seq<string>)
    requires x != []
    ensures Appended(Appended(t, x), y) == Appended(t, x + y)
  {
    var before := if t.Some? then t.value else [];
    assert before + x + y == before + (x + y);
    assert y == [] ==> x + y == x;
  }

  lemma {:induction false} WithoutNone(xs: seq<string>)
    ensures Without(xs, |xs|) == xs
  {
    if xs != [] {
      WithoutNone(xs[1..]);
    }
  }

  lemma WithoutFirst(xs: seq<string>)
    requires xs != []
    ensures xs[0] != "" ==> FirstNonEmpty(xs) == 0 && Without(xs, 0) == xs[1..]
    ensures xs[0] == "" ==>
      var k := FirstNonEmpty(xs[1..]);
      FirstNonEmpty(xs) == k + 1 && Without(xs, k + 1) == [""] + Without(xs[1..], k)
  {
  }

  lemma LastPart(parts: Path, q: Part)
    ensures var all := parts + [q];
            all != [] && all[|all| - 1] == q && all[..|all| - 1] == parts
  {
  }

  lemma ParseFirst(s: Parsing, t: Token, rest: seq<Token>)
    ensures ParseTokens(s, [t] + rest) == ParseTokens(ParseToken(s, t), rest)
  {
    hide ParseToken;
    assert ([t] + rest)[1..] == rest;
  }

  /** Brackets right after the step's number: the first one that is not empty is the id. */
  lemma {:induction false} ParseFirstTexts(parts: Path, q: Part, xs: seq<string>)
    requires q.id.None?
    ensures var k := FirstNonEmpty(xs);
            ParseTokens(Parsing(parts + [q], true, false), BracketTokens(xs))
            == Parsing(parts + [q.(id := if k < |xs| then Some(xs[k]) else None,
                                   text := Appended(q.text, Without(xs, k)))], k == |xs|, false)
    decreases |xs|
  {
    var s := Parsing(parts + [q], true, false);
    if xs != [] {
      var next := if xs[0] != "" then q.(id := Some(xs[0])) else q.(text := Appended(q.text, [""]));
      assert ParseToken(s, Bracket(xs[0])) == Parsing(parts + [next], xs[0] == "", false) by { LastPart(parts, q); }
      hide ParseToken, ParseTokens, Without, Appended;
      ParseFirst(s, Bracket(xs[0]), BracketTokens(xs[1..]));
      WithoutFirst(xs);
      if xs[0] != "" {
        ParseTexts(parts, next, xs[1..]);
      } else {
        ParseFirstTexts(parts, next, xs[1..]);
        AppendedTwice(q.text, [""], Without(xs[1..], FirstNonEmpty(xs[1..])));
      }
    }
  }

  lemma {:induction false} ParseSpatial(parts: Path, q: Part, xs: seq<string>)
    requires xs != []
    ensures var before := if q.spatial.Some? then q.spatial.value else [];
            forall after :: (
              ParseTokens(Parsing(parts + [q], after, false), SpatialTokens(xs))
              == Parsing(parts + [q.(spatial := Some(before + xs))], false, false))
    decreases |xs|
  {
    var before := if q.spatial.Some? then q.spatial.value else [];
    var next := q.(spatial := Some(before + [xs[0]]));
    forall after: bool
      ensures ParseTokens(Parsing(parts + [q], after, false), SpatialTokens(xs))
              == Parsing(parts + [q.(spatial := Some(before + xs))], false, false)
    {
      var s := Parsing(parts + [q], after, false);
      assert ParseToken(s, Spatial(xs[0])) == Parsing(parts + [next], false, false) by { LastPart(parts, q); }
      hide ParseToken, ParseTokens;
      ParseFirst(s, Spatial(xs[0]), SpatialTokens(xs[1..]));
      if |xs| == 1 {
        assert xs[1..] == [] && before + [xs[0]] == before + xs;
        ParseNothing(Parsing(parts + [next], false, false));
      } else {
        ParseSpatial(parts, next, xs[1..]);
        assert before + [xs[0]] + xs[1..] == before + xs;
      }
    }
  }

  lemma ParseSide(parts: Path, q: Part, after: bool, side: Option<string>)
    ensures ParseTokens(Parsing(parts + [q], after, false), SideTokens(side))
            == if Truthy(side) then Parsing(parts + [q.(side := side)], false, false)
               else Parsing(parts + [q], after, false)
  {
    if Truthy(side) {
      LastPart(parts, q);
      ParseOne(Parsing(parts + [q], after, false), Param(";s", side.value));
    }
  }

  /** The tokens of a step parse to its canonical form, whatever came before. */
  lemma ParsePart(s: Parsing, p: Part)
    requires !s.failed && HasNumbers(p)
    ensures var r := ParseTokens(s, PartTokens(p));
            !r.failed && r.parts == s.parts + [CanonPart(p)]
  {
    var q0 := EmptyPart(p.index);
    var parts := s.parts;
    var x1 := [Step(p.index)];
    ParseOne(s, Step(p.index));
    var s1 := Parsing(parts + [q0], true, false);
    var q2 := if Truthy(p.id) then q0.(id := p.id, side := if Truthy(p.side) then p.side else None) else q0;
    var s2 := Parsing(parts + [q2], !Truthy(p.id), false);
    ParseId(parts, p);
    var q3 := if IsOdd(p.index) then q2.(offset := p.offset) else q2;
    var s3 := Parsing(parts + [q3], s2.afterStep && OffsetTokens(p) == [], false);
    ParseOffset(parts, q2, s2.afterStep, p);
    var q4 := if TruthyNumber(p.temporal) then q3.(temporal := p.temporal) else q3;
    var s4 := Parsing(parts + [q4], s3.afterStep && TemporalTokens(p) == [], false);
    ParseTemporal(parts, q3, s3.afterStep, p);
    var q5 := q4.(spatial := p.spatial);
    var s5 := Parsing(parts + [q5], s4.afterStep && p.spatial.None?, false);
    ParseAllSpatial(parts, q4, s4.afterStep, p);
    assert s5.afterStep == !HasPrefix(p);
    ParseText(parts, q5, p);
    hide ParseToken, ParseTokens, CanonPart, HasNumbers, TextTokens;
    ParseConcat(s, x1, IdTokens(p));
    ParseConcat(s, x1 + IdTokens(p), OffsetTokens(p));
    ParseConcat(s, x1 + IdTokens(p) + OffsetTokens(p), TemporalTokens(p));
    ParseConcat(s, x1 + IdTokens(p) + OffsetTokens(p) + TemporalTokens(p), AllSpatialTokens(p));
    ParseConcat(s, x1 + IdTokens(p) + OffsetTokens(p) + TemporalTokens(p) + AllSpatialTokens(p), TextTokens(p));
  }

  lemma ParseId(parts: Path, p: Part)
    ensures ParseTokens(Parsing(parts + [EmptyPart(p.index)], true, false), IdTokens(p))
            == Parsing(parts + [if Truthy(p.id) then
                                  EmptyPart(p.index).(id := p.id, side := if Truthy(p.side) then p.side else None)
                                else EmptyPart(p.index)], !Truthy(p.id), false)
  {
    if Truthy(p.id) {
      var q0 := EmptyPart(p.index);
      var s := Parsing(parts + [q0], true, false);
      ParseFirstTexts(parts, q0, [p.id.value]);
      assert Without([p.id.value], 0) == [];
      hide ParseToken, ParseTokens;
      ParseConcat(s, BracketTokens([p.id.value]), SideTokens(p.side));
      ParseSide(parts, q0.(id := p.id), false, p.side);
    }
  }

  lemma ParseOffset(parts: Path, q: Part, after: bool, p: Part)
    requires q.offset.None?
    ensures ParseTokens(Parsing(parts + [q], after, false), OffsetTokens(p))
            == Parsing(parts + [if IsOdd(p.index) then q.(offset := p.offset) else q],
                       after && OffsetTokens(p) == [], false)
  {
    if p.offset.Some? && IsOdd(p.index) {
      LastPart(parts, q);
      ParseOne(Parsing(parts + [q], after, false), Offset(p.offset.value));
    }
  }

  lemma ParseTemporal(parts: Path, q: Part, after: bool, p: Part)
    ensures ParseTokens(Parsing(parts + [q], after, false), TemporalTokens(p))
            == Parsing(parts + [if TruthyNumber(p.temporal) then q.(temporal := p.temporal) else q],
                       after && TemporalTokens(p) == [], false)
  {
    if TruthyNumber(p.temporal) {
      LastPart(parts, q);
      ParseOne(Parsing(parts + [q], after, false), Temporal(p.temporal.value));
    }
  }

  lemma ParseAllSpatial(parts: Path, q: Part, after: bool, p: Part)
    requires HasNumbers(p) && q.spatial.None?
    ensures ParseTokens(Parsing(parts + [q], after, false), AllSpatialTokens(p))
            == Parsing(parts + [q.(spatial := p.spatial)], after && p.spatial.None?, false)
  {
    if p.spatial.Some? {
      ParseSpatial(parts, q, p.spatial.value);
      assert [] + p.spatial.value == p.spatial.value;
    }
  }

  /** The text assertion, after everything else of the step. */
  lemma ParseText(parts: Path, q: Part, p: Part)
    requires Truthy(p.id) ==> q.id == p.id && q.side == if Truthy(p.side) then p.side else None
    requires !Truthy(p.id) ==> q.id.None? && q.side.None?
    requires q.index == p.index && q.text.None? && q.spatial == p.spatial
    requires q.offset == if IsOdd(p.index) then p.offset else None
    requires q.temporal == if TruthyNumber(p.temporal) then p.temporal else None
    ensures var r := ParseTokens(Parsing(parts + [q], !HasPrefix(p), false), TextTokens(p));
            !r.failed && r.parts == parts + [CanonPart(p)]
  {
    var s := Parsing(parts + [q], !HasPrefix(p), false);
    if PrintsText(p) {
      var xs := Texts(p);
      var read := ParseTokens(s, BracketTokens(xs));
      var q1 := CanonPart(p).(side := q.side);
      assert !read.failed && read.parts == parts + [q1] by {
        if HasPrefix(p) {
          WithoutNone(xs);
          ParseTexts(parts, q, xs);
        } else {
          ParseFirstTexts(parts, q, xs);
        }
      }
      hide ParseToken, ParseTokens;
      ParseConcat(s, BracketTokens(xs), SideTokens(p.side));
      ParseSide(parts, q1, read.afterStep, p.side);
    }
  }

  // ---- paths ----

  predicate PrintablePath(path: Path) {
    forall p <- path :: Printable(p)
  }

  function PathTokens(path: Path): seq<Token> {
    if path == [] then [] else PartTokens(path[0]) + PathTokens(path[1..])
  }

  function CanonPath(path: Path): (r: Path)
    ensures |r| == |path| && forall i :: 0 <= i < |path| ==> r[i] == CanonPart(path[i])
  {
    if path == [] then [] else [CanonPart(path[0])] + CanonPath(path[1..])
  }

  lemma {:induction false} PathPiece(m: Machine, path: Path)
    requires Outside(m) && PrintablePath(path)
    ensures Reads(m, PathToString(path), PathTokens(path))
    decreases |path|
  {
    hide Round, Feed, Flushed, Printable, PartToString, PartTokens;
    if path == [] {
      ReadsNothing(m);
    } else {
      assert path[0] in path;
      PartPiece(m, path[0]);
      PathPiece(Feed(m, PartToString(path[0])), path[1..]);
      ReadsConcat(m, PartToString(path[0]), PartTokens(path[0]), PathToString(path[1..]), PathTokens(path[1..]));
    }
  }

  lemma {:induction false} ParsePath(s: Parsing, path: Path)
    requires !s.failed && forall p <- path :: HasNumbers(p)
    ensures var r := ParseTokens(s, PathTokens(path));
            !r.failed && r.parts == s.parts + CanonPath(path)
    decreases |path|
  {
    hide ParseToken, ParseTokens, HasNumbers, PartTokens, CanonPart;
    if path == [] {
      assert ParseTokens(s, []) == s by { ParseNothing(s); }
    } else {
      assert path[0] in path;
      var next := ParseTokens(s, PartTokens(path[0]));
      ParsePart(s, path[0]);
      ParsePath(next, path[1..]);
      ParseConcat(s, PartTokens(path[0]), PathTokens(path[1..]));
      Associate(s.parts, [CanonPart(path[0])], CanonPath(path[1..]));
    }
  }

  lemma ParseNothing(s: Parsing)
    ensures ParseTokens(s, []) == s
  {
  }

  /** Tokens that belong to steps. */
  predicate OfSteps(tokens: seq<Token>) {
    forall t <- tokens :: !t.Indirection? && !t.Comma?
  }

  lemma {:induction false} BracketsOfSteps(xs: seq<string>)
    ensures OfSteps(BracketTokens(xs))
  {
    if xs != [] {
      BracketsOfSteps(xs[1..]);
    }
  }

  lemma {:induction false} SpatialsOfSteps(xs: seq<string>)
    ensures OfSteps(SpatialTokens(xs))
  {
    if xs != [] {
      SpatialsOfSteps(xs[1..]);
    }
  }

  lemma PartOfSteps(p: Part)
    ensures OfSteps(PartTokens(p))
  {
    hide TruthyNumber, IsOdd, BracketTokens, SpatialTokens, PrintsText;
    BracketsOfSteps(Texts(p));
    if Truthy(p.id) {
      BracketsOfSteps([p.id.value]);
    }
    if p.spatial.Some? {
      SpatialsOfSteps(p.spatial.value);
    }
    assert OfSteps(IdTokens(p)) && OfSteps(OffsetTokens(p)) && OfSteps(TemporalTokens(p));
    assert OfSteps(AllSpatialTokens(p)) && OfSteps(TextTokens(p));
  }

  lemma {:induction false} PathOfSteps(path: Path)
    ensures OfSteps(PathTokens(path))
  {
    hide PartTokens;
    if path != [] {
      PartOfSteps(path[0]);
      PathOfSteps(path[1..]);
    }
  }

  // ---- paths joined by indirections ----

  predicate PrintablePaths(paths: seq<Path>) {
    forall path <- paths :: PrintablePath(path)
  }

  function PathsTokens(paths: seq<Path>): seq<Token> {
    if paths == [] then []
    else if |paths| == 1 then PathTokens(paths[0])
    else PathTokens(paths[0]) + ([Indirection] + PathsTokens(paths[1..]))
  }

  /** No path at all prints like one path without steps. */
  function CanonPaths(paths: seq<Path>): (r: seq<Path>)
    ensures paths != [] ==> |r| == |paths| && forall i :: 0 <= i < |paths| ==> r[i] == CanonPath(paths[i])
  {
    if paths == [] then [[]]
    else if |paths| == 1 then [CanonPath(paths[0])]
    else [CanonPath(paths[0])] + CanonPaths(paths[1..])
  }

  lemma MarkPiece(m: Machine, c: char)
    requires Outside(m) && (c == '!' || c == ',')
    ensures Reads(m, [c], [if c == '!' then Indirection else Comma])
  {
    StartPiece(m, c);
    FeedOne(m, c, "");
  }

  lemma {:induction false} PathsPiece(m: Machine, paths: seq<Path>)
    requires Outside(m) && PrintablePaths(paths)
    ensures Reads(m, PathsToString(paths), PathsTokens(paths))
    decreases |paths|
  {
    hide Round, Feed, Flushed, PrintablePath, PathToString, PathTokens;
    if paths == [] {
      ReadsNothing(m);
    } else {
      assert paths[0] in paths;
      PathPiece(m, paths[0]);
      if |paths| > 1 {
        var s, x := PathToString(paths[0]), PathTokens(paths[0]);
        MarkPiece(Feed(m, s), '!');
        ReadsConcat(m, s, x, "!", [Indirection]);
        PathsPiece(Feed(m, s + "!"), paths[1..]);
        ReadsConcat(m, s + "!", x + [Indirection], PathsToString(paths[1..]), PathsTokens(paths[1..]));
        Associate(x, [Indirection], PathsTokens(paths[1..]));
      }
    }
  }

  lemma {:induction false} SplitNowhere(x: seq<Token>, separator: Token)
    requires separator !in x
    ensures SplitAt(x, separator) == [x]
    decreases |x|
  {
    if x != [] {
      assert x[0] in x;
      SplitNowhere(x[1..], separator);
      assert [x[0]] + x[1..] == x;
    }
  }

  lemma {:induction false} SplitFirst(x: seq<Token>, separator: Token, y: seq<Token>)
    requires separator !in x
    ensures SplitAt(x + ([separator] + y), separator) == [x] + SplitAt(y, separator)
    decreases |x|
  {
    var all := x + ([separator] + y);
    if x == [] {
      assert all[1..] == y;
    } else {
      assert x[0] in x;
      assert all[1..] == x[1..] + ([separator] + y);
      SplitFirst(x[1..], separator, y);
      assert [x[0]] + x[1..] == x;
    }
  }

  lemma PathsOfFirst(x: seq<Token>, path: Path, rest: seq<seq<Token>>, paths: seq<Path>)
    requires PathOf(x) == Some(path) && PathsOf(rest) == Some(paths)
    ensures PathsOf([x] + rest) == Some([path] + paths)
  {
    hide PathOf;
    assert ([x] + rest)[1..] == rest;
  }

  lemma {:induction false} ParsePaths(paths: seq<Path>)
    requires PathsHaveNumbers(paths)
    ensures ParserIndir(PathsTokens(paths)) == Some(CanonPaths(paths))
    decreases |paths|
  {
    hide ParseToken, ParseTokens, PathTokens, HasNumbers, PathOf, SplitAt;
    var x := if paths == [] then [] else PathTokens(paths[0]);
    var path := if paths == [] then [] else CanonPath(paths[0]);
    assert OfSteps(x) && PathOf(x) == Some(path) by {
      if paths == [] {
        ParseEmpty();
      } else {
        assert paths[0] in paths;
        PathOfSteps(paths[0]);
        ParsePathAlone(paths[0]);
      }
    }
    if |paths| <= 1 {
      SplitNowhere(x, Indirection);
      PathsOfFirst(x, path, [], []);
      assert [x] + [] == [x] && [path] + [] == [path];
    } else {
      var y := PathsTokens(paths[1..]);
      ParsePaths(paths[1..]);
      SplitFirst(x, Indirection, y);
      PathsOfFirst(x, path, SplitAt(y, Indirection), CanonPaths(paths[1..]));
    }
  }

  lemma ParseEmpty()
    ensures PathOf([]) == Some([])
  {
  }

  lemma ParsePathAlone(path: Path)
    requires forall p <- path :: HasNumbers(p)
    ensures PathOf(PathTokens(path)) == Some(CanonPath(path))
  {
    hide ParseTokens, PathTokens, HasNumbers;
    ParsePath(NOTHING_PARSED, path);
    assert [] + CanonPath(path) == CanonPath(path);
  }

  lemma {:induction false} PathsNoComma(paths: seq<Path>)
    ensures Comma !in PathsTokens(paths)
    decreases |paths|
  {
    hide PathTokens;
    if paths != [] {
      PathOfSteps(paths[0]);
      PathsNoComma(paths[1..]);
    }
  }

  // ---- whole CFIs ----

  predicate PrintableCfi(c: Cfi) {
    match c
    case Point(paths) => PrintablePaths(paths)
    case Range(parent, start, end) => PrintablePaths(parent) && PrintablePaths(start) && PrintablePaths(end)
  }

  predicate PathsHaveNumbers(paths: seq<Path>) {
    forall path <- paths, p <- path :: HasNumbers(p)
  }

  predicate CfiHasNumbers(c: Cfi) {
    match c
    case Point(paths) => PathsHaveNumbers(paths)
    case Range(parent, start, end) => PathsHaveNumbers(parent) && PathsHaveNumbers(start) && PathsHaveNumbers(end)
  }

  lemma PrintableHasNumbers(c: Cfi)
    requires PrintableCfi(c)
    ensures CfiHasNumbers(c)
  {
    hide HasNumbers, PlainlySided;
  }

  function CfiTokens(c: Cfi): seq<Token> {
    match c
    case Point(paths) => PathsTokens(paths)
    case Range(parent, start, end) =>
      PathsTokens(parent) + ([Comma] + (PathsTokens(start) + ([Comma] + PathsTokens(end))))
  }

  function CanonCfi(c: Cfi): Cfi {
    match c
    case Point(paths) => Point(CanonPaths(paths))
    case Range(parent, start, end) => Range(CanonPaths(parent), CanonPaths(start), CanonPaths(end))
  }

  lemma CfiPiece(m: Machine, c: Cfi)
    requires Outside(m) && PrintableCfi(c)
    ensures Reads(m, ToInnerString(c), CfiTokens(c))
  {
    hide Round, Feed, Flushed, Reads, PrintablePaths, PathsToString, PathsTokens;
    match c {
      case Point(paths) => PathsPiece(m, paths);
      case Range(parent, start, end) =>
        var s1, x1 := PathsToString(parent), PathsTokens(parent);
        PathsPiece(m, parent);
        ReadsOutside(m, s1, x1);
        CommaPiece(m, s1, x1);
        var s2, x2 := s1 + "," + PathsToString(start), x1 + [Comma] + PathsTokens(start);
        PathsPiece(Feed(m, s1 + ","), start);
        ReadsConcat(m, s1 + ",", x1 + [Comma], PathsToString(start), PathsTokens(start));
        ReadsOutside(m, s2, x2);
        CommaPiece(m, s2, x2);
        PathsPiece(Feed(m, s2 + ","), end);
        ReadsConcat(m, s2 + ",", x2 + [Comma], PathsToString(end), PathsTokens(end));
        assert x2 + [Comma] + PathsTokens(end) == CfiTokens(c);
    }
  }

  lemma CommaPiece(m: Machine, s: string, x: seq<Token>)
    requires Outside(m) && Reads(m, s, x)
    ensures Reads(m, s + ",", x + [Comma]) && Outside(Feed(m, s + ","))
  {
    hide Round, Feed, Flushed;
    MarkPiece(Feed(m, s), ',');
    ReadsConcat(m, s, x, ",", [Comma]);
  }

  // ---- the wrapping ----

  /** Starts with a character the tokenizer acts on, and does not end with one that trim removes. */
  predicate Tight(s: string) {
    s == "" || (ModeOf(s[0]).Some? && !IsTrimmed(s[|s| - 1]))
  }

  lemma TightConcat(s: string, t: string)
    requires Tight(s) && Tight(t)
    ensures Tight(s + t)
  {
  }

  lemma TightNumber(c: char, n: Number)
    requires ModeOf(c).Some?
    ensures Tight([c] + NumberString(n))
  {
    if n.Num? {
      var s := NumberText(n.n);
      assert s[|s| - 1] in s;
    }
  }

  lemma {:induction false} LastOfJoined(xs: seq<string>)
    requires xs != [] && forall x <- xs :: IsDecimal(x)
    ensures var s := Joined(xs, ":");
            s != "" && !IsTrimmed(s[|s| - 1])
    decreases |xs|
  {
    assert xs[0] in xs;
    assert IsDecimal(xs[0]);
    var last := xs[0][|xs[0]| - 1];
    assert last in xs[0];
    if |xs| > 1 {
      LastOfJoined(xs[1..]);
    }
  }

  lemma TightPart(p: Part)
    requires HasNumbers(p)
    ensures Tight(PartToString(p))
  {
    hide IsOdd, Truthy, PrintsText, ParamString, EscapeCfi, EscapedAll, Joined;
    TightNumber('/', p.index);
    if p.offset.Some? {
      TightNumber(':', p.offset.value);
    }
    if TruthyNumber(p.temporal) {
      LastOfJoined([p.temporal.value]);
      assert Joined([p.temporal.value], ":") == p.temporal.value by { JoinedOne(p.temporal.value); }
    }
    if p.spatial.Some? {
      LastOfJoined(p.spatial.value);
    }
    assert Tight(IdString(p)) && Tight(OffsetString(p)) && Tight(TemporalString(p));
    assert Tight(SpatialString(p)) && Tight(TextString(p));
    hide Tight, IdString, OffsetString, TemporalString, SpatialString, TextString, NumberString;
    var s1 := "/" + NumberString(p.index);
    TightConcat(s1, IdString(p));
    TightConcat(s1 + IdString(p), OffsetString(p));
    TightConcat(s1 + IdString(p) + OffsetString(p), TemporalString(p));
    TightConcat(s1 + IdString(p) + OffsetString(p) + TemporalString(p), SpatialString(p));
    TightConcat(s1 + IdString(p) + OffsetString(p) + TemporalString(p) + SpatialString(p), TextString(p));
  }

  lemma JoinedOne(s: string)
    ensures Joined([s], ":") == s
  {
  }

  lemma {:induction false} TightPath(path: Path)
    requires forall p <- path :: HasNumbers(p)
    ensures Tight(PathToString(path))
  {
    hide HasNumbers, PartToString;
    if path != [] {
      assert path[0] in path;
      TightPart(path[0]);
      TightPath(path[1..]);
    }
  }

  lemma {:induction false} TightPaths(paths: seq<Path>)
    requires PathsHaveNumbers(paths)
    ensures Tight(PathsToString(paths))
    decreases |paths|
  {
    hide HasNumbers, PathToString;
    if paths != [] {
      assert paths[0] in paths;
      TightPath(paths[0]);
      if |paths| > 1 {
        TightPaths(paths[1..]);
      }
    }
  }

  lemma TightCfi(c: Cfi)
    requires CfiHasNumbers(c)
    ensures Tight(ToInnerString(c))
  {
    hide PathsHaveNumbers, PathsToString;
    match c {
      case Point(paths) => TightPaths(paths);
      case Range(parent, start, end) =>
        TightPaths(parent);
        TightPaths(start);
        TightPaths(end);
    }
  }

  lemma TrimTight(s: string)
    requires Tight(s)
    ensures Trim(s) == s && Trim(PREFIX + s + ")") == PREFIX + s + ")"
    ensures !IsCfi(s)
  {
  }

  lemma UnwrapWrapped(s: string)
    requires !IsCfi(s)
    ensures Unwrap(Wrap(s)) in {s, PREFIX + s + ")"}
  {
    var whole := PREFIX + s + ")";
    assert whole[|PREFIX|..|whole| - 1] == s;
  }

  /** Around the inner text, the wrapping adds no token. */
  lemma FeedWrapped(s: string, tokens: seq<Token>)
    requires Reads(START, s, tokens)
    ensures Flushed(Feed(START, s)) == tokens && Flushed(Feed(START, PREFIX + s + ")")) == tokens
  {
    hide Round, Feed, Flushed;
    FlushIdle([]);
    assert [] + tokens == tokens;
    FeedIgnored(START, PREFIX);
    assert PREFIX + s + ")" == PREFIX + (s + ")");
    FeedConcat(START, PREFIX, s + ")");
    FeedConcat(START, s, ")");
    var read := Feed(START, s);
    IgnoredChar(read, ')');
    FeedOne(read, ')', "");
    FlushIdle(tokens);
  }

  /** The tokens of a wrapped text, read with or without its wrapping. */
  lemma TokensOfWrapped(s: string)
    requires Tight(s)
    ensures TokensOf(Unwrap(Wrap(s))) in {Flushed(Feed(START, s)), Flushed(Round(Feed(START, s), Some(')')))}
  {
    hide Round, Feed, Wrap, Unwrap, IsCfi, Trim, Tight;
    TrimTight(s);
    UnwrapWrapped(s);
    FeedIgnored(START, PREFIX);
    assert PREFIX + s + ")" == PREFIX + (s + ")");
    FeedConcat(START, PREFIX, s + ")");
    FeedConcat(START, s, ")");
    FeedOne(Feed(START, s), ')', "");
  }

  lemma Printed(c: Cfi)
    ensures ToString(c) == Wrap(ToInnerString(c))
  {
  }

  /** Printing wraps the text, and a parse reads the tokens of the wrapped text, even when the text
      holds a line terminator and is read with its wrapping. */
  lemma TokensOfPrinted(c: Cfi)
    requires PrintableCfi(c)
    ensures TokensOf(Unwrap(ToString(c))) == CfiTokens(c)
  {
    hide PrintableCfi, CfiHasNumbers, ToInnerString, CfiTokens, Round, Feed, Wrap, Unwrap, IsCfi, Trim, Tight, Reads;
    var inner := ToInnerString(c);
    PrintableHasNumbers(c);
    TightCfi(c);
    TrimTight(inner);
    CfiPiece(START, c);
    FeedWrapped(inner, CfiTokens(c));
    UnwrapWrapped(inner);
  }

  lemma ParseTokensOfCfi(c: Cfi)
    requires CfiHasNumbers(c)
    ensures var stretches := SplitAt(CfiTokens(c), Comma);
            match c
            case Point(paths) => |stretches| == 1 && ParserIndir(CfiTokens(c)) == Some(CanonPaths(paths))
            case Range(parent, start, end) =>
              && |stretches| == 3
              && ParserIndir(stretches[0]) == Some(CanonPaths(parent))
              && ParserIndir(stretches[1]) == Some(CanonPaths(start))
              && ParserIndir(stretches[2]) == Some(CanonPaths(end))
  {
    hide PathsHaveNumbers, PathsTokens, ParserIndir, CanonPaths, SplitAt;
    match c {
      case Point(paths) =>
        PathsNoComma(paths);
        SplitNowhere(PathsTokens(paths), Comma);
        ParsePaths(paths);
      case Range(parent, start, end) =>
        var x, y, z := PathsTokens(parent), PathsTokens(start), PathsTokens(end);
        PathsNoComma(parent);
        PathsNoComma(start);
        PathsNoComma(end);
        SplitFirst(x, Comma, y + ([Comma] + z));
        SplitFirst(y, Comma, z);
        SplitNowhere(z, Comma);
        ParsePaths(parent);
        ParsePaths(start);
        ParsePaths(end);
    }
  }

  /** Parsing what was printed gives the canonical form: every id and every text assertion comes back
      unescaped, whatever characters it has. */
  lemma ParseOfPrinted(c: Cfi)
    requires PrintableCfi(c)
    ensures ParseCfi(ToString(c)) == Whole(CanonCfi(c))
  {
    hide PrintableCfi, CfiHasNumbers, CfiTokens, CanonCfi, TokensOf, Unwrap, ToString, ParseCfi;
    TokensOfPrinted(c);
    PrintableHasNumbers(c);
    ParseOfTokens(ToString(c), c);
  }

  /** A text with the tokens of a CFI parses to its canonical form. */
  lemma ParseOfTokens(s: string, c: Cfi)
    requires CfiHasNumbers(c) && TokensOf(Unwrap(s)) == CfiTokens(c)
    ensures ParseCfi(s) == Whole(CanonCfi(c))
  {
    hide CfiHasNumbers, CfiTokens, ParserIndir, CanonPaths, TokensOf, Unwrap, SplitAt;
    ParseTokensOfCfi(c);
  }

  // ---- exactly which CFIs survive ----

  /** Nothing falsy; an offset only on an odd step; a side bias only beside an id or a text; a text
      list is not empty, and right after the step's number it holds empty texts only. */
  predicate WellFormedPart(p: Part) {
    && (p.id.Some? ==> p.id.value != "")
    && (p.offset.Some? ==> IsOdd(p.index))
    && (p.temporal.Some? ==> TruthyNumber(p.temporal))
    && (p.side.Some? ==> p.side.value != "" && (p.id.Some? || p.text.Some?))
    && (p.text.Some? ==> p.text.value != [])
    && (p.text.Some? && !HasPrefix(p) ==> forall x <- p.text.value :: x == "")
  }

  predicate WellFormedPaths(paths: seq<Path>) {
    paths != [] && forall path <- paths, p <- path :: WellFormedPart(p)
  }

  predicate WellFormed(c: Cfi) {
    match c
    case Point(paths) => WellFormedPaths(paths)
    case Range(parent, start, end) => WellFormedPaths(parent) && WellFormedPaths(start) && WellFormedPaths(end)
  }

  lemma CanonPartFixed(p: Part)
    ensures CanonPart(p) == p <==> WellFormedPart(p)
  {
    hide IsOdd, TruthyNumber, FirstNonEmpty, Without;
    var xs := if PrintsText(p) then Texts(p) else [];
    WithoutNone(xs);
    var k := FirstNonEmpty(xs);
    WithoutLength(xs, k);
    if k < |xs| {
      assert xs[k] in xs;
    }
    assert [] + xs == xs;
  }

  lemma CanonPathsFixed(paths: seq<Path>)
    ensures CanonPaths(paths) == paths <==> WellFormedPaths(paths)
  {
    hide CanonPart, WellFormedPart, CanonPath, CanonPaths;
    var r := CanonPaths(paths);
    if paths != [] {
      forall i, j | 0 <= i < |paths| && 0 <= j < |paths[i]|
        ensures r[i][j] == paths[i][j] <==> WellFormedPart(paths[i][j])
      {
        CanonPartFixed(paths[i][j]);
      }
      if r == paths {
        forall path <- paths, p <- path
          ensures WellFormedPart(p)
        {
          var i :| 0 <= i < |paths| && paths[i] == path;
          var j :| 0 <= j < |path| && path[j] == p;
          assert r[i][j] == paths[i][j];
        }
      }
      if WellFormedPaths(paths) {
        forall i | 0 <= i < |paths|
          ensures r[i] == paths[i]
        {
          assert paths[i] in paths;
          forall j | 0 <= j < |paths[i]|
            ensures r[i][j] == paths[i][j]
          {
            assert paths[i][j] in paths[i];
          }
        }
      }
    } else {
      assert CanonPaths([]) == [[]] by { NoPaths(); }
    }
  }

  lemma NoPaths()
    ensures CanonPaths([]) == [[]]
  {
  }

  /** Printing and parsing give a CFI back exactly when it is well formed. */
  lemma RoundTrip(c: Cfi)
    requires PrintableCfi(c)
    ensures ParseCfi(ToString(c)) == Whole(c) <==> WellFormed(c)
  {
    hide PrintableCfi, ParseCfi, ToString, CanonPaths, WellFormedPaths;
    ParseOfPrinted(c);
    match c {
      case Point(paths) => CanonPathsFixed(paths);
      case Range(parent, start, end) =>
        CanonPathsFixed(parent);
        CanonPathsFixed(start);
        CanonPathsFixed(end);
    }
  }

  lemma CanonPartWellFormed(p: Part)
    ensures WellFormedPart(CanonPart(p)) && (Printable(p) ==> Printable(CanonPart(p)))
  {
    hide IsOdd, IsDecimal, PlainSide;
    var xs := if PrintsText(p) then Texts(p) else [];
    var k := FirstNonEmpty(xs);
    WithoutNone(xs);
    WithoutLength(xs, k);
  }

  lemma {:induction false} WithoutLength(xs: seq<string>, k: nat)
    ensures |Without(xs, k)| == if k < |xs| then |xs| - 1 else |xs|
  {
    if xs != [] && k > 0 {
      WithoutLength(xs[1..], k - 1);
    }
  }

  lemma CanonPathsWellFormed(paths: seq<Path>)
    ensures WellFormedPaths(CanonPaths(paths)) && (PrintablePaths(paths) ==> PrintablePaths(CanonPaths(paths)))
  {
    hide CanonPart, WellFormedPart, CanonPath, CanonPaths, Printable;
    var r := CanonPaths(paths);
    if paths == [] {
      assert r == [[]] by { NoPaths(); }
    } else {
      forall i, j | 0 <= i < |r| && 0 <= j < |r[i]|
        ensures WellFormedPart(r[i][j]) && (Printable(paths[i][j]) ==> Printable(r[i][j]))
      {
        CanonPartWellFormed(paths[i][j]);
      }
      if PrintablePaths(paths) {
        forall i, j | 0 <= i < |r| && 0 <= j < |r[i]|
          ensures Printable(r[i][j])
        {
          assert paths[i] in paths && paths[i][j] in paths[i];
        }
      }
    }
  }

  /** What a printed CFI reads back as prints and reads back as itself from then on. */
  lemma CanonIsStable(c: Cfi)
    requires PrintableCfi(c)
    ensures WellFormed(CanonCfi(c)) && ParseCfi(ToString(CanonCfi(c))) == Whole(CanonCfi(c))
  {
    hide ParseCfi, ToString, CanonPaths, WellFormedPaths, PrintablePaths;
    match c {
      case Point(paths) => CanonPathsWellFormed(paths);
      case Range(parent, start, end) =>
        CanonPathsWellFormed(parent);
        CanonPathsWellFormed(start);
        CanonPathsWellFormed(end);
    }
    RoundTrip(CanonCfi(c));
  }
}
