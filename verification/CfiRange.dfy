/** Ranges of EPUB CFIs: collapsing one, building one from two ends, and the order of section 3.3
    (Sorting Rules) of EPUB Canonical Fragment Identifiers 1.1
    (frontend/public/foliate/epubcfi.js). */
module CfiRange {
  import opened Wrappers
  import opened CfiSyntax
  import opened CfiReading
  import opened CfiRoundTrip

  // ---- collapsing ----

  /** What the parser returns: every list of paths has a path. */
  predicate Parsed(c: Cfi) {
    match c
    case Point(paths) => paths != []
    case Range(parent, start, end) => parent != [] && start != [] && end != []
  }

  /** concatArrays: the last path of a goes on with the first path of b. */
  function ConcatArrays(a: seq<Path>, b: seq<Path>): (r: seq<Path>)
    requires a != [] && b != []
    ensures |r| == |a| + |b| - 1
  {
    a[..|a| - 1] + [a[|a| - 1] + b[0]] + b[1..]
  }

  function Collapse(c: Cfi, toEnd: bool): (r: seq<Path>)
    requires Parsed(c)
    ensures r != []
  {
    match c
    case Point(paths) => paths
    case Range(parent, start, end) => ConcatArrays(parent, if toEnd then end else start)
  }

  // ---- building ----

  predicate TruthyOffset(o: Option<Number>) {
    o.Some? && o.value.Num? && o.value.n != 0
  }

  /** The test under which a pair of steps goes to the parent. */
  predicate SameStep(x: Part, y: Part) {
    x.index.Num? && x.index == y.index && !TruthyOffset(x.offset) && !TruthyOffset(y.offset)
  }

  /** The number of leading steps that go to the parent. */
  function Shared(p: Path, q: Path): (k: nat)
    ensures k <= |p| && k <= |q| && forall i :: 0 <= i < k ==> SameStep(p[i], q[i])
    ensures k < |p| && k < |q| ==> !SameStep(p[k], q[k])
  {
    if p == [] || q == [] || !SameStep(p[0], q[0]) then 0 else 1 + Shared(p[1..], q[1..])
  }

  lemma {:induction false} SharedIs(p: Path, q: Path, k: nat)
    requires k <= |p| && k <= |q| && forall i :: 0 <= i < k ==> SameStep(p[i], q[i])
    requires k < |p| && k < |q| ==> !SameStep(p[k], q[k])
    ensures Shared(p, q) == k
  {
    hide SameStep;
  }

  /** Two paths agree on their first j steps when these have the same numbers as indices, and no offset
      other than zero in either path. */
  predicate AgreeUpTo(p: Path, q: Path, j: nat) {
    && j <= |p| && j <= |q|
    && forall i :: 0 <= i < j ==>
         && p[i].index.Num? && q[i].index.Num? && p[i].index.n == q[i].index.n
         && (p[i].offset.None? || p[i].offset.value.NaN? || p[i].offset.value.n == 0)
         && (q[i].offset.None? || q[i].offset.value.NaN? || q[i].offset.value.n == 0)
  }

  /** The steps that go to the parent are all that the two paths agree on, and no fewer. */
  lemma SharedIsAll(p: Path, q: Path, j: nat)
    ensures j <= Shared(p, q) <==> AgreeUpTo(p, q, j)
  {
    if j <= Shared(p, q) {
      forall i | 0 <= i < j ensures SameStep(p[i], q[i]) {}
    }
  }

  lemma SharedSteps(p: Path, q: Path)
    ensures forall j: nat :: j <= Shared(p, q) <==> AgreeUpTo(p, q, j)
  {
    hide Shared, AgreeUpTo;
    forall j: nat ensures j <= Shared(p, q) <==> AgreeUpTo(p, q, j) { SharedIsAll(p, q, j); }
  }

  function LocalPath(paths: seq<Path>): Path
    requires paths != []
  {
    paths[|paths| - 1]
  }

  /** The range from one point to another: only the local path is split. */
  function RangeBetween(a: seq<Path>, b: seq<Path>): (r: Cfi)
    requires a != [] && b != []
    ensures Parsed(r)
  {
    var k := Shared(LocalPath(a), LocalPath(b));
    Range(a[..|a| - 1] + [LocalPath(a)[..k]], [LocalPath(a)[k..]], [LocalPath(b)[k..]])
  }

  /** The steps from k to i, as far as there are any. */
  function Stretch(p: Path, k: nat, i: nat): Path
    requires k <= |p| && k <= i
  {
    p[k..if i < |p| then i else |p|]
  }

  lemma StretchNext(p: Path, k: nat, i: nat)
    requires k <= |p| && k <= i
    ensures Stretch(p, k, i + 1) == Stretch(p, k, i) + (if i < |p| then [p[i]] else [])
    ensures Stretch(p, k, k) == []
  {
  }

  /** buildRange on parsed CFIs. */
  method BuildRange(from: Cfi, to: Cfi) returns (text: string)
    requires Parsed(from) && Parsed(to)
    ensures text == ToString(RangeBetween(Collapse(from, false), Collapse(to, true)))
  {
    hide ToString, Collapse, SameStep, Shared;
    var a, b := Collapse(from, false), Collapse(to, true);
    var localFrom, localTo := LocalPath(a), LocalPath(b);
    var localParent: Path, localStart: Path, localEnd: Path := [], [], [];
    var pushToParent := true;
    var len := if |localFrom| < |localTo| then |localTo| else |localFrom|;
    ghost var k := 0;
    for i := 0 to len
      invariant k == |localParent| && k <= |localFrom| && k <= |localTo|
      invariant localParent == localFrom[..k]
      invariant forall j :: 0 <= j < k ==> SameStep(localFrom[j], localTo[j])
      invariant pushToParent ==> k == i && localStart == [] && localEnd == []
      invariant !pushToParent ==>
        && k < i && (k < |localFrom| && k < |localTo| ==> !SameStep(localFrom[k], localTo[k]))
        && localStart == Stretch(localFrom, k, i) && localEnd == Stretch(localTo, k, i)
    {
      StretchNext(localFrom, k, i);
      StretchNext(localTo, k, i);
      pushToParent := pushToParent && i < |localFrom| && i < |localTo| && SameStep(localFrom[i], localTo[i]);
      if pushToParent {
        localParent := localParent + [localFrom[i]];
        k := k + 1;
      } else {
        if i < |localFrom| {
          localStart := localStart + [localFrom[i]];
        }
        if i < |localTo| {
          localEnd := localEnd + [localTo[i]];
        }
      }
    }
    SharedIs(localFrom, localTo, k);
    assert localStart == localFrom[k..] && localEnd == localTo[k..];
    var parent := a[..|a| - 1] + [localParent];
    text := ToString(Range(parent, [localStart], [localEnd]));
  }

  /** Whether the steps that go to the parent are the same in both points, and the points are in the
      same document: what a caller must know to get the end of a built range back. */
  predicate AgreeOnShared(a: seq<Path>, b: seq<Path>)
    requires a != [] && b != []
  {
    && a[..|a| - 1] == b[..|b| - 1]
    && forall j :: 0 < j <= |LocalPath(a)| && AgreeUpTo(LocalPath(a), LocalPath(b), j) ==>
         LocalPath(a)[j - 1] == LocalPath(b)[j - 1]
  }

  /** Collapsing a built range to its start always gives the first point; collapsing it to its end
      gives the second one exactly when the two agree on what they share. */
  lemma CollapseUndoesBuild(a: seq<Path>, b: seq<Path>)
    requires a != [] && b != []
    ensures Collapse(RangeBetween(a, b), false) == a
    ensures Collapse(RangeBetween(a, b), true) == b <==> AgreeOnShared(a, b)
  {
    hide Shared, AgreeUpTo;
    var p, q := LocalPath(a), LocalPath(b);
    var k := Shared(p, q);
    SharedSteps(p, q);
    assert p[..k] + p[k..] == p && q[..k] + q[k..] == q;
    assert a[..|a| - 1] + [p] == a && b[..|b| - 1] + [q] == b;
    var end := Collapse(RangeBetween(a, b), true);
    var c := p[..k] + q[k..];
    assert end == a[..|a| - 1] + [c];
    if end == b {
      assert end[..|a| - 1] == a[..|a| - 1];
      assert c == q;
      forall j | 0 < j <= |p| && AgreeUpTo(p, q, j)
        ensures p[j - 1] == q[j - 1]
      {
        assert c[j - 1] == p[j - 1];
      }
    }
    if AgreeOnShared(a, b) {
      forall i | 0 <= i < k
        ensures p[i] == q[i]
      {
        assert AgreeUpTo(p, q, i + 1);
      }
      assert p[..k] == q[..k];
    }
  }

  /** A position as nodes give it: steps with an index, perhaps an id, and an offset on the last
      step at most. */
  predicate IsPosition(p: Path) {
    && p != []
    && (forall i :: 0 <= i < |p| ==> p[i] == EmptyPart(p[i].index).(id := p[i].id, offset := p[i].offset))
    && forall i :: 0 <= i < |p| - 1 ==> p[i].offset.None?
  }

  /** For two positions in one document whose common steps carry the same ids and whose last offsets
      are numbers that are both there or both missing, both ends come back. */
  lemma PositionsComeBack(a: seq<Path>, b: seq<Path>)
    requires a != [] && b != [] && a[..|a| - 1] == b[..|b| - 1]
    requires var p, q := LocalPath(a), LocalPath(b);
             && IsPosition(p) && IsPosition(q)
             && p[|p| - 1].offset.Some? == q[|q| - 1].offset.Some?
             && (p[|p| - 1].offset.Some? ==> p[|p| - 1].offset.value.Num? && q[|q| - 1].offset.value.Num?)
             && (|p| != |q| ==> p[|p| - 1].offset != Some(Num(0)) && q[|q| - 1].offset != Some(Num(0)))
             && forall j :: 0 < j <= |p| && AgreeUpTo(p, q, j) ==> p[j - 1].id == q[j - 1].id
    ensures Collapse(RangeBetween(a, b), false) == a && Collapse(RangeBetween(a, b), true) == b
  {
    hide Collapse, RangeBetween;
    CollapseUndoesBuild(a, b);
  }

  /** An offset of zero counts as none when steps are shared, so a point without an offset comes back
      as the end of the range with the start's offset zero. */
  lemma ZeroOffsetIsShared()
    ensures var x := EmptyPart(Num(3));
            Collapse(RangeBetween([[x.(offset := Some(Num(0)))]], [[x]]), true) == [[x.(offset := Some(Num(0)))]]
  {
    var x := EmptyPart(Num(3));
    SharedIs([x.(offset := Some(Num(0)))], [x], 1);
    assert [x][1..] == [] && [x.(offset := Some(Num(0)))][..1] + [] == [x.(offset := Some(Num(0)))];
  }

  lemma SlicesWellFormed(a: seq<Path>, b: seq<Path>)
    requires WellFormedPaths(a) && PrintablePaths(a) && WellFormedPaths(b) && PrintablePaths(b)
    ensures WellFormed(RangeBetween(a, b)) && PrintableCfi(RangeBetween(a, b))
  {
    hide WellFormedPart, Printable, Shared;
    var p, q := LocalPath(a), LocalPath(b);
    assert p in a && q in b;
  }

  /** The same through the text that buildRange returns and collapse parses. */
  lemma BuiltTextCollapses(a: seq<Path>, b: seq<Path>)
    requires WellFormedPaths(a) && PrintablePaths(a) && WellFormedPaths(b) && PrintablePaths(b)
    ensures var built := ParseCfi(ToString(RangeBetween(a, b)));
            && built.Whole? && Parsed(built.cfi)
            && Collapse(built.cfi, false) == a
            && (Collapse(built.cfi, true) == b <==> AgreeOnShared(a, b))
  {
    hide WellFormed, PrintablePaths, ParseCfi, ToString, RangeBetween, Collapse, AgreeOnShared;
    SlicesWellFormed(a, b);
    RoundTrip(RangeBetween(a, b));
    CollapseUndoesBuild(a, b);
  }

  // ---- comparing ----

  /** JavaScript's >; nothing is greater than NaN or undefined, nor they than anything. */
  predicate Exceeds(x: Number, y: Number) {
    x.Num? && y.Num? && x.n > y.n
  }

  function OffsetNumber(p: Part): Number {
    if p.offset.Some? then p.offset.value else NaN
  }

  function CompareNumbers(x: Number, y: Number): (r: int)
    ensures -1 <= r <= 1
  {
    if Exceeds(x, y) then 1 else if Exceeds(y, x) then -1 else 0
  }

  /** Steps in order, a path before its extensions, offsets only where both paths end. */
  function CompareSteps(p: Path, q: Path): (r: int)
    ensures -1 <= r <= 1
  {
    if p == [] && q == [] then 0
    else if p == [] then -1
    else if q == [] then 1
    else
      var c := CompareNumbers(p[0].index, q[0].index);
      if c != 0 then c
      else if |p| == 1 && |q| == 1 then CompareNumbers(OffsetNumber(p[0]), OffsetNumber(q[0]))
      else CompareSteps(p[1..], q[1..])
  }

  function First(a: seq<Path>): Path {
    if a == [] then [] else a[0]
  }

  function Rest(a: seq<Path>): seq<Path> {
    if a == [] then [] else a[1..]
  }

  function ComparePaths(a: seq<Path>, b: seq<Path>): (r: int)
    ensures -1 <= r <= 1
    decreases |a| + |b|
  {
    if a == [] && b == [] then 0
    else
      var c := CompareSteps(First(a), First(b));
      if c != 0 then c else ComparePaths(Rest(a), Rest(b))
  }

  function CompareCfis(a: Cfi, b: Cfi): (r: int)
    requires Parsed(a) && Parsed(b)
    ensures -1 <= r <= 1
  {
    if a.Range? || b.Range? then
      var c := ComparePaths(Collapse(a, false), Collapse(b, false));
      if c != 0 then c else ComparePaths(Collapse(a, true), Collapse(b, true))
    else ComparePaths(a.paths, b.paths)
  }

  function From(p: Path, j: nat): Path {
    if j < |p| then p[j..] else []
  }

  lemma CompareFrom(p: Path, q: Path, j: nat)
    ensures CompareSteps(From(p, j), From(q, j)) ==
      if j >= |p| && j >= |q| then 0
      else if j >= |p| then -1
      else if j >= |q| then 1
      else
        var c := CompareNumbers(p[j].index, q[j].index);
        if c != 0 then c
        else if j == |p| - 1 && j == |q| - 1 then CompareNumbers(OffsetNumber(p[j]), OffsetNumber(q[j]))
        else CompareSteps(From(p, j + 1), From(q, j + 1))
  {
    hide CompareNumbers;
    if j < |p| && j < |q| {
      assert p[j..][1..] == From(p, j + 1) && q[j..][1..] == From(q, j + 1);
    }
  }

  /** The nested loops of compare on two points. */
  method ComparePoints(a: seq<Path>, b: seq<Path>) returns (r: int)
    ensures r == ComparePaths(a, b)
  {
    hide CompareNumbers, CompareSteps, From;
    var count := if |a| < |b| then |b| else |a|;
    ghost var restA, restB := a, b;
    for i := 0 to count
      invariant restA == (if i < |a| then a[i..] else []) && restB == (if i < |b| then b[i..] else [])
      invariant ComparePaths(a, b) == ComparePaths(restA, restB)
    {
      var p := if i < |a| then a[i] else [];
      var q := if i < |b| then b[i] else [];
      assert p == First(restA) && q == First(restB);
      var steps := if |p| < |q| then |q| else |p|;
      FromStart(p);
      FromStart(q);
      CompareFrom(p, q, steps);
      for j := 0 to steps
        invariant CompareSteps(p, q) == CompareSteps(From(p, j), From(q, j))
      {
        CompareFrom(p, q, j);
        if j >= |p| {
          return -1;
        }
        if j >= |q| {
          return 1;
        }
        var x, y := p[j], q[j];
        var c := CompareNumbers(x.index, y.index);
        if c != 0 {
          return c;
        }
        if j == steps - 1 {
          c := CompareNumbers(OffsetNumber(x), OffsetNumber(y));
          if c != 0 {
            return c;
          }
        }
      }
      restA, restB := Rest(restA), Rest(restB);
    }
    return 0;
  }

  lemma FromStart(p: Path)
    ensures From(p, 0) == p
  {
  }

  method Compare(a: Cfi, b: Cfi) returns (r: int)
    requires Parsed(a) && Parsed(b)
    ensures r == CompareCfis(a, b)
  {
    if a.Range? || b.Range? {
      r := ComparePoints(Collapse(a, false), Collapse(b, false));
      if r == 0 {
        r := ComparePoints(Collapse(a, true), Collapse(b, true));
      }
    } else {
      r := ComparePoints(a.paths, b.paths);
    }
  }

  lemma {:induction false} StepsAntisymmetric(p: Path, q: Path)
    ensures CompareSteps(p, q) == -CompareSteps(q, p)
  {
    if p != [] && q != [] && CompareNumbers(p[0].index, q[0].index) == 0 && (|p| > 1 || |q| > 1) {
      StepsAntisymmetric(p[1..], q[1..]);
    }
  }

  lemma {:induction false} PathsAntisymmetric(a: seq<Path>, b: seq<Path>)
    ensures ComparePaths(a, b) == -ComparePaths(b, a)
    decreases |a| + |b|
  {
    if a != [] || b != [] {
      StepsAntisymmetric(First(a), First(b));
      PathsAntisymmetric(Rest(a), Rest(b));
    }
  }

  /** Swapping the arguments of compare flips its sign, for any two points or ranges. */
  lemma CompareAntisymmetric(a: Cfi, b: Cfi)
    requires Parsed(a) && Parsed(b)
    ensures CompareCfis(a, b) == -CompareCfis(b, a)
  {
    PathsAntisymmetric(Collapse(a, false), Collapse(b, false));
    PathsAntisymmetric(Collapse(a, true), Collapse(b, true));
  }

  // ---- when the order is transitive ----

  predicate AllNumbers(p: Path) {
    forall x <- p :: x.index.Num?
  }

  predicate Numeric(a: seq<Path>) {
    forall p <- a :: AllNumbers(p)
  }

  predicate EndsWithOffset(p: Path) {
    p != [] && OffsetNumber(p[|p| - 1]).Num?
  }

  predicate SameSteps(p: Path, q: Path) {
    |p| == |q| && forall i :: 0 <= i < |p| ==> p[i].index == q[i].index
  }

  /** Two paths with the same steps both end with an offset or neither does. */
  predicate SameKind(p: Path, q: Path) {
    SameSteps(p, q) ==> EndsWithOffset(p) == EndsWithOffset(q)
  }

  /** Path by path, as far as the two are compared. */
  predicate Comparable(a: seq<Path>, b: seq<Path>)
    decreases |a| + |b|
  {
    a != [] || b != [] ==>
      && SameKind(First(a), First(b))
      && (CompareSteps(First(a), First(b)) == 0 ==> Comparable(Rest(a), Rest(b)))
  }

  lemma NumericParts(a: seq<Path>)
    requires Numeric(a)
    ensures AllNumbers(First(a)) && Numeric(Rest(a))
  {
  }

  lemma SameKindRest(p: Path, q: Path)
    requires SameKind(p, q) && |p| > 1 && |q| > 1 && p[0].index == q[0].index
    ensures SameKind(p[1..], q[1..])
  {
    if SameSteps(p[1..], q[1..]) {
      forall i | 0 <= i < |p|
        ensures p[i].index == q[i].index
      {
        assert i > 0 ==> p[i] == p[1..][i - 1] && q[i] == q[1..][i - 1];
      }
    }
  }

  /** The order on steps is transitive, and strict as soon as one of the two comparisons is. */
  lemma {:induction false} StepsTransitive(p: Path, q: Path, r: Path)
    requires AllNumbers(p) && AllNumbers(q) && AllNumbers(r)
    requires SameKind(p, q) && SameKind(q, r) && SameKind(p, r)
    requires CompareSteps(p, q) <= 0 && CompareSteps(q, r) <= 0
    ensures CompareSteps(p, r) <= 0
    ensures CompareSteps(p, r) == 0 <==> CompareSteps(p, q) == 0 && CompareSteps(q, r) == 0
  {
    if p != [] && q != [] && r != [] {
      assert p[0] in p && q[0] in q && r[0] in r;
      if |p| > 1 || |q| > 1 || |r| > 1 {
        if CompareNumbers(p[0].index, q[0].index) == 0 && CompareNumbers(q[0].index, r[0].index) == 0 {
          if |p| > 1 && |q| > 1 && |r| > 1 {
            SameKindRest(p, q);
            SameKindRest(q, r);
            SameKindRest(p, r);
            StepsTransitive(p[1..], q[1..], r[1..]);
          }
        }
      }
    }
  }

  /** Strictly before is transitive on steps whatever the offsets. */
  lemma {:induction false} StepsStrictlyTransitive(p: Path, q: Path, r: Path)
    requires AllNumbers(p) && AllNumbers(q) && AllNumbers(r)
    requires CompareSteps(p, q) < 0 && CompareSteps(q, r) < 0
    ensures CompareSteps(p, r) < 0
  {
    if p != [] && q != [] && r != [] {
      assert p[0] in p && q[0] in q && r[0] in r;
      if CompareNumbers(p[0].index, q[0].index) == 0 && CompareNumbers(q[0].index, r[0].index) == 0 {
        if |p| > 1 && |q| > 1 && |r| > 1 {
          StepsStrictlyTransitive(p[1..], q[1..], r[1..]);
        }
      }
    }
  }

  lemma {:induction false} PathsTransitive(a: seq<Path>, b: seq<Path>, c: seq<Path>)
    requires Numeric(a) && Numeric(b) && Numeric(c)
    requires Comparable(a, b) && Comparable(b, c) && Comparable(a, c)
    requires ComparePaths(a, b) <= 0 && ComparePaths(b, c) <= 0
    ensures ComparePaths(a, c) <= 0
    ensures ComparePaths(a, c) == 0 <==> ComparePaths(a, b) == 0 && ComparePaths(b, c) == 0
    decreases |a| + |b| + |c|
  {
    hide AllNumbers, SameKind, CompareSteps;
    if a != [] || b != [] || c != [] {
      NumericParts(a);
      NumericParts(b);
      NumericParts(c);
      FirstOfBoth(a, b);
      FirstOfBoth(b, c);
      FirstOfBoth(a, c);
      StepsTransitive(First(a), First(b), First(c));
      if CompareSteps(First(a), First(b)) == 0 && CompareSteps(First(b), First(c)) == 0 {
        PathsTransitive(Rest(a), Rest(b), Rest(c));
      }
    }
  }

  lemma FirstOfBoth(a: seq<Path>, b: seq<Path>)
    requires Comparable(a, b)
    ensures SameKind(First(a), First(b))
    ensures CompareSteps(First(a), First(b)) == 0 ==> Comparable(Rest(a), Rest(b))
    ensures var c := CompareSteps(First(a), First(b));
            ComparePaths(a, b) == if c != 0 then c else ComparePaths(Rest(a), Rest(b))
  {
  }

  /** compare on points is compare on the ranges that start and end there. */
  lemma CompareByEnds(a: Cfi, b: Cfi)
    requires Parsed(a) && Parsed(b)
    ensures var c := ComparePaths(Collapse(a, false), Collapse(b, false));
            CompareCfis(a, b) == if c != 0 then c else ComparePaths(Collapse(a, true), Collapse(b, true))
  {
  }

  predicate NumericCfi(c: Cfi)
    requires Parsed(c)
  {
    Numeric(Collapse(c, false)) && Numeric(Collapse(c, true))
  }

  /** Where compare looks at both, paths with the same steps are of the same kind. */
  predicate ComparableCfis(a: Cfi, b: Cfi)
    requires Parsed(a) && Parsed(b)
  {
    && Comparable(Collapse(a, false), Collapse(b, false))
    && (ComparePaths(Collapse(a, false), Collapse(b, false)) == 0 ==>
        Comparable(Collapse(a, true), Collapse(b, true)))
  }

  /** On points and ranges that are pairwise comparable, compare is a transitive order. */
  lemma CompareTransitive(a: Cfi, b: Cfi, c: Cfi)
    requires Parsed(a) && Parsed(b) && Parsed(c) && NumericCfi(a) && NumericCfi(b) && NumericCfi(c)
    requires ComparableCfis(a, b) && ComparableCfis(b, c) && ComparableCfis(a, c)
    requires CompareCfis(a, b) <= 0 && CompareCfis(b, c) <= 0
    ensures CompareCfis(a, c) <= 0
    ensures CompareCfis(a, c) == 0 <==> CompareCfis(a, b) == 0 && CompareCfis(b, c) == 0
  {
    hide Collapse, CompareCfis, ComparePaths, Comparable, Numeric;
    CompareByEnds(a, b);
    CompareByEnds(b, c);
    CompareByEnds(a, c);
    PathsTransitive(Collapse(a, false), Collapse(b, false), Collapse(c, false));
    if CompareCfis(a, b) == 0 || ComparePaths(Collapse(a, false), Collapse(b, false)) == 0 {
      if ComparePaths(Collapse(b, false), Collapse(c, false)) == 0 {
        PathsTransitive(Collapse(a, true), Collapse(b, true), Collapse(c, true));
      }
    }
  }

  /** Without that condition it is not: a step without an offset equals the same step with any. */
  lemma MissingOffsetTies()
    ensures var x := EmptyPart(Num(3));
            var a, b, c := [[x.(offset := Some(Num(2)))]], [[x]], [[x.(offset := Some(Num(1)))]];
            ComparePaths(a, b) == 0 && ComparePaths(b, c) == 0 && ComparePaths(a, c) == 1
  {
    var x := EmptyPart(Num(3));
    var a, b, c := [[x.(offset := Some(Num(2)))]], [[x]], [[x.(offset := Some(Num(1)))]];
    assert ComparePaths(Rest(a), Rest(b)) == 0 && ComparePaths(Rest(b), Rest(c)) == 0;
    assert CompareSteps(First(a), First(b)) == 0 && CompareSteps(First(b), First(c)) == 0;
    assert CompareSteps(First(a), First(c)) == 1;
  }

  /** With an indirection, even strict comparisons go round in a circle. */
  lemma StrictCircle()
    ensures var x := EmptyPart(Num(3));
            var p, q, r := [EmptyPart(Num(2))], [EmptyPart(Num(4))], [EmptyPart(Num(6))];
            var a, b, c := [[x.(offset := Some(Num(2)))], p], [[x], q], [[x.(offset := Some(Num(1)))], r];
            ComparePaths(a, b) == -1 && ComparePaths(b, c) == -1 && ComparePaths(c, a) == -1
  {
    var x := EmptyPart(Num(3));
    var p, q, r := [EmptyPart(Num(2))], [EmptyPart(Num(4))], [EmptyPart(Num(6))];
    var a, b, c := [[x.(offset := Some(Num(2)))], p], [[x], q], [[x.(offset := Some(Num(1)))], r];
    assert CompareSteps(First(a), First(b)) == 0 && CompareSteps(First(b), First(c)) == 0;
    assert CompareSteps(First(c), First(a)) == -1;
    assert Rest(a) == [p] && Rest(b) == [q] && Rest(c) == [r];
    assert First([p]) == p && First([q]) == q && First([r]) == r;
    assert CompareSteps(p, q) == -1 && CompareSteps(q, r) == -1;
  }

  // ---- when a tie can be relied on ----

  /** The path with its last offset raised by one. */
  function RaisedPath(p: Path): Path
    requires EndsWithOffset(p)
  {
    var last := p[|p| - 1];
    p[..|p| - 1] + [last.(offset := Some(Num(OffsetNumber(last).n + 1)))]
  }

  /** A tie means the same steps. */
  lemma {:induction false} TiedSteps(p: Path, q: Path)
    requires AllNumbers(p) && AllNumbers(q) && CompareSteps(p, q) == 0
    ensures SameSteps(p, q)
    ensures EndsWithOffset(p) && EndsWithOffset(q) ==> OffsetNumber(p[|p| - 1]) == OffsetNumber(q[|q| - 1])
  {
    if p != [] && q != [] {
      assert p[0] in p && q[0] in q;
      if |p| > 1 && |q| > 1 {
        TiedSteps(p[1..], q[1..]);
        forall i | 0 <= i < |p|
          ensures p[i].index == q[i].index
        {
          assert i > 0 ==> p[i] == p[1..][i - 1] && q[i] == q[1..][i - 1];
        }
      }
    }
  }

  /** On the same steps only the last offsets are left to compare. */
  lemma {:induction false} OnlyOffsets(p: Path, q: Path)
    requires SameSteps(p, q)
    ensures CompareSteps(p, q) ==
      if p == [] then 0 else CompareNumbers(OffsetNumber(p[|p| - 1]), OffsetNumber(q[|q| - 1]))
  {
    if |p| > 1 {
      OnlyOffsets(p[1..], q[1..]);
    }
  }

  /** Paths with the same steps and the same end compare alike with any path. */
  lemma {:induction false} AlikeWithAny(p: Path, q: Path, r: Path)
    requires SameSteps(p, q) && (p != [] ==> OffsetNumber(p[|p| - 1]) == OffsetNumber(q[|q| - 1]))
    ensures CompareSteps(p, r) == CompareSteps(q, r)
  {
    if |p| > 1 && |r| > 0 {
      AlikeWithAny(p[1..], q[1..], r[1..]);
    }
  }

  lemma TieWithRaised(p: Path, q: Path)
    requires AllNumbers(p) && AllNumbers(q) && CompareSteps(p, q) == 0 && EndsWithOffset(p) && !EndsWithOffset(q)
    ensures AllNumbers(RaisedPath(p))
    ensures CompareSteps(p, RaisedPath(p)) == -1 && CompareSteps(q, RaisedPath(p)) == 0
  {
    TiedSteps(p, q);
    var r := RaisedPath(p);
    forall x | x in r
      ensures x.index.Num?
    {
      var i :| 0 <= i < |r| && r[i] == x;
      assert p[i] in p && r[i].index == p[i].index;
    }
    OnlyOffsets(p, r);
    OnlyOffsets(q, r);
  }

  ghost predicate CompareAlike(p: Path, q: Path) {
    forall r: Path :: AllNumbers(r) ==> CompareSteps(p, r) == CompareSteps(q, r)
  }

  /** Two paths that tie compare alike with every other exactly when both end with an offset or neither
      does. */
  lemma TieIsExact(p: Path, q: Path)
    requires AllNumbers(p) && AllNumbers(q) && CompareSteps(p, q) == 0
    ensures CompareAlike(p, q) <==> EndsWithOffset(p) == EndsWithOffset(q)
  {
    hide CompareSteps, AllNumbers;
    TiedSteps(p, q);
    if EndsWithOffset(p) == EndsWithOffset(q) {
      forall r: Path
        ensures CompareSteps(p, r) == CompareSteps(q, r)
      {
        AlikeWithAny(p, q, r);
      }
    } else if EndsWithOffset(p) {
      TieWithRaised(p, q);
    } else {
      StepsAntisymmetric(p, q);
      TieWithRaised(q, p);
    }
  }

  /** Path by path, both end with an offset or neither does; a missing path ends without. */
  predicate EndAlike(a: seq<Path>, b: seq<Path>)
    decreases |a| + |b|
  {
    a != [] || b != [] ==>
      EndsWithOffset(First(a)) == EndsWithOffset(First(b)) && EndAlike(Rest(a), Rest(b))
  }

  lemma {:induction false} EndAlikeWithAny(a: seq<Path>, b: seq<Path>, c: seq<Path>)
    requires Numeric(a) && Numeric(b) && ComparePaths(a, b) == 0 && EndAlike(a, b)
    ensures ComparePaths(a, c) == ComparePaths(b, c)
    decreases |a| + |b| + |c|
  {
    hide AllNumbers, CompareSteps;
    if a != [] || b != [] {
      NumericParts(a);
      NumericParts(b);
      TiedSteps(First(a), First(b));
      AlikeWithAny(First(a), First(b), First(c));
      EndAlikeWithAny(Rest(a), Rest(b), Rest(c));
    }
  }

  lemma {:induction false} NothingIsFirst(a: seq<Path>)
    ensures ComparePaths(a, []) >= 0
  {
    if a != [] {
      NothingIsFirst(Rest(a));
    }
  }

  lemma {:induction false} SameAsItself(p: Path)
    ensures CompareSteps(p, p) == 0
  {
    OnlyOffsets(p, p);
  }

  /** The first path that ends differently tells them apart, with its offset raised. */
  lemma TellsApart(a: seq<Path>, b: seq<Path>) returns (c: seq<Path>)
    requires Numeric(a) && Numeric(b) && ComparePaths(a, b) == 0
    requires EndsWithOffset(First(a)) && !EndsWithOffset(First(b))
    ensures c != [] && Numeric(c) && ComparePaths(a, c) != ComparePaths(b, c)
  {
    hide AllNumbers, CompareSteps;
    NumericParts(a);
    NumericParts(b);
    TieWithRaised(First(a), First(b));
    c := [RaisedPath(First(a))];
    assert First(c) == c[0] && Rest(c) == [];
    NothingIsFirst(Rest(b));
  }

  lemma {:induction false} TellApart(a: seq<Path>, b: seq<Path>) returns (c: seq<Path>)
    requires Numeric(a) && Numeric(b) && ComparePaths(a, b) == 0 && !EndAlike(a, b)
    ensures c != [] && Numeric(c) && ComparePaths(a, c) != ComparePaths(b, c)
    decreases |a| + |b|
  {
    hide AllNumbers, CompareSteps;
    PathsAntisymmetric(a, b);
    if EndsWithOffset(First(a)) == EndsWithOffset(First(b)) {
      NumericParts(a);
      NumericParts(b);
      var rest := TellApart(Rest(a), Rest(b));
      c := [First(a)] + rest;
      assert First(c) == First(a) && Rest(c) == rest;
      SameAsItself(First(a));
      StepsAntisymmetric(First(a), First(b));
    } else if EndsWithOffset(First(a)) {
      c := TellsApart(a, b);
    } else {
      c := TellsApart(b, a);
    }
  }

  ghost predicate PathsAlike(a: seq<Path>, b: seq<Path>) {
    forall c: seq<Path> :: Numeric(c) ==> ComparePaths(a, c) == ComparePaths(b, c)
  }

  /** The same for points. */
  lemma PathsTieIsExact(a: seq<Path>, b: seq<Path>)
    requires Numeric(a) && Numeric(b) && ComparePaths(a, b) == 0
    ensures PathsAlike(a, b) <==> EndAlike(a, b)
  {
    hide ComparePaths, EndAlike, Numeric;
    if EndAlike(a, b) {
      forall c: seq<Path>
        ensures ComparePaths(a, c) == ComparePaths(b, c)
      {
        EndAlikeWithAny(a, b, c);
      }
    } else {
      var c := TellApart(a, b);
    }
  }

  ghost predicate CfisAlike(a: Cfi, b: Cfi)
    requires Parsed(a) && Parsed(b)
  {
    forall c: Cfi :: Parsed(c) && NumericCfi(c) ==> CompareCfis(a, c) == CompareCfis(b, c)
  }

  /** A range with these ends. */
  function Spanning(start: seq<Path>, end: seq<Path>): Cfi {
    Range([[]], start, end)
  }

  lemma FromNothing(a: seq<Path>)
    requires a != []
    ensures ConcatArrays([[]], a) == a
  {
    var none: Path := [];
    assert none + a[0] == a[0];
  }

  lemma SpanningEnds(start: seq<Path>, end: seq<Path>)
    requires start != [] && end != []
    ensures var c := Spanning(start, end);
            Parsed(c) && Collapse(c, false) == start && Collapse(c, true) == end
  {
    FromNothing(start);
    FromNothing(end);
  }

  /** Two CFIs that tie, points or ranges, compare alike with every other exactly when path by path, at
      both ends, both have an offset or neither does: elsewhere a tie is not an equality. */
  lemma TieIsEqualityIff(a: Cfi, b: Cfi)
    requires Parsed(a) && Parsed(b) && NumericCfi(a) && NumericCfi(b) && CompareCfis(a, b) == 0
    ensures CfisAlike(a, b) <==>
      && EndAlike(Collapse(a, false), Collapse(b, false))
      && EndAlike(Collapse(a, true), Collapse(b, true))
  {
    hide Collapse, CompareCfis, ComparePaths, EndAlike, Numeric;
    CompareByEnds(a, b);
    var s, e, t, f := Collapse(a, false), Collapse(a, true), Collapse(b, false), Collapse(b, true);
    if !EndAlike(s, t) {
      StartsTellApart(a, b);
    } else if !EndAlike(e, f) {
      var c := TellApart(e, f);
      SpanningEnds(s, c);
      var z := Spanning(s, c);
      CompareByEnds(a, z);
      CompareByEnds(b, z);
      EndAlikeWithAny(s, t, s);
      TieOfItself(s);
    } else {
      forall c: Cfi | Parsed(c) && NumericCfi(c)
        ensures CompareCfis(a, c) == CompareCfis(b, c)
      {
        CompareByEnds(a, c);
        CompareByEnds(b, c);
        EndAlikeWithAny(s, t, Collapse(c, false));
        EndAlikeWithAny(e, f, Collapse(c, true));
      }
    }
  }

  lemma {:induction false} TieOfItself(a: seq<Path>)
    ensures ComparePaths(a, a) == 0
  {
    PathsAntisymmetric(a, a);
  }

  lemma StartsTellApart(a: Cfi, b: Cfi)
    requires Parsed(a) && Parsed(b) && NumericCfi(a) && NumericCfi(b) && CompareCfis(a, b) == 0
    requires !EndAlike(Collapse(a, false), Collapse(b, false))
    ensures !CfisAlike(a, b)
  {
    hide Collapse, CompareCfis, ComparePaths, EndAlike, Numeric;
    CompareByEnds(a, b);
    var s, e, t, f := Collapse(a, false), Collapse(a, true), Collapse(b, false), Collapse(b, true);
    var c := TellApart(s, t);
    var end := if ComparePaths(s, c) == 0 then e else f;
    SpanningEnds(c, end);
    var z := Spanning(c, end);
    CompareByEnds(a, z);
    CompareByEnds(b, z);
    TieOfItself(end);
    assert CompareCfis(a, z) != CompareCfis(b, z);
  }

  /** The first path on which two points differ decides: the one in the package before those in the
      documents that it leads to. */
  lemma {:induction false} FirstDifferenceDecides(common: seq<Path>, p: Path, q: Path, x: seq<Path>, y: seq<Path>)
    requires CompareSteps(p, q) != 0
    ensures ComparePaths(common + [p] + x, common + [q] + y) == CompareSteps(p, q)
    decreases |common|
  {
    hide CompareSteps;
    var a, b := common + [p] + x, common + [q] + y;
    if common == [] {
      assert a == [p] + x && b == [q] + y;
    } else {
      assert Rest(a) == common[1..] + [p] + x && Rest(b) == common[1..] + [q] + y;
      assert First(a) == common[0] == First(b);
      SameAsItself(common[0]);
      FirstDifferenceDecides(common[1..], p, q, x, y);
    }
  }
}
