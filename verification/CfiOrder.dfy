/** The order of CFIs is the order of the document: compare on the paths of two places agrees with
    where they stand in a linear reading (frontend/public/foliate/epubcfi.js), as section 3.3 (Sorting
    Rules) of EPUB Canonical Fragment Identifiers 1.1 asks. */
module CfiOrder {
  import opened Wrappers
  import opened CfiSyntax
  import opened CfiReading
  import opened CfiRoundTrip
  import opened CfiRange
  import opened CfiDom
  import opened CfiNodes

  /** The length of a node in a linear reading of the document: two for an element's start, one for
      its end, one for a character. */
  function Weight(n: Node): nat {
    match n
    case Element(_, children) => 3 + TotalWeight(children)
    case Text(data) => |data|
    case Ignored => 0
  }

  function TotalWeight(children: seq<Node>): nat {
    if children == [] then 0 else TotalWeight(children[..|children| - 1]) + Weight(children[|children| - 1])
  }

  /** Where the reading stands on a node: inside the start of an element, or before a character. */
  function Position(n: Node, a: Address, offset: nat): nat
    requires n.Element? && a != [] && InTree(n, a)
    decreases |a|
  {
    assert |a| > 1 ==> a[1..] != [] && InTree(n.children[a[0]], a[1..]);
    TotalWeight(n.children[..a[0]])
    + if |a| > 1 then 2 + Position(n.children[a[0]], a[1..], offset)
      else if n.children[a[0]].Text? then offset
      else 1
  }

  function OffsetFor(n: Node, offset: nat): Option<nat> {
    if n.Text? then Some(offset) else None
  }

  /** A place in the document: an element, or a character position of a text. */
  predicate IsPlace(n: Node, a: Address, offset: nat) {
    && n.Element? && a != [] && InTree(n, a) && !NodeAt(n, a).Ignored?
    && (NodeAt(n, a).Text? ==> offset <= |NodeAt(n, a).data|)
  }

  /** The CFI path of a place. */
  function PathOfPlace(n: Node, a: Address, offset: nat): Path
    requires IsPlace(n, a, offset)
  {
    Steps(n, a, OffsetFor(NodeAt(n, a), offset))
  }

  lemma {:induction false} WeightMonotone(children: seq<Node>, i: nat, j: nat)
    requires i < j <= |children|
    ensures TotalWeight(children[..i]) + Weight(children[i]) <= TotalWeight(children[..j])
    decreases j
  {
    var front := children[..j];
    assert front[..j - 1] == children[..j - 1];
    if i < j - 1 {
      WeightMonotone(children, i, j - 1);
    }
  }

  /** A place is under a child that is not ignored. */
  lemma FirstOfPlace(n: Node, a: Address, o: nat)
    requires IsPlace(n, a, o)
    ensures a[0] < |n.children| && !n.children[a[0]].Ignored?
    ensures n.children[a[0]].Text? ==> |a| == 1 && NodeAt(n, a) == n.children[a[0]]
    ensures |a| == 1 ==> NodeAt(n, a) == n.children[a[0]]
    ensures |a| > 1 ==>
      && a[1..] != [] && n.children[a[0]].Element? && IsPlace(n.children[a[0]], a[1..], o)
      && NodeAt(n.children[a[0]], a[1..]) == NodeAt(n, a)
  {
    var child, rest := n.children[a[0]], a[1..];
    assert InTree(child, rest) && NodeAt(child, rest) == NodeAt(n, a);
    if |a| > 1 {
      assert rest != [];
    } else {
      assert rest == [];
    }
  }

  lemma {:induction false} PositionInside(n: Node, a: Address, offset: nat)
    requires IsPlace(n, a, offset)
    ensures var child, before := n.children[a[0]], TotalWeight(n.children[..a[0]]);
            && before <= Position(n, a, offset) <= before + Weight(child)
            && (child.Element? ==> before < Position(n, a, offset) < before + Weight(child))
    ensures Position(n, a, offset) <= TotalWeight(n.children)
    decreases |a|
  {
    assert n.children[..|n.children|] == n.children;
    WeightMonotone(n.children, a[0], |n.children|);
    FirstOfPlace(n, a, offset);
    if |a| > 1 {
      PositionInside(n.children[a[0]], a[1..], offset);
    }
  }

  // ---- places under different children ----

  /** Two children with different indices are apart by at least the weight of what lies between. */
  lemma ChildrenApart(children: seq<Node>, i: nat, j: nat)
    requires i < |children| && j < |children| && !children[i].Ignored? && !children[j].Ignored?
    requires IndexOf(children, i) < IndexOf(children, j)
    ensures i < j && TotalWeight(children[..i]) + Weight(children[i]) <= TotalWeight(children[..j])
    ensures children[i].Text? && children[j].Text? ==>
      TotalWeight(children[..i]) + Weight(children[i]) < TotalWeight(children[..j])
  {
    if j <= i {
      ElementsMonotone(children, j, i);
    }
    assert i < j;
    WeightMonotone(children, i, j);
    if children[i].Text? && children[j].Text? {
      var m := ElementBetween(children, i, j);
      WeightMonotone(children, i, m);
      WeightMonotone(children, m, j);
    }
  }

  lemma {:induction false} ElementBetween(children: seq<Node>, i: nat, j: nat) returns (m: nat)
    requires i < j <= |children| && Elements(children, i) < Elements(children, j) && !children[i].Element?
    ensures i < m < j && children[m].Element?
    decreases j
  {
    if children[j - 1].Element? {
      m := j - 1;
    } else {
      m := ElementBetween(children, i, j - 1);
    }
  }

  lemma IndexOrders(n: Node, a: Address, o: nat, b: Address, p: nat)
    requires IsPlace(n, a, o) && IsPlace(n, b, p)
    requires IndexOf(n.children, a[0]) < IndexOf(n.children, b[0])
    ensures Position(n, a, o) < Position(n, b, p)
  {
    hide IndexOf, Position;
    FirstOfPlace(n, a, o);
    FirstOfPlace(n, b, p);
    PositionInside(n, a, o);
    PositionInside(n, b, p);
    ChildrenApart(n.children, a[0], b[0]);
  }

  // ---- places in one chunk ----

  /** The weight up to the last element before child n. */
  function Base(children: seq<Node>, n: nat): nat
    requires n <= |children|
  {
    if n == 0 then 0
    else if children[n - 1].Element? then TotalWeight(children[..n])
    else Base(children, n - 1)
  }

  function TotalLength(children: seq<Node>, texts: seq<nat>): nat
    requires AllBelow(texts, |children|)
  {
    if texts == [] then 0 else LengthOf(children[texts[0]]) + TotalLength(children, texts[1..])
  }

  lemma {:induction false} TotalLengthSnoc(children: seq<Node>, texts: seq<nat>, i: nat)
    requires AllBelow(texts, |children|) && i < |children|
    ensures TotalLength(children, texts + [i]) == TotalLength(children, texts) + LengthOf(children[i])
    decreases |texts|
  {
    if texts == [] {
      assert ([] + [i])[1..] == [];
    } else {
      assert (texts + [i])[1..] == texts[1..] + [i];
      TotalLengthSnoc(children, texts[1..], i);
    }
  }

  lemma {:induction false} LengthBeforeIsTotal(children: seq<Node>, before: seq<nat>, i: nat, after: seq<nat>)
    requires i < |children| && i !in before && AllBelow(before, |children|) && AllBelow(after, |children|)
    ensures LengthBefore(children, before + [i] + after, i) == TotalLength(children, before)
    decreases |before|
  {
    var all := before + [i] + after;
    if before == [] {
      assert all[0] == i;
    } else {
      assert before[0] in before && all[0] == before[0];
      assert all[1..] == before[1..] + [i] + after;
      LengthBeforeIsTotal(children, before[1..], i, after);
    }
  }

  lemma WeightNext(children: seq<Node>, n: nat)
    requires 0 < n <= |children|
    ensures TotalWeight(children[..n]) == TotalWeight(children[..n - 1]) + Weight(children[n - 1])
  {
    assert children[..n][..n - 1] == children[..n - 1];
  }

  /** The texts after the last of n elements. */
  function OpenChunk(children: seq<Node>, n: nat): (texts: seq<nat>)
    requires n <= |children|
    ensures AllBelow(texts, |children|)
  {
    var k := 2 * Elements(children, n) + 1;
    HavingAscends(children, n, k);
    Having(children, n, k)
  }

  lemma OpenChunkNext(children: seq<Node>, n: nat)
    requires 0 < n <= |children|
    ensures OpenChunk(children, n)
            == if children[n - 1].Element? then []
               else OpenChunk(children, n - 1) + (if children[n - 1].Text? then [n - 1] else [])
  {
    if children[n - 1].Element? {
      NoneBeyond(children, n - 1, 2 * Elements(children, n) + 1);
    }
  }

  /** The open chunk after n children holds what weighs since the last element. */
  lemma {:induction false} BaseAndChunk(children: seq<Node>, n: nat)
    requires n <= |children|
    ensures TotalWeight(children[..n]) == Base(children, n) + TotalLength(children, OpenChunk(children, n))
  {
    hide OpenChunk, TotalWeight, AllBelow;
    if n > 0 {
      BaseAndChunk(children, n - 1);
      WeightNext(children, n);
      OpenChunkNext(children, n);
      var before := OpenChunk(children, n - 1);
      TotalLengthSnoc(children, before, n - 1);
      assert before + [] == before;
    } else {
      assert OpenChunk(children, 0) == [] && TotalWeight(children[..0]) == 0 by { NothingOpen(children); }
    }
  }

  lemma NothingOpen(children: seq<Node>)
    ensures OpenChunk(children, 0) == [] && TotalWeight(children[..0]) == 0
  {
  }

  lemma TextPlace(children: seq<Node>, i: nat)
    requires i < |children| && children[i].Text?
    ensures TotalWeight(children[..i]) == Base(children, i) + TextBefore(children, i)
  {
    hide Having, TotalWeight, Base, TotalLength, LengthBefore;
    var k := IndexOf(children, i);
    BaseAndChunk(children, i);
    HavingAscends(children, i, k);
    HavingAscends(children, |children|, k);
    var before := Having(children, i, k);
    var after := HavingSplits(children, |children|, i);
    assert forall x :: 0 <= x < |after| ==> after[x] == ChunkOf(children, i)[|before| + 1 + x];
    LengthBeforeIsTotal(children, before, i, after);
  }

  lemma {:induction false} SameBase(children: seq<Node>, i: nat, j: nat)
    requires i <= j <= |children| && Elements(children, i) == Elements(children, j)
    ensures Base(children, i) == Base(children, j)
    decreases j
  {
    if i < j {
      ElementsMonotone(children, i, j - 1);
      SameBase(children, i, j - 1);
    }
  }

  lemma SameIndex(children: seq<Node>, i: nat, j: nat)
    requires i < |children| && j < |children| && !children[i].Ignored? && !children[j].Ignored?
    requires IndexOf(children, i) == IndexOf(children, j)
    ensures children[i].Element? ==> i == j
    ensures children[i].Text? ==> children[j].Text? && Base(children, i) == Base(children, j)
  {
    if i <= j {
      ElementsMonotone(children, i, j);
      if children[i].Text? {
        SameBase(children, i, j);
      }
    } else {
      ElementsMonotone(children, j, i);
      if children[i].Text? {
        SameBase(children, j, i);
      }
    }
  }

  // ---- the order ----

  function Sign(x: int): int {
    if x < 0 then -1 else if x > 0 then 1 else 0
  }

  lemma TextOffset(children: seq<Node>, i: nat, o: nat)
    requires i < |children| && children[i].Text?
    ensures OffsetAt(children, i, Some(o)) == Some(TextBefore(children, i) + o)
  {
    ChunkFacts(children, i);
  }

  lemma HeadStep(n: Node, a: Address, o: nat)
    requires IsPlace(n, a, o)
    ensures var s, i := PathOfPlace(n, a, o), a[0];
            && |s| == |a| && (|a| > 1 ==> IsPlace(n.children[i], a[1..], o))
            && s[0].index == Num(IndexOf(n.children, i))
            && (|a| > 1 ==> s[1..] == PathOfPlace(n.children[i], a[1..], o))
            && (|a| == 1 && n.children[i].Element? ==> OffsetNumber(s[0]) == NaN)
            && (n.children[i].Text? ==> OffsetNumber(s[0]) == Num(TextBefore(n.children, i) + o))
    decreases |a|
  {
    hide OffsetAt, IndexOf, TextBefore;
    FirstOfPlace(n, a, o);
    var i := a[0];
    if |a| > 1 {
      HeadStep(n.children[i], a[1..], o);
    } else if n.children[i].Text? {
      TextOffset(n.children, i, o);
    } else {
      ElementOffset(n.children, i, None);
    }
  }

  /** The sign of comparing two paths is the sign of the distance in the document. */
  lemma {:induction false} StepsFollowDocument(n: Node, a: Address, o: nat, b: Address, p: nat)
    requires IsPlace(n, a, o) && IsPlace(n, b, p)
    ensures CompareSteps(PathOfPlace(n, a, o), PathOfPlace(n, b, p)) == Sign(Position(n, a, o) - Position(n, b, p))
    decreases |a|
  {
    hide IndexOf, Elements, PathOfPlace, TextBefore, Base, TotalWeight;
    var i, j, children := a[0], b[0], n.children;
    FirstOfPlace(n, a, o);
    FirstOfPlace(n, b, p);
    HeadStep(n, a, o);
    HeadStep(n, b, p);
    if IndexOf(children, i) < IndexOf(children, j) {
      IndexOrders(n, a, o, b, p);
    } else if IndexOf(children, j) < IndexOf(children, i) {
      IndexOrders(n, b, p, a, o);
    } else {
      SameIndex(children, i, j);
      if children[i].Text? {
        TextPlace(children, i);
        TextPlace(children, j);
      } else if |a| > 1 && |b| > 1 {
        StepsFollowDocument(children[i], a[1..], o, b[1..], p);
      }
    }
  }

  /** For any two places of a document, compare on the CFIs that nodeToParts gives them has the sign
      of their distance in document order; it is zero exactly for one element, or for one character
      position of a chunk. */
  lemma CompareFollowsDocument(root: Node, a: Address, o: nat, b: Address, p: nat)
    requires IsPlace(root, a, o) && IsPlace(root, b, p)
    ensures var x, y := PartsOf(root, a, OffsetFor(NodeAt(root, a), o)),
                        PartsOf(root, b, OffsetFor(NodeAt(root, b), p));
            && x.Some? && y.Some?
            && CompareCfis(Point([x.value]), Point([y.value])) == Sign(Position(root, a, o) - Position(root, b, p))
  {
    PartsAreSteps(root, a, OffsetFor(NodeAt(root, a), o));
    PartsAreSteps(root, b, OffsetFor(NodeAt(root, b), p));
    StepsFollowDocument(root, a, o, b, p);
    hide CompareSteps, Position, Steps, PartsOf;
    CompareAlone(PathOfPlace(root, a, o), PathOfPlace(root, b, p));
  }

  lemma CompareAlone(p: Path, q: Path)
    ensures ComparePaths([p], [q]) == CompareSteps(p, q)
  {
    hide CompareSteps;
    assert Rest([p]) == [] && Rest([q]) == [];
    assert ComparePaths([], []) == 0;
  }

  /** Two ranges, or a range and a point, whose ends are places of a document: the start that is first in
      the document decides, and of ranges with the same start the end that is first. */
  lemma RangesFollowDocument(root: Node, x: Cfi, a: Address, o: nat, b: Address, p: nat,
                             y: Cfi, c: Address, q: nat, d: Address, r: nat)
    requires IsPlace(root, a, o) && IsPlace(root, b, p) && IsPlace(root, c, q) && IsPlace(root, d, r)
    requires CfiRange.Parsed(x) && CfiRange.Parsed(y) && (x.Range? || y.Range?)
    requires Collapse(x, false) == [PathOfPlace(root, a, o)] && Collapse(x, true) == [PathOfPlace(root, b, p)]
    requires Collapse(y, false) == [PathOfPlace(root, c, q)] && Collapse(y, true) == [PathOfPlace(root, d, r)]
    ensures CompareCfis(x, y) ==
      if Position(root, a, o) != Position(root, c, q) then Sign(Position(root, a, o) - Position(root, c, q))
      else Sign(Position(root, b, p) - Position(root, d, r))
  {
    hide Position, PathOfPlace, Collapse;
    StepsFollowDocument(root, a, o, c, q);
    StepsFollowDocument(root, b, p, d, r);
    CompareAlone(PathOfPlace(root, a, o), PathOfPlace(root, c, q));
    CompareAlone(PathOfPlace(root, b, p), PathOfPlace(root, d, r));
  }

  // ---- through the printed text ----

  /** A step with an index, an id and an offset only, and an offset only when the index is odd. */
  predicate Bare(p: Part) {
    && p.index.Num? && p == EmptyPart(p.index).(id := p.id, offset := p.offset)
    && (p.offset.Some? ==> IsOdd(p.index))
  }

  lemma {:induction false} PlaceIsBare(n: Node, a: Address, o: nat)
    requires IsPlace(n, a, o)
    ensures forall p <- PathOfPlace(n, a, o) :: Bare(p)
    decreases |a|
  {
    FirstOfPlace(n, a, o);
    var i := a[0];
    if |a| > 1 {
      PlaceIsBare(n.children[i], a[1..], o);
    } else if n.children[i].Element? {
      ElementOffset(n.children, i, None);
    }
  }

  lemma BareCanon(p: Part)
    requires Bare(p)
    ensures Printable(p) && CanonPart(p) == p.(id := if Truthy(p.id) then p.id else None)
  {
  }

  lemma {:induction false} WalkByIndex(root: Node, w: Walk, x: Path, y: Path)
    requires OnTree(root, w) && |x| == |y| && forall i :: 0 <= i < |x| ==> x[i].index == y[i].index
    ensures Walked(root, w, x) == Walked(root, w, y)
    decreases |x|
  {
    hide WalkStep;
    if x != [] {
      WalkStepOnTree(root, w, x[0].index);
      assert x[0].index == y[0].index;
      WalkByIndex(root, WalkStep(root, w, x[0].index), x[1..], y[1..]);
    }
  }

  /** Printing a place's CFI and parsing it back leads to the same location as its steps do. */
  lemma PlaceSurvivesPrinting(root: Node, a: Address, o: nat)
    requires IsPlace(root, a, o)
    ensures var path := PathOfPlace(root, a, o);
            var parsed := ParseCfi(ToString(Point([path])));
            && parsed.Whole? && parsed.cfi.Point? && |parsed.cfi.paths| == 1
            && path != [] && parsed.cfi.paths[0] != []
            && LocationOf(root, parsed.cfi.paths[0]) == LocationOf(root, path)
  {
    hide ParseCfi, ToString, PathOfPlace, CanonPart, Bare, Printable, Walked;
    var path := PathOfPlace(root, a, o);
    HeadStep(root, a, o);
    PlaceIsBare(root, a, o);
    forall i | 0 <= i < |path|
      ensures Printable(path[i]) && CanonPart(path[i]) ==
              path[i].(id := if Truthy(path[i].id) then path[i].id else None)
    {
      assert path[i] in path;
      BareCanon(path[i]);
    }
    assert PrintablePath(path) && PrintableCfi(Point([path]));
    ParseOfPrinted(Point([path]));
    var canon := CanonPath(path);
    assert CanonPaths([path]) == [canon];
    var last := |path| - 1;
    assert canon[last] == CanonPart(path[last]);
    WalkByIndex(root, On([]), path, canon);
    assert LocationOf(root, canon) == LocationOf(root, path);
  }
}
