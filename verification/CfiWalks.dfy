/** Where steps lead in a document (partsToNode in frontend/public/foliate/epubcfi.js), said from the
    children alone: before, after and inside an element, to places that have no node, and into the
    text between two elements. */
module CfiWalks {
  import opened Wrappers
  import opened CfiSyntax
  import opened CfiDom
  import opened CfiNodes

  /** Every step of the path is the index of an element, and the last one is at the address. */
  predicate LeadsTo(n: Node, a: Address, p: Path)
    decreases |a|
  {
    if a == [] then p == []
    else
      && p != [] && n.Element? && a[0] < |n.children| && n.children[a[0]].Element?
      && p[0].index == Num(IndexOf(n.children, a[0])) && LeadsTo(n.children[a[0]], a[1..], p[1..])
  }

  lemma {:induction false} LeadsToElement(n: Node, a: Address, p: Path)
    requires n.Element? && LeadsTo(n, a, p)
    ensures InTree(n, a) && NodeAt(n, a).Element?
    decreases |a|
  {
    if a != [] {
      LeadsToElement(n.children[a[0]], a[1..], p[1..]);
    }
  }

  lemma WalkToElement(root: Node, above: Address, i: nat)
    requires InTree(root, above) && NodeAt(root, above).Element?
    requires i < |NodeAt(root, above).children| && NodeAt(root, above).children[i].Element?
    ensures WalkStep(root, On(above), Num(IndexOf(NodeAt(root, above).children, i))) == On(above + [i])
    ensures InTree(root, above + [i]) && NodeAt(root, above + [i]) == NodeAt(root, above).children[i]
  {
    hide Slots, IndexOf;
    SlotOf(NodeAt(root, above).children, i);
    ChildInTree(root, above, i);
  }

  lemma {:induction false} WalksTo(root: Node, above: Address, a: Address, p: Path)
    requires InTree(root, above) && NodeAt(root, above).Element? && LeadsTo(NodeAt(root, above), a, p)
    ensures InTree(root, above + a)
    ensures Walked(root, On(above), p) == On(above + a)
    decreases |a|
  {
    hide WalkStep, IndexOf, InTree, NodeAt;
    if a == [] {
      assert above + a == above;
    } else {
      WalkToElement(root, above, a[0]);
      WalksTo(root, above + [a[0]], a[1..], p[1..]);
      assert above + a == above + [a[0]] + a[1..];
    }
  }

  // ---- slots with nothing in them ----

  /** Slots hold children, but for holes between the first and the last. */
  predicate HoldChildren(nodes: seq<Slot>) {
    && (forall k :: 0 <= k < |nodes| ==> nodes[k].Hole? || Members(nodes[k]) != [])
    && (nodes != [] ==> Members(nodes[0]) != [] && Members(nodes[|nodes| - 1]) != [])
  }

  lemma ReduceHolds(children: seq<Node>, nodes: seq<Slot>, n: nat)
    requires n < |children| && HoldChildren(nodes)
    ensures HoldChildren(Reduce(children, nodes, n))
  {
    var next := Reduce(children, nodes, n);
    assert forall k :: 0 <= k < |nodes| - 1 ==> next[k] == nodes[k];
  }

  lemma {:induction false} ReducedShape(children: seq<Node>, n: nat)
    requires n <= |children|
    ensures HoldChildren(Reduced(children, n))
  {
    hide Reduce, HoldChildren;
    if n > 0 {
      ReducedShape(children, n - 1);
      ReduceHolds(children, Reduced(children, n - 1), n - 1);
    } else {
      assert HoldChildren([]) by { NoSlots(); }
    }
  }

  lemma NoSlots()
    ensures HoldChildren([])
  {
  }

  /** A slot that holds no child: the virtual ends, the place before a first or after a last element, or
      the place between two elements. */
  lemma EmptySlot(children: seq<Node>, k: nat)
    requires Slots(children).Some?
    requires k < |Slots(children).value| && Having(children, |children|, k) == []
    ensures var r := Slots(children).value;
            r[k] == if k == 0 then Before else if k == |r| - 1 then After
                    else if k == 1 then First else if k == |r| - 2 then Last else Hole
  {
    hide Reduced, Having;
    SlotsIndex(children);
    ReducedShape(children, |children|);
    var r, nodes := Slots(children).value, Reduced(children, |children|);
    assert Members(r[k]) == [];
  }

  /** A slot that holds one child is that child, and one that holds more is their chunk. */
  lemma FullSlot(children: seq<Node>, k: nat)
    requires Slots(children).Some?
    requires k < |Slots(children).value| && Having(children, |children|, k) != []
    ensures var r, texts := Slots(children).value, Having(children, |children|, k);
            r[k] == if |texts| == 1 then Single(texts[0]) else Chunk(texts)
  {
    hide Slots, Having;
    SlotsIndex(children);
    assert Members(Slots(children).value[k]) == Having(children, |children|, k);
  }

  // ---- where the next step leads ----

  predicate AllIgnored(children: seq<Node>) {
    forall i :: 0 <= i < |children| ==> children[i].Ignored?
  }

  lemma NextWalk(root: Node, a: Address, k: nat)
    requires InTree(root, a) && NodeAt(root, a).Element?
    ensures var c := NodeAt(root, a).children;
            var e, texts, w := Elements(c, |c|), Having(c, |c|, k), WalkStep(root, On(a), Num(k));
            w == if AllIgnored(c) then Arrived(Throws)
                 else if k > 2 * e + 2 then Lost
                 else if |texts| == 1 then On(a + [texts[0]])
                 else if |texts| > 1 then OnChunk(a, texts)
                 else if k == 0 then Arrived(BeforeNode(a))
                 else if k == 2 * e + 2 then Arrived(AfterNode(a))
                 else if k == 1 then Arrived(At(a + [0], None))
                 else if k == 2 * e + 1 then Arrived(At(a + [|c| - 1], None))
                 else Lost
  {
    hide Slots, Having, Elements;
    var c := NodeAt(root, a).children;
    SlotsIndex(c);
    if Slots(c).Some? && k < |Slots(c).value| {
      if Having(c, |c|, k) == [] {
        EmptySlot(c, k);
      } else {
        FullSlot(c, k);
      }
    }
  }

  lemma {:induction false} WalkLost(root: Node, parts: Path)
    ensures Walked(root, Lost, parts) == Lost
    decreases |parts|
  {
    if parts != [] {
      WalkLost(root, parts[1..]);
    }
  }

  /** Beyond a text there is nothing to walk on. */
  lemma WalkBeyondText(root: Node, w: Walk, parts: Path)
    requires OnTree(root, w) && parts != []
    requires w.OnChunk? || (w.On? && !NodeAt(root, w.node).Element?)
    ensures Walked(root, w, parts) == Arrived(Throws)
  {
    WalkStepOnTree(root, w, parts[0].index);
    WalkEnded(root, Throws, parts[1..]);
  }

  lemma WalkNext(root: Node, a: Address, p: Path, q: Part, rest: Path)
    requires root.Element? && LeadsTo(root, a, p)
    ensures InTree(root, a) && NodeAt(root, a).Element?
    ensures OnTree(root, WalkStep(root, On(a), q.index))
    ensures Walked(root, On([]), p + [q] + rest) == Walked(root, WalkStep(root, On(a), q.index), rest)
  {
    hide WalkStep;
    LeadsToElement(root, a, p);
    WalkStepOnTree(root, On(a), q.index);
    WalksTo(root, [], a, p);
    assert [] + a == a && p + [q] + rest == p + ([q] + rest) && ([q] + rest)[1..] == rest;
    WalkedConcat(root, On([]), p, [q] + rest);
  }

  /** No id decides: the last step has none, or no element of the document has it. */
  predicate ByIndices(root: Node, parts: Path)
    requires parts != []
  {
    var id := parts[|parts| - 1].id;
    Truthy(id) ==> ElementById(root, id.value).None?
  }

  /** Where steps to an element, one more step and perhaps others lead when no id decides. Nothing is
      indexed in an element without elements and texts. Otherwise index 0 is before the element and the
      index after its last text behind it; where nothing has the index, the first and the last one stand
      for the first and the last child, and any other is nowhere; and beyond a text there is no step. */
  lemma WhereStepsLead(root: Node, a: Address, p: Path, q: Part, k: nat, rest: Path)
    requires root.Element? && LeadsTo(root, a, p) && q.index == Num(k) && ByIndices(root, p + [q] + rest)
    ensures InTree(root, a) && NodeAt(root, a).Element?
    ensures var c := NodeAt(root, a).children;
            var e, texts, r := Elements(c, |c|), Having(c, |c|, k), LocationOf(root, p + [q] + rest);
            var last := (p + [q] + rest)[|p| + |rest|];
            if AllIgnored(c) then r == Throws
            else if k > 2 * e + 2 then r == Nowhere(last.offset)
            else if texts == [] then
              r == if k == 0 then BeforeNode(a)
                   else if k == 2 * e + 2 then AfterNode(a)
                   else if k == 1 then At(a + [0], None)
                   else if k == 2 * e + 1 then At(a + [|c| - 1], None)
                   else Nowhere(last.offset)
            else if rest == [] then
              && (|texts| == 1 ==> r == At(a + [texts[0]], last.offset))
              && (|texts| > 1 ==> AllBelow(texts, |c|) && r == InChunk(c, a, texts, 0, last.offset))
            else
              texts[0] < |c| && (!c[texts[0]].Element? ==> r == Throws)
  {
    hide Having, Elements, WalkStep, ElementById, InChunk;
    var parts := p + [q] + rest;
    WalkNext(root, a, p, q, rest);
    NextWalk(root, a, k);
    var c := NodeAt(root, a).children;
    var w, texts := WalkStep(root, On(a), Num(k)), Having(c, |c|, k);
    IndexedBelow(c, k);
    match w {
      case Arrived(at) => WalkEnded(root, at, rest);
      case Lost => WalkLost(root, rest);
      case OnChunk(_, _) =>
        ChunkOfTexts(c, k);
        if rest != [] { WalkBeyondText(root, w, rest); }
      case On(b) =>
        ChildInTree(root, a, texts[0]);
        if rest != [] && !c[texts[0]].Element? { WalkBeyondText(root, w, rest); }
    }
  }

  lemma IndexedBelow(children: seq<Node>, k: nat)
    ensures AllBelow(Having(children, |children|, k), |children|)
    ensures k == 0 || k > 2 * Elements(children, |children|) + 1 ==> Having(children, |children|, k) == []
  {
    var texts := Having(children, |children|, k);
    HavingIndex(children, |children|, k);
    assert forall j :: 0 <= j < |texts| ==> texts[j] in texts;
    if texts != [] {
      assert texts[0] in texts;
      if k > 2 * Elements(children, |children|) + 1 { NoneBeyond(children, |children|, k); }
    }
  }

  lemma ChunkOfTexts(children: seq<Node>, k: nat)
    requires |Having(children, |children|, k)| > 1
    ensures var i := Having(children, |children|, k)[0]; i < |children| && !children[i].Element?
  {
    var texts := Having(children, |children|, k);
    HavingIndex(children, |children|, k);
    assert texts[0] in texts;
    if children[texts[0]].Element? {
      HavingElement(children, |children|, texts[0]);
    }
  }

  /** A step that is not a number leads nowhere. */
  lemma WhereNoNumberLeads(root: Node, a: Address, p: Path, q: Part, rest: Path)
    requires root.Element? && LeadsTo(root, a, p) && q.index.NaN? && ByIndices(root, p + [q] + rest)
    ensures InTree(root, a) && NodeAt(root, a).Element?
    ensures LocationOf(root, p + [q] + rest) ==
      if AllIgnored(NodeAt(root, a).children) then Throws else Nowhere((p + [q] + rest)[|p| + |rest|].offset)
  {
    hide Slots, ElementById;
    WalkNext(root, a, p, q, rest);
    SlotsIndex(NodeAt(root, a).children);
    WalkLost(root, rest);
    WalkEnded(root, Throws, rest);
  }

  // ---- in a chunk ----

  /** The length of the first j texts of a chunk. */
  function LengthOfFirst(children: seq<Node>, texts: seq<nat>, j: nat): nat
    requires AllBelow(texts, |children|) && j <= |texts|
  {
    if j == 0 then 0 else LengthOfFirst(children, texts, j - 1) + LengthOf(children[texts[j - 1]])
  }

  /** An offset in a chunk is in the first text that it does not exceed, counted from that text's start;
      past the end of the chunk, and without a number, there is no result. */
  lemma WhereOffsetLeads(children: seq<Node>, parent: Address, texts: seq<nat>, offset: Option<Number>)
    requires AllBelow(texts, |children|) && texts != []
    ensures var r := InChunk(children, parent, texts, 0, offset);
            if offset.None? || offset.value.NaN? || offset.value.n > LengthOfFirst(children, texts, |texts|)
            then r == NoResult
            else exists j :: 0 <= j < |texts| && InText(children, texts, j, offset.value.n)
                   && r == At(parent + [texts[j]], Some(Num(offset.value.n - LengthOfFirst(children, texts, j))))
  {
    hide InChunk, InText, LengthOfFirst;
    assert LengthOfFirst(children, texts, 0) == 0 by { LengthOfNone(children, texts); }
    OffsetFrom(children, parent, texts, 0, offset);
    assert texts[0..] == texts;
  }

  /** The text is the first that reaches the offset. */
  predicate InText(children: seq<Node>, texts: seq<nat>, j: nat, offset: nat)
    requires AllBelow(texts, |children|) && j < |texts|
  {
    && offset <= LengthOfFirst(children, texts, j + 1)
    && LengthOfFirst(children, texts, j) <= offset && (j > 0 ==> LengthOfFirst(children, texts, j) < offset)
  }

  lemma {:induction false} OffsetFrom(children: seq<Node>, parent: Address, texts: seq<nat>, i: nat,
                                      offset: Option<Number>)
    requires AllBelow(texts, |children|) && texts != [] && i <= |texts|
    requires var sum := LengthOfFirst(children, texts, i); i == 0 || !Reaches(sum, offset)
    ensures var sum := LengthOfFirst(children, texts, i);
            && AllBelow(texts[i..], |children|) && (sum == 0 || !Reaches(sum, offset))
            && var r := InChunk(children, parent, texts[i..], sum, offset);
               if offset.None? || offset.value.NaN? || offset.value.n > LengthOfFirst(children, texts, |texts|)
               then r == NoResult
               else exists j :: i <= j < |texts| && InText(children, texts, j, offset.value.n)
                      && r == At(parent + [texts[j]], Some(Num(offset.value.n - LengthOfFirst(children, texts, j))))
    decreases |texts| - i
  {
    hide LengthOfFirst, InText, LengthOf;
    LengthOfNone(children, texts);
    var sum := LengthOfFirst(children, texts, i);
    if i < |texts| {
      LengthNext(children, texts, i);
      LengthGrows(children, texts, i + 1, |texts|);
      assert texts[i..][1..] == texts[i + 1..] && texts[i..][0] == texts[i];
      if Reaches(sum + LengthOf(children[texts[i]]), offset) {
        InTextIs(children, texts, i, offset.value.n);
      } else {
        OffsetFrom(children, parent, texts, i + 1, offset);
      }
    }
  }

  lemma LengthOfNone(children: seq<Node>, texts: seq<nat>)
    requires AllBelow(texts, |children|)
    ensures LengthOfFirst(children, texts, 0) == 0
  {
  }

  lemma LengthNext(children: seq<Node>, texts: seq<nat>, i: nat)
    requires AllBelow(texts, |children|) && i < |texts|
    ensures LengthOfFirst(children, texts, i + 1) == LengthOfFirst(children, texts, i) + LengthOf(children[texts[i]])
  {
  }

  lemma InTextIs(children: seq<Node>, texts: seq<nat>, j: nat, offset: nat)
    requires AllBelow(texts, |children|) && j < |texts|
    requires offset <= LengthOfFirst(children, texts, j + 1)
    requires j == 0 || LengthOfFirst(children, texts, j) < offset
    ensures InText(children, texts, j, offset)
  {
    LengthOfNone(children, texts);
  }

  lemma {:induction false} LengthGrows(children: seq<Node>, texts: seq<nat>, i: nat, j: nat)
    requires AllBelow(texts, |children|) && i <= j <= |texts|
    ensures LengthOfFirst(children, texts, i) <= LengthOfFirst(children, texts, j)
    decreases j - i
  {
    if i < j {
      LengthGrows(children, texts, i, j - 1);
    }
  }

  // ---- by id ----

  /** Document order: an element is before what is in it, and a child before its later siblings. */
  predicate NotAfter(a: Address, b: Address)
    decreases |a|
  {
    a == [] || (b != [] && (a[0] < b[0] || (a[0] == b[0] && NotAfter(a[1..], b[1..]))))
  }

  lemma {:induction false} FirstById(n: Node, id: string, b: Address)
    requires InTree(n, b) && NodeAt(n, b).Element? && NodeAt(n, b).id == id
    ensures ElementById(n, id).Some? && NotAfter(ElementById(n, id).value, b)
    decreases n, 1, 0
  {
    if n.id != id {
      FirstChildById(n, n.children, id, 0, b);
    }
  }

  lemma {:induction false} FirstChildById(n: Node, rest: seq<Node>, id: string, at: nat, b: Address)
    requires n.Element? && at <= |n.children| && rest == n.children[at..]
    requires InTree(n, b) && b != [] && b[0] >= at && NodeAt(n, b).Element? && NodeAt(n, b).id == id
    ensures ChildById(rest, id, at).Some? && NotAfter(ChildById(rest, id, at).value, b)
    decreases n, 0, |rest|
  {
    assert rest[0] == n.children[at] && rest[0] in n.children;
    var found := ElementById(rest[0], id);
    if b[0] == at {
      FirstById(rest[0], id, b[1..]);
      assert ([at] + found.value)[1..] == found.value;
    } else if found.None? {
      FirstChildById(n, rest[1..], id, at + 1, b);
    }
  }

  /** The id of the last step decides as soon as some element has it: the location is the start of the
      first such element in document order, wherever the indices lead. */
  lemma WhereIdLeads(root: Node, parts: Path, b: Address)
    requires parts != [] && Truthy(parts[|parts| - 1].id)
    requires InTree(root, b) && NodeAt(root, b).Element? && NodeAt(root, b).id == parts[|parts| - 1].id.value
    ensures var r := LocationOf(root, parts);
            && r.At? && r.offset == Some(Num(0)) && NotAfter(r.node, b)
            && InTree(root, r.node) && NodeAt(root, r.node).Element? && NodeAt(root, r.node).id == NodeAt(root, b).id
  {
    hide ElementById, Walked;
    var id := parts[|parts| - 1].id.value;
    FirstById(root, id, b);
    FoundById(root, id);
  }
}
