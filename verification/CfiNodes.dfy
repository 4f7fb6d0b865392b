/** Nodes and their CFIs: a node's steps lead back to it (frontend/public/foliate/epubcfi.js). */
module CfiNodes {
  import opened Wrappers
  import opened CfiSyntax
  import opened CfiDom

  // ---- the slot of a child ----

  lemma {:induction false} ElementsMonotone(children: seq<Node>, m: nat, n: nat)
    requires m <= n <= |children|
    ensures Elements(children, m) <= Elements(children, n)
    ensures (exists i :: m <= i < n && children[i].Element?) ==> Elements(children, m) < Elements(children, n)
  {
    if m < n {
      ElementsMonotone(children, m, n - 1);
    }
  }

  /** Ascending, and below n. */
  predicate Ascending(xs: seq<nat>, n: nat) {
    && (forall x, y :: 0 <= x < y < |xs| ==> xs[x] < xs[y])
    && (forall x :: 0 <= x < |xs| ==> xs[x] < n)
  }

  lemma AscendingSnoc(xs: seq<nat>, n: nat)
    requires Ascending(xs, n)
    ensures Ascending(xs, n + 1) && Ascending(xs + [n], n + 1)
  {
  }

  lemma {:induction false} HavingAscends(children: seq<Node>, n: nat, k: nat)
    requires n <= |children|
    ensures Ascending(Having(children, n, k), n)
  {
    if n > 0 {
      HavingAscends(children, n - 1, k);
      AscendingSnoc(Having(children, n - 1, k), n - 1);
      hide Ascending;
      assert Having(children, n - 1, k) + [] == Having(children, n - 1, k);
    }
  }

  /** A child's index class holds those before it, the child, and those after it. */
  lemma {:induction false} HavingSplits(children: seq<Node>, n: nat, i: nat) returns (after: seq<nat>)
    requires i < n <= |children| && !children[i].Ignored?
    ensures var k := IndexOf(children, i);
            Having(children, n, k) == Having(children, i, k) + [i] + after
  {
    var k := IndexOf(children, i);
    if n == i + 1 {
      after := [];
    } else {
      var before := HavingSplits(children, n - 1, i);
      after := before + (if !children[n - 1].Ignored? && IndexOf(children, n - 1) == k then [n - 1] else []);
    }
  }

  lemma {:induction false} NoneBeyond(children: seq<Node>, n: nat, k: nat)
    requires n <= |children| && k > 2 * Elements(children, n) + 1
    ensures Having(children, n, k) == []
  {
    if n > 0 {
      NoneBeyond(children, n - 1, k);
    }
  }

  lemma {:induction false} HavingElement(children: seq<Node>, n: nat, i: nat)
    requires i < n <= |children| && children[i].Element?
    ensures Having(children, n, IndexOf(children, i)) == [i]
  {
    if n == i + 1 {
      NoneBeyond(children, i, IndexOf(children, i));
    } else {
      HavingElement(children, n - 1, i);
      ElementsMonotone(children, i, n - 1);
    }
  }

  /** The slot at a child's index is the child alone, or, for a text, a chunk it belongs to. */
  lemma SlotOf(children: seq<Node>, i: nat)
    requires i < |children| && !children[i].Ignored?
    ensures Slots(children).Some?
    ensures var r, k := Slots(children).value, IndexOf(children, i);
            && k < |r| && FindSlot(r, i) == k
            && i in Members(r[k]) && Members(r[k]) == Having(children, |children|, k)
            && (r[k].Single? || r[k].Chunk?) && (children[i].Element? ==> r[k] == Single(i))
  {
    hide Slots, IndexOf, Having;
    SlotsIndex(children);
    var n, k := |children|, IndexOf(children, i);
    var r := Slots(children).value;
    assert k < |r| by { IndexInRange(children, i); }
    var after := HavingSplits(children, n, i);
    assert Having(children, n, k)[|Having(children, i, k)|] == i;
    var found := FindSlot(r, i);
    assert found == k by {
      HavingIndex(children, n, found);
    }
    if children[i].Element? {
      HavingElement(children, n, i);
    }
  }

  lemma IndexInRange(children: seq<Node>, i: nat)
    requires i < |children|
    ensures IndexOf(children, i) < 2 * Elements(children, |children|) + 3
  {
    ElementsMonotone(children, i, |children|);
  }

  // ---- steps from the root down ----

  function SlotAt(children: seq<Node>, i: nat): (slot: Slot)
    requires i < |children| && !children[i].Ignored?
    ensures slot.Single? || slot.Chunk?
    ensures Members(slot) == Having(children, |children|, IndexOf(children, i))
    ensures children[i].Element? ==> slot == Single(i)
  {
    SlotOf(children, i);
    Slots(children).value[IndexOf(children, i)]
  }

  /** The offset of a step to child i. */
  function OffsetAt(children: seq<Node>, i: nat, offset: Option<nat>): Option<nat>
    requires i < |children| && !children[i].Ignored?
  {
    HavingAscends(children, |children|, IndexOf(children, i));
    MergedOffset(children, SlotAt(children, i), i, offset)
  }

  /** The steps to a node, written from the root down, with the indices of the standard. */
  function Steps(n: Node, a: Address, offset: Option<nat>): Path
    requires n.Element? && a != [] && InTree(n, a) && !NodeAt(n, a).Ignored?
    decreases |a|
  {
    var i := a[0];
    var child := n.children[i];
    assert NodeAt(child, a[1..]) == NodeAt(n, a);
    if |a| == 1 then
      [StepOf(child, IndexOf(n.children, i), OffsetAt(n.children, i, offset))]
    else
      [StepOf(child, IndexOf(n.children, i), None)] + Steps(child, a[1..], offset)
  }

  lemma ElementOffset(children: seq<Node>, i: nat, offset: Option<nat>)
    requires i < |children| && children[i].Element?
    ensures OffsetAt(children, i, offset) == offset
  {
  }

  lemma {:induction false} StepsFromParent(n: Node, a: Address, offset: Option<nat>)
    requires n.Element? && |a| > 1 && InTree(n, a) && !NodeAt(n, a).Ignored?
    ensures var above, i := a[..|a| - 1], a[|a| - 1];
            && InTree(n, above) && NodeAt(n, above).Element? && i < |NodeAt(n, above).children|
            && NodeAt(n, above).children[i] == NodeAt(n, a)
            && var children := NodeAt(n, above).children;
               Steps(n, a, offset) == Steps(n, above, None)
                 + [StepOf(children[i], IndexOf(children, i), OffsetAt(children, i, offset))]
    decreases |a|
  {
    hide OffsetAt, IndexOf, StepOf;
    ParentInTree(n, a);
    var above := a[..|a| - 1];
    var child := n.children[a[0]];
    assert a[1..] != [];
    if |a| == 2 {
      assert a[1..] == [a[1]] && above == [a[0]] && above[1..] == [];
      ElementOffset(n.children, a[0], None);
      assert NodeAt(n, above) == child;
    } else {
      StepsFromParent(child, a[1..], offset);
      assert above[1..] == a[1..][..|a| - 2];
    }
  }

  /** nodeToParts never throws on an element or a text, and its indices are those of the standard. */
  lemma {:induction false} PartsAreSteps(root: Node, a: Address, offset: Option<nat>)
    requires root.Element? && a != [] && InTree(root, a) && !NodeAt(root, a).Ignored?
    ensures PartsOf(root, a, offset) == Some(Steps(root, a, offset))
    decreases |a|
  {
    hide Slots, IndexOf, MergedOffset, FindSlot;
    var above, i := a[..|a| - 1], a[|a| - 1];
    ParentInTree(root, a);
    var children := NodeAt(root, above).children;
    SlotOf(children, i);
    SlotsWithin(children);
    if |a| == 1 {
      assert above == [];
    } else {
      PartsAreSteps(root, above, None);
      StepsFromParent(root, a, offset);
    }
  }

  /** A comment or processing instruction has its parent's steps; nodeToParts throws on one exactly when
      it has no element and no text beside it. */
  lemma IgnoredHasParentsSteps(root: Node, a: Address, offset: Option<nat>)
    requires root.Element? && a != [] && InTree(root, a) && NodeAt(root, a).Ignored?
    ensures var above := a[..|a| - 1];
            && InTree(root, above) && NodeAt(root, above).Element?
            && PartsOf(root, a, offset) ==
               if forall i :: 0 <= i < |NodeAt(root, above).children| ==> NodeAt(root, above).children[i].Ignored?
               then None else if above == [] then Some([]) else Some(Steps(root, above, None))
  {
    hide Slots, Steps, Having;
    var above, i := a[..|a| - 1], a[|a| - 1];
    ParentInTree(root, a);
    var children := NodeAt(root, above).children;
    SlotsWithin(children);
    SlotsIndex(children);
    if Slots(children).Some? {
      var k := FindSlot(Slots(children).value, i);
      if k >= 0 { HavingIndex(children, |children|, k); }
      assert k == -1;
      if above != [] {
        PartsAreSteps(root, above, None);
        assert Steps(root, above, None) + [] == Steps(root, above, None);
      }
    }
  }

  // ---- and back ----

  lemma {:induction false} WalkedConcat(root: Node, w: Walk, x: Path, y: Path)
    requires OnTree(root, w)
    ensures Walked(root, w, x + y) == Walked(root, Walked(root, w, x), y)
    decreases |x|
  {
    hide WalkStep;
    if x == [] {
      assert x + y == y;
    } else {
      WalkStepOnTree(root, w, x[0].index);
      assert (x + y)[1..] == x[1..] + y;
      WalkedConcat(root, WalkStep(root, w, x[0].index), x[1..], y);
    }
  }

  /** The texts that share a chunk with child i. */
  function ChunkOf(children: seq<Node>, i: nat): (texts: seq<nat>)
    requires i < |children|
    ensures AllBelow(texts, |children|)
  {
    HavingAscends(children, |children|, IndexOf(children, i));
    Having(children, |children|, IndexOf(children, i))
  }

  /** Walking along a node's steps ends on the node, or on its chunk. */
  lemma {:induction false} StepsWalk(root: Node, a: Address, offset: Option<nat>)
    requires root.Element? && a != [] && InTree(root, a) && !NodeAt(root, a).Ignored?
    ensures var above, i := a[..|a| - 1], a[|a| - 1];
            && InTree(root, above) && NodeAt(root, above).Element? && i < |NodeAt(root, above).children|
            && var children := NodeAt(root, above).children;
               && children[i] == NodeAt(root, a)
               && Steps(root, a, offset)[|Steps(root, a, offset)| - 1]
                  == StepOf(children[i], IndexOf(children, i), OffsetAt(children, i, offset))
               && Walked(root, On([]), Steps(root, a, offset))
                  == if SlotAt(children, i).Single? then On(a) else OnChunk(above, ChunkOf(children, i))
    decreases |a|
  {
    hide Slots, IndexOf, Having, FindSlot;
    var above, i := a[..|a| - 1], a[|a| - 1];
    ParentInTree(root, a);
    var children := NodeAt(root, above).children;
    SlotOf(children, i);
    var last := StepOf(children[i], IndexOf(children, i), OffsetAt(children, i, offset));
    assert a == above + [i];
    if |a| == 1 {
      assert above == [];
      assert Steps(root, a, offset) == [last];
      WalkOne(root, On([]), last);
    } else {
      StepsFromParent(root, a, offset);
      StepsWalk(root, above, None);
      SlotOf(NodeAt(root, above[..|above| - 1]).children, above[|above| - 1]);
      WalkedConcat(root, On([]), Steps(root, above, None), [last]);
      WalkOne(root, On(above), last);
    }
  }

  lemma WalkOne(root: Node, w: Walk, p: Part)
    requires OnTree(root, w)
    ensures Walked(root, w, [p]) == WalkStep(root, w, p.index)
  {
    hide WalkStep, OnTree;
    WalkStepOnTree(root, w, p.index);
    assert [p][1..] == [];
  }

  /** No two elements share an id. */
  ghost predicate UniqueIds(root: Node) {
    forall a: Address, b: Address :: ShareId(root, a, b) ==> a == b
  }

  predicate ShareId(root: Node, a: Address, b: Address) {
    && InTree(root, a) && InTree(root, b) && NodeAt(root, a).Element? && NodeAt(root, b).Element?
    && NodeAt(root, a).id == NodeAt(root, b).id != ""
  }

  lemma {:induction false} FoundById(n: Node, id: string)
    ensures var r := ElementById(n, id);
            r.Some? ==> InTree(n, r.value) && NodeAt(n, r.value).Element? && NodeAt(n, r.value).id == id
    decreases n
  {
    if n.Element? && n.id != id {
      FoundChildById(n, n.children, id, 0);
    }
  }

  lemma {:induction false} FoundChildById(n: Node, rest: seq<Node>, id: string, at: nat)
    requires n.Element? && at <= |n.children| && rest == n.children[at..]
    ensures var r := ChildById(rest, id, at);
            r.Some? ==> InTree(n, r.value) && NodeAt(n, r.value).Element? && NodeAt(n, r.value).id == id
    decreases n, 0, |rest|
  {
    if rest != [] {
      assert rest[0] == n.children[at] && rest[0] in n.children;
      FoundById(rest[0], id);
      var found := ElementById(rest[0], id);
      if found.Some? {
        assert ([at] + found.value)[1..] == found.value;
      } else {
        FoundChildById(n, rest[1..], id, at + 1);
      }
    }
  }

  lemma {:induction false} FindsById(n: Node, a: Address)
    requires InTree(n, a) && NodeAt(n, a).Element?
    ensures ElementById(n, NodeAt(n, a).id).Some?
    decreases |a|, 1, 0
  {
    if a != [] {
      FindsById(n.children[a[0]], a[1..]);
      FindsChildById(n.children, a[0], NodeAt(n, a).id, 0);
    }
  }

  lemma {:induction false} FindsChildById(children: seq<Node>, i: nat, id: string, at: nat)
    requires i < |children| && ElementById(children[i], id).Some?
    ensures ChildById(children, id, at).Some?
    decreases 0, 0, i
  {
    if i > 0 {
      FindsChildById(children[1..], i - 1, id, at + 1);
    }
  }

  function AsNumber(offset: Option<nat>): Option<Number> {
    if offset.Some? then Some(Num(offset.value)) else None
  }

  /** An element's steps lead back to it: through its id with offset zero when it has one, and
      otherwise through its indices with its own offset. */
  lemma ElementComesBack(root: Node, a: Address, offset: Option<nat>)
    requires root.Element? && UniqueIds(root)
    requires a != [] && InTree(root, a) && NodeAt(root, a).Element?
    ensures PartsOf(root, a, offset).Some? && PartsOf(root, a, offset).value != []
    ensures LocationOf(root, PartsOf(root, a, offset).value)
            == At(a, if NodeAt(root, a).id != "" then Some(Num(0)) else AsNumber(offset))
  {
    hide UniqueIds, Steps, PartsOf;
    PartsAreSteps(root, a, offset);
    StepsNotEmpty(root, a, offset);
    StepsWalk(root, a, offset);
    var above, i := a[..|a| - 1], a[|a| - 1];
    ElementOffset(NodeAt(root, above).children, i, offset);
    var id := NodeAt(root, a).id;
    if id != "" {
      FindsById(root, a);
      FoundById(root, id);
      assert ElementById(root, id).value == a by { SameId(root, a, ElementById(root, id).value); }
    }
  }

  lemma SameId(root: Node, a: Address, b: Address)
    requires UniqueIds(root) && ShareId(root, a, b)
    ensures a == b
  {
  }

  lemma StepsNotEmpty(root: Node, a: Address, offset: Option<nat>)
    requires root.Element? && a != [] && InTree(root, a) && !NodeAt(root, a).Ignored?
    ensures Steps(root, a, offset) != []
  {
  }

  /** The length of the chunk's texts before child i. */
  function TextBefore(children: seq<Node>, i: nat): nat
    requires i < |children|
  {
    LengthBefore(children, ChunkOf(children, i), i)
  }

  /** The location is the character position of a chunk: in one of its texts, not past its end. */
  predicate Locates(children: seq<Node>, parent: Address, texts: seq<nat>, position: nat, r: Location)
    requires AllBelow(texts, |children|)
  {
    && r.At? && r.node != [] && r.node[..|r.node| - 1] == parent && r.offset.Some? && r.offset.value.Num?
    && var j := r.node[|r.node| - 1];
       && j in texts && j < |children| && r.offset.value.n <= LengthOf(children[j])
       && LengthBefore(children, texts, j) + r.offset.value.n == position
  }

  lemma LocatesLater(children: seq<Node>, parent: Address, texts: seq<nat>, position: nat, r: Location)
    requires AllBelow(texts, |children|) && Ascending(texts, |children|) && texts != []
    requires Locates(children, parent, texts[1..], position, r)
    ensures Locates(children, parent, texts, LengthOf(children[texts[0]]) + position, r)
  {
    var j := r.node[|r.node| - 1];
    assert j in texts[1..] && j != texts[0];
  }

  lemma LocatesFirst(children: seq<Node>, parent: Address, texts: seq<nat>, position: nat)
    requires AllBelow(texts, |children|) && texts != [] && position <= LengthOf(children[texts[0]])
    ensures Locates(children, parent, texts, position, At(parent + [texts[0]], Some(Num(position))))
  {
    assert (parent + [texts[0]])[..|parent|] == parent;
  }

  lemma {:induction false} InChunkFinds(children: seq<Node>, parent: Address, texts: seq<nat>, sum: nat, i: nat, o: nat)
    requires AllBelow(texts, |children|) && Ascending(texts, |children|) && i in texts
    requires o <= LengthOf(children[i])
    requires sum == 0 || LengthBefore(children, texts, i) + o > 0
    ensures var t := LengthBefore(children, texts, i) + o;
            var r := InChunk(children, parent, texts, sum, Some(Num(sum + t)));
            && Locates(children, parent, texts, t, r)
            && (o > 0 ==> r.node != [] && r.node[|r.node| - 1] == i)
    decreases |texts|
  {
    hide Locates, LengthOf;
    var t := LengthBefore(children, texts, i) + o;
    var length := LengthOf(children[texts[0]]);
    if texts[0] != i && length < t {
      InChunkFinds(children, parent, texts[1..], sum + length, i, o);
      var r := InChunk(children, parent, texts[1..], sum + length, Some(Num(sum + t)));
      LocatesLater(children, parent, texts, t - length, r);
    } else {
      LocatesFirst(children, parent, texts, t);
    }
  }

  lemma AloneLocates(children: seq<Node>, parent: Address, i: nat, o: nat)
    requires i < |children| && o <= LengthOf(children[i])
    ensures Locates(children, parent, [i], o, At(parent + [i], Some(Num(o))))
  {
    assert (parent + [i])[..|parent|] == parent;
  }

  lemma LocationWithoutId(root: Node, parts: Path)
    requires parts != [] && parts[|parts| - 1].id.None?
    ensures var w, offset := Walked(root, On([]), parts), parts[|parts| - 1].offset;
            var r := LocationOf(root, parts);
            && (w.On? ==> r == At(w.node, offset))
            && (w.OnChunk? ==> r == InChunk(NodeAt(root, w.parent).children, w.parent, w.texts, 0, offset))
  {
    hide Walked, NodeAt, InChunk;
  }

  /** Where a text's steps lead, before the offset is looked up in the chunk. */
  lemma TextWalk(root: Node, a: Address, offset: nat)
    requires root.Element? && a != [] && InTree(root, a) && NodeAt(root, a).Text?
    ensures var above, i := a[..|a| - 1], a[|a| - 1];
            && PartsOf(root, a, Some(offset)).Some? && PartsOf(root, a, Some(offset)).value != []
            && InTree(root, above) && NodeAt(root, above).Element? && i < |NodeAt(root, above).children|
            && NodeAt(root, above).children[i] == NodeAt(root, a)
    ensures var above, i := a[..|a| - 1], a[|a| - 1];
            var children := NodeAt(root, above).children;
            LocationOf(root, PartsOf(root, a, Some(offset)).value)
            == if SlotAt(children, i).Single? then At(a, Some(Num(offset)))
               else InChunk(children, above, ChunkOf(children, i), 0, Some(Num(TextBefore(children, i) + offset)))
  {
    hide Steps, PartsOf, LocationOf, IndexOf, Having, Walked, NodeAt, InTree, LengthBefore, InChunk, ChunkOf;
    PartsAreSteps(root, a, Some(offset));
    StepsNotEmpty(root, a, Some(offset));
    StepsWalk(root, a, Some(offset));
    var above, i := a[..|a| - 1], a[|a| - 1];
    ParentInTree(root, a);
    ChunkFacts(NodeAt(root, above).children, i);
    LocationWithoutId(root, Steps(root, a, Some(offset)));
  }

  /** A text's steps lead back to the same character position in its chunk: to the text itself with
      its own offset, unless the offset is zero and an earlier text of the chunk ends there. */
  lemma TextComesBack(root: Node, a: Address, offset: nat)
    requires root.Element? && a != [] && InTree(root, a) && NodeAt(root, a).Text?
    requires offset <= |NodeAt(root, a).data|
    ensures var above, i := a[..|a| - 1], a[|a| - 1];
            && PartsOf(root, a, Some(offset)).Some? && PartsOf(root, a, Some(offset)).value != []
            && InTree(root, above) && NodeAt(root, above).Element? && i < |NodeAt(root, above).children|
    ensures var above, i := a[..|a| - 1], a[|a| - 1];
            var r, children := LocationOf(root, PartsOf(root, a, Some(offset)).value), NodeAt(root, above).children;
            && Locates(children, above, ChunkOf(children, i), TextBefore(children, i) + offset, r)
            && (offset > 0 ==> r == At(a, Some(Num(offset))))
  {
    hide PartsOf, LocationOf, Locates, NodeAt, InTree, LengthBefore, InChunk, ChunkOf;
    TextWalk(root, a, offset);
    var above, i := a[..|a| - 1], a[|a| - 1];
    assert a == above + [i];
    var children := NodeAt(root, above).children;
    ChunkFacts(children, i);
    if SlotAt(children, i).Single? {
      AloneLocates(children, above, i, offset);
    } else {
      InChunkFinds(children, above, ChunkOf(children, i), 0, i, offset);
      LocatesExactly(children, above, ChunkOf(children, i), i, offset,
        InChunk(children, above, ChunkOf(children, i), 0, Some(Num(TextBefore(children, i) + offset))));
    }
  }

  lemma ChunkFacts(children: seq<Node>, i: nat)
    requires i < |children| && children[i].Text?
    ensures Ascending(ChunkOf(children, i), |children|) && i in ChunkOf(children, i)
    ensures SlotAt(children, i).Single? ==> ChunkOf(children, i) == [i] && TextBefore(children, i) == 0
    ensures SlotAt(children, i).Chunk? ==> SlotAt(children, i).texts == ChunkOf(children, i)
  {
    hide Slots, Elements, IndexOf, Having;
    HavingAscends(children, |children|, IndexOf(children, i));
    SlotOf(children, i);
  }

  lemma LocatesExactly(children: seq<Node>, parent: Address, texts: seq<nat>, i: nat, o: nat, r: Location)
    requires AllBelow(texts, |children|)
    requires Locates(children, parent, texts, LengthBefore(children, texts, i) + o, r)
    ensures r.node != [] && (r.node[|r.node| - 1] == i ==> r == At(parent + [i], Some(Num(o))))
  {
    assert r.node == r.node[..|r.node| - 1] + [r.node[|r.node| - 1]];
  }
}
