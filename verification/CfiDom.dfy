/** EPUB CFIs and a document tree: the indices of child nodes, and the way from a node to its steps
    and back (frontend/public/foliate/epubcfi.js), after "Step Reference to Child Element or
    Character Data (/)" of EPUB Canonical Fragment Identifiers 1.1. */
module CfiDom {
  import opened Wrappers
  import opened CfiSyntax

  /** Ignored nodes are comments and processing instructions. A node is named by its address, the
      positions in the child lists from the document element down to it. */
  datatype Node = Element(id: string, children: seq<Node>) | Text(data: string) | Ignored

  type Address = seq<nat>

  predicate InTree(n: Node, a: Address)
    decreases |a|
  {
    a == [] || (n.Element? && a[0] < |n.children| && InTree(n.children[a[0]], a[1..]))
  }

  function NodeAt(n: Node, a: Address): Node
    requires InTree(n, a)
    decreases |a|
  {
    if a == [] then n else NodeAt(n.children[a[0]], a[1..])
  }

  // ---- indexing child nodes ----

  datatype Slot = Before | First | Hole | Single(i: nat) | Chunk(texts: seq<nat>) | Last | After

  /** One round of the reduction over the child nodes. */
  function Reduce(children: seq<Node>, slots: seq<Slot>, n: nat): seq<Slot>
    requires n < |children|
  {
    var node := children[n];
    if node.Ignored? then slots
    else if slots == [] then [Single(n)]
    else
      var last := slots[|slots| - 1];
      var lastIsText := last.Single? && last.i < |children| && children[last.i].Text?;
      var lastIsElement := last.Single? && last.i < |children| && children[last.i].Element?;
      if node.Text? then
        if last.Chunk? then slots[..|slots| - 1] + [Chunk(last.texts + [n])]
        else if lastIsText then slots[..|slots| - 1] + [Chunk([last.i, n])]
        else slots + [Single(n)]
      else if lastIsElement then slots + [Hole, Single(n)]
      else slots + [Single(n)]
  }

  function Reduced(children: seq<Node>, n: nat): seq<Slot>
    requires n <= |children|
  {
    if n == 0 then [] else Reduce(children, Reduced(children, n - 1), n - 1)
  }

  predicate IsElementSlot(children: seq<Node>, slot: Slot) {
    slot.Single? && slot.i < |children| && children[slot.i].Element?
  }

  /** The slots by index; None when there is no element and no text, where indexChildNodes throws. */
  function Slots(children: seq<Node>): Option<seq<Slot>> {
    var nodes := Reduced(children, |children|);
    if nodes == [] then None
    else
      Some([Before] + (if IsElementSlot(children, nodes[0]) then [First] else []) + nodes
           + (if IsElementSlot(children, nodes[|nodes| - 1]) then [Last] else []) + [After])
  }

  method IndexChildNodes(children: seq<Node>) returns (r: Option<seq<Slot>>)
    ensures r == Slots(children)
  {
    hide Reduce;
    var nodes: seq<Slot> := [];
    for n := 0 to |children|
      invariant nodes == Reduced(children, n)
    {
      nodes := Reduce(children, nodes, n);
    }
    if nodes == [] {
      return None;
    }
    var last := IsElementSlot(children, nodes[|nodes| - 1]);
    if IsElementSlot(children, nodes[0]) {
      nodes := [First] + nodes;
    }
    if last {
      nodes := nodes + [Last];
    }
    nodes := [Before] + nodes;
    nodes := nodes + [After];
    assert Slots(children).value == nodes;
    r := Some(nodes);
  }

  // ---- what the indices mean ----

  function Elements(children: seq<Node>, n: nat): nat
    requires n <= |children|
  {
    if n == 0 then 0 else Elements(children, n - 1) + (if children[n - 1].Element? then 1 else 0)
  }

  /** The index the standard gives a child: elements get 2, 4, ... and the text between two elements
      the odd number between theirs. */
  function IndexOf(children: seq<Node>, i: nat): nat
    requires i < |children|
  {
    2 * Elements(children, i) + (if children[i].Element? then 2 else 1)
  }

  /** The children before n that have index k, in order. */
  function Having(children: seq<Node>, n: nat, k: nat): seq<nat>
    requires n <= |children|
  {
    if n == 0 then []
    else Having(children, n - 1, k)
         + (if !children[n - 1].Ignored? && IndexOf(children, n - 1) == k then [n - 1] else [])
  }

  lemma {:induction false} HavingIndex(children: seq<Node>, n: nat, k: nat)
    requires n <= |children|
    ensures forall i <- Having(children, n, k) ::
              i < n && !children[i].Ignored? && IndexOf(children, i) == k
  {
    if n > 0 {
      HavingIndex(children, n - 1, k);
    }
  }

  function Members(slot: Slot): seq<nat> {
    match slot
    case Single(i) => [i]
    case Chunk(texts) => texts
    case _ => []
  }

  function MembersAt(r: seq<Slot>, k: nat): seq<nat> {
    if k < |r| then Members(r[k]) else []
  }

  function Fronted(children: seq<Node>, nodes: seq<Slot>): seq<Slot> {
    [Before] + (if nodes != [] && IsElementSlot(children, nodes[0]) then [First] else []) + nodes
  }

  /** The slots after n children fill the indices from zero on: up to the last element, and one more
      when text follows it. */
  predicate Filled(children: seq<Node>, nodes: seq<Slot>, n: nat)
    requires n <= |children|
  {
    && (nodes == [] ==> Elements(children, n) == 0)
    && (nodes != [] ==>
        var last := nodes[|nodes| - 1];
        && |Fronted(children, nodes)|
           == 2 * Elements(children, n) + (if IsElementSlot(children, last) then 1 else 2)
        && (last.Chunk? || (last.Single? && last.i < |children| && !children[last.i].Ignored?)))
    && forall k :: 0 <= k < |nodes| ==> (nodes[k].Chunk? ==> |nodes[k].texts| >= 2)
  }

  lemma FilledNext(children: seq<Node>, nodes: seq<Slot>, n: nat)
    requires n < |children| && Filled(children, nodes, n)
    ensures Filled(children, Reduce(children, nodes, n), n + 1)
  {
    var next := Reduce(children, nodes, n);
    assert forall k :: 0 <= k < |next| && k < |nodes| - 1 ==> next[k] == nodes[k];
  }

  lemma MembersNext(children: seq<Node>, nodes: seq<Slot>, n: nat, k: nat)
    requires n < |children| && Filled(children, nodes, n)
    ensures MembersAt(Fronted(children, Reduce(children, nodes, n)), k)
            == MembersAt(Fronted(children, nodes), k)
               + (if !children[n].Ignored? && IndexOf(children, n) == k then [n] else [])
  {
    var next := Reduce(children, nodes, n);
    var r, s := Fronted(children, nodes), Fronted(children, next);
    if nodes != [] && !children[n].Ignored? {
      assert next[0] == nodes[0] || |nodes| == 1;
      assert forall j :: 0 <= j < |r| - 1 ==> s[j] == r[j];
    }
  }

  /** Each child that is not ignored is in the slot of its index and nowhere else, in order. */
  lemma {:induction false} ReducedIndexes(children: seq<Node>, n: nat)
    requires n <= |children|
    ensures Filled(children, Reduced(children, n), n)
    ensures forall k: nat :: MembersAt(Fronted(children, Reduced(children, n)), k) == Having(children, n, k)
  {
    if n > 0 {
      ReducedIndexes(children, n - 1);
      var nodes := Reduced(children, n - 1);
      FilledNext(children, nodes, n - 1);
      forall k: nat
        ensures MembersAt(Fronted(children, Reduced(children, n)), k) == Having(children, n, k)
      {
        MembersNext(children, nodes, n - 1, k);
      }
    }
  }

  /** The slots hold every element at its even index and every text at its odd index, a slot of
      several texts holds all the texts between two elements in order, and the virtual elements have
      the indices zero and n + 2. */
  lemma SlotsIndex(children: seq<Node>)
    ensures Slots(children).None? <==> forall i :: 0 <= i < |children| ==> children[i].Ignored?
    ensures Slots(children).Some? ==>
      var r := Slots(children).value;
      && |r| == 2 * Elements(children, |children|) + 3
      && r[0] == Before && r[|r| - 1] == After
      && (forall k :: 0 <= k < |r| ==> Members(r[k]) == Having(children, |children|, k))
      && (forall k :: 0 <= k < |r| ==> (r[k].Chunk? ==> |r[k].texts| >= 2))
  {
    hide Reduce, Having, IndexOf;
    var n := |children|;
    var nodes := Reduced(children, n);
    ReducedIndexes(children, n);
    ReducedEmpty(children, n);
    if nodes != [] {
      var r, front := Slots(children).value, Fronted(children, nodes);
      assert forall k :: 0 <= k < |front| ==> r[k] == front[k];
      forall k | 0 <= k < |r|
        ensures Members(r[k]) == Having(children, n, k) && (r[k].Chunk? ==> |r[k].texts| >= 2)
      {
        assert Members(r[k]) == MembersAt(front, k);
      }
    }
  }

  lemma {:induction false} ReducedEmpty(children: seq<Node>, n: nat)
    requires n <= |children|
    ensures Reduced(children, n) == [] <==> forall i :: 0 <= i < n ==> children[i].Ignored?
  {
    if n > 0 {
      ReducedEmpty(children, n - 1);
    }
  }

  // ---- from a node to its steps ----

  /** findIndex: the first slot that is or holds child i, or -1. */
  function FindSlot(r: seq<Slot>, i: nat): (k: int)
    ensures -1 <= k < |r|
    ensures k >= 0 ==> i in Members(r[k])
    ensures forall j :: 0 <= j < |r| && (j < k || k == -1) ==> i !in Members(r[j])
  {
    if r == [] then -1
    else if i in Members(r[0]) then 0
    else
      var k := FindSlot(r[1..], i);
      assert forall j :: 1 <= j < |r| ==> r[j] == r[1..][j - 1];
      if k == -1 then -1 else k + 1
  }

  function LengthOf(n: Node): nat {
    if n.Text? then |n.data| else 0
  }

  predicate AllBelow(texts: seq<nat>, n: nat) {
    forall j :: 0 <= j < |texts| ==> texts[j] < n
  }

  /** The length of the chunk's texts before child i. */
  function LengthBefore(children: seq<Node>, texts: seq<nat>, i: nat): nat
    requires AllBelow(texts, |children|)
  {
    if texts == [] || texts[0] == i then 0
    else LengthOf(children[texts[0]]) + LengthBefore(children, texts[1..], i)
  }

  predicate WithinChildren(children: seq<Node>, r: seq<Slot>) {
    forall k :: 0 <= k < |r| ==> AllBelow(Members(r[k]), |children|)
  }

  /** The offset as if the texts of the chunk were one. */
  function MergedOffset(children: seq<Node>, slot: Slot, i: nat, offset: Option<nat>): Option<nat>
    requires AllBelow(Members(slot), |children|)
  {
    if slot.Chunk? then
      Some(LengthBefore(children, slot.texts, i) + (if offset.Some? then offset.value else 0))
    else offset
  }

  function StepOf(n: Node, index: nat, offset: Option<nat>): Part {
    EmptyPart(Num(index)).(
      id := if n.Element? then Some(n.id) else None,
      offset := if offset.Some? then Some(Num(offset.value)) else None)
  }

  lemma SlotsWithin(children: seq<Node>)
    ensures Slots(children).Some? ==> WithinChildren(children, Slots(children).value)
  {
    hide Slots, Having;
    SlotsIndex(children);
    if Slots(children).Some? {
      var r := Slots(children).value;
      forall k | 0 <= k < |r|
        ensures AllBelow(Members(r[k]), |children|)
      {
        HavingIndex(children, |children|, k);
        var texts := Having(children, |children|, k);
        assert forall j :: 0 <= j < |texts| ==> texts[j] in texts;
      }
    }
  }

  /** nodeToParts; None when it throws. An ignored node has its parent's steps. */
  function PartsOf(root: Node, a: Address, offset: Option<nat>): Option<Path>
    requires root.Element? && a != [] && InTree(root, a)
    decreases |a|
  {
    var above, i := a[..|a| - 1], a[|a| - 1];
    ParentInTree(root, a);
    var children := NodeAt(root, above).children;
    SlotsWithin(children);
    var slots := Slots(children);
    if slots.None? then None
    else
      var k := FindSlot(slots.value, i);
      var part := if k == -1 then []
                  else [StepOf(children[i], k, MergedOffset(children, slots.value[k], i, offset))];
      if above == [] then Some(part)
      else
        var rest := PartsOf(root, above, None);
        if rest.None? then None else Some(rest.value + part)
  }

  lemma {:induction false} ParentInTree(n: Node, a: Address)
    requires a != [] && InTree(n, a)
    ensures var above, i := a[..|a| - 1], a[|a| - 1];
            && InTree(n, above) && NodeAt(n, above).Element?
            && i < |NodeAt(n, above).children| && NodeAt(n, above).children[i] == NodeAt(n, a)
    decreases |a|
  {
    if |a| > 1 {
      ParentInTree(n.children[a[0]], a[1..]);
      assert a[..|a| - 1][1..] == a[1..][..|a| - 2];
    }
  }

  /** The loop over the texts of a chunk. */
  method SumBefore(children: seq<Node>, texts: seq<nat>, i: nat) returns (sum: nat)
    requires AllBelow(texts, |children|)
    ensures sum == LengthBefore(children, texts, i)
  {
    sum := 0;
    var j := 0;
    while j < |texts| && texts[j] != i
      invariant j <= |texts|
      invariant sum + LengthBefore(children, texts[j..], i) == LengthBefore(children, texts, i)
    {
      assert texts[j..][1..] == texts[j + 1..];
      sum := sum + LengthOf(children[texts[j]]);
      j := j + 1;
    }
  }

  method NodeToParts(root: Node, a: Address, offset: Option<nat>) returns (r: Option<Path>)
    requires root.Element? && a != [] && InTree(root, a)
    ensures r == PartsOf(root, a, offset)
    decreases |a|
  {
    hide Slots, LengthBefore, FindSlot, StepOf, NodeAt, InTree;
    var above, i := a[..|a| - 1], a[|a| - 1];
    ParentInTree(root, a);
    var children := NodeAt(root, above).children;
    SlotsWithin(children);
    var indexed := IndexChildNodes(children);
    if indexed.None? {
      return None;
    }
    var index := FindSlot(indexed.value, i);
    var part: Path := [];
    if index != -1 {
      var chunk := indexed.value[index];
      var merged := offset;
      if chunk.Chunk? {
        var sum := SumBefore(children, chunk.texts, i);
        merged := Some(sum + (if offset.Some? then offset.value else 0));
      }
      part := [StepOf(children[i], index, merged)];
    }
    if above == [] {
      return Some(part);
    }
    var rest := NodeToParts(root, above, None);
    r := if rest.None? then None else Some(rest.value + part);
  }

  // ---- from steps to a node ----

  /** Where steps lead: a node with an offset, before or after a node, nowhere, no result at all, or
      an exception. */
  datatype Location =
    | At(node: Address, offset: Option<Number>)
    | BeforeNode(node: Address)
    | AfterNode(node: Address)
    | Nowhere(offset: Option<Number>)
    | NoResult
    | Throws

  /** Where the walk along the steps stands. */
  datatype Walk = On(node: Address) | OnChunk(parent: Address, texts: seq<nat>) | Lost | Arrived(at: Location)

  function WalkStep(root: Node, w: Walk, index: Number): Walk
    requires w.On? ==> InTree(root, w.node)
  {
    match w
    case Arrived(_) => w
    case Lost => Lost
    case OnChunk(_, _) => Arrived(Throws)
    case On(a) =>
      var n := NodeAt(root, a);
      var slots := if n.Element? then Slots(n.children) else None;
      if slots.None? then Arrived(Throws)
      else if index.NaN? || index.n >= |slots.value| then Lost
      else match slots.value[index.n]
        case First => Arrived(At(a + [0], None))
        case Last => Arrived(At(a + [|n.children| - 1], None))
        case Before => Arrived(BeforeNode(a))
        case After => Arrived(AfterNode(a))
        case Hole => Lost
        case Single(i) => On(a + [i])
        case Chunk(texts) => OnChunk(a, texts)
  }

  predicate OnTree(root: Node, w: Walk) {
    && (w.On? ==> InTree(root, w.node))
    && (w.OnChunk? ==>
        && InTree(root, w.parent) && NodeAt(root, w.parent).Element?
        && AllBelow(w.texts, |NodeAt(root, w.parent).children|))
  }

  lemma {:induction false} ChildInTree(n: Node, a: Address, i: nat)
    requires InTree(n, a) && NodeAt(n, a).Element? && i < |NodeAt(n, a).children|
    ensures InTree(n, a + [i]) && NodeAt(n, a + [i]) == NodeAt(n, a).children[i]
    decreases |a|
  {
    if a != [] {
      ChildInTree(n.children[a[0]], a[1..], i);
      assert (a + [i])[1..] == a[1..] + [i];
    } else {
      assert (a + [i])[1..] == [];
    }
  }

  lemma WalkStepOnTree(root: Node, w: Walk, index: Number)
    requires OnTree(root, w)
    ensures OnTree(root, WalkStep(root, w, index))
  {
    hide Slots;
    if w.On? && NodeAt(root, w.node).Element? {
      var children := NodeAt(root, w.node).children;
      SlotsWithin(children);
      var next := WalkStep(root, w, index);
      if next.On? || next.OnChunk? {
        var slot := Slots(children).value[index.n];
        assert AllBelow(Members(slot), |children|);
        if slot.Single? {
          assert Members(slot)[0] == slot.i;
          ChildInTree(root, w.node, slot.i);
        } else {
          assert slot.texts == Members(slot);
        }
      }
    }
  }

  function Walked(root: Node, w: Walk, parts: Path): (r: Walk)
    requires OnTree(root, w)
    ensures OnTree(root, r)
    decreases |parts|
  {
    if parts == [] then w
    else
      WalkStepOnTree(root, w, parts[0].index);
      Walked(root, WalkStep(root, w, parts[0].index), parts[1..])
  }

  /** JavaScript's sum >= offset; false when the offset is missing or not a number. */
  predicate Reaches(sum: nat, offset: Option<Number>) {
    offset.Some? && offset.value.Num? && sum >= offset.value.n
  }

  /** The text of a chunk that holds the offset, and the offset in it. */
  function InChunk(children: seq<Node>, parent: Address, texts: seq<nat>, sum: nat, offset: Option<Number>): Location
    requires AllBelow(texts, |children|) && (sum == 0 || !Reaches(sum, offset))
    decreases |texts|
  {
    if texts == [] then NoResult
    else
      var length := LengthOf(children[texts[0]]);
      if Reaches(sum + length, offset) then
        At(parent + [texts[0]], Some(Num(offset.value.n - sum)))
      else InChunk(children, parent, texts[1..], sum + length, offset)
  }

  /** getElementById: the first element in document order with this id. */
  function ElementById(n: Node, id: string): Option<Address> {
    if !n.Element? then None
    else if n.id == id then Some([])
    else ChildById(n.children, id, 0)
  }

  function ChildById(children: seq<Node>, id: string, at: nat): Option<Address> {
    if children == [] then None
    else
      var found := ElementById(children[0], id);
      if found.Some? then Some([at] + found.value) else ChildById(children[1..], id, at + 1)
  }

  function LocationOf(root: Node, parts: Path): Location
    requires parts != []
  {
    var last := parts[|parts| - 1];
    var byId := if Truthy(last.id) then ElementById(root, last.id.value) else None;
    if byId.Some? then At(byId.value, Some(Num(0)))
    else match Walked(root, On([]), parts)
      case Arrived(at) => at
      case Lost => Nowhere(last.offset)
      case On(a) => At(a, last.offset)
      case OnChunk(parent, texts) => InChunk(NodeAt(root, parent).children, parent, texts, 0, last.offset)
  }

  lemma {:induction false} WalkEnded(root: Node, at: Location, parts: Path)
    ensures Walked(root, Arrived(at), parts) == Arrived(at)
    decreases |parts|
  {
    if parts != [] {
      WalkEnded(root, at, parts[1..]);
    }
  }

  /** The loop over the texts of a chunk that looks for the offset. */
  method FindInChunk(children: seq<Node>, parent: Address, texts: seq<nat>, offset: Option<Number>)
    returns (r: Location)
    requires AllBelow(texts, |children|)
    ensures r == InChunk(children, parent, texts, 0, offset)
  {
    var sum := 0;
    for i := 0 to |texts|
      invariant sum == 0 || !Reaches(sum, offset)
      invariant InChunk(children, parent, texts[i..], sum, offset) == InChunk(children, parent, texts, 0, offset)
    {
      var length := LengthOf(children[texts[i]]);
      assert texts[i..][1..] == texts[i + 1..];
      if Reaches(sum + length, offset) {
        return At(parent + [texts[i]], Some(Num(offset.value.n - sum)));
      }
      sum := sum + length;
    }
    r := NoResult;
  }

  method PartsToNode(root: Node, parts: Path) returns (r: Location)
    requires parts != []
    ensures r == LocationOf(root, parts)
  {
    hide WalkStep, ElementById, InChunk;
    var last := parts[|parts| - 1];
    if Truthy(last.id) {
      var el := ElementById(root, last.id.value);
      if el.Some? {
        return At(el.value, Some(Num(0)));
      }
    }
    var node := On([]);
    for i := 0 to |parts|
      invariant OnTree(root, node)
      invariant Walked(root, node, parts[i..]) == Walked(root, On([]), parts)
    {
      assert parts[i..][1..] == parts[i + 1..];
      WalkStepOnTree(root, node, parts[i].index);
      node := WalkStep(root, node, parts[i].index);
      if node.Arrived? {
        WalkEnded(root, node.at, parts[i + 1..]);
        return node.at;
      }
    }
    match node {
      case On(a) => r := At(a, last.offset);
      case Lost => r := Nowhere(last.offset);
      case OnChunk(parent, texts) => r := FindInChunk(NodeAt(root, parent).children, parent, texts, last.offset);
      case Arrived(at) => r := at;
    }
  }
}
